/**
 The trace comparison of `scripts/trace_diff.py`.

 Steps come already parsed. How the script normalises instruction bytes, cuts out the mnemonic and
 recognises a system call in the disassembly are parameters.
 */
module TraceDiff {
  import opened Words

  datatype Step = Step(rip: int, bytes: string, disasm: string)

  datatype Rules = Rules(bytes: string -> string, mnemonic: string -> string, isSyscall: string -> bool)

  datatype Key = SyscallKey(rva: U64) | StepKey(rva: U64, bytes: string, mnemonic: string)

  /** How one trace is read: its rules, its image base and whether only system calls count. */
  datatype View = View(rules: Rules, base: int, syscallOnly: bool)

  function Rva(rip: int, base: int): U64 {
    (rip - base) % TWO64
  }

  function CompareKey(s: Step, v: View): Option<Key> {
    var syscall := v.rules.isSyscall(s.disasm);
    if v.syscallOnly && !syscall then None
    else if syscall then Some(SyscallKey(Rva(s.rip, v.base)))
    else Some(StepKey(Rva(s.rip, v.base), v.rules.bytes(s.bytes), v.rules.mnemonic(s.disasm)))
  }

  type Trace = seq<Option<Key>>

  function KeysOf(steps: seq<Step>, v: View): (t: Trace)
    ensures |t| == |steps| && forall k :: 0 <= k < |t| ==> t[k] == CompareKey(steps[k], v)
  {
    seq(|steps|, k requires 0 <= k < |steps| => CompareKey(steps[k], v))
  }

  /** A step does not count exactly when only system calls do and it is none. */
  lemma WhatCounts(s: Step, v: View)
    ensures CompareKey(s, v).None? <==> v.syscallOnly && !v.rules.isSyscall(s.disasm)
  {
  }

  /**
   Two steps that count are alike when they are as far from their bases, in 64 bits, and are both system
   calls or neither, with the same bytes and the same mnemonic.
   */
  lemma AlikeMeans(s: Step, v: View, s': Step, v': View)
    requires CompareKey(s, v).Some? && CompareKey(s', v').Some?
    ensures CompareKey(s, v) == CompareKey(s', v') <==>
            && ((s.rip - v.base) - (s'.rip - v'.base)) % TWO64 == 0
            && (if v.rules.isSyscall(s.disasm) then v'.rules.isSyscall(s'.disasm)
                else
                  && !v'.rules.isSyscall(s'.disasm) && v.rules.bytes(s.bytes) == v'.rules.bytes(s'.bytes)
                  && v.rules.mnemonic(s.disasm) == v'.rules.mnemonic(s'.disasm))
  {
    SameRest(s.rip - v.base, s'.rip - v'.base);
  }

  lemma SameRest(x: int, y: int)
    ensures x % TWO64 == y % TWO64 <==> (x - y) % TWO64 == 0
  {
    assert x - y == TWO64 * (x / TWO64 - y / TWO64) + (x % TWO64 - y % TWO64);
  }

  // ----- the comparison loop

  /** All matched; a first difference at positions i and j, as the n-th compared pair; or left-over steps. */
  datatype Verdict = Match(n: nat) | Differ(i: nat, j: nat, n: nat) | Extra(i: nat, j: nat, n: nat)

  function ExitCode(v: Verdict): nat {
    if v.Match? then 0 else 1
  }

  /** The loop from positions i and j, with n pairs compared so far. */
  function Walk(a: Trace, b: Trace, i: nat, j: nat, n: nat): Verdict
    requires i <= |a| && j <= |b|
    decreases |a| - i + |b| - j
  {
    if i < |a| && j < |b| then
      if a[i].None? then Walk(a, b, i + 1, j, n)
      else if b[j].None? then Walk(a, b, i, j + 1, n)
      else if a[i] != b[j] then Differ(i, j, n + 1)
      else Walk(a, b, i + 1, j + 1, n + 1)
    else if i < |a| || j < |b| then Extra(i, j, n)
    else Match(n)
  }

  method Compare(ref: seq<Step>, mine: seq<Step>, vr: View, vm: View) returns (r: Verdict)
    ensures r == Walk(KeysOf(ref, vr), KeysOf(mine, vm), 0, 0, 0)
  {
    var i, j, compared := 0, 0, 0;
    ghost var a, b := KeysOf(ref, vr), KeysOf(mine, vm);
    while i < |ref| && j < |mine|
      invariant 0 <= i <= |ref| && 0 <= j <= |mine| && 0 <= compared
      invariant Walk(a, b, i, j, compared) == Walk(a, b, 0, 0, 0)
      decreases |ref| - i + |mine| - j
    {
      var kr := CompareKey(ref[i], vr);
      var km := CompareKey(mine[j], vm);
      if kr.None? {
        i := i + 1;
        continue;
      }
      if km.None? {
        j := j + 1;
        continue;
      }
      compared := compared + 1;
      if kr != km {
        return Differ(i, j, compared);
      }
      i := i + 1;
      j := j + 1;
    }
    if i < |ref| || j < |mine| {
      return Extra(i, j, compared);
    }
    return Match(compared);
  }

  // ----- reference: compare the filtered key sequences

  function Filter(t: Trace): seq<Key> {
    if t == [] then [] else (if t[0].Some? then [t[0].value] else []) + Filter(t[1..])
  }

  /** The first n keys agree and the next ones differ. */
  ghost predicate FirstDifference(x: seq<Key>, y: seq<Key>, n: nat) {
    n < |x| && n < |y| && x[..n] == y[..n] && x[n] != y[n]
  }

  /** The trace ends in a step that counts, or is empty. */
  predicate EndsKeyed(t: Trace) {
    t == [] || t[|t| - 1].Some?
  }

  lemma {:induction false} FilterAppend(s: Trace, t: Trace)
    ensures Filter(s + t) == Filter(s) + Filter(t)
    decreases |s|
  {
    if s == [] {
      assert s + t == t;
    } else {
      FilterAppend(s[1..], t);
      var all := s + t;
      var head := if s[0].Some? then [s[0].value] else [];
      assert all[0] == s[0] && all[1..] == s[1..] + t;
      assert Filter(all) == head + Filter(all[1..]);
      assert head + (Filter(s[1..]) + Filter(t)) == (head + Filter(s[1..])) + Filter(t);
    }
  }

  lemma FilterSnoc(t: Trace, i: nat)
    requires i < |t|
    ensures Filter(t[..i + 1]) == Filter(t[..i]) + (if t[i].Some? then [t[i].value] else [])
  {
    assert t[..i + 1] == t[..i] + [t[i]];
    FilterAppend(t[..i], [t[i]]);
  }

  lemma FilterCut(t: Trace, i: nat)
    requires i <= |t|
    ensures Filter(t) == Filter(t[..i]) + Filter(t[i..])
  {
    assert t == t[..i] + t[i..];
    FilterAppend(t[..i], t[i..]);
  }

  /** What the verdict reached from i and j says about the filtered sequences. */
  ghost predicate Says(a: Trace, b: Trace, v: Verdict) {
    var x, y := Filter(a), Filter(b);
    match v
    case Match(n) => x == y && n == |x| && EndsKeyed(a) && EndsKeyed(b)
    case Differ(i, j, n) =>
      && n > 0 && FirstDifference(x, y, n - 1)
      && i < |a| && j < |b| && a[i].Some? && b[j].Some?
      && |Filter(a[..i])| == n - 1 == |Filter(b[..j])|
    case Extra(i, j, n) =>
      && n <= |x| && n <= |y| && x[..n] == y[..n] && (n == |x| || n == |y|)
      && (x == y ==> !(EndsKeyed(a) && EndsKeyed(b)))
  }

  /** The keys before i and j agree, and the last pair of positions reached was a matching pair. */
  ghost predicate Synced(a: Trace, b: Trace, i: nat, j: nat, n: nat) {
    && i <= |a| && j <= |b|
    && Filter(a[..i]) == Filter(b[..j]) && |Filter(a[..i])| == n
    && (i < |a| || j < |b| || (EndsKeyed(a) && EndsKeyed(b)))
  }

  lemma {:induction false} EmptyFilterEnds(t: Trace)
    requires t != [] && Filter(t) == []
    ensures t[|t| - 1].None?
    decreases |t|
  {
    if |t| > 1 {
      EmptyFilterEnds(t[1..]);
    }
  }

  lemma FilterAt(t: Trace, i: nat)
    requires i < |t| && t[i].Some?
    ensures var n := |Filter(t[..i])|; n < |Filter(t)| && Filter(t)[..n] == Filter(t[..i]) && Filter(t)[n] == t[i].value
  {
    FilterCut(t, i);
    assert t[i..][0] == t[i];
  }

  lemma ExtraSays(a: Trace, b: Trace, i: nat, j: nat, n: nat)
    requires Synced(a, b, i, j, n) && !(i < |a| && j < |b|) && (i < |a| || j < |b|)
    ensures Says(a, b, Extra(i, j, n))
  {
    FilterCut(a, i);
    FilterCut(b, j);
    if i == |a| {
      assert a[..i] == a;
      if Filter(a) == Filter(b) {
        assert Filter(b[j..]) == [] && b[j..][|b| - j - 1] == b[|b| - 1];
        EmptyFilterEnds(b[j..]);
      }
    } else {
      assert b[..j] == b;
      if Filter(a) == Filter(b) {
        assert Filter(a[i..]) == [] && a[i..][|a| - i - 1] == a[|a| - 1];
        EmptyFilterEnds(a[i..]);
      }
    }
  }

  lemma {:induction false} WalkSays(a: Trace, b: Trace, i: nat, j: nat, n: nat)
    requires Synced(a, b, i, j, n)
    ensures Says(a, b, Walk(a, b, i, j, n))
    decreases |a| - i + |b| - j
  {
    hide Filter, Says;
    if i < |a| && j < |b| {
      FilterSnoc(a, i);
      FilterSnoc(b, j);
      if a[i].None? {
        assert Filter(a[..i]) + [] == Filter(a[..i]);
        WalkSays(a, b, i + 1, j, n);
      } else if b[j].None? {
        assert Filter(b[..j]) + [] == Filter(b[..j]);
        WalkSays(a, b, i, j + 1, n);
      } else if a[i] != b[j] {
        DifferSays(a, b, i, j, n);
      } else {
        WalkSays(a, b, i + 1, j + 1, n + 1);
      }
    } else if i < |a| || j < |b| {
      ExtraSays(a, b, i, j, n);
    } else {
      MatchSays(a, b, i, j, n);
    }
  }

  lemma DifferSays(a: Trace, b: Trace, i: nat, j: nat, n: nat)
    requires Synced(a, b, i, j, n) && i < |a| && j < |b| && a[i].Some? && b[j].Some? && a[i] != b[j]
    ensures Says(a, b, Differ(i, j, n + 1))
  {
    FilterAt(a, i);
    FilterAt(b, j);
  }

  lemma MatchSays(a: Trace, b: Trace, i: nat, j: nat, n: nat)
    requires Synced(a, b, i, j, n) && i == |a| && j == |b|
    ensures Says(a, b, Match(n))
  {
    assert a[..i] == a && b[..j] == b;
  }

  /**
   The loop refines comparing the filtered key sequences. It exits with 0 exactly when they are equal
   and no uncounted step follows the last counted one of either trace, and a reported difference is
   the first one.
   */
  lemma DiffMeaning(a: Trace, b: Trace)
    ensures var v := Walk(a, b, 0, 0, 0);
            && (ExitCode(v) == 0 <==> Filter(a) == Filter(b) && EndsKeyed(a) && EndsKeyed(b))
            && (v.Differ? ==> v.n > 0 && FirstDifference(Filter(a), Filter(b), v.n - 1))
            && (v.Differ? <==> exists n: nat :: FirstDifference(Filter(a), Filter(b), n))
            && (v.Differ? ==>
                  v.i < |a| && v.j < |b| && a[v.i] == Some(Filter(a)[v.n - 1]) && b[v.j] == Some(Filter(b)[v.n - 1]))
  {
    hide Walk, Filter;
    assert a[..0] == [] && b[..0] == [];
    NoKeys();
    WalkSays(a, b, 0, 0, 0);
    var v := Walk(a, b, 0, 0, 0);
    if v.Differ? {
      FilterAt(a, v.i);
      FilterAt(b, v.j);
    } else {
      NoDifference(a, b, v);
    }
  }

  lemma NoKeys()
    ensures Filter([]) == []
  {
  }

  lemma NoDifference(a: Trace, b: Trace, v: Verdict)
    requires Says(a, b, v) && !v.Differ?
    ensures forall n: nat :: !FirstDifference(Filter(a), Filter(b), n)
  {
  }

  /** In full mode every step counts, so the exit code is 0 exactly for equal key sequences. */
  lemma FullModeIsEquality(ref: seq<Step>, mine: seq<Step>, vr: View, vm: View)
    requires !vr.syscallOnly && !vm.syscallOnly
    ensures ExitCode(Walk(KeysOf(ref, vr), KeysOf(mine, vm), 0, 0, 0)) == 0
            <==> KeysOf(ref, vr) == KeysOf(mine, vm)
  {
    var a, b := KeysOf(ref, vr), KeysOf(mine, vm);
    DiffMeaning(a, b);
    AllKept(a);
    AllKept(b);
    hide Walk, Filter;
    if Filter(a) == Filter(b) {
      assert a == b by {
        forall k | 0 <= k < |a| ensures a[k] == b[k] {
          assert a[k] == Some(Filter(a)[k]) && b[k] == Some(Filter(b)[k]);
        }
      }
    }
  }

  lemma {:induction false} AllKept(t: Trace)
    requires forall k :: 0 <= k < |t| ==> t[k].Some?
    ensures |Filter(t)| == |t| && forall k :: 0 <= k < |t| ==> t[k] == Some(Filter(t)[k])
    decreases |t|
  {
    if t != [] {
      AllKept(t[1..]);
      assert forall k :: 1 <= k < |t| ==> t[k] == t[1..][k - 1];
    }
  }

  /** A trailing uncounted step makes equal system-call sequences compare unequal. */
  lemma TrailingStepFails(k: Key)
    ensures Filter([Some(k), None]) == Filter([Some(k)])
    ensures ExitCode(Walk([Some(k), None], [Some(k)], 0, 0, 0)) == 1
  {
    var a: Trace, b: Trace := [Some(k), None], [Some(k)];
    assert a[1..] == [None] && a[1..][1..] == [] && b[1..] == [];
    DiffMeaning(a, b);
  }

  // ----- where the comparison starts, and moving a trace in memory

  /** Offset of the first step at the wanted RVA; 0 if there is none or none is wanted. */
  method FindStart(steps: seq<Step>, base: int, target: Option<int>) returns (off: nat)
    ensures off == StartOf(steps, base, target)
    ensures target.Some? ==>
              forall k :: 0 <= k < |steps| && Rva(steps[k].rip, base) == target.value % TWO64 ==>
                off <= k && Rva(steps[off].rip, base) == target.value % TWO64
  {
    if target.None? {
      return 0;
    }
    var want := target.value % TWO64;
    for i := 0 to |steps|
      invariant StartFrom(steps, base, want, i) == StartFrom(steps, base, want, 0)
    {
      if Rva(steps[i].rip, base) == want {
        return i;
      }
    }
    return 0;
  }

  function StartFrom(steps: seq<Step>, base: int, want: U64, i: nat): (r: nat)
    requires i <= |steps|
    ensures r == 0 || (i <= r < |steps| && Rva(steps[r].rip, base) == want)
    ensures forall k :: i <= k < |steps| && Rva(steps[k].rip, base) == want ==>
              r <= k && Rva(steps[r].rip, base) == want
    decreases |steps| - i
  {
    if i == |steps| then 0 else if Rva(steps[i].rip, base) == want then i else StartFrom(steps, base, want, i + 1)
  }

  function StartOf(steps: seq<Step>, base: int, target: Option<int>): (r: nat)
    ensures r <= |steps|
  {
    if target.None? then 0 else StartFrom(steps, base, target.value % TWO64, 0)
  }

  /** The verdict of the whole script: both traces cut at the entry, then compared. */
  function Diff(ref: seq<Step>, mine: seq<Step>, vr: View, vm: View, entry: Option<int>): Verdict {
    Walk(KeysOf(ref[StartOf(ref, vr.base, entry)..], vr), KeysOf(mine[StartOf(mine, vm.base, entry)..], vm), 0, 0, 0)
  }

  method RunDiff(ref: seq<Step>, mine: seq<Step>, vr: View, vm: View, entry: Option<int>) returns (r: Verdict)
    ensures r == Diff(ref, mine, vr, vm, entry)
  {
    var sr := FindStart(ref, vr.base, entry);
    var sm := FindStart(mine, vm.base, entry);
    r := Compare(ref[sr..], mine[sm..], vr, vm);
  }

  /** Comparing starts at k: at the first step at the wanted address, or at the first step of all. */
  ghost predicate StartsAt(steps: seq<Step>, base: int, entry: Option<int>, k: nat) {
    if entry.Some? && exists i :: 0 <= i < |steps| && IsAt(steps[i], base, entry.value) then
      && k < |steps| && IsAt(steps[k], base, entry.value)
      && forall i :: 0 <= i < k ==> !IsAt(steps[i], base, entry.value)
    else k == 0
  }

  predicate IsAt(s: Step, base: int, rva: int) {
    (s.rip - base - rva) % TWO64 == 0
  }

  lemma StartIsFirst(steps: seq<Step>, base: int, entry: Option<int>, k: nat)
    requires StartsAt(steps, base, entry, k)
    ensures StartOf(steps, base, entry) == k
  {
    if entry.Some? {
      forall i | 0 <= i < |steps|
        ensures IsAt(steps[i], base, entry.value) <==> Rva(steps[i].rip, base) == entry.value % TWO64
      {
        SameRest(steps[i].rip - base, entry.value);
      }
      StartFromIs(steps, base, entry.value % TWO64, 0);
    }
  }

  lemma {:induction false} StartFromIs(steps: seq<Step>, base: int, want: U64, i: nat)
    requires i <= |steps|
    ensures var r := StartFrom(steps, base, want, i);
            if r == 0 && !(i == 0 < |steps| && Rva(steps[0].rip, base) == want) then
              forall j :: i <= j < |steps| ==> Rva(steps[j].rip, base) != want
            else
              && i <= r < |steps| && Rva(steps[r].rip, base) == want
              && forall j :: i <= j < r ==> Rva(steps[j].rip, base) != want
    decreases |steps| - i
  {
    if i < |steps| && Rva(steps[i].rip, base) != want {
      StartFromIs(steps, base, want, i + 1);
    }
  }

  /** The exit code of the script, and the pair that it reports, for traces cut where comparing starts. */
  lemma ScriptMeaning(ref: seq<Step>, mine: seq<Step>, vr: View, vm: View, entry: Option<int>, i: nat, j: nat)
    requires StartsAt(ref, vr.base, entry, i) && StartsAt(mine, vm.base, entry, j)
    ensures var a, b, v := KeysOf(ref[i..], vr), KeysOf(mine[j..], vm), Diff(ref, mine, vr, vm, entry);
            && (ExitCode(v) == 0 <==> Filter(a) == Filter(b) && EndsKeyed(a) && EndsKeyed(b))
            && (v.Differ? <==> exists n: nat :: FirstDifference(Filter(a), Filter(b), n))
            && (v.Differ? ==> v.n > 0 && FirstDifference(Filter(a), Filter(b), v.n - 1))
  {
    hide Walk, Filter, KeysOf, StartOf, StartsAt;
    StartIsFirst(ref, vr.base, entry, i);
    StartIsFirst(mine, vm.base, entry, j);
    DiffMeaning(KeysOf(ref[i..], vr), KeysOf(mine[j..], vm));
  }

  /** All addresses of a trace moved by one constant, in 64-bit arithmetic. */
  function Moved(steps: seq<Step>, delta: int): (r: seq<Step>)
    ensures |r| == |steps| && forall k :: 0 <= k < |r| ==> r[k] == steps[k].(rip := (steps[k].rip + delta) % TWO64)
  {
    seq(|steps|, k requires 0 <= k < |steps| => steps[k].(rip := (steps[k].rip + delta) % TWO64))
  }

  function MovedView(v: View, delta: int): View {
    v.(base := (v.base + delta) % TWO64)
  }

  lemma RvaMoves(rip: int, base: int, delta: int)
    ensures Rva((rip + delta) % TWO64, (base + delta) % TWO64) == Rva(rip, base)
  {
  }

  lemma {:induction false} StartMoves(steps: seq<Step>, base: int, want: U64, delta: int, i: nat)
    requires i <= |steps|
    ensures StartFrom(Moved(steps, delta), (base + delta) % TWO64, want, i) == StartFrom(steps, base, want, i)
    decreases |steps| - i
  {
    if i < |steps| {
      RvaMoves(steps[i].rip, base, delta);
      StartMoves(steps, base, want, delta, i + 1);
    }
  }

  lemma KeysMove(steps: seq<Step>, v: View, delta: int, from: nat)
    requires from <= |steps|
    ensures KeysOf(Moved(steps, delta)[from..], MovedView(v, delta)) == KeysOf(steps[from..], v)
  {
    var a, b := KeysOf(Moved(steps, delta)[from..], MovedView(v, delta)), KeysOf(steps[from..], v);
    forall k | 0 <= k < |a| ensures a[k] == b[k] {
      RvaMoves(steps[from + k].rip, v.base, delta);
    }
  }

  /** Moving either trace together with its base changes no verdict. */
  lemma MovingChangesNothing(ref: seq<Step>, mine: seq<Step>, vr: View, vm: View, entry: Option<int>, byRef: int,
                             byMine: int)
    ensures Diff(Moved(ref, byRef), Moved(mine, byMine), MovedView(vr, byRef), MovedView(vm, byMine), entry)
            == Diff(ref, mine, vr, vm, entry)
  {
    hide Walk, KeysOf, Moved, MovedView, StartOf;
    CutMoves(ref, vr, entry, byRef);
    CutMoves(mine, vm, entry, byMine);
  }

  lemma CutMoves(steps: seq<Step>, v: View, entry: Option<int>, delta: int)
    ensures var moved, view := Moved(steps, delta), MovedView(v, delta);
            KeysOf(moved[StartOf(moved, view.base, entry)..], view) == KeysOf(steps[StartOf(steps, v.base, entry)..], v)
  {
    hide KeysOf, StartFrom;
    if entry.Some? {
      StartMoves(steps, v.base, entry.value % TWO64, delta, 0);
    }
    KeysMove(steps, v, delta, StartOf(steps, v.base, entry));
  }
}
