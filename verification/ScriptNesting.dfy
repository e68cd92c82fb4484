/**
 How far the script interpreter's nesting rule can be relaxed.

 `Script.Sound` is enough for the machine to compute the structured meaning. For scripts without loops
 it is also necessary. With loops it is not: whether a stray jump shows depends on whether a command
 before it can raise `result` and one after it can tell.
 */
module ScriptNesting {
  import opened Words
  import opened Script

  // ----- shapes

  predicate IsScript<E>(p: seq<Stmt<E>>)
    decreases p
  {
    p == [] || (IsScriptStmt(p[0]) && IsScript(p[1..]))
  }

  predicate IsScriptStmt<E>(s: Stmt<E>)
    decreases s
  {
    match s
    case Plain(line) => line.Skipped? || line.Command?
    case Cond(_, _, _, body) => IsScript(body)
    case Repeat(body) => IsScript(body)
  }

  /** The same lines but for what commands do and conditions compare. */
  predicate SameShape<A, B>(p: seq<Stmt<A>>, q: seq<Stmt<B>>)
    decreases p
  {
    |p| == |q| && (p == [] || (SameShapeStmt(p[0], q[0]) && SameShape(p[1..], q[1..])))
  }

  predicate SameShapeStmt<A, B>(s: Stmt<A>, t: Stmt<B>)
    decreases s
  {
    match s
    case Plain(line) => t.Plain? && line.Command? == t.line.Command? && line.Skipped? == t.line.Skipped?
    case Cond(_, _, _, body) => t.Cond? && SameShape(body, t.body)
    case Repeat(body) => t.Repeat? && SameShape(body, t.body)
  }

  predicate SameKind<A, B>(a: Line<A>, b: Line<B>) {
    && a.Skipped? == b.Skipped? && a.Command? == b.Command? && a.If? == b.If?
    && a.Endif? == b.Endif? && a.Loop? == b.Loop?
  }

  ghost predicate SameKinds<A, B>(a: seq<Line<A>>, b: seq<Line<B>>) {
    |a| == |b| && forall k :: 0 <= k < |a| ==> SameKind(a[k], b[k])
  }

  lemma SameKindsAppend<A, B>(a: seq<Line<A>>, b: seq<Line<A>>, x: seq<Line<B>>, y: seq<Line<B>>)
    requires SameKinds(a, x) && SameKinds(b, y)
    ensures SameKinds(a + b, x + y)
  {
  }

  lemma {:induction false} ShapeLines<A, B>(p: seq<Stmt<A>>, q: seq<Stmt<B>>)
    requires IsScript(p) && IsScript(q) && SameShape(p, q)
    ensures SameKinds(Lines(p), Lines(q))
    decreases p
  {
    if p != [] {
      if !p[0].Plain? {
        ShapeLines(p[0].body, q[0].body);
      }
      assert SameKinds(StmtLines(p[0]), StmtLines(q[0]));
      ShapeLines(p[1..], q[1..]);
      SameKindsAppend(StmtLines(p[0]), Lines(p[1..]), StmtLines(q[0]), Lines(q[1..]));
    }
  }

  /** Meaning and machine both end, in different environments. */
  ghost predicate Breaks(p: seq<Stmt<nat>>, env: Env<nat>, fuel: nat, n: nat) {
    var m := Steps(Lines(p), Running(0, env, false, 0), n);
    Exec(p, env, fuel).Some? && m.Halted? && Exec(p, env, fuel).value.env != m.env
  }

  /** The machine halts with `last` iff the meaning is defined and ends in it. */
  ghost predicate Computes(p: seq<Stmt<nat>>, env: Env<nat>, last: Env<nat>) {
    (exists fuel: nat :: Exec(p, env, fuel).Some? && Exec(p, env, fuel).value.env == last) <==>
    (exists n: nat :: var m := Steps(Lines(p), Running(0, env, false, 0), n); m.Halted? && m.env == last)
  }

  // ----- a command after a nested `endif`

  predicate CommandAfterEndif<E>(part: seq<Line<E>>)
    decreases |part|
  {
    part != [] && if part[0].Endif? then HasCommand(part[1..]) else CommandAfterEndif(part[1..])
  }

  predicate HasCommand<E>(part: seq<Line<E>>) {
    exists k :: 0 <= k < |part| && part[k].Command?
  }

  /** Some `if` that is in no other `if` has a command after a nested `endif`. */
  predicate Leaks<E>(p: seq<Stmt<E>>)
    decreases p
  {
    p != [] && (LeaksStmt(p[0]) || Leaks(p[1..]))
  }

  predicate LeaksStmt<E>(s: Stmt<E>)
    decreases s
  {
    match s
    case Plain(_) => false
    case Cond(_, _, _, body) => CommandAfterEndif(Lines(body))
    case Repeat(body) => Leaks(body)
  }

  function Counted(emu: nat, result: U64): Env<nat> {
    Env(emu, result)
  }

  function Tick(e: Env<nat>): Effect<nat> {
    Continue(e.(emu := e.emu + 1))
  }

  function Zero(e: Env<nat>): U64 {
    0
  }

  /** Every command counts; outer conditions fail and nested ones hold. */
  function Probe<A>(p: seq<Stmt<A>>, inIf: bool): seq<Stmt<nat>>
    decreases p
  {
    if p == [] then [] else [ProbeStmt(p[0], inIf)] + Probe(p[1..], inIf)
  }

  function ProbeStmt<A>(s: Stmt<A>, inIf: bool): Stmt<nat>
    decreases s
  {
    match s
    case Plain(line) => if line.Command? then Plain(Command(Tick)) else Plain(Skipped)
    case Cond(_, _, _, body) => Cond(Zero, if inIf then Eq else Ne, Zero, Probe(body, true))
    case Repeat(body) => Repeat(Probe(body, inIf))
  }

  lemma {:induction false} ProbeShape<A>(p: seq<Stmt<A>>, inIf: bool)
    requires IsScript(p)
    ensures SameShape(p, Probe(p, inIf)) && IsScript(Probe(p, inIf))
    decreases p
  {
    if p != [] {
      if p[0].Cond? {
        ProbeShape(p[0].body, true);
      } else if p[0].Repeat? {
        ProbeShape(p[0].body, inIf);
      }
      ProbeShape(p[1..], inIf);
    }
  }

  ghost predicate IsProbe(line: Line<nat>) {
    match line
    case Command(run) => run == Tick
    case If(lhs, rel, rhs) => lhs == Zero && rhs == Zero && (rel == Eq || rel == Ne)
    case _ => true
  }

  ghost predicate Probes(part: seq<Line<nat>>) {
    forall k :: 0 <= k < |part| ==> IsProbe(part[k])
  }

  /** Whether the machine skips after these lines, when it runs through them once. */
  function SkipAfter(part: seq<Line<nat>>, skip: bool): bool
    decreases |part|
  {
    if part == [] then skip
    else SkipAfter(part[1..], !part[0].Endif? && (skip || (part[0].If? && part[0].rel == Ne)))
  }

  /** How many commands it runs on the way. */
  function Ran(part: seq<Line<nat>>, skip: bool): nat
    decreases |part|
  {
    if part == [] then 0
    else (if part[0].Command? && !skip then 1 else 0)
         + Ran(part[1..], !part[0].Endif? && (skip || (part[0].If? && part[0].rel == Ne)))
  }

  lemma {:induction false} Sweep(code: seq<Line<nat>>, m: Machine<nat>, part: seq<Line<nat>>)
    requires m.Running? && m.env.result <= 1 && Holds(code, m.pc, part) && Probes(part)
    ensures var m' := Steps(code, m, |part|);
            && m'.Running?
            && m' == Running(m.pc + |part|, Env(m.env.emu + Ran(part, m.skip), m.env.result),
                             SkipAfter(part, m.skip), m'.looped)
    decreases |part|
  {
    hide Holds;
    if part == [] {
      NoSteps(code, m);
    } else {
      HoldsFirst(code, m.pc, part);
      assert IsProbe(part[0]);
      Sweep(code, Step(code, m), part[1..]);
    }
  }

  lemma {:induction false} RanAppend(a: seq<Line<nat>>, b: seq<Line<nat>>, skip: bool)
    ensures Ran(a + b, skip) == Ran(a, skip) + Ran(b, SkipAfter(a, skip))
    ensures SkipAfter(a + b, skip) == SkipAfter(b, SkipAfter(a, skip))
    decreases |a|
  {
    if a == [] {
      assert a + b == b;
    } else {
      assert (a + b)[1..] == a[1..] + b;
      RanAppend(a[1..], b, !a[0].Endif? && (skip || (a[0].If? && a[0].rel == Ne)));
    }
  }

  /** Nested conditions hold, so nothing is skipped after the first `endif`. */
  ghost predicate Inner(part: seq<Line<nat>>) {
    Probes(part) && forall k :: 0 <= k < |part| && part[k].If? ==> part[k].rel == Eq
  }

  lemma {:induction false} InnerRuns(part: seq<Line<nat>>)
    requires Inner(part) && HasCommand(part)
    ensures Ran(part, false) > 0
    decreases |part|
  {
    var k :| 0 <= k < |part| && part[k].Command?;
    if k > 0 {
      assert part[1..][k - 1].Command?;
      InnerRuns(part[1..]);
    }
  }

  lemma {:induction false} InnerLeaks(part: seq<Line<nat>>)
    requires Inner(part) && CommandAfterEndif(part)
    ensures Ran(part, true) > 0
    decreases |part|
  {
    if part[0].Endif? {
      InnerRuns(part[1..]);
    } else {
      InnerLeaks(part[1..]);
    }
  }

  lemma InnerAppend(a: seq<Line<nat>>, b: seq<Line<nat>>)
    ensures Probes(a) && Probes(b) ==> Probes(a + b)
    ensures Inner(a) && Inner(b) ==> Inner(a + b)
  {
  }

  lemma {:induction false} ProbeLines<A>(p: seq<Stmt<A>>, inIf: bool)
    ensures Probes(Lines(Probe(p, inIf))) && (inIf ==> Inner(Lines(Probe(p, inIf))))
    decreases p
  {
    hide Probes, Inner;
    if p == [] {
      NothingProbes();
    } else {
      var q := Probe(p, inIf);
      assert q[0] == ProbeStmt(p[0], inIf) && q[1..] == Probe(p[1..], inIf);
      ProbeStmtLines(p[0], inIf);
      ProbeLines(p[1..], inIf);
      InnerAppend(StmtLines(q[0]), Lines(q[1..]));
    }
  }

  lemma NothingProbes()
    ensures Probes([]) && Inner([])
  {
  }

  lemma {:induction false} ProbeStmtLines<A>(s: Stmt<A>, inIf: bool)
    ensures Probes(StmtLines(ProbeStmt(s, inIf))) && (inIf ==> Inner(StmtLines(ProbeStmt(s, inIf))))
    decreases s
  {
    match s
    case Plain(line) =>
    case Cond(_, _, _, body) => ProbeLines(body, true);
    case Repeat(body) => ProbeLines(body, inIf);
  }

  lemma {:induction false} SameLeak<A, B>(a: seq<Line<A>>, b: seq<Line<B>>)
    requires SameKinds(a, b) && CommandAfterEndif(a)
    ensures CommandAfterEndif(b)
    decreases |a|
  {
    assert SameKind(a[0], b[0]);
    if a[0].Endif? {
      var k :| 0 <= k < |a[1..]| && a[1..][k].Command?;
      assert SameKind(a[k + 1], b[k + 1]);
      assert b[1..][k].Command?;
    } else {
      SameLeak(a[1..], b[1..]);
    }
  }

  /** The commands in no `if`. */
  function Outer<A>(p: seq<Stmt<A>>): nat
    decreases p
  {
    if p == [] then 0 else OuterStmt(p[0]) + Outer(p[1..])
  }

  function OuterStmt<A>(s: Stmt<A>): nat
    decreases s
  {
    match s
    case Plain(line) => if line.Command? then 1 else 0
    case Cond(_, _, _, _) => 0
    case Repeat(body) => Outer(body)
  }

  /** By its meaning, a probe runs the commands in no `if`, each once. */
  lemma {:induction false} ProbeMeans<A>(p: seq<Stmt<A>>, env: Env<nat>)
    requires env.result <= 1
    ensures Exec(Probe(p, false), env, 1) == Some(Continue(Counted(env.emu + Outer(p), env.result)))
    decreases p
  {
    if p != [] {
      var q := Probe(p, false);
      assert q[0] == ProbeStmt(p[0], false) && q[1..] == Probe(p[1..], false);
      if p[0].Repeat? {
        ProbeMeans(p[0].body, env);
        assert q[0] == Repeat(Probe(p[0].body, false));
      }
      var env' := Counted(env.emu + OuterStmt(p[0]), env.result);
      assert ExecStmt(q[0], env, 1) == Some(Continue(env'));
      ProbeMeans(p[1..], env');
    }
  }

  /** The machine runs those too, and more if there is a leak. */
  lemma {:induction false} ProbeRuns<A>(p: seq<Stmt<A>>)
    requires IsScript(p)
    ensures var part := Lines(Probe(p, false));
            && !SkipAfter(part, false) && Ran(part, false) >= Outer(p)
            && (Leaks(p) ==> Ran(part, false) > Outer(p))
    decreases p
  {
    hide Ran, SkipAfter, StmtLines;
    if p == [] {
      NothingRuns();
    } else {
      var q := Probe(p, false);
      assert q[0] == ProbeStmt(p[0], false) && q[1..] == Probe(p[1..], false);
      ProbeStmtRuns(p[0]);
      ProbeRuns(p[1..]);
      RanAppend(StmtLines(q[0]), Lines(q[1..]), false);
    }
  }

  lemma NothingRuns()
    ensures Ran([], false) == 0 && !SkipAfter([], false)
  {
  }

  /** One line before and one after. */
  lemma RanAround(first: Line<nat>, body: seq<Line<nat>>, last: Line<nat>)
    requires !first.Command? && !first.Endif? && (last.Endif? || last.Endloop?)
    ensures var skip := first.If? && first.rel == Ne;
            && Ran([first] + body + [last], false) == Ran(body, skip)
            && SkipAfter([first] + body + [last], false) == (last.Endloop? && SkipAfter(body, skip))
  {
    var skip := first.If? && first.rel == Ne;
    RanAppend([first] + body, [last], false);
    RanAppend([first], body, false);
    assert Ran([first], false) == 0 && SkipAfter([first], false) == skip;
  }

  lemma {:induction false} ProbeStmtRuns<A>(s: Stmt<A>)
    requires IsScriptStmt(s)
    ensures var part := StmtLines(ProbeStmt(s, false));
            && !SkipAfter(part, false) && Ran(part, false) >= OuterStmt(s)
            && (LeaksStmt(s) ==> Ran(part, false) > OuterStmt(s))
    decreases s
  {
    match s
    case Plain(line) =>
    case Cond(_, _, _, body) =>
      var part := Lines(Probe(body, true));
      RanAround(If(Zero, Ne, Zero), part, Endif);
      if CommandAfterEndif(Lines(body)) {
        ProbeShape(body, true);
        ShapeLines(body, Probe(body, true));
        SameLeak(Lines(body), part);
        ProbeLines(body, true);
        InnerLeaks(part);
      }
    case Repeat(body) =>
      ProbeRuns(body);
      RanAround(Loop, Lines(Probe(body, false)), Endloop);
  }

  /** A command after a nested `endif` breaks every script of that shape for some commands. */
  lemma LeakBreaks<A>(p: seq<Stmt<A>>) returns (q: seq<Stmt<nat>>)
    requires IsScript(p) && Leaks(p)
    ensures SameShape(p, q) && IsScript(q) && Breaks(q, Env(0, 0), 1, |Lines(q)| + 1)
  {
    hide Exec, Lines, Probe;
    q := Probe(p, false);
    var code := Lines(q);
    ProbeShape(p, false);
    ProbeLines(p, false);
    ProbeMeans(p, Env(0, 0));
    ProbeRuns(p);
    var start := Running(0, Env(0, 0), false, 0);
    assert Holds(code, 0, code);
    Sweep(code, start, code);
    StepsOne(code, start, |code|);
  }

  // ----- without loops the rule is exact

  ghost predicate NoLoopLines<E>(part: seq<Line<E>>) {
    forall k :: 0 <= k < |part| ==> !part[k].Loop? && !part[k].Endloop?
  }

  lemma {:induction false} LoopFreeLines<E>(p: seq<Stmt<E>>)
    requires IsScript(p) && !HasLoop(p)
    ensures NoLoopLines(Lines(p))
    decreases p
  {
    if p != [] {
      if p[0].Cond? {
        LoopFreeLines(p[0].body);
      }
      LoopFreeLines(p[1..]);
    }
  }

  lemma {:induction false} IdleOrCommand<E>(part: seq<Line<E>>)
    requires NoLoopLines(part) && !CommandAfterEndif(part)
    ensures IdleAfterEndif(part)
    decreases |part|
  {
    if part != [] {
      if part[0].Endif? {
        assert forall k :: 0 <= k < |part[1..]| ==> Idle(part[1..][k]);
      } else {
        IdleOrCommand(part[1..]);
      }
    }
  }

  /** A leak in a part is a leak in the whole. */
  lemma {:induction false} LeakSpreads<E>(a: seq<Line<E>>, b: seq<Line<E>>, c: seq<Line<E>>)
    requires CommandAfterEndif(b)
    ensures CommandAfterEndif(a + b + c)
    decreases |a| + |b|
  {
    var all := a + b + c;
    if a != [] {
      assert all[1..] == a[1..] + b + c;
      LeakSpreads(a[1..], b, c);
      if a[0].Endif? {
        LeakHasCommand(all[1..]);
      }
    } else {
      assert all[1..] == [] + b[1..] + c && all[0] == b[0];
      if b[0].Endif? {
        var k :| 0 <= k < |b[1..]| && b[1..][k].Command?;
        assert all[1..][k].Command?;
      } else {
        LeakSpreads([], b[1..], c);
      }
    }
  }

  lemma {:induction false} LeakHasCommand<E>(part: seq<Line<E>>)
    requires CommandAfterEndif(part)
    ensures HasCommand(part)
    decreases |part|
  {
    if part[0].Endif? {
      var k :| 0 <= k < |part[1..]| && part[1..][k].Command?;
      assert part[k + 1].Command?;
    } else {
      LeakHasCommand(part[1..]);
      var k :| 0 <= k < |part[1..]| && part[1..][k].Command?;
      assert part[k + 1].Command?;
    }
  }

  lemma {:induction false} TightIsSound<E>(p: seq<Stmt<E>>, top: bool)
    requires IsScript(p) && !HasLoop(p) && (!Leaks(p) || !CommandAfterEndif(Lines(p)))
    ensures Sound(p, Free, top)
    decreases p
  {
    if p != [] {
      var rest := Lines(p[1..]);
      assert StmtLines(p[0]) + rest + [] == Lines(p);
      if CommandAfterEndif(rest) {
        LeakSpreads(StmtLines(p[0]), rest, []);
      }
      if p[0].Cond? {
        var body := p[0].body;
        var first := [If(p[0].lhs, p[0].rel, p[0].rhs)];
        assert first + Lines(body) + ([Endif] + rest) == Lines(p);
        if CommandAfterEndif(Lines(body)) {
          LeakSpreads(first, Lines(body), [Endif] + rest);
        }
        LoopFreeLines(body);
        IdleOrCommand(Lines(body));
        TightIsSound(body, false);
      }
      assert SoundStmt(p[0], Free, top);
      TightIsSound(p[1..], top && p[0].Plain? && p[0].line.Skipped?);
    }
  }

  lemma {:induction false} SameIdle<A, B>(a: seq<Line<A>>, b: seq<Line<B>>)
    requires SameKinds(a, b) && IdleAfterEndif(a)
    ensures IdleAfterEndif(b)
    decreases |a|
  {
    if a != [] {
      assert SameKind(a[0], b[0]);
      if a[0].Endif? {
        forall k | 0 <= k < |b[1..]| ensures Idle(b[1..][k]) {
          assert SameKind(a[k + 1], b[k + 1]) && Idle(a[1..][k]);
        }
      } else {
        SameIdle(a[1..], b[1..]);
      }
    }
  }

  lemma {:induction false} SameLoops<A, B>(p: seq<Stmt<A>>, q: seq<Stmt<B>>)
    requires SameShape(p, q)
    ensures HasLoop(p) <==> HasLoop(q)
    decreases p
  {
    if p != [] {
      if p[0].Cond? {
        SameLoops(p[0].body, q[0].body);
      }
      SameLoops(p[1..], q[1..]);
    }
  }

  /** The rule depends on the shape alone. */
  lemma {:induction false} SameRule<A, B>(p: seq<Stmt<A>>, q: seq<Stmt<B>>, place: Place, top: bool)
    requires IsScript(p) && IsScript(q) && SameShape(p, q) && Sound(p, place, top)
    ensures Sound(q, place, top)
    decreases p
  {
    if p != [] {
      if p[0].Cond? {
        SameLoops(p[0].body, q[0].body);
        ShapeLines(p[0].body, q[0].body);
        SameIdle(Lines(p[0].body), Lines(q[0].body));
        SameRule(p[0].body, q[0].body, place, false);
      } else if p[0].Repeat? {
        SameRule(p[0].body, q[0].body, if top then Restarts else Fresh, top);
      }
      assert SoundStmt(q[0], place, top) && Past(place, p[0]) == Past(place, q[0]);
      SameRule(p[1..], q[1..], Past(place, p[0]), top && p[0].Plain? && p[0].line.Skipped?);
    }
  }

  lemma BreaksIsWrong(p: seq<Stmt<nat>>, env: Env<nat>, fuel: nat, n: nat)
    requires Breaks(p, env, fuel, n)
    ensures !Computes(p, env, Exec(p, env, fuel).value.env)
  {
    var code, start := Lines(p), Running(0, env, false, 0);
    var last := Exec(p, env, fuel).value.env;
    forall k: nat ensures !(Steps(code, start, k).Halted? && Steps(code, start, k).env == last) {
      if Steps(code, start, k).Halted? {
        HaltsOnce(code, start, k, n);
      }
    }
  }

  /**
   For scripts without loops the rule is exact: a shape that keeps it computes the meaning whatever
   commands and conditions are put in it, and no other shape does.
   */
  lemma RuleIsExact(p: seq<Stmt<nat>>)
    requires IsScript(p) && !HasLoop(p)
    ensures Sound(p, Free, true) <==>
            forall q, env, last :: IsScript(q) && SameShape(p, q) ==> Computes(q, env, last)
  {
    if Sound(p, Free, true) {
      forall q, env, last | IsScript(q) && SameShape(p, q) ensures Computes(q, env, last) {
        SameRule(p, q, Free, true);
        MachineComputesMeaning(q, env, 0, last);
      }
    } else {
      if !Leaks(p) {
        TightIsSound(p, true);
      }
      var q := LeakBreaks(p);
      BreaksIsWrong(q, Env(0, 0), 1, |Lines(q)| + 1);
    }
  }

  // ----- with loops the rule is not necessary

  /** A loop with nothing in it leaves `result` at most 1. */
  function Drained(env: Env<nat>): Env<nat> {
    if env.result <= 1 then env else env.(result := 1)
  }

  lemma {:induction false} EmptyLoopMeans(env: Env<nat>, fuel: nat)
    ensures ExecLoop([], env, fuel) == if fuel >= Rounds(env.result) then Some(Continue(Drained(env))) else None
    decreases fuel
  {
    if fuel > 0 && env.result > 1 {
      EmptyLoopMeans(env.(result := env.result - 1), fuel - 1);
    }
  }

  lemma {:induction false} EmptyLoopRuns(code: seq<Line<nat>>, env: Env<nat>) returns (n: nat)
    requires |code| > 1 && code[1] == Endloop
    ensures Steps(code, Running(1, env, false, 1), n) == Running(2, Drained(env), false, 0)
    decreases env.result
  {
    var m := Running(1, env, false, 1);
    if env.result <= 1 {
      n := 1;
      assert Steps(code, m, 1) == Step(code, m) by { NoSteps(code, Step(code, m)); }
    } else {
      n := EmptyLoopRuns(code, env.(result := env.result - 1));
      n := n + 1;
    }
  }

  /**
   A shape that breaks the rule and yet computes its meaning: a loop line follows a nested `endif`,
   but the loop before it leaves `result` too small for that to matter.
   */
  lemma BeyondTheRule(p: seq<Stmt<nat>>, outer: Stmt<nat>, inner: Stmt<nat>, env: Env<nat>, last: Env<nat>)
    requires inner.Cond? && inner.body == [] && outer.Cond? && outer.body == [inner, Repeat([])]
    requires p == [Repeat([]), outer]
    ensures !Sound(p, Free, true) && Computes(p, env, last)
  {
    BeyondLines(p, outer, inner);
    var code := Lines(p);
    assert !IdleAfterEndif(Lines(outer.body)) by { BeyondIsNotIdle(outer, inner); }
    assert !SoundStmt(outer, Free, false) && p[1] == outer;
    assert p[1..][0] == outer;
    forall fuel: nat ensures Exec(p, env, fuel) ==
                             if fuel >= Rounds(env.result) then Some(Continue(Drained(env))) else None {
      BeyondMeans(p, outer, inner, env, fuel);
    }
    var start := Running(0, env, false, 0);
    var n := EmptyLoopRuns(code, env);
    var m := Running(2, Drained(env), false, 0);
    assert Steps(code, start, n + 1) == Steps(code, Running(1, env, false, 1), n);
    var k := BeyondRuns(code, outer, inner, Drained(env));
    StepsAdd(code, start, n + 1, k);
    OnlyEnd(p, env, Drained(env), Rounds(env.result), n + 1 + k, last);
  }

  /** If the meaning and the machine both end in `end` and in nothing else, they agree on every `last`. */
  lemma OnlyEnd(p: seq<Stmt<nat>>, env: Env<nat>, end: Env<nat>, fuel: nat, n: nat, last: Env<nat>)
    requires Exec(p, env, fuel) == Some(Continue(end))
    requires forall f: nat :: Exec(p, env, f).Some? ==> Exec(p, env, f) == Some(Continue(end))
    requires var m := Steps(Lines(p), Running(0, env, false, 0), n); m.Halted? && m.env == end
    ensures Computes(p, env, last)
  {
    var code, start := Lines(p), Running(0, env, false, 0);
    forall k: nat | Steps(code, start, k).Halted? ensures Steps(code, start, k).env == end {
      HaltsOnce(code, start, k, n);
    }
    assert Exec(p, env, fuel).Some? && Exec(p, env, fuel).value.env == end;
  }

  lemma BeyondLines(p: seq<Stmt<nat>>, outer: Stmt<nat>, inner: Stmt<nat>)
    requires inner.Cond? && inner.body == [] && outer.Cond? && outer.body == [inner, Repeat([])]
    requires p == [Repeat([]), outer]
    ensures Lines(outer.body) == [If(inner.lhs, inner.rel, inner.rhs), Endif, Loop, Endloop]
    ensures Lines(p) == [Loop, Endloop, If(outer.lhs, outer.rel, outer.rhs)] + Lines(outer.body) + [Endif]
  {
    var loop: Stmt<nat> := Repeat([]);
    assert StmtLines(loop) == [Loop, Endloop];
    assert StmtLines(inner) == [If(inner.lhs, inner.rel, inner.rhs), Endif];
    assert outer.body[1..] == [loop] && outer.body[1..][1..] == [];
    assert Lines(outer.body[1..]) == StmtLines(loop) + Lines(outer.body[1..][1..]);
    assert p[1..] == [outer] && p[1..][1..] == [];
    assert Lines(p[1..]) == StmtLines(outer) + Lines(p[1..][1..]);
  }

  lemma BeyondIsNotIdle(outer: Stmt<nat>, inner: Stmt<nat>)
    requires inner.Cond? && outer.Cond?
    requires Lines(outer.body) == [If(inner.lhs, inner.rel, inner.rhs), Endif, Loop, Endloop]
    ensures !IdleAfterEndif(Lines(outer.body))
  {
    var part := Lines(outer.body);
    assert part[1..][0].Endif? && part[1..][1..][0].Loop?;
    assert !Idle(part[1..][1..][0]);
  }

  lemma BeyondMeans(p: seq<Stmt<nat>>, outer: Stmt<nat>, inner: Stmt<nat>, env: Env<nat>, fuel: nat)
    requires inner.Cond? && inner.body == [] && outer.Cond? && outer.body == [inner, Repeat([])]
    requires p == [Repeat([]), outer]
    ensures Exec(p, env, fuel) == if fuel >= Rounds(env.result) then Some(Continue(Drained(env))) else None
  {
    EmptyLoopMeans(env, fuel);
    var env' := Drained(env);
    EmptyLoopMeans(env', fuel);
    assert p[1..] == [outer] && p[1..][1..] == [];
    assert outer.body[1..] == [Repeat([])] && outer.body[1..][1..] == [];
    if fuel > 0 {
      assert ExecStmt(inner, env', fuel) == Some(Continue(env'));
      assert Exec(outer.body[1..], env', fuel) == Some(Continue(env'));
      assert Exec(outer.body, env', fuel) == Some(Continue(env'));
      assert ExecStmt(outer, env', fuel) == Some(Continue(env'));
    }
  }

  lemma BeyondRuns(code: seq<Line<nat>>, outer: Stmt<nat>, inner: Stmt<nat>, env: Env<nat>) returns (n: nat)
    requires inner.Cond? && outer.Cond? && env.result <= 1
    requires code == [Loop, Endloop, If(outer.lhs, outer.rel, outer.rhs)]
                     + [If(inner.lhs, inner.rel, inner.rhs), Endif, Loop, Endloop] + [Endif]
    ensures var m := Steps(code, Running(2, env, false, 0), n); m.Halted? && m.env == env
  {
    n := 7;
    var m := Running(2, env, false, 0);
    var m1 := Step(code, m);
    var m2 := Step(code, m1);
    assert m2 == Running(4, env, m2.skip, 0);
    var m3 := Running(5, env, false, 0);
    assert Step(code, m2) == m3;
    var m6 := Running(8, env, false, 0);
    assert Step(code, Step(code, Step(code, m3))) == m6;
    StepsAdd(code, m, 3, 4);
    assert Steps(code, m, 3) == m3;
    assert Steps(code, m3, 4) == Step(code, m6) by { NoSteps(code, Step(code, m6)); }
  }
}
