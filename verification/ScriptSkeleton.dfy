/**
 Which nestings of `if` and loop blocks work wherever commands are put between them: those without an
 `if` in an `if` and without a loop in a loop, and no others.
 */
module ScriptSkeleton {
  import opened Words
  import opened Script
  import opened ScriptNesting

  /** A script without its plain lines. */
  datatype Nest = IfBlock(body: seq<Nest>) | LoopBlock(body: seq<Nest>)

  function Skeleton<E>(p: seq<Stmt<E>>): seq<Nest>
    decreases p
  {
    if p == [] then []
    else
      (match p[0]
       case Plain(_) => []
       case Cond(_, _, _, body) => [IfBlock(Skeleton(body))]
       case Repeat(body) => [LoopBlock(Skeleton(body))])
      + Skeleton(p[1..])
  }

  /** No `if` in an `if` and no loop in a loop; either may hold the other. */
  predicate Unnested(s: seq<Nest>, inIf: bool, inLoop: bool)
    decreases s
  {
    s == [] || (UnnestedOne(s[0], inIf, inLoop) && Unnested(s[1..], inIf, inLoop))
  }

  predicate UnnestedOne(t: Nest, inIf: bool, inLoop: bool)
    decreases t
  {
    match t
    case IfBlock(body) => !inIf && Unnested(body, true, inLoop)
    case LoopBlock(body) => !inLoop && Unnested(body, inIf, true)
  }

  /** The skeleton with a command before, between and after its blocks. */
  function Fill(s: seq<Nest>, act: Env<nat> -> Effect<nat>): seq<Stmt<nat>>
    decreases s
  {
    if s == [] then [Plain(Command(act))] else [Plain(Command(act)), FillOne(s[0], act)] + Fill(s[1..], act)
  }

  function FillOne(t: Nest, act: Env<nat> -> Effect<nat>): Stmt<nat>
    decreases t
  {
    match t
    case IfBlock(body) => Cond(Zero, Eq, Zero, Fill(body, act))
    case LoopBlock(body) => Repeat(Fill(body, act))
  }

  lemma {:induction false} FillIs(s: seq<Nest>, act: Env<nat> -> Effect<nat>)
    ensures IsScript(Fill(s, act)) && Skeleton(Fill(s, act)) == s
    decreases s
  {
    var p := Fill(s, act);
    if s == [] {
      assert p[1..] == [];
    } else {
      FillIs(s[0].body, act);
      FillIs(s[1..], act);
      assert p[1..][0] == FillOne(s[0], act) && p[1..][1..] == Fill(s[1..], act);
      assert Skeleton(p) == [] + Skeleton(p[1..]);
      assert Skeleton(p[1..]) == [s[0]] + Skeleton(Fill(s[1..], act));
    }
  }

  // ----- unnested skeletons work

  ghost predicate NoEndif<E>(part: seq<Line<E>>) {
    forall k :: 0 <= k < |part| ==> !part[k].Endif?
  }

  lemma {:induction false} NoEndifIsIdle<E>(part: seq<Line<E>>)
    requires NoEndif(part)
    ensures IdleAfterEndif(part)
    decreases |part|
  {
    if part != [] {
      NoEndifIsIdle(part[1..]);
    }
  }

  lemma SkeletonStep<E>(p: seq<Stmt<E>>)
    requires p != []
    ensures p[0].Plain? ==> Skeleton(p) == Skeleton(p[1..])
    ensures p[0].Cond? ==> Skeleton(p) == [IfBlock(Skeleton(p[0].body))] + Skeleton(p[1..])
    ensures p[0].Repeat? ==> Skeleton(p) == [LoopBlock(Skeleton(p[0].body))] + Skeleton(p[1..])
  {
    if p[0].Plain? {
      assert [] + Skeleton(p[1..]) == Skeleton(p[1..]);
    }
  }

  lemma {:induction false} UnnestedParts<E>(p: seq<Stmt<E>>, inIf: bool, inLoop: bool)
    requires p != [] && Unnested(Skeleton(p), inIf, inLoop)
    ensures Unnested(Skeleton(p[1..]), inIf, inLoop)
    ensures p[0].Cond? ==> !inIf && Unnested(Skeleton(p[0].body), true, inLoop)
    ensures p[0].Repeat? ==> !inLoop && Unnested(Skeleton(p[0].body), inIf, true)
  {
    SkeletonStep(p);
    hide Skeleton;
    if !p[0].Plain? {
      var s := Skeleton(p);
      assert s[1..] == Skeleton(p[1..]);
    }
  }

  lemma {:induction false} BodyHasNoEndif<E>(p: seq<Stmt<E>>, inLoop: bool)
    requires IsScript(p) && Unnested(Skeleton(p), true, inLoop)
    ensures NoEndif(Lines(p))
    decreases p
  {
    hide Unnested, Skeleton;
    if p != [] {
      UnnestedParts(p, true, inLoop);
      if p[0].Repeat? {
        BodyHasNoEndif(p[0].body, true);
      }
      assert NoEndif(StmtLines(p[0]));
      BodyHasNoEndif(p[1..], inLoop);
    }
  }

  lemma {:induction false} BodyHasNoLoop<E>(p: seq<Stmt<E>>, inIf: bool)
    requires Unnested(Skeleton(p), inIf, true)
    ensures !HasLoop(p)
    decreases p
  {
    hide Unnested, Skeleton;
    if p != [] {
      UnnestedParts(p, inIf, true);
      if p[0].Cond? {
        BodyHasNoLoop(p[0].body, true);
      }
      BodyHasNoLoop(p[1..], inIf);
    }
  }

  lemma {:induction false} UnnestedIsSound<E>(p: seq<Stmt<E>>, inIf: bool, inLoop: bool, place: Place, top: bool)
    requires IsScript(p) && Unnested(Skeleton(p), inIf, inLoop)
    requires place != Spent && (inLoop <==> place != Free)
    ensures Sound(p, place, top)
    decreases p
  {
    hide Unnested, Skeleton, IdleAfterEndif;
    if p != [] {
      UnnestedParts(p, inIf, inLoop);
      if inLoop {
        BodyHasNoLoop(p, inIf);
      }
      if p[0].Cond? {
        BodyHasNoEndif(p[0].body, inLoop);
        NoEndifIsIdle(Lines(p[0].body));
        UnnestedIsSound(p[0].body, true, inLoop, place, false);
      } else if p[0].Repeat? {
        UnnestedIsSound(p[0].body, inIf, true, if top then Restarts else Fresh, top);
      }
      UnnestedIsSound(p[1..], inIf, inLoop, place, top && p[0].Plain? && p[0].line.Skipped?);
    }
  }

  // ----- an `if` in an `if`

  predicate HasIf(s: seq<Nest>)
    decreases s
  {
    s != [] && (HasIfOne(s[0]) || HasIf(s[1..]))
  }

  predicate HasIfOne(t: Nest)
    decreases t
  {
    t.IfBlock? || HasIf(t.body)
  }

  predicate IfInIf(s: seq<Nest>)
    decreases s
  {
    s != [] && (IfInIfOne(s[0]) || IfInIf(s[1..]))
  }

  predicate IfInIfOne(t: Nest)
    decreases t
  {
    match t
    case IfBlock(body) => HasIf(body)
    case LoopBlock(body) => IfInIf(body)
  }

  lemma FillLines(s: seq<Nest>, act: Env<nat> -> Effect<nat>)
    ensures s == [] ==> Lines(Fill(s, act)) == [Command(act)]
    ensures s != [] ==>
              Lines(Fill(s, act)) == [Command(act)] + (StmtLines(FillOne(s[0], act)) + Lines(Fill(s[1..], act)))
  {
    var p := Fill(s, act);
    if s == [] {
      assert p[1..] == [];
    } else {
      assert p[1..][0] == FillOne(s[0], act) && p[1..][1..] == Fill(s[1..], act);
    }
  }

  /** Some `endif` precedes the last command. */
  lemma {:induction false} EndifThenCommand(s: seq<Nest>, act: Env<nat> -> Effect<nat>)
    requires HasIf(s)
    ensures CommandAfterEndif(Lines(Fill(s, act)))
    decreases s
  {
    FillLines(s, act);
    hide Lines, StmtLines, FillOne, CommandAfterEndif;
    var first, block, rest := [Command(act)], StmtLines(FillOne(s[0], act)), Lines(Fill(s[1..], act));
    if HasIfOne(s[0]) {
      RestHasCommand(s[1..], act);
      BlockThenCommand(s[0], act, rest);
      LeakSpreads(first, block + rest, []);
      assert first + (block + rest) + [] == first + (block + rest);
    } else {
      EndifThenCommand(s[1..], act);
      LeakSpreads(first + block, rest, []);
      assert first + block + rest + [] == first + (block + rest);
    }
  }

  lemma RestHasCommand(s: seq<Nest>, act: Env<nat> -> Effect<nat>)
    ensures HasCommand(Lines(Fill(s, act)))
  {
    FillLines(s, act);
    assert Lines(Fill(s, act))[0].Command?;
  }

  lemma {:induction false} BlockThenCommand(t: Nest, act: Env<nat> -> Effect<nat>, rest: seq<Line<nat>>)
    requires HasIfOne(t) && HasCommand(rest)
    ensures CommandAfterEndif(StmtLines(FillOne(t, act)) + rest)
    decreases t, 0
  {
    var body := Lines(Fill(t.body, act));
    match t {
      case IfBlock(_) =>
        var front := [If(Zero, Eq, Zero)] + body;
        assert CommandAfterEndif([Endif] + rest) by { assert ([Endif] + rest)[1..] == rest; }
        LeakSpreads(front, [Endif] + rest, []);
        assert front + ([Endif] + rest) + [] == StmtLines(FillOne(t, act)) + rest;
      case LoopBlock(_) =>
        EndifThenCommand(t.body, act);
        LeakSpreads([Loop], body, [Endloop] + rest);
        assert [Loop] + body + ([Endloop] + rest) == StmtLines(FillOne(t, act)) + rest;
    }
  }

  lemma {:induction false} IfInIfLeaks(s: seq<Nest>, act: Env<nat> -> Effect<nat>)
    requires IfInIf(s)
    ensures Leaks(Fill(s, act))
    decreases s
  {
    var p := Fill(s, act);
    assert p[1..][0] == FillOne(s[0], act) && p[1..][1..] == Fill(s[1..], act);
    if IfInIfOne(s[0]) {
      if s[0].IfBlock? {
        EndifThenCommand(s[0].body, act);
      } else {
        IfInIfLeaks(s[0].body, act);
      }
      assert LeaksStmt(p[1..][0]);
    } else {
      IfInIfLeaks(s[1..], act);
    }
  }

  lemma {:induction false} SameSkeleton<A, B>(p: seq<Stmt<A>>, q: seq<Stmt<B>>)
    requires SameShape(p, q)
    ensures Skeleton(p) == Skeleton(q)
    decreases p
  {
    if p != [] {
      if !p[0].Plain? {
        SameSkeleton(p[0].body, q[0].body);
      }
      SameSkeleton(p[1..], q[1..]);
    }
  }

  // ----- a loop in a loop

  predicate HasLoopBlock(s: seq<Nest>)
    decreases s
  {
    s != [] && (HasLoopBlockOne(s[0]) || HasLoopBlock(s[1..]))
  }

  predicate HasLoopBlockOne(t: Nest)
    decreases t
  {
    t.LoopBlock? || HasLoopBlock(t.body)
  }

  predicate LoopInLoop(s: seq<Nest>)
    decreases s
  {
    s != [] && (LoopInLoopOne(s[0]) || LoopInLoop(s[1..]))
  }

  predicate LoopInLoopOne(t: Nest)
    decreases t
  {
    match t
    case IfBlock(body) => LoopInLoop(body)
    case LoopBlock(body) => HasLoopBlock(body)
  }

  /** Every command counts, and the one that finds the count at `hot` sets `result` to 2. */
  function Heat(hot: nat): Env<nat> -> Effect<nat> {
    (e: Env<nat>) => Continue(Env(e.emu + 1, if e.emu == hot then 2 else e.result))
  }

  /** Commands in the filled skeleton. */
  function Gaps(s: seq<Nest>): (n: nat)
    ensures n >= 1 && (s != [] ==> n >= 3)
    decreases s
  {
    if s == [] then 1 else 1 + Gaps(s[0].body) + Gaps(s[1..])
  }

  /** The commands up to the count e + Gaps(s) do not set `result`, but for the last one perhaps. */
  predicate Steady(s: seq<Nest>, env: Env<nat>, hot: nat) {
    env.result <= 1 && (env.emu > hot || env.emu + Gaps(s) <= hot + 1)
  }

  function Passed(s: seq<Nest>, env: Env<nat>, hot: nat): Env<nat> {
    Counted(env.emu + Gaps(s), if env.emu <= hot < env.emu + Gaps(s) then 2 else env.result)
  }

  lemma MeansOne(env: Env<nat>, act: Env<nat> -> Effect<nat>, fuel: nat, env1: Env<nat>)
    requires act(env) == Continue(env1)
    ensures Exec(Fill([], act), env, fuel) == Some(Continue(env1))
  {
    var p := Fill([], act);
    assert p[1..] == [];
  }

  lemma MeansFirst(s: seq<Nest>, env: Env<nat>, act: Env<nat> -> Effect<nat>, fuel: nat, env1: Env<nat>, env2: Env<nat>)
    requires s != [] && act(env) == Continue(env1) && ExecStmt(FillOne(s[0], act), env1, fuel) == Some(Continue(env2))
    ensures Exec(Fill(s, act), env, fuel) == Exec(Fill(s[1..], act), env2, fuel)
  {
    var p := Fill(s, act);
    assert p[1..][0] == FillOne(s[0], act) && p[1..][1..] == Fill(s[1..], act);
  }

  /** By its meaning, the filled skeleton runs each of its commands once. */
  lemma {:induction false} SteadyMeans(s: seq<Nest>, env: Env<nat>, hot: nat, fuel: nat)
    requires Steady(s, env, hot) && fuel > 0
    ensures Exec(Fill(s, Heat(hot)), env, fuel) == Some(Continue(Passed(s, env, hot)))
    decreases s
  {
    hide Fill, Exec;
    var act := Heat(hot);
    if s == [] {
      MeansOne(env, act, fuel, Passed(s, env, hot));
    } else {
      var env1 := Counted(env.emu + 1, env.result);
      SteadyMeans(s[0].body, env1, hot, fuel);
      var env2 := Counted(env1.emu + Gaps(s[0].body), env.result);
      MeansFirst(s, env, act, fuel, env1, env2);
      SteadyMeans(s[1..], env2, hot, fuel);
    }
  }

  /** So does the machine, which then remembers no loop if it passed one. */
  lemma {:induction false} SteadyRuns(code: seq<Line<nat>>, m: Machine<nat>, s: seq<Nest>, hot: nat) returns (n: nat)
    requires m.Running? && !m.skip && Steady(s, m.env, hot) && Holds(code, m.pc, Lines(Fill(s, Heat(hot))))
    ensures Steps(code, m, n) ==
            Running(m.pc + |Lines(Fill(s, Heat(hot)))|, Passed(s, m.env, hot), false,
                    if HasLoopBlock(s) then 0 else m.looped)
    decreases s, 1
  {
    hide Fill, FillOne, Lines, StmtLines, Steps, Holds, HasLoopBlockOne;
    var act := Heat(hot);
    FillLines(s, act);
    HoldsFirst(code, m.pc, Lines(Fill(s, act)));
    StepsFirst(code, m, 1);
    NoSteps(code, Step(code, m));
    n := 1;
    if s != [] {
      var block, rest := StmtLines(FillOne(s[0], act)), Lines(Fill(s[1..], act));
      var m1 := Step(code, m);
      assert Lines(Fill(s, act))[1..] == block + rest;
      HoldsSplit(code, m1.pc, block, rest);
      var k := SteadyBlock(code, m1, s[0], hot);
      var m2 := Steps(code, m1, k);
      StepsFirst(code, m, 1 + k);
      n := SteadyRuns(code, m2, s[1..], hot);
      StepsAdd(code, m, 1 + k, n);
      n := 1 + k + n;
    }
  }

  lemma {:induction false} SteadyBlock(code: seq<Line<nat>>, m: Machine<nat>, t: Nest, hot: nat) returns (n: nat)
    requires m.Running? && !m.skip && m.env.result <= 1
    requires m.env.emu > hot || m.env.emu + Gaps(t.body) <= hot
    requires Holds(code, m.pc, StmtLines(FillOne(t, Heat(hot))))
    ensures Steps(code, m, n) ==
            Running(m.pc + |StmtLines(FillOne(t, Heat(hot)))|, Counted(m.env.emu + Gaps(t.body), m.env.result),
                    false, if HasLoopBlockOne(t) then 0 else m.looped)
    decreases t, 0
  {
    hide Fill, Lines, Steps, Holds;
    var s := FillOne(t, Heat(hot));
    if t.IfBlock? {
      CondLines(code, m.pc, s);
    } else {
      LoopLines(code, m.pc, s);
    }
    hide StmtLines;
    BlockOpens(code, m);
    var m1 := m.(pc := m.pc + 1, looped := if t.IfBlock? then m.looped else m.pc + 1);
    hide Step;
    var k := SteadyRuns(code, m1, t.body, hot);
    StepsFirst(code, m, k + 1);
    StepsOne(code, m, k + 1);
    BlockCloses(code, Steps(code, m, k + 1));
    n := k + 2;
  }

  lemma LoopLines<E>(code: seq<Line<E>>, pc: nat, s: Stmt<E>)
    requires s.Repeat? && Holds(code, pc, StmtLines(s))
    ensures |StmtLines(s)| == |Lines(s.body)| + 2 && pc + |StmtLines(s)| <= |code|
    ensures code[pc] == Loop && code[pc + 1 + |Lines(s.body)|] == Endloop && Holds(code, pc + 1, Lines(s.body))
  {
    hide Lines;
    RepeatLines(code, pc, s);
    HoldsSplit(code, pc + 1, Lines(s.body), [Endloop]);
    HoldsFirst(code, pc + 1 + |Lines(s.body)|, [Endloop]);
  }

  lemma BlockOpens(code: seq<Line<nat>>, m: Machine<nat>)
    requires m.Running? && !m.skip && m.pc < |code| && (code[m.pc] == If(Zero, Eq, Zero) || code[m.pc] == Loop)
    ensures Step(code, m) == m.(pc := m.pc + 1, looped := if code[m.pc].Loop? then m.pc + 1 else m.looped)
  {
  }

  lemma BlockCloses<E>(code: seq<Line<E>>, m: Machine<E>)
    requires m.Running? && !m.skip && m.pc < |code| && m.env.result <= 1 && (code[m.pc].Endif? || code[m.pc].Endloop?)
    ensures Step(code, m) == m.(pc := m.pc + 1, looped := if code[m.pc].Endif? then m.looped else 0)
  {
  }

  /** The first loop that holds a loop: the commands before its `endloop`, less one. */
  function Hit(s: seq<Nest>): (n: nat)
    requires LoopInLoop(s)
    ensures 1 <= n < Gaps(s)
    decreases s
  {
    if LoopInLoopOne(s[0]) then 1 + HitOne(s[0]) else 1 + Gaps(s[0].body) + Hit(s[1..])
  }

  function HitOne(t: Nest): (n: nat)
    requires LoopInLoopOne(t)
    ensures n < Gaps(t.body)
    decreases t
  {
    match t
    case IfBlock(body) => Hit(body)
    case LoopBlock(body) => Gaps(body) - 1
  }

  /** The commands in its body. */
  function Again(s: seq<Nest>): (n: nat)
    requires LoopInLoop(s)
    ensures n <= Hit(s)
    decreases s
  {
    if LoopInLoopOne(s[0]) then AgainOne(s[0]) else Again(s[1..])
  }

  function AgainOne(t: Nest): (n: nat)
    requires LoopInLoopOne(t)
    ensures n <= HitOne(t) + 1
    decreases t
  {
    match t
    case IfBlock(body) => Again(body)
    case LoopBlock(body) => Gaps(body)
  }

  lemma TwoRounds(body: seq<Stmt<nat>>, env: Env<nat>, mid: Env<nat>, end: Env<nat>, fuel: nat)
    requires fuel >= 2 && mid.result == 2 && end.result <= 1
    requires Exec(body, env, fuel) == Some(Continue(mid))
    requires Exec(body, mid.(result := 1), fuel - 1) == Some(Continue(end))
    ensures ExecLoop(body, env, fuel) == Some(Continue(end))
  {
  }

  lemma {:induction false} HitBlockMeans(t: Nest, env: Env<nat>, hot: nat, fuel: nat)
    requires LoopInLoopOne(t) && env.result <= 1 && fuel >= 2 && hot == env.emu + HitOne(t)
    ensures var end := Counted(env.emu + Gaps(t.body) + AgainOne(t), 1);
            ExecStmt(FillOne(t, Heat(hot)), env, fuel) == Some(Continue(end))
    decreases t, 0
  {
    hide Fill, Exec;
    var body := t.body;
    if t.IfBlock? {
      HitMeans(body, env, fuel);
    } else {
      var end := Counted(env.emu + Gaps(body) + AgainOne(t), 1);
      SteadyMeans(body, env, hot, fuel);
      SteadyMeans(body, Counted(hot + 1, 1), hot, fuel - 1);
      TwoRounds(Fill(body, Heat(hot)), env, Counted(hot + 1, 2), end, fuel);
    }
  }

  /** By its meaning, that loop makes one more round. */
  lemma {:induction false} HitMeans(s: seq<Nest>, env: Env<nat>, fuel: nat)
    requires LoopInLoop(s) && env.result <= 1 && fuel >= 2
    ensures var end := Counted(env.emu + Gaps(s) + Again(s), 1);
            Exec(Fill(s, Heat(env.emu + Hit(s))), env, fuel) == Some(Continue(end))
    decreases s
  {
    hide Fill, Exec;
    var hot := env.emu + Hit(s);
    var act := Heat(hot);
    var env1 := Counted(env.emu + 1, env.result);
    var body := s[0].body;
    if LoopInLoopOne(s[0]) {
      var env2 := Counted(env1.emu + Gaps(body) + AgainOne(s[0]), 1);
      HitBlockMeans(s[0], env1, hot, fuel);
      MeansFirst(s, env, act, fuel, env1, env2);
      SteadyMeans(s[1..], env2, hot, fuel);
    } else {
      var env2 := Counted(env1.emu + Gaps(body), env.result);
      SteadyMeans(body, env1, hot, fuel);
      MeansFirst(s, env, act, fuel, env1, env2);
      HitMeans(s[1..], env2, fuel);
    }
  }

  /** The machine goes back to the first line instead. */
  lemma {:induction false} HitRuns(code: seq<Line<nat>>, m: Machine<nat>, s: seq<Nest>) returns (n: nat)
    requires m.Running? && !m.skip && LoopInLoop(s) && m.env.result <= 1
    requires Holds(code, m.pc, Lines(Fill(s, Heat(m.env.emu + Hit(s)))))
    ensures Steps(code, m, n) == Running(0, Counted(m.env.emu + Hit(s) + 1, 1), false, 0)
    decreases s
  {
    hide Fill, FillOne, Lines, StmtLines, Steps, Holds, LoopInLoopOne, HasLoopBlockOne;
    var hot := m.env.emu + Hit(s);
    var act := Heat(hot);
    FillLines(s, act);
    HoldsFirst(code, m.pc, Lines(Fill(s, act)));
    var block, rest := StmtLines(FillOne(s[0], act)), Lines(Fill(s[1..], act));
    var m1 := Step(code, m);
    assert Lines(Fill(s, act))[1..] == block + rest;
    HoldsSplit(code, m1.pc, block, rest);
    if LoopInLoopOne(s[0]) {
      n := HitBlock(code, m1, s[0], hot);
      StepsFirst(code, m, 1 + n);
      n := 1 + n;
    } else {
      var k := SteadyBlock(code, m1, s[0], hot);
      StepsFirst(code, m, 1 + k);
      n := HitRuns(code, Steps(code, m1, k), s[1..]);
      StepsAdd(code, m, 1 + k, n);
      n := 1 + k + n;
    }
  }

  lemma {:induction false} HitBlock(code: seq<Line<nat>>, m: Machine<nat>, t: Nest, hot: nat) returns (n: nat)
    requires m.Running? && !m.skip && m.env.result <= 1 && LoopInLoopOne(t) && hot == m.env.emu + HitOne(t)
    requires Holds(code, m.pc, StmtLines(FillOne(t, Heat(hot))))
    ensures Steps(code, m, n) == Running(0, Counted(hot + 1, 1), false, 0)
    decreases t
  {
    hide Fill, Lines, Steps, Holds;
    var s := FillOne(t, Heat(hot));
    if t.IfBlock? {
      CondLines(code, m.pc, s);
      BlockOpens(code, m);
      n := HitRuns(code, Step(code, m), t.body);
      StepsFirst(code, m, n + 1);
      n := n + 1;
    } else {
      LoopLines(code, m.pc, s);
      BlockOpens(code, m);
      var k := SteadyRuns(code, Step(code, m), t.body, hot);
      StepsFirst(code, m, k + 1);
      StepsOne(code, m, k + 1);
      EndloopJumps(code, Steps(code, m, k + 1));
      n := k + 2;
    }
  }

  lemma {:induction false} LoopInLoopBreaks(s: seq<Nest>) returns (p: seq<Stmt<nat>>, n: nat)
    requires LoopInLoop(s)
    ensures IsScript(p) && Skeleton(p) == s && Breaks(p, Env(0, 0), 2, n)
  {
    hide Fill, Lines, Exec, Steps;
    var hot := Hit(s);
    p := Fill(s, Heat(hot));
    FillIs(s, Heat(hot));
    var code, start := Lines(p), Running(0, Counted(0, 0), false, 0);
    assert Holds(code, 0, code);
    HitMeans(s, Counted(0, 0), 2);
    var a := HitRuns(code, start, s);
    var b := SteadyRuns(code, Steps(code, start, a), s, hot);
    StepsAdd(code, start, a, b);
    StepsOne(code, start, a + b);
    n := a + b + 1;
  }

  // ----- exactly the unnested skeletons work

  lemma {:induction false} NestedSomewhere(s: seq<Nest>, inIf: bool, inLoop: bool)
    requires !Unnested(s, inIf, inLoop)
    ensures IfInIf(s) || LoopInLoop(s) || (inIf && HasIf(s)) || (inLoop && HasLoopBlock(s))
    decreases s
  {
    if UnnestedOne(s[0], inIf, inLoop) {
      NestedSomewhere(s[1..], inIf, inLoop);
    } else if s[0].IfBlock? && !inIf {
      NestedSomewhere(s[0].body, true, inLoop);
      LoopInLoopInner(s[0].body);
    } else if s[0].LoopBlock? && !inLoop {
      NestedSomewhere(s[0].body, inIf, true);
      LoopInLoopInner(s[0].body);
    }
  }

  lemma {:induction false} LoopInLoopInner(s: seq<Nest>)
    ensures LoopInLoop(s) ==> HasLoopBlock(s)
    ensures IfInIf(s) ==> HasIf(s)
    decreases s
  {
    if s != [] {
      LoopInLoopInner(s[0].body);
      LoopInLoopInner(s[1..]);
      assert LoopInLoopOne(s[0]) ==> HasLoopBlockOne(s[0]);
      assert IfInIfOne(s[0]) ==> HasIfOne(s[0]);
    }
  }

  lemma NestingBreaks(s: seq<Nest>) returns (p: seq<Stmt<nat>>, fuel: nat, n: nat)
    requires !Unnested(s, false, false)
    ensures IsScript(p) && Skeleton(p) == s && Breaks(p, Env(0, 0), fuel, n)
  {
    NestedSomewhere(s, false, false);
    if IfInIf(s) {
      var dense := Fill(s, Tick);
      FillIs(s, Tick);
      IfInIfLeaks(s, Tick);
      p := LeakBreaks(dense);
      SameSkeleton(dense, p);
      fuel, n := 1, |Lines(p)| + 1;
    } else {
      p, n := LoopInLoopBreaks(s);
      fuel := 2;
    }
  }

  /**
   A nesting computes its meaning wherever plain lines are put, and whatever they and the conditions
   do, if and only if it has no `if` in an `if` and no loop in a loop.
   */
  lemma NestingIsExact(s: seq<Nest>)
    ensures Unnested(s, false, false) <==>
            forall p, env, last :: IsScript(p) && Skeleton(p) == s ==> Computes(p, env, last)
  {
    if Unnested(s, false, false) {
      forall p: seq<Stmt<nat>>, env, last | IsScript(p) && Skeleton(p) == s ensures Computes(p, env, last) {
        UnnestedIsSound(p, false, false, Free, true);
        MachineComputesMeaning(p, env, 0, last);
      }
    } else {
      var p, fuel, n := NestingBreaks(s);
      BreaksIsWrong(p, Env(0, 0), fuel, n);
    }
  }
}
