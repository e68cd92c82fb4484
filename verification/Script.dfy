/**
 Control flow of the debugger's script interpreter (`debug/script.rs`).

 The interpreter is a line-number machine with three mutable fields besides the emulator: `result`,
 `skip` and `looped`. Commands other than `if`, `endif`, `loop` and `endloop` are opaque functions of
 the emulator and `result`, and may end the run. The emulator is the type parameter `E`.
 */
module Script {
  import opened Words

  datatype Relation = Eq | Ne | Gt | Lt | Ge | Le

  /** What the script's fields and the emulator hold between commands. */
  datatype Env<E> = Env(emu: E, result: U64)

  /** A command continues with a new environment or returns from the run. */
  datatype Effect<E> = Continue(env: Env<E>) | Return(env: Env<E>)

  datatype Line<!E> =
    | Skipped                         // empty line or `;` comment
    | Command(run: Env<E> -> Effect<E>)
    | If(lhs: Env<E> -> U64, rel: Relation, rhs: Env<E> -> U64)
    | Endif
    | Loop
    | Endloop

  // ----- the line-number machine

  datatype Machine<E> =
    | Running(pc: nat, env: Env<E>, skip: bool, looped: nat)
    | Halted(env: Env<E>, skip: bool, looped: nat)

  /** The `if` line's tests, each on the failing side of the comparison. */
  predicate Fails(a: U64, rel: Relation, b: U64) {
    match rel
    case Eq => a != b
    case Ne => a == b
    case Gt => a <= b
    case Lt => a >= b
    case Ge => a < b
    case Le => a > b
  }

  /** One turn of the loop: `pc` counts the lines already fetched, so line `pc` comes next. */
  function Step<E>(code: seq<Line<E>>, m: Machine<E>): Machine<E> {
    if m.Halted? then m
    else if m.pc >= |code| then Halted(m.env, m.skip, m.looped)
    else
      var line := code[m.pc];
      var next := m.(pc := m.pc + 1);
      if line.Skipped? then next
      else if line.Endif? then next.(skip := false)
      else if m.skip then next
      else match line
        case Command(run) =>
          (match run(m.env)
           case Continue(env) => next.(env := env)
           case Return(env) => Halted(env, m.skip, m.looped))
        case If(lhs, rel, rhs) =>
          if Fails(lhs(m.env), rel, rhs(m.env)) then next.(skip := true) else next
        case Loop => next.(looped := m.pc + 1)
        case Endloop =>
          if m.env.result <= 1 then next.(looped := 0)
          else next.(pc := m.looped, env := m.env.(result := m.env.result - 1))
  }

  function Steps<E>(code: seq<Line<E>>, m: Machine<E>, n: nat): Machine<E>
    decreases n
  {
    if n == 0 then m else Steps(code, Step(code, m), n - 1)
  }

  predicate Finished<E>(code: seq<Line<E>>, m: Machine<E>) {
    m.Halted? || m.pc >= |code|
  }

  // ----- the structured language

  datatype Stmt<!E> =
    | Plain(line: Line<E>)
    | Cond(lhs: Env<E> -> U64, rel: Relation, rhs: Env<E> -> U64, body: seq<Stmt<E>>)
    | Repeat(body: seq<Stmt<E>>)

  /** The lines of a structured program. */
  function Lines<E>(p: seq<Stmt<E>>): seq<Line<E>>
    decreases p
  {
    if p == [] then [] else StmtLines(p[0]) + Lines(p[1..])
  }

  function StmtLines<E>(s: Stmt<E>): seq<Line<E>>
    decreases s
  {
    match s
    case Plain(line) => [line]
    case Cond(lhs, rel, rhs, body) => [If(lhs, rel, rhs)] + Lines(body) + [Endif]
    case Repeat(body) => [Loop] + Lines(body) + [Endloop]
  }

  predicate HasLoop<E>(p: seq<Stmt<E>>)
    decreases p
  {
    p != [] && (HasLoopStmt(p[0]) || HasLoop(p[1..]))
  }

  predicate HasLoopStmt<E>(s: Stmt<E>)
    decreases s
  {
    match s
    case Plain(_) => false
    case Cond(_, _, _, body) => HasLoop(body)
    case Repeat(_) => true
  }

  /** The line leaves the environment and `looped` alone even when it is not skipped. */
  predicate Idle<E>(line: Line<E>) {
    line.Skipped? || line.If? || line.Endif?
  }

  predicate AllIdle<E>(part: seq<Line<E>>) {
    forall k :: 0 <= k < |part| ==> Idle(part[k])
  }

  /** From the first `endif` on, every line is idle. */
  predicate IdleAfterEndif<E>(part: seq<Line<E>>)
    decreases |part|
  {
    part == [] || if part[0].Endif? then AllIdle(part[1..]) else IdleAfterEndif(part[1..])
  }

  /**
   Where a statement stands with respect to the innermost loop around it: in none; in one that only
   skipped lines and `loop` lines precede, so that a jump to the first line comes back to it; or in
   another one, before or after a loop inside that one.
   */
  datatype Place = Free | Restarts | Fresh | Spent

  function Past<E>(place: Place, s: Stmt<E>): Place {
    if place == Fresh && HasLoopStmt(s) then Spent else place
  }

  function PastAll<E>(place: Place, p: seq<Stmt<E>>): Place {
    if place == Fresh && HasLoop(p) then Spent else place
  }

  /**
   The nesting rule. In an `if`, no command and no loop line follows the first nested `endif`. In a
   loop, no command follows a nested loop, unless only skipped lines and `loop` lines precede the
   loop. `top` says that only such lines come before.
   */
  predicate Sound<E>(p: seq<Stmt<E>>, place: Place, top: bool)
    decreases p
  {
    p == [] ||
    (&& SoundStmt(p[0], place, top)
     && Sound(p[1..], Past(place, p[0]), top && p[0].Plain? && p[0].line.Skipped?))
  }

  predicate SoundStmt<E>(s: Stmt<E>, place: Place, top: bool)
    decreases s
  {
    match s
    case Plain(line) => line.Skipped? || (line.Command? && place != Spent)
    case Cond(_, _, _, body) => IdleAfterEndif(Lines(body)) && Sound(body, place, false)
    case Repeat(body) => Sound(body, if top then Restarts else Fresh, top)
  }

  predicate Compare(a: U64, rel: Relation, b: U64) {
    match rel
    case Eq => a == b
    case Ne => a != b
    case Gt => a > b
    case Lt => a < b
    case Ge => a >= b
    case Le => a <= b
  }

  /**
   The meaning of a structured program, or `None` when a loop in it needs more than `fuel` rounds.
   A conditional runs its body iff the unsigned comparison holds; a loop is a do-while.
   */
  function Exec<E>(p: seq<Stmt<E>>, env: Env<E>, fuel: nat): Option<Effect<E>>
    decreases fuel, p, 0
  {
    if p == [] then Some(Continue(env))
    else
      match ExecStmt(p[0], env, fuel)
      case Some(Continue(env')) => Exec(p[1..], env', fuel)
      case other => other
  }

  function ExecStmt<E>(s: Stmt<E>, env: Env<E>, fuel: nat): Option<Effect<E>>
    decreases fuel, s
  {
    match s
    case Plain(line) => if line.Command? then Some(line.run(env)) else Some(Continue(env))
    case Cond(lhs, rel, rhs, body) =>
      if Compare(lhs(env), rel, rhs(env)) then Exec(body, env, fuel) else Some(Continue(env))
    case Repeat(body) => ExecLoop(body, env, fuel)
  }

  function ExecLoop<E>(body: seq<Stmt<E>>, env: Env<E>, fuel: nat): Option<Effect<E>>
    decreases fuel, body, 1
  {
    if fuel == 0 then None
    else
      match Exec(body, env, fuel)
      case Some(Continue(env')) =>
        if env'.result <= 1 then Some(Continue(env'))
        else ExecLoop(body, env'.(result := env'.result - 1), fuel - 1)
      case other => other
  }

  // ----- running the machine

  lemma {:induction false} StepsAdd<E>(code: seq<Line<E>>, m: Machine<E>, a: nat, b: nat)
    ensures Steps(code, m, a + b) == Steps(code, Steps(code, m, a), b)
    decreases a
  {
    if a > 0 {
      StepsAdd(code, Step(code, m), a - 1, b);
    }
  }

  lemma {:induction false} HaltedStays<E>(code: seq<Line<E>>, m: Machine<E>, n: nat)
    requires m.Halted?
    ensures Steps(code, m, n) == m
  {
    if n > 0 {
      HaltedStays(code, m, n - 1);
    }
  }

  lemma RunningBefore<E>(code: seq<Line<E>>, m: Machine<E>, a: nat, b: nat)
    requires a <= b && Steps(code, m, b).Running?
    ensures Steps(code, m, a).Running?
  {
    StepsAdd(code, m, a, b - a);
    if Steps(code, m, a).Halted? {
      HaltedStays(code, Steps(code, m, a), b - a);
    }
  }

  /** `part` is the code from line `pc` on, as far as it goes. */
  ghost predicate Holds<E>(code: seq<Line<E>>, pc: nat, part: seq<Line<E>>) {
    pc + |part| <= |code| && code[pc..pc + |part|] == part
  }

  lemma HoldsSplit<E>(code: seq<Line<E>>, pc: nat, a: seq<Line<E>>, b: seq<Line<E>>)
    requires Holds(code, pc, a + b)
    ensures Holds(code, pc, a) && Holds(code, pc + |a|, b)
    ensures a != [] ==> code[pc] == a[0]
  {
    assert code[pc..pc + |a|] == (a + b)[..|a|];
    assert code[pc + |a|..pc + |a| + |b|] == (a + b)[|a|..];
    if a != [] {
      assert code[pc..pc + |a|][0] == code[pc];
    }
  }

  lemma HoldsFirst<E>(code: seq<Line<E>>, pc: nat, part: seq<Line<E>>)
    requires part != [] && Holds(code, pc, part)
    ensures code[pc] == part[0] && Holds(code, pc + 1, part[1..])
  {
    assert part == part[..1] + part[1..];
    HoldsSplit(code, pc, part[..1], part[1..]);
  }

  lemma {:induction false} IdleThroughout<E>(part: seq<Line<E>>)
    requires AllIdle(part)
    ensures IdleAfterEndif(part)
    decreases |part|
  {
    if part != [] {
      IdleThroughout(part[1..]);
    }
  }

  /** Skipping a body ends at its first `endif`; what follows changes the line number and `skip` only. */
  lemma {:induction false} SkipOver<E>(code: seq<Line<E>>, m: Machine<E>, part: seq<Line<E>>)
    requires m.Running? && Holds(code, m.pc, part) && if m.skip then IdleAfterEndif(part) else AllIdle(part)
    ensures var m' := Steps(code, m, |part|);
            m'.Running? && m' == m.(pc := m.pc + |part|, skip := m'.skip)
    decreases |part|
  {
    hide Holds;
    if part != [] {
      HoldsFirst(code, m.pc, part);
      if AllIdle(part) {
        IdleThroughout(part[1..]);
      }
      SkipOver(code, Step(code, m), part[1..]);
    }
  }

  /** Only skipped lines and `loop` lines precede line pc. */
  ghost predicate Top<E>(code: seq<Line<E>>, pc: nat) {
    pc <= |code| && forall k :: 0 <= k < pc ==> code[k].Skipped? || code[k].Loop?
  }

  /** From the first line the machine comes to such a loop, and remembers it. */
  lemma {:induction false} ComesBack<E>(code: seq<Line<E>>, m: Machine<E>, start: nat)
    requires m.Running? && !m.skip && m.pc < start && Top(code, start) && code[start - 1].Loop?
    ensures Steps(code, m, start - m.pc) == Running(start, m.env, false, start)
    decreases start - m.pc
  {
    var m' := Step(code, m);
    if m.pc + 1 < start {
      ComesBack(code, m', start);
    } else {
      NoSteps(code, m');
    }
  }

  /** What `looped` holds in a loop whose body starts at `start`. */
  ghost predicate Back<E>(place: Place, start: nat, m: Machine<E>) {
    match place
    case Free => true
    case Restarts => m.looped == start || m.looped == 0
    case Fresh => m.looped == start
    case Spent => m.looped == start || (m.looped == 0 && m.env.result <= 1)
  }

  /**
   How the machine's run from `m` agrees with a meaning: it reaches `end` after n lines, or halts
   after n lines, or is still running after `fuel` lines.
   */
  ghost predicate Agrees<E>(code: seq<Line<E>>, m: Machine<E>, meaning: Option<Effect<E>>, fuel: nat,
                            end: nat, place: Place, start: nat, n: nat)
  {
    var m' := Steps(code, m, n);
    match meaning
    case None => Steps(code, m, fuel).Running?
    case Some(Return(env)) => m'.Halted? && m'.env == env
    case Some(Continue(env)) =>
      m'.Running? && m' == Running(end, env, false, m'.looped) && Back(place, start, m')
  }

  lemma {:induction false} RunStmts<E>(code: seq<Line<E>>, m: Machine<E>, p: seq<Stmt<E>>,
                                       place: Place, start: nat, top: bool, fuel: nat) returns (n: nat)
    requires m.Running? && !m.skip && Sound(p, place, top) && Holds(code, m.pc, Lines(p))
    requires Back(place, start, m) && (top ==> Top(code, m.pc))
    ensures Agrees(code, m, Exec(p, m.env, fuel), fuel, m.pc + |Lines(p)|, PastAll(place, p), start, n)
    decreases fuel, p, 0
  {
    hide Step, StmtLines, ExecStmt, SoundStmt, Holds, Back;
    n := 0;
    if p == [] {
      NoSteps(code, m);
    } else {
      HoldsSplit(code, m.pc, StmtLines(p[0]), Lines(p[1..]));
      n := RunStmt(code, m, p[0], place, start, top, fuel);
      if ExecStmt(p[0], m.env, fuel).Some? && ExecStmt(p[0], m.env, fuel).value.Continue? {
        var m' := Steps(code, m, n);
        var top' := top && p[0].Plain? && p[0].line.Skipped?;
        if top' {
          TopNext(code, m.pc, p[0]);
        }
        var k := RunStmts(code, m', p[1..], Past(place, p[0]), start, top', fuel);
        StepsAdd(code, m, n, k);
        if Exec(p, m.env, fuel).None? {
          StepsAdd(code, m, n, fuel);
          RunningBefore(code, m, fuel, n + fuel);
        }
        n := n + k;
      }
    }
  }

  lemma TopNext<E>(code: seq<Line<E>>, pc: nat, s: Stmt<E>)
    requires Top(code, pc) && s.Plain? && s.line.Skipped? && Holds(code, pc, StmtLines(s))
    ensures Top(code, pc + |StmtLines(s)|)
  {
    HoldsFirst(code, pc, [s.line]);
  }

  lemma {:induction false} RunStmt<E>(code: seq<Line<E>>, m: Machine<E>, s: Stmt<E>,
                                      place: Place, start: nat, top: bool, fuel: nat) returns (n: nat)
    requires m.Running? && !m.skip && SoundStmt(s, place, top) && Holds(code, m.pc, StmtLines(s))
    requires Back(place, start, m) && (top ==> Top(code, m.pc))
    ensures Agrees(code, m, ExecStmt(s, m.env, fuel), fuel, m.pc + |StmtLines(s)|, Past(place, s), start, n)
    decreases fuel, s
  {
    match s
    case Plain(line) =>
      HoldsFirst(code, m.pc, [line]);
      n := 1;
      assert Steps(code, m, 1) == Steps(code, Step(code, m), 0);
    case Cond(lhs, rel, rhs, body) =>
      n := RunCond(code, m, s, place, start, fuel);
    case Repeat(body) =>
      RepeatLines(code, m.pc, s);
      var m' := Step(code, m);
      assert m' == Running(m.pc + 1, m.env, false, m.pc + 1);
      n := RunLoop(code, m', body, top, fuel);
      n := n + 1;
      if ExecStmt(s, m.env, fuel).None? {
        RunningBefore(code, m, fuel, fuel + 1);
      }
  }

  lemma RepeatLines<E>(code: seq<Line<E>>, pc: nat, s: Stmt<E>)
    requires s.Repeat? && Holds(code, pc, StmtLines(s))
    ensures |StmtLines(s)| == |Lines(s.body)| + 2 && pc < |code| && code[pc] == Loop
    ensures Holds(code, pc + 1, Lines(s.body) + [Endloop])
  {
    assert StmtLines(s) == [Loop] + (Lines(s.body) + [Endloop]);
    HoldsSplit(code, pc, [Loop], Lines(s.body) + [Endloop]);
  }

  /** Adds the `if` line before, and the `endif` line after, the run of a conditional's body. */
  lemma CloseCond<E>(code: seq<Line<E>>, m: Machine<E>, m': Machine<E>, meaning: Option<Effect<E>>, fuel: nat,
                     end: nat, place: Place, start: nat, n: nat) returns (n': nat)
    requires m.Running? && m'.Running? && m' == Step(code, m)
    requires end < |code| && code[end].Endif?
    requires Agrees(code, m', meaning, fuel, end, place, start, n)
             || (var m2 := Steps(code, m', n);
                 m2.Running? && m2 == m'.(pc := end, skip := m2.skip) && Back(place, start, m')
                 && meaning == Some(Continue(m'.env)))
    ensures Agrees(code, m, meaning, fuel, end + 1, place, start, n')
  {
    n' := n + 1;
    assert forall k: nat :: Steps(code, m, k + 1) == Steps(code, m', k);
    match meaning {
      case None => RunningBefore(code, m, fuel, fuel + 1);
      case Some(Return(_)) =>
      case Some(Continue(_)) =>
        n' := n + 2;
        StepsAdd(code, m', n, 1);
        assert Steps(code, m', n + 1) == Step(code, Steps(code, m', n));
    }
  }

  lemma CondLines<E>(code: seq<Line<E>>, pc: nat, s: Stmt<E>)
    requires s.Cond? && Holds(code, pc, StmtLines(s))
    ensures |StmtLines(s)| == |Lines(s.body)| + 2 && pc + |StmtLines(s)| <= |code|
    ensures code[pc] == If(s.lhs, s.rel, s.rhs) && code[pc + 1 + |Lines(s.body)|].Endif?
    ensures Holds(code, pc + 1, Lines(s.body))
  {
    var first, body := [If(s.lhs, s.rel, s.rhs)], Lines(s.body);
    assert StmtLines(s) == first + (body + [Endif]);
    HoldsSplit(code, pc, first, body + [Endif]);
    HoldsSplit(code, pc + 1, body, [Endif]);
    HoldsFirst(code, pc + 1 + |body|, [Endif]);
  }

  lemma {:induction false} RunCond<E>(code: seq<Line<E>>, m: Machine<E>, s: Stmt<E>,
                                      place: Place, start: nat, fuel: nat) returns (n: nat)
    requires m.Running? && !m.skip && s.Cond? && SoundStmt(s, place, false) && Holds(code, m.pc, StmtLines(s))
    requires Back(place, start, m)
    ensures Agrees(code, m, ExecStmt(s, m.env, fuel), fuel, m.pc + |StmtLines(s)|, Past(place, s), start, n)
    decreases fuel, s, 0
  {
    hide Exec, Lines, Agrees, Steps, IdleAfterEndif;
    var Cond(lhs, rel, rhs, body) := s;
    CondLines(code, m.pc, s);
    hide StmtLines, Holds;
    var m' := Step(code, m);
    if Compare(lhs(m.env), rel, rhs(m.env)) {
      n := RunStmts(code, m', body, place, start, false, fuel);
    } else {
      n := |Lines(body)|;
      SkipOver(code, m', Lines(body));
    }
    n := CloseCond(code, m, m', ExecStmt(s, m.env, fuel), fuel, m.pc + 1 + |Lines(body)|, Past(place, s), start, n);
  }

  /** Rounds of a loop whose body starts at `m.pc`, the line that `looped` remembers. */
  lemma {:induction false} RunLoop<E>(code: seq<Line<E>>, m: Machine<E>, body: seq<Stmt<E>>,
                                      top: bool, fuel: nat) returns (n: nat)
    requires m.Running? && !m.skip && m.looped == m.pc > 0
    requires Sound(body, if top then Restarts else Fresh, top) && Holds(code, m.pc, Lines(body) + [Endloop])
    requires top ==> Top(code, m.pc) && code[m.pc - 1].Loop?
    ensures var meaning := ExecLoop(body, m.env, fuel);
            && Agrees(code, m, meaning, fuel, m.pc + |Lines(body)| + 1, Free, 0, n)
            && (meaning.Some? && meaning.value.Continue? ==>
                  Steps(code, m, n).looped == 0 && meaning.value.env.result <= 1)
    decreases fuel, body, 1
  {
    hide Exec, Lines, Sound, Step, Steps, Top;
    n := 0;
    if fuel == 0 {
      NoSteps(code, m);
    } else {
      HoldsSplit(code, m.pc, Lines(body), [Endloop]);
      HoldsFirst(code, m.pc + |Lines(body)|, [Endloop]);
      hide Holds;
      n := RunStmts(code, m, body, if top then Restarts else Fresh, m.pc, top, fuel);
      var round := Exec(body, m.env, fuel);
      if round.Some? && round.value.Continue? {
        var m1 := Steps(code, m, n);
        StepsOne(code, m, n);
        n := n + 1;
        if m1.env.result <= 1 {
          EndloopEnds(code, m1);
        } else {
          EndloopJumps(code, m1);
          if m1.looped == 0 {
            ComesBack(code, Steps(code, m, n), m.pc);
            StepsAdd(code, m, n, m.pc);
            n := n + m.pc;
          }
          var m2 := Running(m.pc, m1.env.(result := m1.env.result - 1), false, m.pc);
          var k := RunLoop(code, m2, body, top, fuel - 1);
          StepsAdd(code, m, n, k);
          if ExecLoop(body, m.env, fuel).None? {
            StepsAdd(code, m, n, fuel - 1);
            RunningBefore(code, m, fuel, n + (fuel - 1));
          }
          n := n + k;
        }
      }
    }
  }

  lemma StepsOne<E>(code: seq<Line<E>>, m: Machine<E>, n: nat)
    ensures Steps(code, m, n + 1) == Step(code, Steps(code, m, n))
  {
    StepsAdd(code, m, n, 1);
  }

  lemma EndloopEnds<E>(code: seq<Line<E>>, m: Machine<E>)
    requires m.Running? && !m.skip && m.pc < |code| && code[m.pc].Endloop? && m.env.result <= 1
    ensures Step(code, m) == Running(m.pc + 1, m.env, false, 0)
  {
  }

  lemma EndloopJumps<E>(code: seq<Line<E>>, m: Machine<E>)
    requires m.Running? && !m.skip && m.pc < |code| && code[m.pc].Endloop? && m.env.result > 1
    ensures Step(code, m) == Running(m.looped, m.env.(result := m.env.result - 1), false, m.looped)
  {
  }

  /**
   The line-number machine computes the structured meaning of every script that keeps the nesting
   rule: it halts with an environment iff the meaning is defined and ends in that environment.
   */
  lemma MachineComputesMeaning<E(!new)>(p: seq<Stmt<E>>, env: Env<E>, looped: nat, last: Env<E>)
    requires Sound(p, Free, true)
    ensures var start := Running(0, env, false, looped);
            (exists fuel: nat :: Exec(p, env, fuel).Some? && Exec(p, env, fuel).value.env == last) <==>
            (exists n: nat :: Steps(Lines(p), start, n).Halted? && Steps(Lines(p), start, n).env == last)
  {
    var start := Running(0, env, false, looped);
    var code := Lines(p);
    assert Holds(code, 0, code);
    if fuel: nat :| Exec(p, env, fuel).Some? && Exec(p, env, fuel).value.env == last {
      var n := ReachesHalt(p, env, looped, fuel);
    }
    if n: nat :| Steps(code, start, n).Halted? && Steps(code, start, n).env == last {
      var k := RunStmts(code, start, p, Free, 0, true, n);
      var k' := ReachesHalt(p, env, looped, n);
      HaltsOnce(code, start, n, k');
    }
  }

  lemma ReachesHalt<E>(p: seq<Stmt<E>>, env: Env<E>, looped: nat, fuel: nat) returns (n: nat)
    requires Sound(p, Free, true) && Exec(p, env, fuel).Some?
    ensures var m := Steps(Lines(p), Running(0, env, false, looped), n);
            m.Halted? && m.env == Exec(p, env, fuel).value.env
  {
    var start := Running(0, env, false, looped);
    var code := Lines(p);
    assert Holds(code, 0, code);
    n := RunStmts(code, start, p, Free, 0, true, fuel);
    if Exec(p, env, fuel).value.Continue? {
      StepsAdd(code, start, n, 1);
      assert Steps(code, start, n + 1) == Step(code, Steps(code, start, n));
      n := n + 1;
    }
  }

  lemma HaltsOnce<E>(code: seq<Line<E>>, m: Machine<E>, a: nat, b: nat)
    requires Steps(code, m, a).Halted? && Steps(code, m, b).Halted?
    ensures Steps(code, m, a) == Steps(code, m, b)
  {
    if a <= b {
      StepsAdd(code, m, a, b - a);
      HaltedStays(code, Steps(code, m, a), b - a);
    } else {
      StepsAdd(code, m, b, a - b);
      HaltedStays(code, Steps(code, m, b), a - b);
    }
  }

  // ----- scripts that leave `result` alone

  ghost predicate KeepsResult<E(!new)>(code: seq<Line<E>>) {
    forall k, env :: 0 <= k < |code| && code[k].Command? ==> code[k].run(env).env.result == env.result
  }

  function Rounds(result: U64): nat {
    if result <= 1 then 1 else result
  }

  lemma FinishedStays<E>(code: seq<Line<E>>, m: Machine<E>, a: nat, b: nat)
    requires a <= b && Finished(code, Steps(code, m, a))
    ensures Finished(code, Steps(code, m, b))
  {
    StepsAdd(code, m, a, b - a);
    var m' := Steps(code, m, a);
    if b > a && m'.Running? {
      HaltedStays(code, Step(code, m'), b - a - 1);
    } else if m'.Halted? {
      HaltedStays(code, m', b - a);
    }
  }

  /** Within one value of `result`, line numbers only grow. */
  lemma {:induction false} OneSweep<E(!new)>(code: seq<Line<E>>, m: Machine<E>) returns (k: nat)
    requires m.Running? && KeepsResult(code)
    ensures k <= |code|
    ensures m.pc <= |code| ==> k <= |code| - m.pc
    ensures var m' := Steps(code, m, k);
            Finished(code, m') || (m'.env.result == m.env.result - 1 && m.env.result > 1)
    decreases |code| - m.pc
  {
    if Finished(code, m) {
      k := 0;
    } else {
      var m' := Step(code, m);
      if m'.Running? && m'.env.result == m.env.result {
        k := OneSweep(code, m');
        k := k + 1;
      } else {
        k := 1;
        assert Steps(code, m, 1) == m';
      }
    }
  }

  lemma OneMoreRound(rounds: nat, lines: nat)
    requires rounds > 0
    ensures rounds * lines == (rounds - 1) * lines + lines && (rounds - 1) * lines >= 0
  {
  }

  lemma StepsFirst<E>(code: seq<Line<E>>, m: Machine<E>, n: nat)
    requires n > 0
    ensures Steps(code, m, n) == Steps(code, Step(code, m), n - 1)
  {
  }

  lemma NoSteps<E>(code: seq<Line<E>>, m: Machine<E>)
    ensures Steps(code, m, 0) == m
  {
  }

  /**
   From any line and any state, a script whose commands leave `result` alone ends after fetching at
   most max(1, result) times its number of lines: (result, lines left) decreases lexicographically.
   */
  lemma {:induction false} QuietScriptEnds<E(!new)>(code: seq<Line<E>>, m: Machine<E>)
    requires KeepsResult(code)
    ensures Finished(code, Steps(code, m, Rounds(m.env.result) * |code|))
    decreases m.env.result
  {
    hide Step, Steps, KeepsResult;
    var bound := Rounds(m.env.result) * |code|;
    if m.Halted? {
      NoSteps(code, m);
      FinishedStays(code, m, 0, bound);
    } else {
      var k := OneSweep(code, m);
      var m' := Steps(code, m, k);
      if Finished(code, m') {
        OneMoreRound(Rounds(m.env.result), |code|);
        FinishedStays(code, m, k, bound);
      } else {
        QuietScriptEnds(code, m');
        var rest := Rounds(m'.env.result) * |code|;
        StepsAdd(code, m, k, rest);
        OneMoreRound(Rounds(m.env.result), |code|);
        FinishedStays(code, m, k + rest, bound);
      }
    }
  }

  /** The statements hold no loop and their commands leave `result` alone. */
  ghost predicate Quiet<E(!new)>(p: seq<Stmt<E>>)
    decreases p
  {
    p == [] || (QuietStmt(p[0]) && Quiet(p[1..]))
  }

  ghost predicate QuietStmt<E(!new)>(s: Stmt<E>)
    decreases s
  {
    match s
    case Plain(line) => line.Command? ==> forall env :: line.run(env).env.result == env.result
    case Cond(_, _, _, body) => Quiet(body)
    case Repeat(_) => false
  }

  lemma {:induction false} QuietExec<E(!new)>(p: seq<Stmt<E>>, env: Env<E>, fuel: nat)
    requires Quiet(p)
    ensures Exec(p, env, fuel).Some? && Exec(p, env, fuel) == Exec(p, env, 0)
    ensures Exec(p, env, fuel).value.env.result == env.result
    decreases p
  {
    if p != [] {
      if p[0].Cond? {
        QuietExec(p[0].body, env, fuel);
      }
      match ExecStmt(p[0], env, fuel) {
        case Some(Continue(env')) => QuietExec(p[1..], env', fuel);
        case _ =>
      }
    }
  }

  /** `k` rounds of a body, `result` going down by one between rounds; a `Return` ends them early. */
  function RunRounds<E>(body: seq<Stmt<E>>, env: Env<E>, k: nat): Option<Effect<E>>
    requires k > 0
    decreases k
  {
    match Exec(body, env, 0)
    case Some(Continue(env')) =>
      if k == 1 then Some(Continue(env'))
      else if env'.result == 0 then None
      else RunRounds(body, env'.(result := env'.result - 1), k - 1)
    case other => other
  }

  /** A loop whose body leaves `result` alone makes exactly max(1, result) rounds. */
  lemma {:induction false} QuietLoopRounds<E(!new)>(body: seq<Stmt<E>>, env: Env<E>, fuel: nat)
    requires Quiet(body)
    ensures fuel >= Rounds(env.result) ==> ExecLoop(body, env, fuel) == RunRounds(body, env, Rounds(env.result))
    ensures fuel < Rounds(env.result) && RunRounds(body, env, Rounds(env.result)).Some?
            && RunRounds(body, env, Rounds(env.result)).value.Continue?
            ==> ExecLoop(body, env, fuel).None?
    decreases fuel
  {
    if fuel > 0 {
      QuietExec(body, env, fuel);
      match Exec(body, env, fuel) {
        case Some(Continue(env')) =>
          if env'.result > 1 {
            QuietLoopRounds(body, env'.(result := env'.result - 1), fuel - 1);
          }
        case _ =>
      }
    }
  }

  // ----- the interpreter object

  class Interpreter<E> {
    var code: seq<Line<E>>
    var result: U64
    var skip: bool
    var looped: nat

    constructor (code: seq<Line<E>>)
      ensures this.code == code && result == 0 && !skip && looped == 0
    {
      this.code, result, skip, looped := code, 0, false, 0;
    }

    /**
     The first n turns of the run; `done` says that it ended within them. A run that never ends is
     the machine's for every n.
     */
    method Run(emu: E, n: nat) returns (emu': E, i: nat, done: bool)
      modifies this
      ensures code == old(code)
      ensures (if done then Halted(Env(emu', result), skip, looped) else Running(i, Env(emu', result), skip, looped))
              == old(Steps(code, Running(0, Env(emu, result), skip, looped), n))
    {
      ghost var last := Steps(code, Running(0, Env(emu, result), skip, looped), n);
      var left := n;
      emu', i, done := emu, 0, false;
      while left > 0
        invariant code == old(code) && !done
        invariant Steps(code, Running(i, Env(emu', result), skip, looped), left) == last
      {
        ghost var m := Running(i, Env(emu', result), skip, looped);
        StepsFirst(code, m, left);
        left := left - 1;
        i := i + 1;
        if i > |code| {
          HaltedStays(code, Step(code, m), left);
          done := true;
          return;
        }
        var line := code[i - 1];
        if line.Skipped? {
          continue;
        }
        if line.Endif? {
          skip := false;
          continue;
        }
        if skip {
          continue;
        }
        match line {
          case Command(run) =>
            var effect := run(Env(emu', result));
            emu', result := effect.env.emu, effect.env.result;
            if effect.Return? {
              HaltedStays(code, Step(code, m), left);
              done := true;
              return;
            }
          case If(lhs, rel, rhs) =>
            if Fails(lhs(Env(emu', result)), rel, rhs(Env(emu', result))) {
              skip := true;
            }
          case Loop =>
            looped := i;
          case Endloop =>
            if result <= 1 {
              looped := 0;
            } else {
              result := result - 1;
              i := looped;
            }
        }
      }
      NoSteps(code, Running(i, Env(emu', result), skip, looped));
    }
  }
}
