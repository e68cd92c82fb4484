/**
 Hot-path writes in the Linux telemetry driver, interleaved with everything in `TlmRefcount`.

 A hot write borrows the cached channel without a reference and without the lock. Reading the cache and
 encoding into the channel are two steps; a cold write takes its reference, fills the cache and puts the
 reference back in three; closing the handle is one.
 */
module TlmHot {
  import opened Words
  import opened TlmRefcount

  /** A pointer to a channel object, with the serial number of its creation. */
  datatype Ref = Ref(ch: Addr, serial: nat)

  datatype HotState = HotState(
    base: State,
    fast: Option<Ref>,      // dev->fast
    fastId: U32,            // dev->fast_id
    hot: map<Tid, Ref>,     // hot writes between reading the cache and encoding
    filling: set<Tid>       // cold writes that hold their channel and have not cached it yet
  )

  datatype HotAction =
    | Base(act: Action)
    | Cold(tid: Tid, id: U32)     // a write that misses the cache gets its channel
    | Fill(tid: Tid)              // and puts it in the cache
    | Begin(tid: Tid, id: U32)    // a hot write finds its channel in the cache
    | Encode(tid: Tid)            // and writes into it
    | Close

  predicate Moves(a: Action, t: Tid) {
    !a.Create? && a.tid == t
  }

  ghost predicate HotReady(s: HotState, a: HotAction) {
    match a
    case Base(act) => Ready(s.base, act) && forall t :: t in s.hot || t in s.filling ==> !Moves(act, t)
    case Cold(t, id) =>
      At(s.base, t).Idle? && t !in s.hot && t !in s.filling && !(s.fast.Some? && s.fastId == id)
    case Fill(t) => t in s.filling
    case Begin(t, id) => At(s.base, t).Idle? && t !in s.hot && t !in s.filling && s.fast.Some? && s.fastId == id
    case Encode(t) => t in s.hot
    case Close => true
  }

  /** The object is allocated and still the one that the pointer was made for. */
  predicate Live(s: State, r: Ref) {
    r.ch in s.heap && s.heap[r.ch].serial == r.serial
  }

  /** No step touches an object that was released. */
  ghost predicate HotSafe(s: HotState, a: HotAction) {
    match a
    case Base(act) => Safe(s.base, act)
    case Cold(t, id) => Safe(s.base, Get(t, id))
    case Fill(t) => At(s.base, t).Holding? && Live(s.base, Ref(At(s.base, t).ch, At(s.base, t).serial))
    case Encode(t) => t in s.hot && Live(s.base, s.hot[t])
    case _ => true
  }

  ghost function HotDo(s: HotState, a: HotAction): HotState
    requires HotReady(s, a) && HotSafe(s, a)
  {
    match a
    case Base(act) => s.(base := Do(s.base, act))
    case Cold(t, id) =>
      var found := Do(s.base, Get(t, id));
      s.(base := found, filling := if At(found, t).Holding? then s.filling + {t} else s.filling)
    case Fill(t) =>
      var th := At(s.base, t);
      s.(fast := Some(Ref(th.ch, th.serial)), fastId := s.base.heap[th.ch].id, filling := s.filling - {t})
    case Begin(t, _) => s.(hot := s.hot[t := s.fast.value])
    case Encode(t) => s.(hot := s.hot - {t})
    case Close => s.(fast := None, fastId := 0)
  }

  // ----- exactly when a step leaves borrowed pointers good

  ghost predicate Borrowed(s: HotState, r: Ref) {
    s.fast == Some(r) || exists t :: t in s.hot && s.hot[t] == r
  }

  ghost predicate AllLive(s: HotState) {
    forall r :: Borrowed(s, r) ==> Live(s.base, r)
  }

  /** Cold writes hold their channel, hot writes hold nothing. */
  ghost predicate InPlace(s: HotState) {
    && (forall t :: t in s.filling ==> At(s.base, t).Holding?)
    && (forall t :: t in s.hot ==> At(s.base, t).Idle?)
  }

  ghost predicate HotInv(s: HotState) {
    Inv(s.base) && InPlace(s) && AllLive(s)
  }

  /** The step does not release an object that the cache or a hot write in flight points to. */
  ghost predicate Careful(s: HotState, a: HotAction)
    requires HotReady(s, a)
  {
    a.Base? && a.act.Release? ==> forall r :: Borrowed(s, r) ==> r.ch != At(s.base, a.act.tid).ch
  }

  /** Steps other than a release leave every live object live. */
  lemma StaysLive(s: State, a: Action, r: Ref)
    requires Ready(s, a) && Safe(s, a) && Live(s, r)
    ensures Live(Do(s, a), r) <==> !(a.Release? && r.ch == At(s, a.tid).ch)
  {
    hide Find;
  }

  lemma HolderIsLive(s: State, t: Tid)
    requires Inv(s) && At(s, t).Holding?
    ensures Live(s, Ref(At(s, t).ch, At(s, t).serial))
  {
    assert Pinned(s, s.threads[t]);
  }

  lemma HotStepSafe(s: HotState, a: HotAction)
    requires Inv(s.base) && InPlace(s) && HotReady(s, a) && (a.Encode? ==> AllLive(s))
    ensures HotSafe(s, a)
  {
    hide Inv, Ready, Safe, Live;
    match a
    case Base(act) => ReadyIsSafe(s.base, act);
    case Cold(t, id) => GetIsSafe(s.base, t, id);
    case Fill(t) => HolderIsLive(s.base, t);
    case Encode(t) => assert Borrowed(s, s.hot[t]);
    case _ =>
  }

  lemma GetIsSafe(s: State, t: Tid, id: U32)
    requires Inv(s) && At(s, t).Idle?
    ensures Ready(s, Get(t, id)) && Safe(s, Get(t, id))
  {
  }

  /** A step moves no thread but its own. */
  lemma OthersStay(s: State, a: Action, t: Tid)
    requires Ready(s, a) && Safe(s, a) && !Moves(a, t)
    ensures At(Do(s, a), t) == At(s, t)
  {
    hide Find;
  }

  lemma GetHolds(s: State, t: Tid, id: U32)
    requires Ready(s, Get(t, id)) && Safe(s, Get(t, id))
    ensures At(Do(s, Get(t, id)), t).Holding? || At(Do(s, Get(t, id)), t).Idle?
    ensures Do(s, Get(t, id)).list == s.list
    ensures At(Do(s, Get(t, id)), t).Holding? ==> At(Do(s, Get(t, id)), t).ch in s.list
  {
  }

  lemma StepStaysInPlace(s: HotState, a: HotAction)
    requires Inv(s.base) && InPlace(s) && HotReady(s, a) && HotSafe(s, a)
    ensures Inv(HotDo(s, a).base) && InPlace(HotDo(s, a))
  {
    hide Inv, Do, Ready, Safe;
    match a
    case Base(act) =>
      StepKeepsInv(s.base, act);
      forall t | t in s.hot || t in s.filling ensures At(Do(s.base, act), t) == At(s.base, t) {
        OthersStay(s.base, act, t);
      }
    case Cold(t, id) =>
      var act := Get(t, id);
      GetIsSafe(s.base, t, id);
      StepKeepsInv(s.base, act);
      forall u | u in s.hot || u in s.filling ensures At(Do(s.base, act), u) == At(s.base, u) {
        OthersStay(s.base, act, u);
      }
    case _ =>
  }

  /** A step keeps every borrowed pointer good if and only if it is careful. */
  lemma HotStepIsExact(s: HotState, a: HotAction)
    requires HotInv(s) && HotReady(s, a)
    ensures HotSafe(s, a) && (HotInv(HotDo(s, a)) <==> Careful(s, a))
  {
    hide Do, Safe, Inv, Live, InPlace;
    HotStepSafe(s, a);
    StepStaysInPlace(s, a);
    match a
    case Base(act) =>
      forall r | Borrowed(s, r)
        ensures Live(Do(s.base, act), r) <==> !(act.Release? && r.ch == At(s.base, act.tid).ch)
      {
        StaysLive(s.base, act, r);
      }
    case Cold(t, id) =>
      GetIsSafe(s.base, t, id);
      forall r | Borrowed(s, r) ensures Live(Do(s.base, Get(t, id)), r) {
        StaysLive(s.base, Get(t, id), r);
      }
    case Begin(t, _) =>
      assert Borrowed(s, s.fast.value);
      assert forall r :: Borrowed(HotDo(s, a), r) ==> Borrowed(s, r);
    case _ =>
  }

  // ----- whole runs

  function Loaded(): HotState {
    HotState(State(map[], [], map[], 0, 0, []), None, 0, map[], {})
  }

  ghost predicate IsHotRun(states: seq<HotState>, acts: seq<HotAction>) {
    && |states| == |acts| + 1 && states[0] == Loaded()
    && forall i :: 0 <= i < |acts| ==>
         HotReady(states[i], acts[i]) && (HotSafe(states[i], acts[i]) ==> states[i + 1] == HotDo(states[i], acts[i]))
  }

  /** In every run whose releases are careful no step touches a released object. */
  lemma {:induction false} CarefulRunIsSafe(states: seq<HotState>, acts: seq<HotAction>, k: nat)
    requires IsHotRun(states, acts) && k < |states|
    requires forall i :: 0 <= i < k ==> HotReady(states[i], acts[i]) && Careful(states[i], acts[i])
    ensures HotInv(states[k]) && (k < |acts| ==> HotSafe(states[k], acts[k]))
    decreases k
  {
    hide HotDo, HotReady, HotSafe, Careful, HotInv;
    if k == 0 {
      StartsLive();
    } else {
      CarefulRunIsSafe(states, acts, k - 1);
      HotStepIsExact(states[k - 1], acts[k - 1]);
    }
    if k < |acts| {
      HotStepIsExact(states[k], acts[k]);
    }
  }

  lemma StartsLive()
    ensures HotInv(Loaded())
  {
    EmptyIsInvariant(Loaded().base);
  }

  /** One state leads to another, by steps that are ready and safe. */
  ghost predicate Reaches(s: HotState, acts: seq<HotAction>, s': HotState)
    decreases |acts|
  {
    if acts == [] then s' == s
    else HotReady(s, acts[0]) && HotSafe(s, acts[0]) && Reaches(HotDo(s, acts[0]), acts[1..], s')
  }

  lemma Step(s: HotState, a: HotAction, rest: seq<HotAction>, s': HotState)
    requires HotReady(s, a) && HotSafe(s, a) && Reaches(HotDo(s, a), rest, s')
    ensures Reaches(s, [a] + rest, s')
  {
    hide HotReady, HotSafe, HotDo;
    assert ([a] + rest)[1..] == rest;
  }

  /** A thread that is in no call. */
  lemma FreshThread(s: HotState) returns (t: Tid)
    ensures At(s.base, t).Idle? && t !in s.hot && t !in s.filling
  {
    t := Above(s.base.threads.Keys + s.hot.Keys + s.filling);
  }

  lemma {:induction false} Above(ts: set<Tid>) returns (t: Tid)
    ensures forall u :: u in ts ==> u < t
    decreases |ts|
  {
    t := 0;
    if ts != {} {
      var u :| u in ts;
      var m := Above(ts - {u});
      t := if u < m then m else u + 1;
      assert forall v :: v in ts ==> v == u || v in ts - {u};
    }
  }

  /** A write that touches a released object. */
  ghost predicate Strays(s: HotState, t: Tid) {
    HotReady(s, Encode(t)) && !HotSafe(s, Encode(t))
  }

  /** When a borrowed pointer is not good some write strays: the one that has it, or the next. */
  lemma DeadPointerShows(s: HotState, r: Ref) returns (acts: seq<HotAction>, s': HotState, t: Tid)
    requires Borrowed(s, r) && !Live(s.base, r)
    ensures Reaches(s, acts, s') && Strays(s', t)
    ensures forall i :: 0 <= i < |acts| ==> acts[i].Begin?
  {
    hide Live;
    if u :| u in s.hot && s.hot[u] == r {
      acts, s', t := [], s, u;
    } else {
      t := FreshThread(s);
      var begin := Begin(t, s.fastId);
      s' := HotDo(s, begin);
      acts := [begin] + [];
      Step(s, begin, [], s');
    }
  }

  /** After a careless release a write strays. */
  lemma CarelessReleaseShows(s: HotState, a: HotAction) returns (acts: seq<HotAction>, s': HotState, t: Tid)
    requires HotInv(s) && HotReady(s, a) && !Careful(s, a)
    ensures Reaches((HotStepIsExact(s, a); HotDo(s, a)), acts, s') && Strays(s', t)
    ensures forall i :: 0 <= i < |acts| ==> acts[i].Begin?
  {
    hide Inv, Do, Safe, Live, InPlace, Reaches, Strays;
    HotStepIsExact(s, a);
    StepStaysInPlace(s, a);
    var after := HotDo(s, a);
    var r :| Borrowed(after, r) && !Live(after.base, r);
    acts, s', t := DeadPointerShows(after, r);
  }
}
