/**
 Which channel a call works on in the Linux telemetry driver: one with the id that it was asked for, as
 long as destroys are considerate.
 */
module TlmServe {
  import opened Words
  import opened TlmRefcount
  import opened TlmHot
  import opened TlmDestroy

  // ----- ids

  /** Ids count the creations, in 32 bits. */
  ghost predicate Numbered(s: State) {
    s.nextId == s.created % TWO32 && forall ch :: ch in s.heap ==> s.heap[ch].id == (s.heap[ch].serial + 1) % TWO32
  }

  lemma StepNumbers(s: State, a: Action)
    requires Numbered(s) && Ready(s, a) && Safe(s, a)
    ensures Numbered(Do(s, a))
  {
    hide Find;
  }

  lemma {:induction false} RunNumbers(states: seq<State>, acts: seq<Action>, k: nat)
    requires IsRun(states, acts) && k < |states|
    ensures Numbered(states[k])
    decreases k
  {
    hide Do, Ready, Safe, Numbered, Inv;
    if k == 0 {
      StartNumbers(states[0]);
    } else {
      RunNumbers(states, acts, k - 1);
      RunKeepsInv(states, acts, k - 1);
      ReadyIsSafe(states[k - 1], acts[k - 1]);
      StepNumbers(states[k - 1], acts[k - 1]);
    }
  }

  lemma StartNumbers(s: State)
    requires Init(s)
    ensures Numbered(s)
  {
  }

  /** Two channels have the same id exactly when a multiple of 2^32 creations lies between theirs. */
  lemma SameIdMeans(states: seq<State>, acts: seq<Action>, k: nat, a: Addr, b: Addr)
    requires IsRun(states, acts) && k < |states| && a in states[k].heap && b in states[k].heap
    ensures states[k].heap[a].id == states[k].heap[b].id <==>
            (states[k].heap[a].serial - states[k].heap[b].serial) % TWO32 == 0
  {
    hide IsRun;
    RunNumbers(states, acts, k);
    SameRest(states[k].heap[a].serial + 1, states[k].heap[b].serial + 1);
  }

  lemma SameRest(x: nat, y: nat)
    ensures x % TWO32 == y % TWO32 <==> (x - y) % TWO32 == 0
  {
    assert x - y == TWO32 * (x / TWO32 - y / TWO32) + (x % TWO32 - y % TWO32);
  }

  // ----- whole runs

  /** The step with which a call of thread t for this id gets its channel. */
  predicate Starts(a: HotAction, t: Tid, id: U32) {
    a == Cold(t, id) || a == Begin(t, id) || a == Base(Get(t, id)) || a == Base(Unlink(t, id))
  }

  ghost predicate StartsSome(a: HotAction, t: Tid) {
    exists id :: Starts(a, t, id)
  }

  /** Thread t has borrowed this channel, holds it or has unlinked it. */
  ghost predicate WorksOn(s: HotState, t: Tid, ch: Addr) {
    || (t in s.hot && s.hot[t].ch == ch)
    || Owes(At(s.base, t), ch)
  }

  ghost predicate HasId(s: State, ch: Addr, id: U32) {
    ch in s.heap && s.heap[ch].id == id
  }

  ghost predicate Serves(s: HotState, t: Tid, id: U32) {
    forall ch :: WorksOn(s, t, ch) ==> HasId(s.base, ch, id)
  }

  /** The cached id is the cached channel's. */
  ghost predicate CacheIsRight(s: HotState) {
    s.fast.Some? ==> HasId(s.base, s.fast.value.ch, s.fastId)
  }

  /** A channel that is there before and after a step, as the same object, keeps its id. */
  lemma IdStays(s: State, a: Action, r: Ref)
    requires Ready(s, a) && Safe(s, a) && Live(s, r) && Live(Do(s, a), r)
    ensures forall id :: HasId(s, r.ch, id) ==> HasId(Do(s, a), r.ch, id)
  {
    hide Find;
  }

  lemma HotIdStays(s: HotState, a: HotAction, r: Ref)
    requires HotReady(s, a) && HotSafe(s, a) && Live(s.base, r) && Live(HotDo(s, a).base, r)
    ensures forall id :: HasId(s.base, r.ch, id) ==> HasId(HotDo(s, a).base, r.ch, id)
  {
    hide Do, Ready, Safe, Live, HasId;
    match a
    case Base(act) => IdStays(s.base, act, r);
    case Cold(t, id) =>
      assert Ready(s.base, Get(t, id)) by { ColdIsReady(s, t, id); }
      IdStays(s.base, Get(t, id), r);
    case _ =>
  }

  lemma ColdIsReady(s: HotState, t: Tid, id: U32)
    requires HotReady(s, Cold(t, id))
    ensures Ready(s.base, Get(t, id)) && At(s.base, t).Idle?
  {
  }

  lemma CacheStaysRight(s: HotState, a: HotAction)
    requires Tight(s) && HotReady(s, a) && HotSafe(s, a) && Tight(HotDo(s, a)) && CacheIsRight(s)
    ensures CacheIsRight(HotDo(s, a))
  {
    hide Inv, Do, Ready, InPlace;
    var s' := HotDo(s, a);
    if s'.fast.Some? && s'.fast == s.fast {
      var r := s.fast.value;
      assert Borrowed(s, r) && Borrowed(s', r);
      HotIdStays(s, a, r);
    }
  }

  lemma OwerIsLive(s: State, t: Tid, ch: Addr) returns (r: Ref)
    requires Inv(s) && Owes(At(s, t), ch)
    ensures r == Ref(ch, At(s, t).serial) && Live(s, r)
  {
    assert Pinned(s, s.threads[t]);
    r := Ref(ch, At(s, t).serial);
  }

  /** A call that starts gets a channel with its id, or none. */
  lemma StartServes(s: HotState, a: HotAction, t: Tid, id: U32)
    requires Tight(s) && CacheIsRight(s) && HotReady(s, a) && HotSafe(s, a) && Starts(a, t, id)
    ensures Serves(HotDo(s, a), t, id)
  {
    hide Inv, Do, Ready, Safe, InPlace, AllLive;
    InvIsReadable(s.base);
    var k := Find(s.base.heap, s.base.list, id);
    FindIsFirst(s.base, id, k);
    if a.Begin? {
      BeginIsIdle(s, t, id);
    } else if a == Base(Unlink(t, id)) {
      BaseIsIdle(s, a.act, t);
      UnlinkMeans(s.base, t, id);
    } else if a.Cold? {
      ColdIsReady(s, t, id);
      GetMeans(s.base, t, id);
    } else {
      BaseIsIdle(s, a.act, t);
      GetMeans(s.base, t, id);
    }
  }

  lemma BeginIsIdle(s: HotState, t: Tid, id: U32)
    requires HotReady(s, Begin(t, id))
    ensures At(s.base, t).Idle? && s.fast.Some? && s.fastId == id
  {
  }

  lemma BaseIsIdle(s: HotState, act: Action, t: Tid)
    requires HotReady(s, Base(act)) && (act.Get? || act.Unlink?) && act.tid == t
    ensures At(s.base, t).Idle? && t !in s.hot
  {
  }

  /** A thread that owes a put after a step that starts none of its calls owed it before. */
  lemma OwesLess(s: State, a: Action, t: Tid, ch: Addr)
    requires Ready(s, a) && Safe(s, a) && !(a.Get? && a.tid == t) && !(a.Unlink? && a.tid == t)
    requires Owes(At(Do(s, a), t), ch)
    ensures At(Do(s, a), t) == At(s, t)
  {
    hide Find;
  }

  lemma StartsNothing(a: HotAction, t: Tid)
    requires !StartsSome(a, t)
    ensures !(a.Base? && (a.act.Get? || a.act.Unlink?) && a.act.tid == t)
    ensures !((a.Cold? || a.Begin?) && a.tid == t)
  {
    if a.Base? && (a.act.Get? || a.act.Unlink?) {
      assert !Starts(a, t, a.act.id);
    }
    if a.Cold? || a.Begin? {
      assert !Starts(a, t, a.id);
    }
  }

  /** Until its next call starts, a thread works on nothing but what it had. */
  lemma WorksOnLess(s: HotState, a: HotAction, t: Tid)
    requires HotReady(s, a) && HotSafe(s, a) && !StartsSome(a, t)
    ensures t in HotDo(s, a).hot ==> t in s.hot && s.hot[t] == HotDo(s, a).hot[t]
    ensures forall ch :: Owes(At(HotDo(s, a).base, t), ch) ==> At(HotDo(s, a).base, t) == At(s.base, t)
  {
    hide Do, Ready, Safe;
    StartsNothing(a, t);
    forall ch | Owes(At(HotDo(s, a).base, t), ch) ensures At(HotDo(s, a).base, t) == At(s.base, t) {
      match a
      case Base(act) => OwesLess(s.base, act, t, ch);
      case Cold(u, id) =>
        ColdIsReady(s, u, id);
        OwesLess(s.base, Get(u, id), t, ch);
      case _ =>
    }
  }

  lemma StepServes(s: HotState, a: HotAction, t: Tid, id: U32)
    requires Tight(s) && HotReady(s, a) && HotSafe(s, a) && Tight(HotDo(s, a))
    requires Serves(s, t, id) && !StartsSome(a, t)
    ensures Serves(HotDo(s, a), t, id)
  {
    hide Inv, HotDo, HotReady, HotSafe, InPlace, HasId, Live, StartsSome;
    var s' := HotDo(s, a);
    WorksOnLess(s, a, t);
    forall ch | WorksOn(s', t, ch) ensures HasId(s'.base, ch, id) {
      if t in s'.hot && s'.hot[t].ch == ch {
        assert Borrowed(s, s.hot[t]) && Borrowed(s', s.hot[t]) && WorksOn(s, t, ch);
        HotIdStays(s, a, s.hot[t]);
      } else {
        var r := OwerIsLive(s.base, t, ch);
        var r' := OwerIsLive(s'.base, t, ch);
        assert WorksOn(s, t, ch);
        HotIdStays(s, a, r);
      }
    }
  }

  ghost predicate ConsiderateUpTo(states: seq<HotState>, acts: seq<HotAction>, k: nat)
    requires k <= |acts| <= |states|
  {
    forall i :: 0 <= i < k ==> Considerate(states[i], acts[i])
  }

  /** In every run whose destroys are considerate the cached id is the cached channel's. */
  lemma {:induction false} CacheIsRightThroughout(states: seq<HotState>, acts: seq<HotAction>, k: nat)
    requires IsHotRun(states, acts) && k <= |acts| && ConsiderateUpTo(states, acts, k)
    ensures CacheIsRight(states[k])
    decreases k
  {
    hide HotDo, HotReady, HotSafe, Considerate, Tight, HasId;
    if k > 0 {
      ConsiderateRunIsSafe(states, acts, k - 1);
      ConsiderateRunIsSafe(states, acts, k);
      CacheIsRightThroughout(states, acts, k - 1);
      CacheStaysRight(states[k - 1], acts[k - 1]);
    }
  }

  /**
   In every run whose destroys are considerate, a write, stat or destroy that was asked for an id works,
   from the step that gets its channel until its thread's next call, on a channel with that id.
   */
  lemma {:induction false} CallsServeTheirId(states: seq<HotState>, acts: seq<HotAction>, i: nat, j: nat, t: Tid,
                                             id: U32)
    requires IsHotRun(states, acts) && i < j <= |acts| && ConsiderateUpTo(states, acts, j)
    requires Starts(acts[i], t, id) && forall k :: i < k < j ==> !StartsSome(acts[k], t)
    ensures Serves(states[j], t, id)
    decreases j
  {
    hide HotDo, HotReady, HotSafe, Considerate, Tight, Serves, StartsSome, Starts;
    ConsiderateRunIsSafe(states, acts, j - 1);
    ConsiderateRunIsSafe(states, acts, j);
    if i == j - 1 {
      CacheIsRightThroughout(states, acts, i);
      StartServes(states[i], acts[i], t, id);
    } else {
      CallsServeTheirId(states, acts, i, j - 1, t, id);
      StepServes(states[j - 1], acts[j - 1], t, id);
    }
  }

  /** So a cold write caches a listed channel with its id. */
  lemma CacheServes(states: seq<HotState>, acts: seq<HotAction>, i: nat, j: nat, t: Tid, id: U32)
    requires IsHotRun(states, acts) && i < j < |acts| && ConsiderateUpTo(states, acts, j + 1)
    requires Starts(acts[i], t, id) && forall k :: i < k < j ==> !StartsSome(acts[k], t)
    requires acts[j] == Fill(t)
    ensures var s := states[j + 1];
            s.fast.Some? && s.fastId == id && HasId(s.base, s.fast.value.ch, id) && s.fast.value.ch in s.base.list
  {
    hide Considerate, StartsSome, Starts, Live, Inv, AllLive;
    CallsServeTheirId(states, acts, i, j, t, id);
    ConsiderateRunIsSafe(states, acts, j);
    ConsiderateRunIsSafe(states, acts, j + 1);
    CacheIsRightThroughout(states, acts, j + 1);
    assert WorksOn(states[j], t, At(states[j].base, t).ch);
    assert Borrowed(states[j + 1], states[j + 1].fast.value);
  }

  // ----- each hot write is one write

  lemma EntersHot(s: HotState, a: HotAction, t: Tid)
    requires HotReady(s, a) && HotSafe(s, a) && t !in s.hot && t in HotDo(s, a).hot
    ensures a == Begin(t, s.fastId)
  {
    hide Do, Ready, Safe;
  }

  lemma {:induction false} HotSince(states: seq<HotState>, acts: seq<HotAction>, i: nat, j: nat, t: Tid)
    returns (k: nat)
    requires IsHotRun(states, acts) && i <= j <= |acts| && t !in states[i].hot && t in states[j].hot
    requires forall m :: i <= m < j ==> HotSafe(states[m], acts[m])
    ensures i <= k < j && acts[k] == Begin(t, states[k].fastId)
    decreases j
  {
    hide HotDo, HotReady, HotSafe;
    if t in states[j - 1].hot {
      k := HotSince(states, acts, i, j - 1, t);
    } else {
      EntersHot(states[j - 1], acts[j - 1], t);
      k := j - 1;
    }
  }

  lemma EncodeLeaves(s: HotState, t: Tid)
    requires HotReady(s, Encode(t)) && HotSafe(s, Encode(t))
    ensures t !in HotDo(s, Encode(t)).hot
  {
  }

  /** Between two writes of a thread into a channel it found in the cache, it found one again. */
  lemma OneWritePerBegin(states: seq<HotState>, acts: seq<HotAction>, i: nat, j: nat, t: Tid) returns (k: nat)
    requires IsHotRun(states, acts) && i < j < |acts| && acts[i] == Encode(t) && acts[j] == Encode(t)
    requires forall m :: i <= m < j ==> HotSafe(states[m], acts[m])
    ensures i < k < j && acts[k] == Begin(t, states[k].fastId)
  {
    hide HotDo, HotSafe;
    EncodeLeaves(states[i], t);
    k := HotSince(states, acts, i + 1, j, t);
  }

  lemma GetsCached(s: HotState, a: HotAction)
    requires HotReady(s, a) && HotSafe(s, a) && s.fast.None? && HotDo(s, a).fast.Some?
    ensures a.Fill?
  {
    hide Do, Ready, Safe;
  }

  /** After the handle is closed no write finds a channel in the cache until a cold one has put one there. */
  lemma {:induction false} ClosedUntilFilled(states: seq<HotState>, acts: seq<HotAction>, i: nat, j: nat)
    returns (k: nat)
    requires IsHotRun(states, acts) && i < j <= |acts| && acts[i] == Close && states[j].fast.Some?
    requires forall m :: i <= m < j ==> HotSafe(states[m], acts[m])
    ensures i < k < j && acts[k].Fill?
    decreases j
  {
    hide HotReady, HotSafe;
    if i + 1 < j && states[j - 1].fast.Some? {
      k := ClosedUntilFilled(states, acts, i, j - 1);
    } else {
      GetsCached(states[j - 1], acts[j - 1]);
      k := j - 1;
    }
  }
}
