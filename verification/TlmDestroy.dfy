/**
 When a destroy is safe in the Linux telemetry driver, whatever calls are in flight.

 The condition is on the state in which the destroy takes the channel off the list: it is not cached, no
 hot write in flight has read it from the cache, and no cold write in flight is about to cache it.
 */
module TlmDestroy {
  import opened Words
  import opened TlmRefcount
  import opened TlmHot

  /** Every channel that is borrowed, or about to be cached, is on the list. */
  ghost predicate Tight(s: HotState) {
    && HotInv(s)
    && (forall r :: Borrowed(s, r) ==> r.ch in s.base.list)
    && (forall t :: t in s.filling && At(s.base, t).Holding? ==> At(s.base, t).ch in s.base.list)
  }

  predicate Cached(s: HotState, ch: Addr) {
    s.fast.Some? && s.fast.value.ch == ch
  }

  ghost predicate InHotWrite(s: HotState, ch: Addr) {
    exists t :: t in s.hot && s.hot[t].ch == ch
  }

  ghost predicate InColdWrite(s: HotState, ch: Addr) {
    exists t :: t in s.filling && At(s.base, t).Holding? && At(s.base, t).ch == ch
  }

  /** The step is a destroy that takes this channel off the list. */
  ghost predicate Takes(s: HotState, a: HotAction, ch: Addr) {
    && a.Base? && a.act.Unlink? && ListReadable(s.base)
    && var k := Find(s.base.heap, s.base.list, a.act.id); k < |s.base.list| && s.base.list[k] == ch
  }

  ghost predicate Considerate(s: HotState, a: HotAction) {
    forall ch :: Takes(s, a, ch) ==> !Cached(s, ch) && !InHotWrite(s, ch) && !InColdWrite(s, ch)
  }

  // ----- a considerate destroy keeps every pointer on the list

  lemma BorrowedIs(s: HotState, ch: Addr)
    ensures Cached(s, ch) || InHotWrite(s, ch) <==> exists r :: Borrowed(s, r) && r.ch == ch
  {
    if t :| t in s.hot && s.hot[t].ch == ch {
      assert Borrowed(s, s.hot[t]);
    }
    if Cached(s, ch) {
      assert Borrowed(s, s.fast.value);
    }
  }

  lemma TightIsCareful(s: HotState, a: HotAction)
    requires Tight(s) && HotReady(s, a)
    ensures Careful(s, a)
  {
    hide Inv;
    if a.Base? && a.act.Release? {
      ReadyIsSafe(s.base, a.act);
      ReleasedIsUnlisted(s.base, a.act.tid);
    }
  }

  /** What a step does to the list. */
  lemma ListAfter(s: State, a: Action, ch: Addr)
    requires Inv(s) && Ready(s, a) && Safe(s, a) && ch in s.list
    ensures ch in Do(s, a).list <==>
            !(a.Unlink? && var k := Find(s.heap, s.list, a.id); k < |s.list| && s.list[k] == ch)
  {
    hide AllCounted, AllPinned, Lifetimes, Find;
    if a.Unlink? {
      var k := Find(s.heap, s.list, a.id);
      if k < |s.list| {
        WithoutOne(s.list, k, ch);
      }
    }
  }

  lemma WithoutOne(xs: seq<Addr>, k: nat, x: Addr)
    requires Distinct(xs) && k < |xs| && x in xs
    ensures x in xs[..k] + xs[k + 1..] <==> x != xs[k]
  {
    var j :| 0 <= j < |xs| && xs[j] == x;
    var rest := xs[..k] + xs[k + 1..];
    if j < k {
      assert rest[j] == x;
    } else if j > k {
      assert rest[j - 1] == x;
    }
  }

  lemma BaseTight(s: HotState, act: Action)
    requires Tight(s) && HotReady(s, Base(act)) && Safe(s.base, act) && HotInv(HotDo(s, Base(act)))
    ensures Tight(HotDo(s, Base(act))) <==> Considerate(s, Base(act))
  {
    hide Inv, Do, Live, InPlace, AllLive, Find, Borrowed;
    var a, base' := Base(act), Do(s.base, act);
    var s' := HotDo(s, a);
    InvIsReadable(s.base);
    forall ch | ch in s.base.list ensures ch in base'.list <==> !Takes(s, a, ch) {
      ListAfter(s.base, act, ch);
    }
    forall t | t in s.filling ensures At(base', t) == At(s.base, t) {
      OthersStay(s.base, act, t);
    }
    forall r ensures Borrowed(s', r) <==> Borrowed(s, r) {
      SamePointers(s, s', r);
    }
    forall ch | Takes(s, a, ch)
      ensures Cached(s, ch) || InHotWrite(s, ch) <==> exists r :: Borrowed(s, r) && r.ch == ch
    {
      BorrowedIs(s, ch);
    }
  }

  lemma SamePointers(s: HotState, s': HotState, r: Ref)
    requires s.fast == s'.fast && s.hot == s'.hot
    ensures Borrowed(s', r) <==> Borrowed(s, r)
  {
  }

  lemma InvIsReadable(s: State)
    requires Inv(s)
    ensures ListReadable(s)
  {
  }

  lemma ColdTight(s: HotState, t: Tid, id: U32)
    requires Tight(s) && HotReady(s, Cold(t, id)) && HotSafe(s, Cold(t, id)) && HotInv(HotDo(s, Cold(t, id)))
    ensures Tight(HotDo(s, Cold(t, id)))
  {
    hide Inv, Do, Live, InPlace, AllLive, Find, Borrowed;
    var s' := HotDo(s, Cold(t, id));
    GetHolds(s.base, t, id);
    forall u | u in s.filling ensures At(s'.base, u) == At(s.base, u) {
      OthersStay(s.base, Get(t, id), u);
    }
    forall r ensures Borrowed(s', r) <==> Borrowed(s, r) {
      SamePointers(s, s', r);
    }
  }

  /** The pointers stay on the list if and only if the step is no inconsiderate destroy. */
  lemma TightIsExact(s: HotState, a: HotAction)
    requires Tight(s) && HotReady(s, a)
    ensures HotSafe(s, a) && (Tight(HotDo(s, a)) <==> Considerate(s, a))
  {
    hide Inv, Do, Ready, Safe, Live, InPlace, AllLive, Careful, Find;
    HotStepIsExact(s, a);
    TightIsCareful(s, a);
    match a
    case Base(act) => BaseTight(s, act);
    case Cold(t, id) => ColdTight(s, t, id);
    case _ =>
  }

  // ----- whole runs

  /** In every run whose destroys are considerate no step touches a released object. */
  lemma {:induction false} ConsiderateRunIsSafe(states: seq<HotState>, acts: seq<HotAction>, k: nat)
    requires IsHotRun(states, acts) && k < |states|
    requires forall i :: 0 <= i < k ==> Considerate(states[i], acts[i])
    ensures Tight(states[k]) && (k < |acts| ==> HotSafe(states[k], acts[k]))
    decreases k
  {
    hide HotDo, HotReady, HotSafe, Considerate, Tight;
    if k == 0 {
      StartsTight();
    } else {
      ConsiderateRunIsSafe(states, acts, k - 1);
      TightIsExact(states[k - 1], acts[k - 1]);
    }
    if k < |acts| {
      TightIsExact(states[k], acts[k]);
    }
  }

  lemma StartsTight()
    ensures Tight(Loaded())
  {
    StartsLive();
  }

  // ----- after any other destroy a write strays, without another destroy

  ghost predicate NoDestroy(acts: seq<HotAction>) {
    forall i :: 0 <= i < |acts| ==> !(acts[i].Base? && acts[i].act.Unlink?)
  }

  /** A channel off the list goes away: its holders put it back, those about to cache it after they did. */
  lemma {:induction false} Drain(s: HotState, r: Ref) returns (acts: seq<HotAction>, s': HotState)
    requires Inv(s.base) && InPlace(s) && Live(s.base, r) && r.ch !in s.base.list
    ensures Reaches(s, acts, s') && NoDestroy(acts)
    ensures r.ch !in s'.base.heap && s'.hot == s.hot && (s'.fast == s.fast || s'.fast == Some(r))
    decreases s.base.heap[r.ch].refs
  {
    hide Inv, InPlace, HotDo, HotReady, HotSafe;
    if s.base.heap[r.ch].refs == 0 {
      acts, s' := DrainLast(s, r);
    } else {
      var first, s1 := DrainOne(s, r);
      var rest;
      rest, s' := Drain(s1, r);
      acts := first + rest;
      Join(s, first, s1, rest, s');
    }
  }

  lemma {:induction false} Join(s: HotState, a: seq<HotAction>, s1: HotState, b: seq<HotAction>, s2: HotState)
    requires Reaches(s, a, s1) && Reaches(s1, b, s2)
    ensures Reaches(s, a + b, s2)
    decreases |a|
  {
    hide HotReady, HotSafe, HotDo;
    if a == [] {
      assert a + b == b;
    } else {
      Join(HotDo(s, a[0]), a[1..], s1, b, s2);
      assert (a + b)[1..] == a[1..] + b;
    }
  }

  lemma DrainLast(s: HotState, r: Ref) returns (acts: seq<HotAction>, s': HotState)
    requires Inv(s.base) && InPlace(s) && Live(s.base, r) && s.base.heap[r.ch].refs == 0
    ensures Reaches(s, acts, s') && NoDestroy(acts)
    ensures r.ch !in s'.base.heap && s'.hot == s.hot && s'.fast == s.fast
  {
    var t := LastReleaser(s.base, r.ch);
    var a := Base(Release(t));
    assert HotReady(s, a);
    HotStepSafe(s, a);
    s' := HotDo(s, a);
    acts := [a] + [];
    Step(s, a, [], s');
  }

  lemma LastReleaser(s: State, ch: Addr) returns (t: Tid)
    requires Inv(s) && ch in s.heap && s.heap[ch].refs == 0
    ensures At(s, t).Releasing? && At(s, t).ch == ch
  {
    assert Counted(s, ch);
    var ts := Releasers(s, ch);
    assert ts != {};
    t :| t in ts;
  }

  lemma SomeHolder(s: State, ch: Addr) returns (t: Tid)
    requires Inv(s) && ch in s.heap && s.heap[ch].refs > 0 && ch !in s.list
    ensures (At(s, t).Holding? || At(s, t).Dropping?) && At(s, t).ch == ch && At(s, t).serial == s.heap[ch].serial
  {
    assert Counted(s, ch);
    var ts := Holders(s, ch);
    assert ts != {};
    t :| t in ts;
    assert Pinned(s, s.threads[t]);
  }

  /** One holder puts its reference back. */
  lemma DrainOne(s: HotState, r: Ref) returns (acts: seq<HotAction>, s': HotState)
    requires Inv(s.base) && InPlace(s) && Live(s.base, r) && r.ch !in s.base.list && s.base.heap[r.ch].refs > 0
    ensures Reaches(s, acts, s') && NoDestroy(acts) && Inv(s'.base) && InPlace(s')
    ensures Live(s'.base, r) && r.ch !in s'.base.list && s'.base.heap[r.ch].refs == s.base.heap[r.ch].refs - 1
    ensures s'.hot == s.hot && (s'.fast == s.fast || s'.fast == Some(r))
  {
    hide Inv, Reaches, HotReady;
    var t := SomeHolder(s.base, r.ch);
    if t in s.filling {
      var fill := Fill(t);
      FillIsReady(s, t);
      var s1 := HotDo(s, fill);
      StepStaysInPlace(s, fill);
      s' := PutBack(s1, t, r);
      acts := [fill] + ([Base(Put(t))] + []);
      Step(s, fill, [Base(Put(t))] + [], s');
    } else {
      s' := PutBack(s, t, r);
      acts := [Base(Put(t))] + [];
    }
  }

  lemma FillIsReady(s: HotState, t: Tid)
    requires Inv(s.base) && InPlace(s) && t in s.filling
    ensures HotReady(s, Fill(t)) && HotSafe(s, Fill(t))
  {
    HotStepSafe(s, Fill(t));
  }

  lemma PutBack(s: HotState, t: Tid, r: Ref) returns (s': HotState)
    requires Inv(s.base) && InPlace(s) && Live(s.base, r) && t !in s.filling
    requires (At(s.base, t).Holding? || At(s.base, t).Dropping?) && At(s.base, t).ch == r.ch
    ensures Reaches(s, [Base(Put(t))] + [], s') && Inv(s'.base) && InPlace(s') && s'.hot == s.hot && s'.fast == s.fast
    ensures Live(s'.base, r) && s'.base.heap[r.ch].refs == s.base.heap[r.ch].refs - 1 && s'.base.list == s.base.list
  {
    hide Inv, Reaches;
    var a := Base(Put(t));
    HotStepSafe(s, a);
    StepStaysInPlace(s, a);
    s' := HotDo(s, a);
    ReachesNow(s');
    Step(s, a, [], s');
  }

  lemma ReachesNow(s: HotState)
    ensures Reaches(s, [], s)
  {
  }

  /** A pointer to a channel off the list: the channel goes away, and a write strays. */
  lemma OffListShows(s: HotState, r: Ref) returns (acts: seq<HotAction>, s': HotState, t: Tid)
    requires Inv(s.base) && InPlace(s) && Borrowed(s, r) && Live(s.base, r) && r.ch !in s.base.list
    ensures Reaches(s, acts, s') && NoDestroy(acts) && Strays(s', t)
  {
    hide Inv, InPlace, Reaches, Strays;
    var first, s1 := Drain(s, r);
    var rest;
    rest, s', t := DeadPointerShows(s1, r);
    acts := first + rest;
    Join(s, first, s1, rest, s');
  }

  /** What a destroy that finds its channel leaves as it was. */
  lemma AfterUnlink(s: HotState, a: HotAction, ch: Addr)
    requires HotInv(s) && HotReady(s, a) && Takes(s, a, ch)
    ensures HotSafe(s, a)
    ensures var s' := HotDo(s, a);
            && Inv(s'.base) && InPlace(s') && ch !in s'.base.list
            && s'.base.heap == s.base.heap && s'.fast == s.fast && s'.hot == s.hot && s'.filling == s.filling
            && forall t :: t in s.filling ==> At(s'.base, t) == At(s.base, t)
  {
    hide Inv, Live, AllLive, InPlace, Find;
    HotStepIsExact(s, a);
    StepStaysInPlace(s, a);
    ListAfterUnlink(s.base, a.act, ch);
  }

  lemma ListAfterUnlink(s: State, a: Action, ch: Addr)
    requires Inv(s) && a.Unlink? && Ready(s, a) && Safe(s, a)
    requires var k := Find(s.heap, s.list, a.id); k < |s.list| && s.list[k] == ch
    ensures ch !in Do(s, a).list && Do(s, a).heap == s.heap
  {
    hide Find;
    ListAfter(s, a, ch);
  }

  /** A destroy of the cached channel. */
  lemma CachedShows(s: HotState, a: HotAction, ch: Addr) returns (acts: seq<HotAction>, s': HotState, t: Tid)
    requires HotInv(s) && HotReady(s, a) && Takes(s, a, ch) && Cached(s, ch)
    ensures HotSafe(s, a) && Reaches(HotDo(s, a), acts, s') && NoDestroy(acts) && Strays(s', t)
  {
    hide Inv, Live, InPlace, Reaches, Strays, Takes, HotDo, HotReady, HotSafe;
    AfterUnlink(s, a, ch);
    assert Borrowed(s, s.fast.value);
    SameLife(s, HotDo(s, a), s.fast.value);
    acts, s', t := OffListShows(HotDo(s, a), s.fast.value);
  }

  lemma SameLife(s: HotState, s': HotState, r: Ref)
    requires s.fast == s'.fast && s.hot == s'.hot && s.base.heap == s'.base.heap && Borrowed(s, r)
    ensures Borrowed(s', r) && (Live(s'.base, r) <==> Live(s.base, r))
  {
  }

  /** A destroy of a channel that a hot write is on. */
  lemma HotShows(s: HotState, a: HotAction, ch: Addr) returns (acts: seq<HotAction>, s': HotState, t: Tid)
    requires HotInv(s) && HotReady(s, a) && Takes(s, a, ch) && InHotWrite(s, ch)
    ensures HotSafe(s, a) && Reaches(HotDo(s, a), acts, s') && NoDestroy(acts) && Strays(s', t)
  {
    hide Inv, Live, InPlace, Reaches, Strays, Takes, HotDo, HotReady, HotSafe;
    AfterUnlink(s, a, ch);
    var u :| u in s.hot && s.hot[u].ch == ch;
    assert Borrowed(s, s.hot[u]);
    SameLife(s, HotDo(s, a), s.hot[u]);
    acts, s', t := OffListShows(HotDo(s, a), s.hot[u]);
  }

  /** A destroy of a channel that a cold write is about to cache. */
  lemma ColdShows(s: HotState, a: HotAction, ch: Addr) returns (acts: seq<HotAction>, s': HotState, t: Tid)
    requires HotInv(s) && HotReady(s, a) && Takes(s, a, ch) && InColdWrite(s, ch)
    ensures HotSafe(s, a) && Reaches(HotDo(s, a), acts, s') && NoDestroy(acts) && Strays(s', t)
  {
    hide Inv, InPlace, Reaches, Strays, Takes, HotReady, HotSafe;
    AfterUnlink(s, a, ch);
    var s1 := HotDo(s, a);
    var u :| u in s.filling && At(s.base, u).Holding? && At(s.base, u).ch == ch;
    FillIsReady(s1, u);
    StepStaysInPlace(s1, Fill(u));
    HolderIsLive(s1.base, u);
    var s2 := HotDo(s1, Fill(u));
    var rest;
    rest, s', t := OffListShows(s2, s2.fast.value);
    acts := [Fill(u)] + rest;
    Step(s1, Fill(u), rest, s');
  }

  /** Some step touches a released object, at once or after others of which none is a destroy. */
  ghost predicate Doomed(s: HotState) {
    exists acts, s', a :: Leads(s, acts, s', a)
  }

  ghost predicate Leads(s: HotState, acts: seq<HotAction>, s': HotState, a: HotAction) {
    Reaches(s, acts, s') && NoDestroy(acts) && HotReady(s', a) && !HotSafe(s', a)
  }

  lemma {:induction false} StaysTight(s: HotState, acts: seq<HotAction>, s': HotState)
    requires Tight(s) && Reaches(s, acts, s') && NoDestroy(acts)
    ensures Tight(s')
    decreases |acts|
  {
    hide Tight, HotReady, HotSafe, HotDo;
    if acts != [] {
      TightIsExact(s, acts[0]);
      StaysTight(HotDo(s, acts[0]), acts[1..], s');
    }
  }

  /** A destroy that is not considerate, and nothing else, makes it possible that a step touches a released object. */
  lemma DestroyIsExact(s: HotState, a: HotAction)
    requires Tight(s) && HotReady(s, a)
    ensures HotSafe(s, a) && (Doomed(HotDo(s, a)) <==> !Considerate(s, a))
  {
    hide HotReady, HotSafe, HotDo, Inv, InPlace, AllLive, Reaches, NoDestroy, Takes, Cached, InHotWrite, InColdWrite;
    TightIsExact(s, a);
    if Considerate(s, a) {
      forall acts, s', b | Reaches(HotDo(s, a), acts, s') && NoDestroy(acts) && HotReady(s', b) ensures HotSafe(s', b) {
        StaysTight(HotDo(s, a), acts, s');
        TightIsExact(s', b);
      }
    } else {
      var acts, s', t := DestroyShows(s, a);
      StraysIs(s', t);
      assert Leads(HotDo(s, a), acts, s', Encode(t));
    }
  }

  lemma StraysIs(s: HotState, t: Tid)
    requires Strays(s, t)
    ensures HotReady(s, Encode(t)) && !HotSafe(s, Encode(t))
  {
  }

  lemma DestroyShows(s: HotState, a: HotAction) returns (acts: seq<HotAction>, s': HotState, t: Tid)
    requires HotInv(s) && HotReady(s, a) && !Considerate(s, a)
    ensures HotSafe(s, a) && Reaches(HotDo(s, a), acts, s') && NoDestroy(acts) && Strays(s', t)
  {
    hide HotInv, HotReady, HotSafe, HotDo, Reaches, NoDestroy, Strays, Takes, Cached, InHotWrite, InColdWrite;
    var ch :| Takes(s, a, ch) && !(!Cached(s, ch) && !InHotWrite(s, ch) && !InColdWrite(s, ch));
    if Cached(s, ch) {
      acts, s', t := CachedShows(s, a, ch);
    } else if InHotWrite(s, ch) {
      acts, s', t := HotShows(s, a, ch);
    } else {
      acts, s', t := ColdShows(s, a, ch);
    }
  }

  // ----- two runs from the loading of the module

  /** The states that steps lead through. */
  lemma {:induction false} Trace(s: HotState, acts: seq<HotAction>, s': HotState) returns (states: seq<HotState>)
    requires Reaches(s, acts, s')
    ensures |states| == |acts| + 1 && states[0] == s && states[|acts|] == s'
    ensures forall i :: 0 <= i < |acts| ==>
              HotReady(states[i], acts[i]) && HotSafe(states[i], acts[i]) && states[i + 1] == HotDo(states[i], acts[i])
    decreases |acts|
  {
    hide HotReady, HotSafe, HotDo;
    if acts == [] {
      states := [s];
    } else {
      var rest := Trace(HotDo(s, acts[0]), acts[1..], s');
      states := [s] + rest;
      assert forall i :: 0 < i < |acts| ==> acts[i] == acts[1..][i - 1] && states[i] == rest[i - 1];
    }
  }

  /** A run that goes on with a write that strays. */
  lemma StrayRun(acts: seq<HotAction>, s: HotState, t: Tid) returns (states: seq<HotState>)
    requires Reaches(Loaded(), acts, s) && Strays(s, t)
    ensures IsHotRun(states, acts + [Encode(t)]) && !HotSafe(states[|acts|], Encode(t))
  {
    hide Reaches, HotDo;
    var trace := Trace(Loaded(), acts, s);
    states := trace + [s];
  }

  ghost predicate StepsTo(s: HotState, a: HotAction, s': HotState) {
    HotReady(s, a) && HotSafe(s, a) && HotDo(s, a) == s'
  }

  lemma Then(s: HotState, a: HotAction, s1: HotState, rest: seq<HotAction>, s': HotState)
    requires StepsTo(s, a, s1) && Reaches(s1, rest, s')
    ensures Reaches(s, [a] + rest, s')
  {
    hide HotReady, HotSafe, HotDo;
    Step(s, a, rest, s');
  }

  /** One channel, with id 1, at address 0. */
  function One(refs: nat, list: seq<Addr>, threads: map<Tid, Thread>): State {
    State(map[0 := Channel(0, 1, refs)], list, threads, 1, 1, [])
  }

  predicate Free(s: HotState, t: Tid) {
    t !in s.hot && t !in s.filling
  }

  lemma StepCreate()
    ensures StepsTo(Loaded(), Base(Create(0)), HotState(One(1, [0], map[]), None, 0, map[], {}))
  {
  }

  lemma StepCold(s: HotState, t: Tid, refs: nat, threads: map<Tid, Thread>)
    requires s.base == One(refs, [0], threads) && t !in threads && Free(s, t) && s.fast == None
    ensures StepsTo(s, Cold(t, 1),
                    s.(base := One(refs + 1, [0], threads[t := Holding(0, 0)]), filling := s.filling + {t}))
  {
  }

  lemma StepUnlink(s: HotState, t: Tid, refs: nat, threads: map<Tid, Thread>)
    requires s.base == One(refs, [0], threads) && t !in threads && Free(s, t)
    ensures StepsTo(s, Base(Unlink(t, 1)), s.(base := One(refs, [], threads[t := Dropping(0, 0)])))
  {
  }

  lemma StepFill(s: HotState, t: Tid, refs: nat, list: seq<Addr>, threads: map<Tid, Thread>)
    requires s.base == One(refs, list, threads) && t in s.filling && t in threads && threads[t] == Holding(0, 0)
    ensures StepsTo(s, Fill(t), s.(fast := Some(Ref(0, 0)), fastId := 1, filling := s.filling - {t}))
  {
  }

  lemma StepPut(s: HotState, t: Tid, refs: nat, list: seq<Addr>, threads: map<Tid, Thread>)
    requires s.base == One(refs + 1, list, threads) && t in threads && Free(s, t)
    requires threads[t] == Holding(0, 0) || threads[t] == Dropping(0, 0)
    ensures StepsTo(s, Base(Put(t)),
                    s.(base := One(refs, list, threads[t := if refs == 0 then Releasing(0, 0) else Idle])))
  {
  }

  lemma StepRelease(s: HotState, t: Tid, threads: map<Tid, Thread>)
    requires s.base == One(0, [], threads) && t in threads && Free(s, t) && threads[t] == Releasing(0, 0)
    ensures StepsTo(s, Base(Release(t)), s.(base := State(map[], [], threads[t := Idle], 1, 1, [0])))
  {
  }

  lemma StepBegin(s: HotState, t: Tid)
    requires t !in s.base.threads && Free(s, t) && s.fast == Some(Ref(0, 0)) && s.fastId == 1
    ensures StepsTo(s, Begin(t, 1), s.(hot := s.hot[t := Ref(0, 0)]))
  {
  }

  lemma StepClose(s: HotState)
    ensures StepsTo(s, Close, s.(fast := None, fastId := 0))
  {
  }

  lemma StraysAt(s: HotState, t: Tid)
    requires t in s.hot && s.hot[t] == Ref(0, 0) && s.base.heap == map[]
    ensures Strays(s, t)
  {
  }

  /** The rule on the cache alone is not enough: a hot write begins, and the handle is closed before the destroy. */
  lemma ClosingIsNotEnough() returns (states: seq<HotState>)
    ensures var acts := [Base(Create(0)), Cold(0, 1), Fill(0), Base(Put(0)), Begin(1, 1), Close,
                         Base(Unlink(2, 1)), Base(Put(2)), Base(Release(2)), Encode(1)];
            IsHotRun(states, acts) && !HotSafe(states[9], acts[9])
  {
    hide IsHotRun, HotReady, HotSafe, HotDo, Reaches, StepsTo, Strays;
    var held := map[][0 := Holding(0, 0)];
    var s1 := HotState(One(1, [0], map[]), None, 0, map[], {});
    var s2 := s1.(base := One(2, [0], held), filling := {} + {0});
    var s3 := s2.(fast := Some(Ref(0, 0)), fastId := 1, filling := {0} - {0});
    var s4 := s3.(base := One(1, [0], held[0 := Idle]));
    var rest, s9 := ClosedTooLate(s4, held[0 := Idle]);
    StepCreate();
    StepCold(s1, 0, 1, map[]);
    StepFill(s2, 0, 2, [0], held);
    StepPut(s3, 0, 1, [0], held);
    Then(s3, Base(Put(0)), s4, rest, s9);
    Then(s2, Fill(0), s3, [Base(Put(0))] + rest, s9);
    Then(s1, Cold(0, 1), s2, [Fill(0)] + ([Base(Put(0))] + rest), s9);
    Then(Loaded(), Base(Create(0)), s1, [Cold(0, 1)] + ([Fill(0)] + ([Base(Put(0))] + rest)), s9);
    states := StrayRun([Base(Create(0))] + ([Cold(0, 1)] + ([Fill(0)] + ([Base(Put(0))] + rest))), s9, 1);
    assert [Base(Create(0))] + ([Cold(0, 1)] + ([Fill(0)] + ([Base(Put(0))] + rest))) + [Encode(1)] ==
           [Base(Create(0)), Cold(0, 1), Fill(0), Base(Put(0)), Begin(1, 1), Close,
            Base(Unlink(2, 1)), Base(Put(2)), Base(Release(2)), Encode(1)];
  }

  lemma ClosedTooLate(s: HotState, threads: map<Tid, Thread>) returns (acts: seq<HotAction>, s': HotState)
    requires s == HotState(One(1, [0], threads), Some(Ref(0, 0)), 1, map[], {}) && 1 !in threads && 2 !in threads
    ensures acts == [Begin(1, 1), Close, Base(Unlink(2, 1)), Base(Put(2)), Base(Release(2))]
    ensures Reaches(s, acts, s') && Strays(s', 1)
  {
    hide HotReady, HotSafe, HotDo, Reaches, StepsTo, Strays;
    var s1 := s.(hot := map[][1 := Ref(0, 0)]);
    var s2 := s1.(fast := None, fastId := 0);
    var dropping := threads[2 := Dropping(0, 0)];
    var s3 := s2.(base := One(1, [], dropping));
    StepBegin(s, 1);
    StepClose(s1);
    StepUnlink(s2, 2, 1, threads);
    s' := LastGone(s3, 2, dropping);
    var rest := [Base(Put(2))] + ([Base(Release(2))] + []);
    Then(s2, Base(Unlink(2, 1)), s3, rest, s');
    Then(s1, Close, s2, [Base(Unlink(2, 1))] + rest, s');
    Then(s, Begin(1, 1), s1, [Close] + ([Base(Unlink(2, 1))] + rest), s');
    StraysAt(s', 1);
    acts := [Begin(1, 1)] + ([Close] + ([Base(Unlink(2, 1))] + rest));
  }

  /** The last holder of the channel puts it back and releases it. */
  lemma LastGone(s: HotState, t: Tid, threads: map<Tid, Thread>) returns (s': HotState)
    requires s.base == One(1, [], threads) && t in threads && threads[t] == Dropping(0, 0) && Free(s, t)
    ensures Reaches(s, [Base(Put(t))] + ([Base(Release(t))] + []), s')
    ensures s' == s.(base := s'.base) && s'.base.heap == map[] && s'.base.threads.Keys == threads.Keys
  {
    hide HotReady, HotSafe, HotDo, Reaches, StepsTo;
    var releasing := threads[t := Releasing(0, 0)];
    var s1 := s.(base := One(0, [], releasing));
    s' := s1.(base := State(map[], [], releasing[t := Idle], 1, 1, [0]));
    StepPut(s, t, 0, [], threads);
    StepRelease(s1, t, releasing);
    ReachesNow(s');
    Then(s1, Base(Release(t)), s', [], s');
    Then(s, Base(Put(t)), s1, [Base(Release(t))] + [], s');
  }

  /** Nor is it enough that the channel is not cached when it is destroyed: a cold write may cache it later. */
  lemma CachedAfterDestroy() returns (states: seq<HotState>)
    ensures var acts := [Base(Create(0)), Cold(0, 1), Base(Unlink(1, 1)), Fill(0), Base(Put(0)), Base(Put(1)),
                         Base(Release(1)), Begin(2, 1), Encode(2)];
            IsHotRun(states, acts) && !HotSafe(states[8], acts[8])
  {
    hide IsHotRun, HotReady, HotSafe, HotDo, Reaches, StepsTo, Strays;
    var held := map[][0 := Holding(0, 0)];
    var both := held[1 := Dropping(0, 0)];
    var s1 := HotState(One(1, [0], map[]), None, 0, map[], {});
    var s2 := s1.(base := One(2, [0], held), filling := {} + {0});
    var s3 := s2.(base := One(2, [], both));
    var rest, s8 := CachedTooLate(s3, both);
    StepCreate();
    StepCold(s1, 0, 1, map[]);
    StepUnlink(s2, 1, 2, held);
    Then(s2, Base(Unlink(1, 1)), s3, rest, s8);
    Then(s1, Cold(0, 1), s2, [Base(Unlink(1, 1))] + rest, s8);
    Then(Loaded(), Base(Create(0)), s1, [Cold(0, 1)] + ([Base(Unlink(1, 1))] + rest), s8);
    states := StrayRun([Base(Create(0))] + ([Cold(0, 1)] + ([Base(Unlink(1, 1))] + rest)), s8, 2);
    assert [Base(Create(0))] + ([Cold(0, 1)] + ([Base(Unlink(1, 1))] + rest)) + [Encode(2)] ==
           [Base(Create(0)), Cold(0, 1), Base(Unlink(1, 1)), Fill(0), Base(Put(0)), Base(Put(1)),
            Base(Release(1)), Begin(2, 1), Encode(2)];
  }

  lemma CachedTooLate(s: HotState, threads: map<Tid, Thread>) returns (acts: seq<HotAction>, s': HotState)
    requires s == HotState(One(2, [], threads), None, 0, map[], {0})
    requires threads == map[][0 := Holding(0, 0)][1 := Dropping(0, 0)]
    ensures acts == [Fill(0), Base(Put(0)), Base(Put(1)), Base(Release(1)), Begin(2, 1)]
    ensures Reaches(s, acts, s') && Strays(s', 2)
  {
    hide HotReady, HotSafe, HotDo, Reaches, StepsTo, Strays;
    var s1 := s.(fast := Some(Ref(0, 0)), fastId := 1, filling := {0} - {0});
    var s2 := s1.(base := One(1, [], threads[0 := Idle]));
    StepFill(s, 0, 2, [], threads);
    StepPut(s1, 0, 1, [], threads);
    var s4 := LastGone(s2, 1, threads[0 := Idle]);
    s' := s4.(hot := map[][2 := Ref(0, 0)]);
    StepBegin(s4, 2);
    ReachesNow(s');
    Then(s4, Begin(2, 1), s', [], s');
    var gone := [Base(Put(1))] + ([Base(Release(1))] + []);
    Join(s2, gone, s4, [Begin(2, 1)] + [], s');
    Then(s1, Base(Put(0)), s2, gone + ([Begin(2, 1)] + []), s');
    Then(s, Fill(0), s1, [Base(Put(0))] + (gone + ([Begin(2, 1)] + [])), s');
    StraysAt(s', 2);
    acts := [Fill(0)] + ([Base(Put(0))] + (gone + ([Begin(2, 1)] + [])));
  }
}
