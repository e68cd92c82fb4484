/**
 Channel lifetime in the Linux telemetry driver, as a step system.

 Any number of threads run `stat`, `destroy` and cold-cache `write` calls at once. Each section under
 the device lock is one step, as is each atomic decrement and each release; `create` is one step. The
 slab may hand out an address again once the object there was released, so every object also carries
 the serial number of its creation, which the driver does not have.
 */
module TlmRefcount {
  import opened Words

  type Addr = nat
  type Tid = nat

  datatype Channel = Channel(serial: nat, id: U32, refs: nat)

  /** Where a thread is in its call, with the object it works on. */
  datatype Thread =
    | Idle
    | Holding(ch: Addr, serial: nat)    // between tlm_channel_get and tlm_channel_put
    | Dropping(ch: Addr, serial: nat)   // unlinked the channel, owes the list's put
    | Releasing(ch: Addr, serial: nat)  // its put reached zero

  datatype State = State(
    heap: map<Addr, Channel>,      // objects allocated and not yet released
    list: seq<Addr>,               // dev->channels
    threads: map<Tid, Thread>,
    nextId: U32,
    created: nat,                  // serials handed out so far
    released: seq<nat>             // serials in the order of their release
  )

  datatype Action =
    | Create(at: Addr)
    | Get(tid: Tid, id: U32)
    | Unlink(tid: Tid, id: U32)
    | Put(tid: Tid)
    | Release(tid: Tid)

  // ----- the steps

  /** Position of the first listed channel with this id, or the length of the list. */
  function Find(heap: map<Addr, Channel>, list: seq<Addr>, id: U32): (k: nat)
    requires forall j :: 0 <= j < |list| ==> list[j] in heap
    ensures k <= |list|
    ensures k < |list| ==> heap[list[k]].id == id
    ensures forall j :: 0 <= j < k ==> heap[list[j]].id != id
  {
    if list == [] then 0
    else if heap[list[0]].id == id then 0
    else 1 + Find(heap, list[1..], id)
  }

  /** Every address the list walk dereferences is allocated. */
  ghost predicate ListReadable(s: State) {
    forall j :: 0 <= j < |s.list| ==> s.list[j] in s.heap
  }

  function At(s: State, t: Tid): Thread {
    if t in s.threads then s.threads[t] else Idle
  }

  function Go(s: State, t: Tid, th: Thread): State {
    s.(threads := s.threads[t := th])
  }

  /** The thread is at the point of its call where it takes this step. */
  ghost predicate Ready(s: State, a: Action) {
    match a
    case Create(at) => at !in s.heap
    case Get(t, _) => At(s, t).Idle?
    case Unlink(t, _) => At(s, t).Idle?
    case Put(t) => At(s, t).Holding? || At(s, t).Dropping?
    case Release(t) => At(s, t).Releasing?
  }

  /** The step touches allocated objects only, and no count goes below zero. */
  ghost predicate Safe(s: State, a: Action) {
    match a
    case Create(_) => true
    case Get(_, _) => ListReadable(s)
    case Unlink(_, _) => ListReadable(s)
    case Put(t) => !At(s, t).Idle? && At(s, t).ch in s.heap && s.heap[At(s, t).ch].refs > 0
    case Release(t) => !At(s, t).Idle? && At(s, t).ch in s.heap
  }

  function SetRefs(s: State, a: Addr, refs: nat): State
    requires a in s.heap
  {
    s.(heap := s.heap[a := s.heap[a].(refs := refs)])
  }

  ghost function Do(s: State, a: Action): State
    requires Ready(s, a) && Safe(s, a)
  {
    match a
    case Create(at) =>
      s.(heap := s.heap[at := Channel(s.created, NextId(s.nextId), 1)],
         list := s.list + [at], nextId := NextId(s.nextId), created := s.created + 1)
    case Get(t, id) =>
      var k := Find(s.heap, s.list, id);
      if k == |s.list| then s
      else
        var ch := s.list[k];
        Go(SetRefs(s, ch, s.heap[ch].refs + 1), t, Holding(ch, s.heap[ch].serial))
    case Unlink(t, id) =>
      var k := Find(s.heap, s.list, id);
      if k == |s.list| then s
      else
        var ch := s.list[k];
        Go(s.(list := s.list[..k] + s.list[k + 1..]), t, Dropping(ch, s.heap[ch].serial))
    case Put(t) =>
      var ch := At(s, t).ch;
      var refs := s.heap[ch].refs - 1;
      Go(SetRefs(s, ch, refs), t, if refs == 0 then Releasing(ch, At(s, t).serial) else Idle)
    case Release(t) =>
      var ch := At(s, t).ch;
      Go(s.(heap := s.heap - {ch}, released := s.released + [s.heap[ch].serial]), t, Idle)
  }

  ghost predicate Init(s: State) {
    s == State(map[], [], map[], 0, 0, [])
  }

  // ----- the invariant

  predicate Owes(th: Thread, ch: Addr) {
    (th.Holding? || th.Dropping?) && th.ch == ch
  }

  predicate Releases(th: Thread, ch: Addr) {
    th.Releasing? && th.ch == ch
  }

  /** Threads that owe a put on ch. */
  ghost function Holders(s: State, ch: Addr): set<Tid> {
    set t | t in s.threads && Owes(s.threads[t], ch)
  }

  ghost function Releasers(s: State, ch: Addr): set<Tid> {
    set t | t in s.threads && Releases(s.threads[t], ch)
  }

  /** The count is list membership plus outstanding holds; at zero, exactly one thread releases. */
  ghost predicate Counted(s: State, ch: Addr)
    requires ch in s.heap
  {
    && s.heap[ch].refs == (if ch in s.list then 1 else 0) + |Holders(s, ch)|
    && |Releasers(s, ch)| == (if s.heap[ch].refs == 0 then 1 else 0)
  }

  ghost predicate AllCounted(s: State) {
    forall ch :: ch in s.heap ==> Counted(s, ch)
  }

  /** A thread at work works on the very object it found, still allocated. */
  ghost predicate Pinned(s: State, th: Thread) {
    !th.Idle? ==> th.ch in s.heap && s.heap[th.ch].serial == th.serial
  }

  ghost predicate AllPinned(s: State) {
    forall t :: t in s.threads ==> Pinned(s, s.threads[t])
  }

  ghost predicate LiveSerial(s: State, n: nat) {
    exists ch :: ch in s.heap && s.heap[ch].serial == n
  }

  /** Every creation is either live, at one address, or released, once. */
  ghost predicate Lifetimes(s: State) {
    && Distinct(s.released)
    && (forall a, b :: a in s.heap && b in s.heap && a != b ==> s.heap[a].serial != s.heap[b].serial)
    && (forall a :: a in s.heap ==> s.heap[a].serial < s.created && s.heap[a].serial !in s.released)
    && (forall k :: 0 <= k < |s.released| ==> s.released[k] < s.created)
    && (forall n: nat :: n < s.created ==> n in s.released || LiveSerial(s, n))
  }

  ghost predicate Inv(s: State) {
    ListReadable(s) && Distinct(s.list) && AllCounted(s) && AllPinned(s) && Lifetimes(s)
  }

  // ----- every step keeps the invariant

  /** A step of thread t that turns to `th` changes only the holds and releases of these two states. */
  lemma OwersAfter(s: State, s': State, t: Tid, th: Thread, ch: Addr)
    requires s'.threads == s.threads[t := th]
    ensures Holders(s', ch) == if Owes(th, ch) then Holders(s, ch) + {t} else Holders(s, ch) - {t}
    ensures Releasers(s', ch) == if Releases(th, ch) then Releasers(s, ch) + {t} else Releasers(s, ch) - {t}
    ensures t in Holders(s, ch) <==> Owes(At(s, t), ch)
    ensures t in Releasers(s, ch) <==> Releases(At(s, t), ch)
  {
  }

  lemma LifetimesKept(s: State, s': State)
    requires Lifetimes(s) && s'.created == s.created && s'.released == s.released && s'.heap.Keys == s.heap.Keys
    requires forall ch :: ch in s.heap ==> s'.heap[ch].serial == s.heap[ch].serial
    ensures Lifetimes(s')
  {
    forall n: nat | n < s'.created && n !in s'.released ensures LiveSerial(s', n) {
      var ch :| ch in s.heap && s.heap[ch].serial == n;
      assert s'.heap[ch].serial == n;
    }
  }

  /** Invariant states offer no unsafe step. */
  lemma ReadyIsSafe(s: State, a: Action)
    requires Inv(s) && Ready(s, a)
    ensures Safe(s, a)
  {
    if a.Put? {
      var ch := At(s, a.tid).ch;
      assert Pinned(s, s.threads[a.tid]);
      assert a.tid in Holders(s, ch);
      assert Counted(s, ch);
    } else if a.Release? {
      assert Pinned(s, s.threads[a.tid]);
    }
  }

  lemma CreateCounted(s: State, at: Addr, ch: Addr)
    requires at !in s.heap && AllPinned(s) && (ch == at || (ch in s.heap && Counted(s, ch)))
    requires (at in s.list ==> ListReadable(s))
    ensures var s' := Do(s, Create(at)); ch in s'.heap && Counted(s', ch)
  {
  }

  lemma CreateKeeps(s: State, at: Addr)
    requires Inv(s) && at !in s.heap
    ensures Inv(Do(s, Create(at)))
  {
    hide Counted, Lifetimes;
    var s' := Do(s, Create(at));
    forall ch | ch in s'.heap ensures Counted(s', ch) {
      CreateCounted(s, at, ch);
    }
    CreateKeepsLifetimes(s, at);
  }

  lemma CreateKeepsLifetimes(s: State, at: Addr)
    requires Lifetimes(s) && at !in s.heap
    ensures Lifetimes(Do(s, Create(at)))
  {
    hide LiveSerial;
    var s' := Do(s, Create(at));
    forall n: nat | n < s'.created && n !in s'.released ensures LiveSerial(s', n) {
      CreateKeepsLive(s, at, n);
    }
  }

  lemma CreateKeepsLive(s: State, at: Addr, n: nat)
    requires at !in s.heap && (n == s.created || LiveSerial(s, n))
    ensures LiveSerial(Do(s, Create(at)), n)
  {
    var s' := Do(s, Create(at));
    if n == s.created {
      assert s'.heap[at].serial == n;
    } else {
      var ch :| ch in s.heap && s.heap[ch].serial == n;
      assert s'.heap[ch].serial == n;
    }
  }

  lemma GetCounted(s: State, t: Tid, id: U32, ch: Addr)
    requires At(s, t).Idle? && ListReadable(s) && ch in s.heap && Counted(s, ch)
    ensures Counted(Do(s, Get(t, id)), ch)
  {
    if Find(s.heap, s.list, id) < |s.list| {
      var s' := Do(s, Get(t, id));
      OwersAfter(s, s', t, s'.threads[t], ch);
    }
  }

  lemma GetKeeps(s: State, t: Tid, id: U32)
    requires Inv(s) && At(s, t).Idle?
    ensures Inv(Do(s, Get(t, id)))
  {
    hide Counted, Lifetimes;
    var s' := Do(s, Get(t, id));
    forall ch | ch in s'.heap ensures Counted(s', ch) {
      GetCounted(s, t, id, ch);
    }
    LifetimesKept(s, s');
  }

  lemma UnlinkCounted(s: State, t: Tid, id: U32, ch: Addr)
    requires At(s, t).Idle? && ListReadable(s) && Distinct(s.list) && ch in s.heap && Counted(s, ch)
    ensures Counted(Do(s, Unlink(t, id)), ch)
  {
    var k := Find(s.heap, s.list, id);
    if k < |s.list| {
      var s' := Do(s, Unlink(t, id));
      assert ch in s'.list <==> ch in s.list && ch != s.list[k];
      OwersAfter(s, s', t, s'.threads[t], ch);
    }
  }

  lemma UnlinkKeeps(s: State, t: Tid, id: U32)
    requires Inv(s) && At(s, t).Idle?
    ensures Inv(Do(s, Unlink(t, id)))
  {
    hide Counted, Lifetimes;
    var s' := Do(s, Unlink(t, id));
    forall ch | ch in s'.heap ensures Counted(s', ch) {
      UnlinkCounted(s, t, id, ch);
    }
    LifetimesKept(s, s');
  }

  lemma PutCounted(s: State, t: Tid, ch: Addr)
    requires Ready(s, Put(t)) && Safe(s, Put(t)) && ch in s.heap && Counted(s, ch)
    ensures Counted(Do(s, Put(t)), ch)
  {
    var s' := Do(s, Put(t));
    OwersAfter(s, s', t, s'.threads[t], ch);
  }

  lemma PutKeeps(s: State, t: Tid)
    requires Inv(s) && Ready(s, Put(t)) && Safe(s, Put(t))
    ensures Inv(Do(s, Put(t)))
  {
    hide Counted, Lifetimes;
    var s' := Do(s, Put(t));
    forall ch | ch in s'.heap ensures Counted(s', ch) {
      PutCounted(s, t, ch);
    }
    LifetimesKept(s, s');
  }

  lemma ReleaseCounted(s: State, t: Tid, ch: Addr)
    requires Ready(s, Release(t)) && Safe(s, Release(t)) && ch in s.heap && ch != s.threads[t].ch && Counted(s, ch)
    ensures Counted(Do(s, Release(t)), ch)
  {
    OwersAfter(s, Do(s, Release(t)), t, Idle, ch);
  }

  /** A released object was on no list. */
  lemma ReleasedIsUnlisted(s: State, t: Tid)
    requires Inv(s) && Ready(s, Release(t)) && Safe(s, Release(t))
    ensures s.threads[t].ch !in s.list
  {
    var ch := s.threads[t].ch;
    assert Counted(s, ch) && t in Releasers(s, ch);
  }

  lemma ReleaseKeeps(s: State, t: Tid)
    requires Inv(s) && Ready(s, Release(t)) && Safe(s, Release(t))
    ensures Inv(Do(s, Release(t)))
  {
    hide Counted, Lifetimes;
    var s' := Do(s, Release(t));
    ReleasedIsUnlisted(s, t);
    forall x | x in s'.heap ensures Counted(s', x) {
      ReleaseCounted(s, t, x);
    }
    forall u | u in s'.threads ensures Pinned(s', s'.threads[u]) {
      if u != t && !s.threads[u].Idle? {
        OnlyOneLeft(s, t, u);
      }
    }
    ReleaseKeepsLifetimes(s, t);
  }

  /** Nobody else works on an object that is being released. */
  lemma OnlyOneLeft(s: State, t: Tid, u: Tid)
    requires Inv(s) && t in s.threads && s.threads[t].Releasing? && u in s.threads && u != t && !s.threads[u].Idle?
    ensures s.threads[u].ch != s.threads[t].ch
  {
    var ch := s.threads[t].ch;
    assert Pinned(s, s.threads[t]);
    assert Counted(s, ch) && t in Releasers(s, ch);
    if s.threads[u].ch == ch {
      assert s.threads[u].Releasing? by { assert u !in Holders(s, ch); }
      SubsetSize({t, u}, Releasers(s, ch));
    }
  }

  lemma {:induction false} SubsetSize<T>(a: set<T>, b: set<T>)
    requires a <= b
    ensures |a| <= |b|
  {
    if a != {} {
      var x :| x in a;
      SubsetSize(a - {x}, b - {x});
    }
  }

  lemma ReleaseKeepsLifetimes(s: State, t: Tid)
    requires Lifetimes(s) && Ready(s, Release(t)) && Safe(s, Release(t))
    ensures Lifetimes(Do(s, Release(t)))
  {
    var s' := Do(s, Release(t));
    var ch := s.threads[t].ch;
    forall n: nat | n < s'.created && n !in s'.released ensures LiveSerial(s', n) {
      assert n !in s.released;
      var x :| x in s.heap && s.heap[x].serial == n;
      assert n != s.heap[ch].serial by { assert s.heap[ch].serial == s'.released[|s.released|]; }
      assert s'.heap[x].serial == n;
    }
  }

  // ----- what each step does

  /** The list has a channel with this id at k, and none before it. */
  ghost predicate FirstWith(s: State, id: U32, k: nat) {
    && k < |s.list| && s.list[k] in s.heap && s.heap[s.list[k]].id == id
    && forall j :: 0 <= j < k ==> s.list[j] in s.heap && s.heap[s.list[j]].id != id
  }

  ghost predicate Nowhere(s: State, id: U32) {
    forall j :: 0 <= j < |s.list| ==> s.list[j] in s.heap && s.heap[s.list[j]].id != id
  }

  lemma FindIsFirst(s: State, id: U32, k: nat)
    requires ListReadable(s)
    ensures FirstWith(s, id, k) <==> k < |s.list| && Find(s.heap, s.list, id) == k
    ensures Nowhere(s, id) <==> Find(s.heap, s.list, id) == |s.list|
  {
    hide Find;
  }

  /** The heap is as before but for one channel, and that one but for its count. */
  ghost predicate OnlyCount(heap: map<Addr, Channel>, heap': map<Addr, Channel>, ch: Addr, refs: int) {
    && heap'.Keys == heap.Keys && ch in heap && refs >= 0
    && heap'[ch] == Channel(heap[ch].serial, heap[ch].id, refs)
    && forall c :: c in heap && c != ch ==> heap'[c] == heap[c]
  }

  /** A reference more on the channel at k of the list, held by t, and nothing else. */
  ghost predicate Gains(s: State, t: Tid, k: nat, s': State)
    requires k < |s.list| && s.list[k] in s.heap
  {
    var ch := s.list[k];
    && OnlyCount(s.heap, s'.heap, ch, s.heap[ch].refs + 1)
    && s' == s.(heap := s'.heap, threads := s.threads[t := Holding(ch, s.heap[ch].serial)])
  }

  /** The channel at k off the list, its reference owed by t, and nothing else. */
  ghost predicate Unlists(s: State, t: Tid, k: nat, s': State)
    requires k < |s.list| && s.list[k] in s.heap
  {
    var ch := s.list[k];
    && k <= |s'.list| && s.list == s'.list[..k] + [ch] + s'.list[k..]
    && s' == s.(list := s'.list, threads := s.threads[t := Dropping(ch, s.heap[ch].serial)])
  }

  /**
   A get and an unlink work on the first listed channel with the id, and do nothing without one; a put
   gives back one reference, and the thread whose put was the last goes on to release the channel.
   */
  ghost predicate Means(s: State, a: Action, s': State) {
    match a
    case Create(at) =>
      && at !in s.heap && s'.heap.Keys == s.heap.Keys + {at} && s'.heap[at].refs == 1
      && s'.list == s.list + [at] && s'.threads == s.threads && s'.released == s.released
      && forall c :: c in s.heap ==> s'.heap[c] == s.heap[c]
    case Get(t, id) =>
      (Nowhere(s, id) ==> s' == s) && forall k: nat :: FirstWith(s, id, k) ==> Gains(s, t, k, s')
    case Unlink(t, id) =>
      (Nowhere(s, id) ==> s' == s) && forall k: nat :: FirstWith(s, id, k) ==> Unlists(s, t, k, s')
    case Put(t) =>
      && (At(s, t).Holding? || At(s, t).Dropping?) && At(s, t).ch in s.heap
      && var ch, refs := At(s, t).ch, s.heap[At(s, t).ch].refs - 1;
         && OnlyCount(s.heap, s'.heap, ch, refs)
         && s' == s.(heap := s'.heap,
                     threads := s.threads[t := if refs == 0 then Releasing(ch, At(s, t).serial) else Idle])
    case Release(t) =>
      && At(s, t).Releasing? && s'.list == s.list && s'.threads == s.threads[t := Idle]
      && s'.heap == s.heap - {At(s, t).ch}
  }

  lemma GetMeans(s: State, t: Tid, id: U32)
    requires ListReadable(s) && At(s, t).Idle?
    ensures Means(s, Get(t, id), Do(s, Get(t, id)))
  {
    hide Find;
    FindIsFirst(s, id, Find(s.heap, s.list, id));
    forall k: nat | FirstWith(s, id, k) ensures Gains(s, t, k, Do(s, Get(t, id))) {
      FindIsFirst(s, id, k);
    }
  }

  lemma UnlinkMeans(s: State, t: Tid, id: U32)
    requires ListReadable(s) && At(s, t).Idle?
    ensures Means(s, Unlink(t, id), Do(s, Unlink(t, id)))
  {
    hide Find;
    FindIsFirst(s, id, Find(s.heap, s.list, id));
    var s' := Do(s, Unlink(t, id));
    forall k: nat | FirstWith(s, id, k) ensures Unlists(s, t, k, s') {
      FindIsFirst(s, id, k);
      assert s'.list == s.list[..k] + s.list[k + 1..];
      assert s'.list[..k] == s.list[..k] && s'.list[k..] == s.list[k + 1..];
    }
  }

  lemma StepMeans(s: State, a: Action)
    requires ListReadable(s) && Ready(s, a) && Safe(s, a)
    ensures Means(s, a, Do(s, a))
  {
    match a
    case Get(t, id) => GetMeans(s, t, id);
    case Unlink(t, id) => UnlinkMeans(s, t, id);
    case _ =>
  }

  /** Every ready step is safe, does what it means and keeps the invariant. */
  lemma StepKeepsInv(s: State, a: Action)
    requires Inv(s) && Ready(s, a)
    ensures Safe(s, a) && Means(s, a, Do(s, a)) && Inv(Do(s, a))
  {
    hide Means;
    ReadyIsSafe(s, a);
    StepMeans(s, a);
    match a
    case Create(at) => CreateKeeps(s, at);
    case Get(t, id) => GetKeeps(s, t, id);
    case Unlink(t, id) => UnlinkKeeps(s, t, id);
    case Put(t) => PutKeeps(s, t);
    case Release(t) => ReleaseKeeps(s, t);
  }

  // ----- whole runs

  /** A run from module load; what follows an unsafe step is left open. */
  ghost predicate IsRun(states: seq<State>, acts: seq<Action>) {
    && |states| == |acts| + 1
    && Init(states[0])
    && forall i :: 0 <= i < |acts| ==>
         Ready(states[i], acts[i]) && (Safe(states[i], acts[i]) ==> states[i + 1] == Do(states[i], acts[i]))
  }

  lemma {:induction false} RunKeepsInv(states: seq<State>, acts: seq<Action>, k: nat)
    requires IsRun(states, acts) && k < |states|
    ensures Inv(states[k])
    decreases k
  {
    hide Inv;
    if k == 0 {
      EmptyIsInvariant(states[0]);
    } else {
      RunKeepsInv(states, acts, k - 1);
      StepKeepsInv(states[k - 1], acts[k - 1]);
    }
  }

  lemma EmptyIsInvariant(s: State)
    requires Init(s)
    ensures Inv(s)
  {
  }

  /**
   In every run every step is safe and does what it means, every count is list membership plus
   outstanding holds, and from its get to its put a thread works on the very object it found.
   */
  lemma EveryRunIsSafe(states: seq<State>, acts: seq<Action>)
    requires IsRun(states, acts)
    ensures forall i :: 0 <= i < |acts| ==>
              && Safe(states[i], acts[i]) && states[i + 1] == Do(states[i], acts[i])
              && Means(states[i], acts[i], states[i + 1])
    ensures forall i, ch :: 0 <= i < |states| && ch in states[i].heap ==>
              states[i].heap[ch].refs == (if ch in states[i].list then 1 else 0) + |Holders(states[i], ch)|
    ensures forall i :: 0 <= i < |states| ==> AllPinned(states[i])
  {
    hide AllPinned, Means;
    forall i | 0 <= i < |states| ensures AllPinned(states[i]) {
      RunKeepsInv(states, acts, i);
    }
    forall i | 0 <= i < |acts|
      ensures Safe(states[i], acts[i]) && states[i + 1] == Do(states[i], acts[i])
      ensures Means(states[i], acts[i], states[i + 1])
    {
      RunKeepsInv(states, acts, i);
      StepKeepsInv(states[i], acts[i]);
    }
    forall i, ch | 0 <= i < |states| && ch in states[i].heap
      ensures states[i].heap[ch].refs == (if ch in states[i].list then 1 else 0) + |Holders(states[i], ch)|
    {
      RunKeepsInv(states, acts, i);
      assert Counted(states[i], ch);
    }
  }

  lemma {:induction false} ReleasesStay(states: seq<State>, acts: seq<Action>, i: nat, j: nat)
    requires IsRun(states, acts) && i <= j < |states|
    ensures states[i].released <= states[j].released
    decreases j - i
  {
    hide Inv, Do, Ready, Safe;
    if i < j {
      ReleasesStay(states, acts, i, j - 1);
      RunKeepsInv(states, acts, j - 1);
      StepKeepsInv(states[j - 1], acts[j - 1]);
      ReleasesGrow(states[j - 1], acts[j - 1]);
    }
  }

  lemma ReleasesGrow(s: State, a: Action)
    requires Ready(s, a) && Safe(s, a)
    ensures s.released <= Do(s, a).released
  {
  }

  /**
   Once released, an object is never released again, and no thread and no list entry ever refers to
   it, even when its address is in use again.
   */
  lemma ReleasedForGood(states: seq<State>, acts: seq<Action>, i: nat, j: nat, n: nat)
    requires IsRun(states, acts) && i <= j < |states| && n in states[i].released
    ensures multiset(states[j].released)[n] == 1
    ensures forall t :: t in states[j].threads && !states[j].threads[t].Idle? ==> states[j].threads[t].serial != n
    ensures forall k :: 0 <= k < |states[j].list| ==>
              states[j].list[k] in states[j].heap && states[j].heap[states[j].list[k]].serial != n
  {
    ReleasesStay(states, acts, i, j);
    RunKeepsInv(states, acts, j);
    assert n in states[j].released;
    DistinctOnce(states[j].released, n);
    forall t | t in states[j].threads && !states[j].threads[t].Idle? ensures states[j].threads[t].serial != n {
      assert Pinned(states[j], states[j].threads[t]);
    }
  }

  lemma {:induction false} DistinctOnce<T>(xs: seq<T>, x: T)
    requires Distinct(xs) && x in xs
    ensures multiset(xs)[x] == 1
  {
    var front, last := xs[..|xs| - 1], xs[|xs| - 1];
    assert xs == front + [last];
    if x in front {
      DistinctOnce(front, x);
    } else {
      assert multiset(front)[x] == 0;
    }
  }

  // ----- quiet states and module unload

  ghost predicate Quiet(s: State) {
    forall t :: t in s.threads ==> s.threads[t].Idle?
  }

  /** With no call in flight nothing leaks: the objects are the listed ones, each counted once. */
  lemma QuietMeansListed(s: State)
    requires Inv(s) && Quiet(s)
    ensures forall ch :: ch in s.heap <==> ch in s.list
    ensures forall ch :: ch in s.heap ==> s.heap[ch].refs == 1
  {
  }

  /** What tlm_exit does to the channel at the head of the list. */
  function UnloadHead(s: State, t: Tid): State
    requires s.list != [] && s.list[0] in s.heap
  {
    var ch := s.list[0];
    State(s.heap - {ch}, s.list[1..], s.threads[t := Idle], s.nextId, s.created, s.released + [s.heap[ch].serial])
  }

  /** Unloading the head is an unlink, a put and a release. */
  lemma UnloadHeadSteps(s: State, t: Tid)
    requires ListReadable(s) && s.list != [] && At(s, t).Idle? && s.heap[s.list[0]].refs == 1
    ensures var unlink := Unlink(t, s.heap[s.list[0]].id);
            && Ready(s, unlink) && Safe(s, unlink)
            && (var s1 := Do(s, unlink);
                && Ready(s1, Put(t)) && Safe(s1, Put(t))
                && (var s2 := Do(s1, Put(t));
                    Ready(s2, Release(t)) && Safe(s2, Release(t)) && Do(s2, Release(t)) == UnloadHead(s, t)))
  {
    var ch := s.list[0];
    var unlink := Unlink(t, s.heap[ch].id);
    var s1 := Do(s, unlink);
    assert s1 == Go(s.(list := s.list[1..]), t, Dropping(ch, s.heap[ch].serial)) by {
      assert s.list[..0] + s.list[1..] == s.list[1..];
    }
    var s2 := Do(s1, Put(t));
    var s3 := Do(s2, Release(t));
    assert s3.heap == s.heap - {ch};
    assert s3.threads == s.threads[t := Idle];
  }

  lemma UnloadHeadKeeps(s: State, t: Tid)
    requires Inv(s) && Quiet(s) && s.list != []
    ensures Inv(UnloadHead(s, t)) && Quiet(UnloadHead(s, t))
  {
    QuietMeansListed(s);
    UnloadHeadSteps(s, t);
    hide Inv;
    var unlink := Unlink(t, s.heap[s.list[0]].id);
    StepKeepsInv(s, unlink);
    StepKeepsInv(Do(s, unlink), Put(t));
    StepKeepsInv(Do(Do(s, unlink), Put(t)), Release(t));
  }

  ghost function Unload(s: State, t: Tid): (s': State)
    requires Inv(s) && Quiet(s)
    ensures Inv(s') && Quiet(s') && s'.list == [] && s'.created == s.created
    decreases |s.list|
  {
    if s.list == [] then s
    else
      UnloadHeadKeeps(s, t);
      Unload(UnloadHead(s, t), t)
  }

  /** After unload no object is left, and every object ever created was released exactly once. */
  lemma UnloadReleasesEverything(s: State, t: Tid)
    requires Inv(s) && Quiet(s)
    ensures Unload(s, t).heap == map[]
    ensures forall n: nat :: n < s.created ==> multiset(Unload(s, t).released)[n] == 1
  {
    var s' := Unload(s, t);
    QuietMeansListed(s');
    assert s'.heap.Keys == {};
    forall n: nat | n < s.created ensures multiset(s'.released)[n] == 1 {
      assert !LiveSerial(s', n);
      DistinctOnce(s'.released, n);
    }
  }
}
