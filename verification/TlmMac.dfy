/**
 The macOS telemetry kext: a fixed table of channels with removal by swap-with-last.

 `Kext` is its state by value, with the heap blocks that are allocated and those that were freed, in
 order. The allocator is a parameter: it may fail, and it returns an address that is not in use.
 */
module TlmMac {
  import opened Words

  const MAX_CHAN: nat := 8

  type Block = nat

  /** A channel object: its id, the block it lives in and the block of its buffer. */
  datatype Chan = Chan(id: U32, block: Block, buf: Block)

  datatype Kext = Kext(chans: seq<Chan>, nextId: U32, live: set<Block>, frees: seq<Block>)

  /** Blocks that the channels own, each channel's buffer first. */
  function Owned(chans: seq<Chan>): seq<Block> {
    if chans == [] then [] else [chans[0].buf, chans[0].block] + Owned(chans[1..])
  }

  // ----- the operations on values

  /** The first channel with this id, or the number of channels. */
  function Find(chans: seq<Chan>, id: U32): (k: nat)
    ensures k <= |chans| && (k < |chans| ==> chans[k].id == id)
    ensures forall j :: 0 <= j < k ==> chans[j].id != id
  {
    if chans == [] || chans[0].id == id then 0 else 1 + Find(chans[1..], id)
  }

  /** The last element takes the place of the removed one. */
  function SwapRemove<T>(s: seq<T>, k: nat): (r: seq<T>)
    requires k < |s|
    ensures |r| == |s| - 1
  {
    s[k := s[|s| - 1]][..|s| - 1]
  }

  /** `block` and `buf` are what the two allocations return, if they succeed. */
  function Created(s: Kext, block: Option<Block>, buf: Option<Block>): (Kext, int) {
    if |s.chans| >= MAX_CHAN || block.None? then (s, -1)
    else if buf.None? then (s.(frees := s.frees + [block.value]), -1)
    else
      (s.(chans := s.chans + [Chan(NextId(s.nextId), block.value, buf.value)], nextId := NextId(s.nextId),
          live := s.live + {block.value, buf.value}), 0)
  }

  function Destroyed(s: Kext, id: U32): (Kext, int) {
    var k := Find(s.chans, id);
    if k == |s.chans| then (s, -1)
    else
      var c := s.chans[k];
      (s.(chans := SwapRemove(s.chans, k), live := s.live - {c.buf, c.block}, frees := s.frees + [c.buf, c.block]), 0)
  }

  function Stopped(s: Kext): Kext {
    s.(chans := [], live := s.live - (set b | b in Owned(s.chans)), frees := s.frees + Owned(s.chans))
  }

  // ----- what every run keeps

  function Ids(chans: seq<Chan>): (r: seq<U32>)
    ensures |r| == |chans| && forall k :: 0 <= k < |r| ==> r[k] == chans[k].id
  {
    seq(|chans|, k requires 0 <= k < |chans| => chans[k].id)
  }

  /** The blocks of some channels, and how often each is owned. */
  ghost function Holdings(chans: seq<Chan>): multiset<Block> {
    multiset(Owned(chans))
  }

  /** The heap holds the channels' blocks, each owned once. */
  ghost predicate HeapMatches(s: Kext) {
    && |s.chans| <= MAX_CHAN
    && Holdings(s.chans) == multiset(s.live)
  }

  /** Live ids are distinct and were all handed out, as long as the id counter did not wrap. */
  ghost predicate IdsFresh(s: Kext) {
    Distinct(Ids(s.chans)) && forall k :: 0 <= k < |s.chans| ==> 0 < s.chans[k].id <= s.nextId
  }

  lemma {:induction false} OwnedAppend(a: seq<Chan>, b: seq<Chan>)
    ensures Owned(a + b) == Owned(a) + Owned(b)
    decreases |a|
  {
    if a == [] {
      assert a + b == b;
    } else {
      assert (a + b)[1..] == a[1..] + b;
      OwnedAppend(a[1..], b);
    }
  }

  lemma {:induction false} OwnedSize(chans: seq<Chan>)
    ensures |Owned(chans)| == 2 * |chans|
  {
    if chans != [] {
      OwnedSize(chans[1..]);
    }
  }

  lemma HoldingsAppend(a: seq<Chan>, b: seq<Chan>)
    ensures Holdings(a + b) == Holdings(a) + Holdings(b)
  {
    OwnedAppend(a, b);
  }

  lemma HoldingsOne(c: Chan)
    ensures Holdings([c]) == multiset{c.buf, c.block}
  {
    var one := [c];
    assert one[1..] == [];
    assert Owned(one) == [c.buf, c.block] + Owned([]);
  }

  /** The two sequences differ in the removed element only. */
  lemma SwapRemoveShape<T>(s: seq<T>, k: nat) returns (x: seq<T>, y: seq<T>)
    requires k < |s| - 1
    ensures s == x + [s[k]] + (y + [s[|s| - 1]])
    ensures SwapRemove(s, k) == x + [s[|s| - 1]] + y
  {
    var n := |s| - 1;
    x, y := s[..k], s[k + 1..n];
    assert SwapRemove(s, k) == x + [s[n]] + y;
  }

  /** Removing one channel by swap-with-last removes that channel and its two blocks. */
  lemma HoldingsWithout(chans: seq<Chan>, k: nat)
    requires k < |chans|
    ensures Holdings(SwapRemove(chans, k)) + multiset{chans[k].buf, chans[k].block} == Holdings(chans)
    ensures multiset(SwapRemove(chans, k)) + multiset{chans[k]} == multiset(chans)
  {
    hide Holdings;
    var last, c := chans[|chans| - 1], chans[k];
    HoldingsOne(c);
    if k == |chans| - 1 {
      assert chans == SwapRemove(chans, k) + [last];
      HoldingsAppend(SwapRemove(chans, k), [last]);
    } else {
      var x, y := SwapRemoveShape(chans, k);
      hide SwapRemove;
      HoldingsAppend(x + [last], y);
      HoldingsAppend(x, [last]);
      HoldingsAppend(x + [c], y + [last]);
      HoldingsAppend(x, [c]);
      HoldingsAppend(y, [last]);
      assert multiset(x + [c] + (y + [last])) == multiset(x + [last] + y) + multiset{c};
    }
  }

  lemma {:induction false} SizeOfMultiset(s: set<Block>)
    ensures |multiset(s)| == |s|
  {
  }

  /** The live blocks are twice the channels. */
  lemma TwoBlocksEach(s: Kext)
    requires HeapMatches(s)
    ensures |s.live| == 2 * |s.chans|
  {
    OwnedSize(s.chans);
    SizeOfMultiset(s.live);
  }

  lemma CreateKeepsHeap(s: Kext, block: Option<Block>, buf: Option<Block>)
    requires HeapMatches(s)
    requires (block.Some? ==> block.value !in s.live) && (buf.Some? ==> buf.value !in s.live)
    requires block.Some? && buf.Some? ==> block.value != buf.value
    ensures var (s', ret) := Created(s, block, buf);
            && HeapMatches(s')
            && (ret == 0 <==> |s.chans| < MAX_CHAN && block.Some? && buf.Some?)
            && (ret == 0 ==>
                  s'.chans == s.chans + [Chan((s.nextId + 1) % TWO32, block.value, buf.value)] && s'.frees == s.frees)
            && (ret != 0 ==>
                  && ret == -1 && s'.chans == s.chans && s'.nextId == s.nextId && s'.live == s.live
                  && s'.frees == s.frees + if |s.chans| < MAX_CHAN && block.Some? then [block.value] else [])
  {
    hide Holdings;
    var (s', ret) := Created(s, block, buf);
    if ret == 0 {
      var c := s'.chans[|s.chans|];
      assert s'.chans == s.chans + [c];
      HoldingsAppend(s.chans, [c]);
      HoldingsOne(c);
      assert multiset(s'.live) == multiset(s.live) + multiset{c.buf, c.block};
    }
  }

  /** The same channels but for one. */
  ghost predicate Lost(before: seq<Chan>, after: seq<Chan>, c: Chan) {
    multiset(after) + multiset{c} == multiset(before)
  }

  lemma DestroyKeepsHeap(s: Kext, id: U32)
    requires HeapMatches(s)
    ensures var (s', ret) := Destroyed(s, id);
            && HeapMatches(s')
            && (ret == 0 <==> exists k :: 0 <= k < |s.chans| && s.chans[k].id == id)
            && (ret == 0 ==> exists k :: 0 <= k < |s.chans| && s.chans[k].id == id
                                         && Lost(s.chans, s'.chans, s.chans[k])
                              && s'.frees == s.frees + [s.chans[k].buf, s.chans[k].block])
            && (ret != 0 ==> ret == -1 && s' == s)
  {
    hide Holdings, SwapRemove;
    var k := Find(s.chans, id);
    if k < |s.chans| {
      var c := s.chans[k];
      HoldingsWithout(s.chans, k);
      var s' := Destroyed(s, id).0;
      assert Lost(s.chans, s'.chans, s.chans[k]);
      var before, after, two := multiset(s.live), Holdings(s'.chans), multiset{c.buf, c.block};
      assert after + two == before;
      forall b ensures after[b] == multiset(s'.live)[b] {
        assert (after + two)[b] == before[b];
        assert before[c.buf] <= 1 && before[c.block] <= 1;
        assert (after + two)[c.buf] <= 1 && (after + two)[c.block] <= 1;
      }
    }
  }

  // ----- ids

  lemma CreateKeepsIds(s: Kext, block: Option<Block>, buf: Option<Block>)
    requires IdsFresh(s) && s.nextId + 1 < TWO32
    ensures IdsFresh(Created(s, block, buf).0)
  {
  }

  lemma DestroyKeepsIds(s: Kext, id: U32)
    requires IdsFresh(s)
    ensures var s' := Destroyed(s, id).0;
            IdsFresh(s') && forall k :: 0 <= k < |s'.chans| ==> s'.chans[k].id != id
  {
  }

  // ----- whole runs

  datatype Event = Create(block: Option<Block>, buf: Option<Block>) | Destroy(id: U32) | Stop

  function Apply(s: Kext, e: Event): Kext {
    match e
    case Create(block, buf) => Created(s, block, buf).0
    case Destroy(id) => Destroyed(s, id).0
    case Stop => Stopped(s)
  }

  /** The allocator hands out addresses that are not in use. */
  predicate AllocatorOk(s: Kext, e: Event) {
    e.Create? ==>
      && (e.block.Some? ==> e.block.value !in s.live)
      && (e.buf.Some? ==> e.buf.value !in s.live)
      && (e.block.Some? && e.buf.Some? ==> e.block.value != e.buf.value)
  }

  predicate RunOk(s: Kext, events: seq<Event>)
    decreases |events|
  {
    events == [] || (AllocatorOk(s, events[0]) && RunOk(Apply(s, events[0]), events[1..]))
  }

  function RunAll(s: Kext, events: seq<Event>): Kext
    decreases |events|
  {
    if events == [] then s else RunAll(Apply(s, events[0]), events[1..])
  }

  /** Blocks that a call obtains from the allocator. */
  function Obtained(s: Kext, e: Event): multiset<Block> {
    if !e.Create? || |s.chans| >= MAX_CHAN || e.block.None? then multiset{}
    else if e.buf.None? then multiset{e.block.value}
    else multiset{e.block.value, e.buf.value}
  }

  function ObtainedAll(s: Kext, events: seq<Event>): multiset<Block>
    decreases |events|
  {
    if events == [] then multiset{} else Obtained(s, events[0]) + ObtainedAll(Apply(s, events[0]), events[1..])
  }

  /** Every block obtained so far is live or was freed, as often as it was obtained. */
  ghost function Account(s: Kext): multiset<Block> {
    multiset(s.live) + multiset(s.frees)
  }

  lemma StepKeeps(s: Kext, e: Event)
    requires HeapMatches(s) && AllocatorOk(s, e)
    ensures HeapMatches(Apply(s, e)) && Account(Apply(s, e)) == Account(s) + Obtained(s, e)
  {
    match e
    case Create(block, buf) =>
      CreateKeepsHeap(s, block, buf);
      CreateAccount(s, block, buf);
    case Destroy(id) =>
      DestroyKeepsHeap(s, id);
      DestroyAccount(s, id);
    case Stop =>
      StopAccount(s);
  }

  lemma CreateAccount(s: Kext, block: Option<Block>, buf: Option<Block>)
    requires AllocatorOk(s, Create(block, buf))
    ensures Account(Created(s, block, buf).0) == Account(s) + Obtained(s, Create(block, buf))
  {
  }

  lemma DestroyAccount(s: Kext, id: U32)
    requires HeapMatches(s)
    ensures Account(Destroyed(s, id).0) == Account(s)
  {
    hide Holdings, SwapRemove;
    var k := Find(s.chans, id);
    if k < |s.chans| {
      var c, s' := s.chans[k], Destroyed(s, id).0;
      HoldingsWithout(s.chans, k);
      DestroyKeepsHeap(s, id);
      var two := multiset{c.buf, c.block};
      assert multiset([c.buf, c.block]) == two;
      assert multiset(s'.frees) == multiset(s.frees) + two;
      assert multiset(s'.live) + two == multiset(s.live);
    }
  }

  /** Stopping frees every live block exactly once. */
  lemma StopAccount(s: Kext)
    requires HeapMatches(s)
    ensures HeapMatches(Stopped(s)) && Account(Stopped(s)) == Account(s)
    ensures Stopped(s).live == {} && multiset(Owned(s.chans)) == multiset(s.live)
  {
    var s' := Stopped(s);
    forall b | b in s.live ensures b in Owned(s.chans) {
      assert b in multiset(s.live);
    }
    assert multiset(s'.frees) == multiset(s.frees) + multiset(Owned(s.chans));
    assert Owned([]) == [];
  }

  /**
   Over every run the live blocks are exactly the channels' blocks, two for each; every block obtained
   is live or was freed, once; and until the id counter wraps live ids are distinct and handed out.
   */
  lemma {:induction false} RunKeeps(s: Kext, events: seq<Event>)
    requires HeapMatches(s) && RunOk(s, events)
    ensures var s' := RunAll(s, events);
            && HeapMatches(s') && |s'.live| == 2 * |s'.chans|
            && Account(s') == Account(s) + ObtainedAll(s, events)
            && (IdsFresh(s) && s.nextId + |events| < TWO32 ==> IdsFresh(s') && s'.nextId <= s.nextId + |events|)
    decreases |events|
  {
    hide HeapMatches, IdsFresh, Account, Obtained, Created, Destroyed, Stopped;
    if events == [] {
      TwoBlocksEach(s);
    } else {
      var s1 := Apply(s, events[0]);
      StepKeeps(s, events[0]);
      if IdsFresh(s) && s.nextId + |events| < TWO32 {
        StepKeepsIds(s, events[0]);
      }
      RunKeeps(s1, events[1..]);
    }
  }

  lemma StepKeepsIds(s: Kext, e: Event)
    requires IdsFresh(s) && s.nextId + 1 < TWO32
    ensures IdsFresh(Apply(s, e)) && s.nextId <= Apply(s, e).nextId <= s.nextId + 1
  {
    match e
    case Create(block, buf) => CreateKeepsIds(s, block, buf);
    case Destroy(id) => DestroyKeepsIds(s, id);
    case Stop =>
  }

  const LOADED: Kext := Kext([], 0, {}, [])

  /** A run that ends in a stop has freed exactly what it obtained. */
  lemma StopFreesEverything(events: seq<Event>)
    requires RunOk(LOADED, events)
    ensures var s := RunAll(LOADED, events);
            && Stopped(s).live == {}
            && multiset(Stopped(s).frees) == ObtainedAll(LOADED, events)
  {
    hide RunAll, ObtainedAll, RunOk, HeapMatches, Stopped;
    LoadedIsEmpty();
    RunKeeps(LOADED, events);
    var s := RunAll(LOADED, events);
    StopAccount(s);
    var got, freed := ObtainedAll(LOADED, events), multiset(Stopped(s).frees);
    assert multiset(Stopped(s).live) == multiset{};
    assert multiset{} + freed == multiset{} + got;
    assert freed == multiset{} + freed && got == multiset{} + got;
  }

  lemma LoadedIsEmpty()
    ensures HeapMatches(LOADED) && Account(LOADED) == multiset{}
  {
  }

  // ----- the kext itself

  class Channel {
    const id: U32
    const block: Block
    const buf: Block

    constructor (id: U32, block: Block, buf: Block)
      ensures this.id == id && this.block == block && this.buf == buf
    {
      this.id, this.block, this.buf := id, block, buf;
    }

    function View(): Chan {
      Chan(id, block, buf)
    }
  }

  class Device {
    const chans: array<Channel?>
    var n: nat
    var nextId: U32
    ghost var live: set<Block>
    ghost var frees: seq<Block>
    ghost var contents: seq<Chan>  // the first n entries

    ghost predicate Valid()
      reads this, chans
    {
      && chans.Length == MAX_CHAN && n <= MAX_CHAN && |contents| == n
      && forall k :: 0 <= k < n ==> chans[k] != null && chans[k].View() == contents[k]
    }

    ghost function View(): Kext
      reads this
    {
      Kext(contents, nextId, live, frees)
    }

    constructor ()
      ensures Valid() && fresh(chans) && View() == LOADED
    {
      chans := new Channel?[MAX_CHAN](_ => null);
      n, nextId, live, frees, contents := 0, 0, {}, [], [];
    }

    method Lookup(id: U32) returns (ch: Channel?)
      requires Valid()
      ensures var k := Find(contents, id);
              (ch == null <==> k == n) && (ch != null ==> ch == chans[k])
    {
      hide Find;
      for i := 0 to n
        invariant forall j :: 0 <= j < i ==> contents[j].id != id
      {
        if chans[i].id == id {
          FindIs(contents, id, i);
          return chans[i];
        }
      }
      FindIs(contents, id, n);
      return null;
    }

    method Create(block: Option<Block>, buf: Option<Block>) returns (ret: int)
      requires Valid()
      modifies this, chans
      ensures Valid() && (View(), ret) == Created(old(View()), block, buf)
    {
      if n >= MAX_CHAN {
        return -1;
      }
      if block.None? {
        return -1;
      }
      if buf.None? {
        frees := frees + [block.value];
        return -1;
      }
      nextId := NextId(nextId);
      var ch := new Channel(nextId, block.value, buf.value);
      live := live + {block.value, buf.value};
      contents := contents + [ch.View()];
      chans[n] := ch;
      n := n + 1;
      return 0;
    }

    method FreeChannel(ch: Chan)
      modifies this`frees, this`live
      ensures frees == old(frees) + [ch.buf, ch.block] && live == old(live) - {ch.buf, ch.block}
    {
      frees := frees + [ch.buf] + [ch.block];
      live := live - {ch.buf} - {ch.block};
    }

    method Destroy(id: U32) returns (ret: int)
      requires Valid()
      modifies this, chans
      ensures Valid() && (View(), ret) == Destroyed(old(View()), id)
    {
      hide Find;
      for i := 0 to n
        invariant Valid() && View() == old(View())
        invariant forall j :: 0 <= j < i ==> contents[j].id != id
      {
        var ch := chans[i];
        if ch.id != id {
          continue;
        }
        FindIs(contents, id, i);
        contents := SwapRemove(contents, i);
        n := n - 1;
        chans[i] := chans[n];
        FreeChannel(ch.View());
        return 0;
      }
      FindIs(contents, id, n);
      return -1;
    }

    method Stop()
      requires Valid()
      modifies this
      ensures Valid() && View() == Stopped(old(View()))
    {
      ghost var owned := Owned(contents);
      assert contents[..0] == [] && frees + Owned([]) == frees;
      for i := 0 to n
        invariant Valid() && n == old(n) && contents == old(contents) && nextId == old(nextId)
        invariant frees == old(frees) + Owned(contents[..i])
        invariant live == old(live) - (set b | b in Owned(contents[..i]))
      {
        OwnedSnoc(contents, i);
        FreeChannel(chans[i].View());
      }
      assert contents[..n] == contents;
      n, contents := 0, [];
    }
  }

  lemma FindIs(chans: seq<Chan>, id: U32, k: nat)
    requires k <= |chans| && (k < |chans| ==> chans[k].id == id) && forall j :: 0 <= j < k ==> chans[j].id != id
    ensures Find(chans, id) == k
  {
  }

  lemma OwnedSnoc(chans: seq<Chan>, i: nat)
    requires i < |chans|
    ensures Owned(chans[..i + 1]) == Owned(chans[..i]) + [chans[i].buf, chans[i].block]
  {
    var one := [chans[i]];
    assert chans[..i + 1] == chans[..i] + one && one[1..] == [];
    OwnedAppend(chans[..i], one);
    assert Owned(one) == [chans[i].buf, chans[i].block] + Owned([]);
  }
}
