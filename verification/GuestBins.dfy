/**
 The free lists and the index table of the guest heap, kept beside its fragment list.

 A free list is the sequence of its fragments' offsets, the latest first. An index entry is true when it
 refers to the fragment in the list at that offset, and false when that fragment has left the list.
 */
module GuestBins {
  import opened Words
  import opened GuestHeap
  import opened GuestLaws

  const BINS: nat := 512

  /** The free lists, and the bits that say which are not empty. */
  datatype Table = Table(lists: seq<seq<nat>>, mask: set<nat>)

  type Bins = t: Table | |t.lists| == BINS witness EMPTY

  const EMPTY := Table(seq(BINS, _ => []), {})

  // ----- free lists

  /** The offsets of the free fragments of one size class. */
  function FreeIn(fs: seq<Frag>, b: nat): multiset<nat> {
    if fs == [] then multiset{}
    else
      var f := fs[0];
      (if !f.used && f.size >= MIN_SIZE && Bin(f.size) == b then multiset{f.offset} else multiset{})
      + FreeIn(fs[1..], b)
  }

  ghost predicate BinnedAt(bins: Bins, fs: seq<Frag>, b: nat)
    requires b < BINS
  {
    multiset(bins.lists[b]) == FreeIn(fs, b) && (b in bins.mask <==> bins.lists[b] != [])
  }

  /** The lists hold the free fragments, each in the list of its class. */
  ghost predicate Binned(bins: Bins, fs: seq<Frag>) {
    forall b :: 0 <= b < BINS ==> BinnedAt(bins, fs, b)
  }

  lemma EmptyBins()
    ensures Binned(EMPTY, [])
  {
  }

  /** In front of the list of its class. */
  function Rebin(bins: Bins, f: Frag): Bins {
    if f.size < MIN_SIZE || Bin(f.size) >= BINS then bins
    else
      var b := Bin(f.size);
      Table(bins.lists[b := [f.offset] + bins.lists[b]], bins.mask + {b})
  }

  function Without(s: seq<nat>, o: nat): (r: seq<nat>)
    ensures multiset(r) == multiset(s) - multiset{o}
  {
    if s == [] then []
    else
      assert s == [s[0]] + s[1..];
      if s[0] == o then s[1..] else [s[0]] + Without(s[1..], o)
  }

  /** Out of the list of its class. */
  function Unbin(bins: Bins, f: Frag): Bins {
    if f.size < MIN_SIZE || Bin(f.size) >= BINS then bins
    else
      var b := Bin(f.size);
      var rest := Without(bins.lists[b], f.offset);
      Table(bins.lists[b := rest], if rest == [] then bins.mask - {b} else bins.mask)
  }

  /** Sizes fit in 32 bits, so their classes are far below the number of lists. */
  lemma BinIsSmall(size: nat)
    requires MIN_SIZE <= size < TWO32
    ensures Bin(size) < 32
  {
    hide Log2;
    LogOfSixteen(0x1);
    LogOfSixteen(0x10);
    LogOfSixteen(0x100);
    LogOfSixteen(0x1000);
    LogOfSixteen(0x1_0000);
    LogOfSixteen(0x10_0000);
    LogGrows(size / MIN_SIZE, 0x100_0000);
    LogOfOne();
  }

  lemma LogOfOne()
    ensures Log2(1) == 0
  {
  }

  lemma LogOfSixteen(n: nat)
    requires n > 0
    ensures Log2(16 * n) == 4 + Log2(n)
  {
    assert 16 * n / 2 == 8 * n && 8 * n / 2 == 4 * n && 4 * n / 2 == 2 * n && 2 * n / 2 == n;
    assert Log2(4 * n) == 1 + Log2(2 * n) && Log2(16 * n) == 1 + Log2(8 * n);
  }

  lemma FreeInStep(f: Frag, fs: seq<Frag>, b: nat)
    ensures FreeIn([f] + fs, b) ==
            (if !f.used && f.size >= MIN_SIZE && Bin(f.size) == b then multiset{f.offset} else multiset{})
            + FreeIn(fs, b)
  {
    assert ([f] + fs)[1..] == fs;
  }

  lemma {:induction false} FreeInAppend(a: seq<Frag>, c: seq<Frag>, b: nat)
    ensures FreeIn(a + c, b) == FreeIn(a, b) + FreeIn(c, b)
    decreases |a|
  {
    if a == [] {
      assert a + c == c;
    } else {
      assert (a + c)[1..] == a[1..] + c;
      FreeInAppend(a[1..], c, b);
    }
  }

  lemma RebinKeeps(bins: Bins, f: Frag, fs: seq<Frag>)
    requires Binned(bins, fs) && !f.used && MIN_SIZE <= f.size < TWO32
    ensures Binned(Rebin(bins, f), [f] + fs)
  {
    hide FreeIn, Bin;
    BinIsSmall(f.size);
    var r := Rebin(bins, f);
    forall b | 0 <= b < BINS ensures BinnedAt(r, [f] + fs, b) {
      assert BinnedAt(bins, fs, b);
      FreeInStep(f, fs, b);
    }
  }

  lemma UnbinKeeps(bins: Bins, f: Frag, fs: seq<Frag>)
    requires Binned(bins, [f] + fs) && !f.used && MIN_SIZE <= f.size < TWO32
    ensures Binned(Unbin(bins, f), fs)
  {
    hide FreeIn, Bin, Without, Unbin, BinnedAt;
    forall b | 0 <= b < BINS ensures BinnedAt(Unbin(bins, f), fs, b) {
      assert BinnedAt(bins, [f] + fs, b);
      if b == Bin(f.size) {
        UnbinFrom(bins, f, fs);
      } else {
        UnbinOther(bins, f, fs, b);
      }
    }
  }

  lemma UnbinFrom(bins: Bins, f: Frag, fs: seq<Frag>)
    requires !f.used && MIN_SIZE <= f.size && Bin(f.size) < BINS
    requires BinnedAt(bins, [f] + fs, Bin(f.size))
    ensures BinnedAt(Unbin(bins, f), fs, Bin(f.size))
  {
    hide FreeIn, Bin, Without;
    FreeInStep(f, fs, Bin(f.size));
  }

  lemma UnbinOther(bins: Bins, f: Frag, fs: seq<Frag>, b: nat)
    requires b < BINS && MIN_SIZE <= f.size && Bin(f.size) != b
    requires BinnedAt(bins, [f] + fs, b)
    ensures BinnedAt(Unbin(bins, f), fs, b)
  {
    hide FreeIn, Bin, Without;
    FreeInStep(f, fs, b);
  }

  lemma UsedDoesNotMatter(bins: Bins, f: Frag, fs: seq<Frag>)
    requires f.used
    ensures Binned(bins, [f] + fs) <==> Binned(bins, fs)
  {
    hide FreeIn;
    forall b | 0 <= b < BINS ensures BinnedAt(bins, [f] + fs, b) <==> BinnedAt(bins, fs, b) {
      FreeInStep(f, fs, b);
    }
  }

  /** Where in the list a fragment is does not matter. */
  lemma OrderDoesNotMatter(bins: Bins, a: seq<Frag>, part: seq<Frag>, c: seq<Frag>)
    ensures Binned(bins, a + part + c) <==> Binned(bins, part + (a + c))
  {
    hide FreeIn;
    forall b | 0 <= b < BINS ensures BinnedAt(bins, a + part + c, b) <==> BinnedAt(bins, part + (a + c), b) {
      FreeInAppend(a + part, c, b);
      FreeInAppend(a, part, b);
      FreeInAppend(part, a + c, b);
      FreeInAppend(a, c, b);
    }
  }

  /** A free fragment leaves its list; a block is in none. */
  function Drop(bins: Bins, f: Frag): Bins {
    if f.used then bins else Unbin(bins, f)
  }

  ghost predicate Sized(fs: seq<Frag>) {
    forall k :: 0 <= k < |fs| ==> MIN_SIZE <= fs[k].size < TWO32
  }

  lemma DropKeeps(bins: Bins, f: Frag, fs: seq<Frag>)
    requires Binned(bins, [f] + fs) && MIN_SIZE <= f.size < TWO32
    ensures Binned(Drop(bins, f), fs)
  {
    hide Unbin, Binned;
    if f.used {
      UsedDoesNotMatter(bins, f, fs);
    } else {
      UnbinKeeps(bins, f, fs);
    }
  }

  /** The fragments from i up to j leave their lists: the first and the last, those between being used. */
  function Unlink(bins: Bins, fs: seq<Frag>, i: nat, j: nat): Bins
    requires i < j <= |fs|
  {
    var first := Drop(bins, fs[i]);
    if i + 1 < j then Drop(first, fs[j - 1]) else first
  }

  predicate AroundOne(fs: seq<Frag>, i: nat, j: nat) {
    i < j <= |fs| && j <= i + 3 && (i + 3 == j ==> fs[i + 1].used)
  }

  lemma UnlinkKeeps(bins: Bins, fs: seq<Frag>, i: nat, j: nat)
    requires Binned(bins, fs) && Sized(fs) && AroundOne(fs, i, j)
    ensures Binned(Unlink(bins, fs, i, j), fs[..i] + fs[j..])
  {
    hide Binned, Drop;
    var rest := fs[..i] + fs[j..];
    assert fs == fs[..i] + fs[i..j] + fs[j..];
    OrderDoesNotMatter(bins, fs[..i], fs[i..j], fs[j..]);
    var first := Drop(bins, fs[i]);
    assert fs[i..j] + rest == [fs[i]] + (fs[i + 1..j] + rest);
    DropKeeps(bins, fs[i], fs[i + 1..j] + rest);
    if i + 1 == j {
      assert fs[i + 1..j] + rest == rest;
    } else {
      if i + 2 == j {
        assert fs[i + 1..j] + rest == [fs[j - 1]] + rest;
      } else {
        assert fs[i + 1..j] + rest == [fs[i + 1]] + ([fs[j - 1]] + rest);
        UsedDoesNotMatter(first, fs[i + 1], [fs[j - 1]] + rest);
      }
      DropKeeps(first, fs[j - 1], rest);
    }
  }

  ghost predicate AllFree(fs: seq<Frag>) {
    forall k :: 0 <= k < |fs| ==> !fs[k].used
  }

  function RebinAll(bins: Bins, free: seq<Frag>): Bins
    decreases |free|
  {
    if free == [] then bins
    else RebinAll(Rebin(bins, free[0]), free[1..])
  }

  lemma {:induction false} RebinAllKeeps(bins: Bins, free: seq<Frag>, fs: seq<Frag>)
    requires Binned(bins, fs) && Sized(free) && AllFree(free)
    ensures Binned(RebinAll(bins, free), free + fs)
    decreases |free|
  {
    hide Binned, Rebin;
    if free == [] {
      assert free + fs == fs;
    } else {
      RebinKeeps(bins, free[0], fs);
      RebinAllKeeps(Rebin(bins, free[0]), free[1..], [free[0]] + fs);
      var rest := free[1..];
      assert rest + ([free[0]] + fs) == rest + [free[0]] + fs;
      OrderDoesNotMatter(RebinAll(bins, free), rest, [free[0]], fs);
      assert [free[0]] + (rest + fs) == free + fs;
    }
  }

  /** At most one block, which is in no free list. */
  predicate NoneOrUsed(blocks: seq<Frag>) {
    |blocks| <= 1 && (blocks != [] ==> blocks[0].used)
  }

  lemma {:induction false} BlockBetween(bins: Bins, a: seq<Frag>, blocks: seq<Frag>, free: seq<Frag>, c: seq<Frag>)
    requires Binned(bins, free + (a + c)) && NoneOrUsed(blocks)
    ensures Binned(bins, a + (blocks + free) + c)
  {
    hide Binned;
    OrderDoesNotMatter(bins, a, blocks + free, c);
    if blocks == [] {
      assert blocks + free + (a + c) == free + (a + c);
    } else {
      UsedDoesNotMatter(bins, blocks[0], free + (a + c));
      assert blocks + free + (a + c) == [blocks[0]] + (free + (a + c));
    }
  }

  /** Neighbours give way to a block, if any, and to free fragments. */
  lemma {:induction false} SwapKeeps(bins: Bins, fs: seq<Frag>, i: nat, j: nat, blocks: seq<Frag>, free: seq<Frag>)
    requires Binned(bins, fs) && Sized(fs) && AroundOne(fs, i, j) && Sized(free) && AllFree(free) && NoneOrUsed(blocks)
    ensures Binned(RebinAll(Unlink(bins, fs, i, j), free), Replace(fs, i, j, blocks + free))
  {
    hide Binned, Unlink, RebinAll, Sized, AllFree, NoneOrUsed, Replace;
    UnlinkKeeps(bins, fs, i, j);
    var unlinked := Unlink(bins, fs, i, j);
    RebinAllKeeps(unlinked, free, fs[..i] + fs[j..]);
    BlockBetween(RebinAll(unlinked, free), fs[..i], blocks, free, fs[j..]);
    ReplaceIs(fs, i, j, blocks + free);
  }

  /** Every free fragment of a list in turn. */
  function RebinFree(bins: Bins, fs: seq<Frag>): Bins
    decreases |fs|
  {
    if fs == [] then bins
    else RebinFree(if fs[0].used then bins else Rebin(bins, fs[0]), fs[1..])
  }

  lemma {:induction false} RebinFreeKeeps(bins: Bins, fs: seq<Frag>, done: seq<Frag>)
    requires Binned(bins, done) && Sized(fs)
    ensures Binned(RebinFree(bins, fs), fs + done)
    decreases |fs|
  {
    hide Binned, Rebin;
    if fs == [] {
      assert fs + done == done;
    } else {
      if fs[0].used {
        UsedDoesNotMatter(bins, fs[0], done);
      } else {
        RebinKeeps(bins, fs[0], done);
      }
      var rest := fs[1..];
      RebinFreeKeeps(if fs[0].used then bins else Rebin(bins, fs[0]), rest, [fs[0]] + done);
      assert rest + ([fs[0]] + done) == rest + [fs[0]] + done;
      OrderDoesNotMatter(RebinFree(bins, fs), rest, [fs[0]], done);
      assert [fs[0]] + (rest + done) == fs + done;
    }
  }

  // ----- choosing a fragment

  /** The lowest bit from b on. */
  function Lowest(mask: set<nat>, b: nat): (r: Option<nat>)
    requires b <= BINS
    ensures r.Some? ==> b <= r.value < BINS && r.value in mask && forall m :: b <= m < r.value ==> m !in mask
    ensures r.None? ==> forall m :: b <= m < BINS ==> m !in mask
    decreases BINS - b
  {
    if b == BINS then None else if b in mask then Some(b) else Lowest(mask, b + 1)
  }

  /** The head of the lowest non-empty list that is high enough. */
  function Head(bins: Bins, need: nat, ghost fs: seq<Frag>): Option<nat>
    requires Binned(bins, fs) && MIN_SIZE <= need < TWO32
  {
    BinIsSmall(need);
    match Lowest(bins.mask, Bin(need))
    case None => None
    case Some(b) =>
      assert BinnedAt(bins, fs, b);
      Some(bins.lists[b][0])
  }

  lemma {:induction false} FreeInIs(fs: seq<Frag>, b: nat, o: nat) returns (k: nat)
    requires o in FreeIn(fs, b)
    ensures k < |fs| && !fs[k].used && fs[k].size >= MIN_SIZE && Bin(fs[k].size) == b && fs[k].offset == o
  {
    if !fs[0].used && fs[0].size >= MIN_SIZE && Bin(fs[0].size) == b && fs[0].offset == o {
      k := 0;
    } else {
      k := FreeInIs(fs[1..], b, o);
      k := k + 1;
    }
  }

  lemma {:induction false} InFreeIn(fs: seq<Frag>, k: nat)
    requires k < |fs| && !fs[k].used && fs[k].size >= MIN_SIZE
    ensures fs[k].offset in FreeIn(fs, Bin(fs[k].size))
  {
    if k > 0 {
      InFreeIn(fs[1..], k - 1);
    }
  }

  /** The head is a candidate, and there is one whenever there is a candidate. */
  lemma HeadIsCandidate(bins: Bins, fs: seq<Frag>, need: nat) returns (pick: nat)
    requires Binned(bins, fs) && MIN_SIZE <= need < TWO32
    requires Sized(fs)
    ensures match Head(bins, need, fs)
            case None => forall k: nat :: !Candidate(fs, k, need)
            case Some(o) => Candidate(fs, pick, need) && fs[pick].offset == o
  {
    hide FreeIn, Bin;
    BinIsSmall(need);
    forall k | 0 <= k < |fs| && Fits(fs[k], need)
      ensures Bin(fs[k].size) in bins.mask && Bin(fs[k].size) < BINS
    {
      BinIsSmall(fs[k].size);
      InFreeIn(fs, k);
      assert BinnedAt(bins, fs, Bin(fs[k].size));
    }
    pick := 0;
    var low := Lowest(bins.mask, Bin(need));
    if low.Some? {
      var list := bins.lists[low.value];
      assert BinnedAt(bins, fs, low.value);
      assert list[0] in multiset(list);
      pick := FreeInIs(fs, low.value, list[0]);
    }
  }

  // ----- the index table

  function At(fs: seq<Frag>, offset: nat): (r: Option<nat>)
    ensures r.Some? ==> r.value < |fs| && fs[r.value].offset == offset
    ensures r.None? ==> forall k :: 0 <= k < |fs| ==> fs[k].offset != offset
  {
    if fs == [] then None
    else if fs[0].offset == offset then Some(0)
    else
      match At(fs[1..], offset)
      case None => None
      case Some(k) => Some(k + 1)
  }

  function Offsets(fs: seq<Frag>): set<nat> {
    set f | f in fs :: f.offset
  }

  function UsedOffsets(fs: seq<Frag>): set<nat> {
    set f | f in fs && f.used :: f.offset
  }

  /** The offsets for which the index refers to a fragment in the list. */
  function Live(index: map<nat, bool>): set<nat> {
    set o | o in index && index[o]
  }

  /** Every block is in the index, and what the index refers to is in the list. */
  ghost predicate Indexed(index: map<nat, bool>, fs: seq<Frag>) {
    UsedOffsets(fs) <= Live(index) <= Offsets(fs)
  }

  /** The block that the index gives for an offset. */
  function Found(index: map<nat, bool>, fs: seq<Frag>, offset: nat): Option<nat> {
    if offset !in index || !index[offset] then None
    else
      var k := At(fs, offset);
      if k.Some? && fs[k.value].used then k else None
  }

  /** The index finds exactly the blocks of the list. */
  lemma FoundIsLookup(index: map<nat, bool>, h: Heap, offset: nat)
    requires Inv(h) && Indexed(index, h.frags)
    ensures Found(index, h.frags, offset) == Lookup(h.frags, offset)
  {
    hide Lookup, At, Spent, Coalesced, UsedBytes;
    var a, b := At(h.frags, offset), Lookup(h.frags, offset);
    assert b.Some? ==> h.frags[b.value] in h.frags && offset in UsedOffsets(h.frags);
    if a.Some? && b.Some? && a.value != b.value {
      DifferentOffsets(h.frags, a.value, b.value, h.capacity);
    }
  }

  /** The index entry of a fragment that leaves the list. */
  function Forget(index: map<nat, bool>, offset: nat): map<nat, bool> {
    if offset in index then index[offset := false] else index
  }

  lemma OffsetsAppend(a: seq<Frag>, b: seq<Frag>)
    ensures Offsets(a + b) == Offsets(a) + Offsets(b) && UsedOffsets(a + b) == UsedOffsets(a) + UsedOffsets(b)
  {
    assert forall f :: f in a + b <==> f in a || f in b;
  }

  /** The offsets of some fragments are not those of the others. */
  lemma OffsetsApart(a: seq<Frag>, part: seq<Frag>, c: seq<Frag>, limit: nat)
    requires Ordered(a + part + c, limit)
    ensures Offsets(part) !! Offsets(a) + Offsets(c)
  {
    var fs := a + part + c;
    forall f, g | f in part && (g in a || g in c) ensures f.offset != g.offset {
      var m :| 0 <= m < |part| && part[m] == f;
      if g in a {
        var n: nat :| n < |a| && a[n] == g;
        DifferentOffsets(fs, |a| + m, n, limit);
      } else {
        var n: nat :| n < |c| && c[n] == g;
        DifferentOffsets(fs, |a| + m, |a| + |part| + n, limit);
      }
    }
  }

  /** Replacing fragments, with an index that changed only for them. */
  lemma ReplaceIndexed(index: map<nat, bool>, index': map<nat, bool>, fs: seq<Frag>, i: nat, j: nat, others: seq<Frag>,
                       limit: nat)
    requires i <= j <= |fs| && Ordered(fs, limit) && Ordered(Replace(fs, i, j, others), limit) && Indexed(index, fs)
    requires var changed := Offsets(fs[i..j]) + Offsets(others); Live(index') - changed == Live(index) - changed
    requires UsedOffsets(others) <= Live(index') && Live(index') * Offsets(fs[i..j]) <= Offsets(others)
    ensures Indexed(index', Replace(fs, i, j, others))
  {
    hide Ordered, Offsets, UsedOffsets, Live, Replace;
    var a, part, c := fs[..i], fs[i..j], fs[j..];
    assert fs == a + part + c;
    ReplaceIs(fs, i, j, others);
    OffsetsApart(a, part, c, limit);
    OffsetsApart(a, others, c, limit);
    OffsetsAppend(a + part, c);
    OffsetsAppend(a, part);
    OffsetsAppend(a + others, c);
    OffsetsAppend(a, others);
    UsedAreListed(a);
    UsedAreListed(c);
    var changed := Offsets(part) + Offsets(others);
    forall o ensures o !in changed ==> (o in Live(index') <==> o in Live(index)) {
      assert o in Live(index') - changed <==> o in Live(index) - changed;
    }
    forall o | o in UsedOffsets(a) || o in UsedOffsets(c) ensures o in Live(index') {
      assert o in Offsets(a) + Offsets(c);
    }
    forall o | o in Live(index') ensures o in Offsets(a + others + c) {
      assert o in Offsets(part) ==> o in Live(index') * Offsets(part);
    }
  }

  lemma ReplaceIs(fs: seq<Frag>, i: nat, j: nat, others: seq<Frag>)
    requires i <= j <= |fs|
    ensures Replace(fs, i, j, others) == fs[..i] + others + fs[j..]
  {
  }

  lemma UsedAreListed(fs: seq<Frag>)
    ensures UsedOffsets(fs) <= Offsets(fs)
  {
  }

  lemma OffsetsOne(f: Frag)
    ensures Offsets([f]) == {f.offset} && UsedOffsets([f]) == if f.used then {f.offset} else {}
  {
    var one := [f];
    assert one[0] == f && f in one && forall g :: g in one ==> g == f;
  }

  lemma {:induction false} OffsetsFrom(fs: seq<Frag>, i: nat, j: nat)
    requires i < j <= |fs|
    ensures Offsets(fs[i..j]) == {fs[i].offset} + Offsets(fs[i + 1..j])
  {
    hide Offsets, UsedOffsets;
    assert fs[i..j] == [fs[i]] + fs[i + 1..j];
    OffsetsAppend([fs[i]], fs[i + 1..j]);
    OffsetsOne(fs[i]);
  }

  /** The index after a block replaced the fragments from i up to j: it has the first one's offset. */
  lemma CarveIndexed(index: map<nat, bool>, index': map<nat, bool>, h: Heap, i: nat, j: nat, avail: nat, size: nat)
    requires Inv(h) && Indexed(index, h.frags) && i < j <= |h.frags| && size <= avail
    requires Laid(Carve(h.frags, i, j, avail, size), h.capacity)
    requires h.frags[i].offset in Live(index')
    requires Live(index') * Offsets(h.frags[i + 1..j]) <= Offsets(Tail(h.frags[i].offset + size, avail - size))
    requires var changed := Offsets(h.frags[i..j]) + Offsets(Tail(h.frags[i].offset + size, avail - size));
             Live(index') - changed == Live(index) - changed
    ensures Indexed(index', Carve(h.frags, i, j, avail, size))
  {
    hide Ordered, Spent, Coalesced, UsedBytes, Offsets, UsedOffsets, Live, Replace, Indexed;
    var fs := h.frags;
    var block, tail := Frag(fs[i].offset, size, true), Tail(fs[i].offset + size, avail - size);
    OffsetsAppend([block], tail);
    OffsetsOne(block);
    OffsetsFrom(fs, i, j);
    TailIsFree(fs[i].offset + size, avail - size);
    var changed := Offsets(fs[i..j]) + Offsets(tail);
    assert Offsets(fs[i..j]) + Offsets([block] + tail) == changed;
    ReplaceIndexed(index, index', fs, i, j, [block] + tail, h.capacity);
  }

  lemma TailIsFree(offset: nat, size: nat)
    ensures UsedOffsets(Tail(offset, size)) == {}
    ensures Offsets(Tail(offset, size)) == if size >= MIN_SIZE then {offset} else {}
  {
    if size >= MIN_SIZE {
      OffsetsOne(Frag(offset, size, false));
    }
  }

  /** The index after a block is given back: its entry goes, and a right neighbour that it absorbs is forgotten. */
  function MergedIndex(index: map<nat, bool>, fs: seq<Frag>, k: nat): map<nat, bool>
    requires k < |fs|
  {
    var without := index - {fs[k].offset};
    if FreeAt(fs, k + 1) then Forget(without, fs[k + 1].offset) else without
  }

  lemma ForgetIs(index: map<nat, bool>, o: nat)
    ensures Live(Forget(index, o)) == Live(index) - {o} && Live(index - {o}) == Live(index) - {o}
    ensures Live(index[o := true]) == Live(index) + {o}
  {
  }

  lemma MergeIndexed(index: map<nat, bool>, h: Heap, k: nat)
    requires Inv(h) && Indexed(index, h.frags) && k < |h.frags| && h.frags[k].used
    ensures Indexed(MergedIndex(index, h.frags, k), Merge(h.frags, k))
  {
    hide Ordered, Spent, Coalesced, UsedBytes, Offsets, UsedOffsets, Live, Replace, Indexed, Forget;
    var fs, m := h.frags, MergerOf(h.frags, k);
    MergeLaid(h, k);
    OffsetsOne(m.free);
    OffsetsFrom(fs, m.i, m.j);
    if m.i < k {
      OffsetsFrom(fs, k, m.j);
    }
    if k + 1 < m.j {
      OffsetsFrom(fs, k + 1, m.j);
    }
    NoOffsets(fs, m.j);
    ForgetIs(index, fs[k].offset);
    if k + 1 < m.j {
      ForgetIs(index - {fs[k].offset}, fs[k + 1].offset);
    }
    ReplaceIndexed(index, MergedIndex(index, fs, k), fs, m.i, m.j, [m.free], h.capacity);
  }

  lemma NoOffsets(fs: seq<Frag>, j: nat)
    requires j <= |fs|
    ensures Offsets(fs[j..j]) == {}
  {
  }

  function Insert(index: map<nat, bool>, tail: seq<Frag>): map<nat, bool> {
    if tail == [] then index else index[tail[0].offset := true]
  }

  lemma InsertIs(index: map<nat, bool>, offset: nat, size: nat)
    ensures Live(Insert(index, Tail(offset, size))) == Live(index) + Offsets(Tail(offset, size))
  {
    hide Live, Offsets;
    TailIsFree(offset, size);
    ForgetIs(index, offset);
  }

  /** The index after an allocation. */
  function AllocatedIndex(index: map<nat, bool>, offset: nat, tail: seq<Frag>): map<nat, bool> {
    Insert(index, tail)[offset := true]
  }

  lemma AllocateIndexed(index: map<nat, bool>, h: Heap, k: nat, size: nat)
    requires Inv(h) && Indexed(index, h.frags) && k < |h.frags| && size <= h.frags[k].size
    requires Laid(Carve(h.frags, k, k + 1, h.frags[k].size, size), h.capacity)
    ensures var tail := Tail(h.frags[k].offset + size, h.frags[k].size - size);
            Indexed(AllocatedIndex(index, h.frags[k].offset, tail), Carve(h.frags, k, k + 1, h.frags[k].size, size))
  {
    hide Laid, UsedBytes, Offsets, Live, Carve, Indexed, Insert, Tail;
    var offset := h.frags[k].offset;
    var tail := Tail(offset + size, h.frags[k].size - size);
    InsertIs(index, offset + size, h.frags[k].size - size);
    ForgetIs(Insert(index, tail), offset);
    OffsetsFrom(h.frags, k, k + 1);
    NoOffsets(h.frags, k + 1);
    CarveIndexed(index, AllocatedIndex(index, offset, tail), h, k, k + 1, h.frags[k].size, size);
  }

  /** The index after a block shrank or grew into its right neighbour. */
  function GrownIndex(index: map<nat, bool>, fs: seq<Frag>, k: nat, tail: seq<Frag>): map<nat, bool>
    requires k < |fs|
  {
    Insert(if FreeAt(fs, k + 1) then index - {fs[k + 1].offset} else index, tail)
  }

  lemma GrowIndexed(index: map<nat, bool>, h: Heap, k: nat, avail: nat, size: nat)
    requires Inv(h) && Indexed(index, h.frags) && k < |h.frags| && h.frags[k].used && size <= avail
    requires Laid(Carve(h.frags, k, if FreeAt(h.frags, k + 1) then k + 2 else k + 1, avail, size), h.capacity)
    ensures Indexed(GrownIndex(index, h.frags, k, Tail(h.frags[k].offset + size, avail - size)),
                    Carve(h.frags, k, if FreeAt(h.frags, k + 1) then k + 2 else k + 1, avail, size))
  {
    hide Laid, UsedBytes, Offsets, Live, Carve, Indexed, Insert, Tail;
    var fs, offset := h.frags, h.frags[k].offset;
    var j := if FreeAt(fs, k + 1) then k + 2 else k + 1;
    BlockIsLive(index, h, k);
    OffsetsFrom(fs, k, j);
    NoOffsets(fs, j);
    var without := index;
    if FreeAt(fs, k + 1) {
      without := index - {fs[k + 1].offset};
      ForgetIs(index, fs[k + 1].offset);
      OffsetsFrom(fs, k + 1, j);
      Elsewhere(h, k, k + 1);
    }
    InsertIs(without, offset + size, avail - size);
    CarveIndexed(index, GrownIndex(index, fs, k, Tail(offset + size, avail - size)), h, k, j, avail, size);
  }

  lemma BlockIsLive(index: map<nat, bool>, h: Heap, k: nat)
    requires Indexed(index, h.frags) && k < |h.frags| && h.frags[k].used
    ensures h.frags[k].offset in Live(index)
  {
    assert h.frags[k] in h.frags;
  }

  lemma Elsewhere(h: Heap, a: nat, b: nat)
    requires Inv(h) && a < b < |h.frags|
    ensures h.frags[a].offset != h.frags[b].offset
  {
    DifferentOffsets(h.frags, a, b, h.capacity);
  }

  /** The index after a block grew into its left neighbour. */
  function BackIndex(index: map<nat, bool>, fs: seq<Frag>, k: nat, tail: seq<Frag>): map<nat, bool>
    requires 0 < k < |fs|
  {
    var without := Insert(index, tail) - {fs[k].offset};
    (if FreeAt(fs, k + 1) then without - {fs[k + 1].offset} else without)[fs[k - 1].offset := true]
  }

  lemma BackIndexed(index: map<nat, bool>, h: Heap, k: nat, avail: nat, size: nat)
    requires Inv(h) && Indexed(index, h.frags) && 0 < k < |h.frags| && size <= avail
    requires Laid(Carve(h.frags, k - 1, if FreeAt(h.frags, k + 1) then k + 2 else k + 1, avail, size), h.capacity)
    ensures Indexed(BackIndex(index, h.frags, k, Tail(h.frags[k - 1].offset + size, avail - size)),
                    Carve(h.frags, k - 1, if FreeAt(h.frags, k + 1) then k + 2 else k + 1, avail, size))
  {
    hide Laid, UsedBytes, Offsets, Live, Carve, Indexed, Insert, Tail;
    var fs, offset := h.frags, h.frags[k - 1].offset;
    var j := if FreeAt(fs, k + 1) then k + 2 else k + 1;
    var tail := Tail(offset + size, avail - size);
    OffsetsFrom(fs, k - 1, j);
    OffsetsFrom(fs, k, j);
    NoOffsets(fs, j);
    InsertIs(index, offset + size, avail - size);
    var without := Insert(index, tail) - {fs[k].offset};
    ForgetIs(Insert(index, tail), fs[k].offset);
    Elsewhere(h, k - 1, k);
    if FreeAt(fs, k + 1) {
      Elsewhere(h, k - 1, k + 1);
      OffsetsFrom(fs, k + 1, j);
      ForgetIs(without, fs[k + 1].offset);
      without := without - {fs[k + 1].offset};
    }
    ForgetIs(without, offset);
    CarveIndexed(index, BackIndex(index, fs, k, tail), h, k - 1, j, avail, size);
  }
}
