/**
 What every run of the guest heap keeps, and exactly which operation breaks it.

 The fragments are in order and apart, no two free ones are neighbours, the bytes in use are counted,
 and at most 255 bytes of the arena are in no fragment.
 */
module GuestLaws {
  import opened Words
  import opened GuestHeap

  // ----- counting

  /** The blocks that the program owns. */
  function Owned(fs: seq<Frag>): multiset<Frag> {
    if fs == [] then multiset{} else (if fs[0].used then multiset{fs[0]} else multiset{}) + Owned(fs[1..])
  }

  function UsedBytes(fs: seq<Frag>): nat {
    if fs == [] then 0 else (if fs[0].used then fs[0].size else 0) + UsedBytes(fs[1..])
  }

  function Total(fs: seq<Frag>): nat {
    if fs == [] then 0 else fs[0].size + Total(fs[1..])
  }

  predicate Whole(size: nat) {
    size % MIN_SIZE == 0
  }

  /** How many fragments are no whole number of minimum-size ones. */
  function Odd(fs: seq<Frag>): nat {
    if fs == [] then 0 else (if Whole(fs[0].size) then 0 else 1) + Odd(fs[1..])
  }

  lemma {:induction false} OwnedAppend(a: seq<Frag>, b: seq<Frag>)
    ensures Owned(a + b) == Owned(a) + Owned(b) && UsedBytes(a + b) == UsedBytes(a) + UsedBytes(b)
    decreases |a|
  {
    if a == [] {
      assert a + b == b;
    } else {
      assert (a + b)[1..] == a[1..] + b;
      OwnedAppend(a[1..], b);
    }
  }

  lemma {:induction false} TotalAppend(a: seq<Frag>, b: seq<Frag>)
    ensures Total(a + b) == Total(a) + Total(b) && Odd(a + b) == Odd(a) + Odd(b)
    decreases |a|
  {
    if a == [] {
      assert a + b == b;
    } else {
      assert (a + b)[1..] == a[1..] + b;
      TotalAppend(a[1..], b);
    }
  }

  lemma CountOne(f: Frag)
    ensures Owned([f]) == if f.used then multiset{f} else multiset{}
    ensures UsedBytes([f]) == if f.used then f.size else 0
    ensures Total([f]) == f.size && Odd([f]) == if Whole(f.size) then 0 else 1
  {
    var one := [f];
    assert one[1..] == [];
  }

  lemma {:induction false} OwnedReplace(fs: seq<Frag>, i: nat, j: nat, others: seq<Frag>)
    requires i <= j <= |fs|
    ensures Owned(Replace(fs, i, j, others)) + Owned(fs[i..j]) == Owned(fs) + Owned(others)
    ensures UsedBytes(Replace(fs, i, j, others)) + UsedBytes(fs[i..j]) == UsedBytes(fs) + UsedBytes(others)
  {
    hide Owned, UsedBytes;
    assert fs == fs[..i] + fs[i..j] + fs[j..];
    OwnedAppend(fs[..i] + fs[i..j], fs[j..]);
    OwnedAppend(fs[..i], fs[i..j]);
    OwnedAppend(fs[..i] + others, fs[j..]);
    OwnedAppend(fs[..i], others);
  }

  lemma {:induction false} TotalReplace(fs: seq<Frag>, i: nat, j: nat, others: seq<Frag>)
    requires i <= j <= |fs|
    ensures Total(Replace(fs, i, j, others)) + Total(fs[i..j]) == Total(fs) + Total(others)
    ensures Odd(Replace(fs, i, j, others)) + Odd(fs[i..j]) == Odd(fs) + Odd(others)
  {
    hide Total, Odd;
    assert fs == fs[..i] + fs[i..j] + fs[j..];
    TotalAppend(fs[..i] + fs[i..j], fs[j..]);
    TotalAppend(fs[..i], fs[i..j]);
    TotalAppend(fs[..i] + others, fs[j..]);
    TotalAppend(fs[..i], others);
  }

  lemma SumIsWhole(a: nat, b: nat)
    requires Whole(a)
    ensures Whole(a + b) <==> Whole(b)
  {
    var x := a / 256;
    assert a == 256 * x;
    if Whole(b) {
      assert b == 256 * (b / 256);
      assert a + b == 256 * (x + b / 256);
    }
    if Whole(a + b) {
      assert a + b == 256 * ((a + b) / 256);
      assert b == 256 * ((a + b) / 256 - x);
    }
  }

  /** With at most one odd fragment, the sum is whole exactly when there is none. */
  lemma {:induction false} OddTotal(fs: seq<Frag>)
    requires Odd(fs) <= 1
    ensures Whole(Total(fs)) <==> Odd(fs) == 0
    decreases |fs|
  {
    hide Whole;
    if fs == [] {
      assert Whole(0) by { NothingIsWhole(); }
    } else {
      OddTotal(fs[1..]);
      if Whole(fs[0].size) {
        SumIsWhole(fs[0].size, Total(fs[1..]));
      } else {
        SumIsWhole(Total(fs[1..]), fs[0].size);
      }
    }
  }

  lemma NothingIsWhole()
    ensures Whole(0)
  {
  }

  // ----- the invariant

  /** Fragments in address order, none overlapping another, inside the arena. */
  ghost predicate Ordered(fs: seq<Frag>, limit: nat) {
    && (forall i :: 0 <= i < |fs| ==> fs[i].size >= MIN_SIZE && End(fs[i]) <= limit)
    && (forall i, j :: 0 <= i < j < |fs| ==> End(fs[i]) <= fs[j].offset)
  }

  /** No two neighbours are both free. */
  ghost predicate Coalesced(fs: seq<Frag>) {
    forall i, j :: 0 <= i < |fs| && j == i + 1 < |fs| ==> fs[i].used || fs[j].used
  }

  /**
   Every byte is in a fragment, of which at most one is odd; or less than a minimum-size fragment was
   lost, and with it the odd one.
   */
  predicate Spent(fs: seq<Frag>, capacity: nat) {
    || (Total(fs) == capacity && Odd(fs) <= 1)
    || (Total(fs) <= capacity < Total(fs) + MIN_SIZE && Odd(fs) == 0)
  }

  ghost predicate Laid(fs: seq<Frag>, capacity: nat) {
    Ordered(fs, capacity) && Coalesced(fs) && Spent(fs, capacity)
  }

  ghost predicate Inv(h: Heap) {
    Laid(h.frags, h.capacity) && h.inUse == UsedBytes(h.frags)
  }

  lemma {:induction false} OrderedReplace(fs: seq<Frag>, i: nat, j: nat, others: seq<Frag>, limit: nat)
    requires Ordered(fs, limit) && i < j <= |fs|
    requires others != [] && Ordered(others, End(fs[j - 1])) && others[0].offset >= fs[i].offset
    ensures Ordered(Replace(fs, i, j, others), limit)
  {
    var r := Replace(fs, i, j, others);
    var n := |others|;
    forall k | 0 <= k < |r| ensures r[k].size >= MIN_SIZE && End(r[k]) <= limit {
      if k >= i + n {
        assert r[k] == fs[k - n - i + j];
      }
    }
    forall a, b | 0 <= a < b < |r| ensures End(r[a]) <= r[b].offset {
      assert b >= i + n ==> r[b] == fs[b - n - i + j];
      assert a >= i + n ==> r[a] == fs[a - n - i + j];
      assert i <= a < i + n ==> r[a] == others[a - i] && End(r[a]) <= End(fs[j - 1]);
      assert i <= b < i + n ==> r[b] == others[b - i] && r[b].offset >= others[0].offset;
    }
  }

  lemma {:induction false} CoalescedReplace(fs: seq<Frag>, i: nat, j: nat, others: seq<Frag>)
    requires Coalesced(fs) && i <= j <= |fs| && others != [] && Coalesced(others)
    requires i > 0 ==> fs[i - 1].used || others[0].used
    requires j < |fs| ==> others[|others| - 1].used || fs[j].used
    ensures Coalesced(Replace(fs, i, j, others))
  {
    var r := Replace(fs, i, j, others);
    var n := |others|;
    forall a, b | 0 <= a < |r| && b == a + 1 < |r| ensures r[a].used || r[b].used {
      assert b >= i + n ==> r[b] == fs[b - n - i + j];
      assert a >= i + n ==> r[a] == fs[a - n - i + j];
    }
  }

  /** A fair replacement: as many bytes and no more odd fragments, or the odd end of one is lost. */
  predicate Fair(part: seq<Frag>, others: seq<Frag>) {
    || (Total(others) == Total(part) && Odd(others) <= Odd(part))
    || (Total(others) <= Total(part) < Total(others) + MIN_SIZE && Odd(others) == 0 && Odd(part) == 1)
  }

  lemma {:induction false} SpentReplace(fs: seq<Frag>, i: nat, j: nat, others: seq<Frag>, capacity: nat)
    requires i <= j <= |fs| && Spent(fs, capacity) && Fair(fs[i..j], others)
    ensures Spent(Replace(fs, i, j, others), capacity)
  {
    hide Total, Odd, Replace;
    TotalReplace(fs, i, j, others);
  }

  lemma ReplaceLaid(fs: seq<Frag>, i: nat, j: nat, others: seq<Frag>, capacity: nat)
    requires Laid(fs, capacity) && i < j <= |fs| && Fair(fs[i..j], others)
    requires others != [] && Ordered(others, End(fs[j - 1])) && others[0].offset == fs[i].offset && Coalesced(others)
    requires i > 0 ==> fs[i - 1].used || others[0].used
    requires j < |fs| ==> others[|others| - 1].used || fs[j].used
    ensures Laid(Replace(fs, i, j, others), capacity)
  {
    hide Ordered, Coalesced, Spent, Fair, Replace;
    OrderedReplace(fs, i, j, others, capacity);
    CoalescedReplace(fs, i, j, others);
    SpentReplace(fs, i, j, others, capacity);
  }

  /** Part of the list has at most one odd fragment. */
  lemma {:induction false} OddPart(fs: seq<Frag>, i: nat, j: nat, capacity: nat)
    requires Laid(fs, capacity) && i <= j <= |fs|
    ensures Odd(fs[i..j]) <= Odd(fs) <= 1
  {
    hide Odd, Total;
    assert fs == fs[..i] + fs[i..j] + fs[j..];
    TotalAppend(fs[..i] + fs[i..j], fs[j..]);
    TotalAppend(fs[..i], fs[i..j]);
  }

  /** Neighbours have room for the sum of their sizes. */
  lemma {:induction false} SpanFits(fs: seq<Frag>, i: nat, j: nat, limit: nat)
    requires Ordered(fs, limit) && i < j <= |fs|
    ensures fs[i].offset + Total(fs[i..j]) <= End(fs[j - 1]) && Total(fs[i..j]) >= MIN_SIZE
    decreases j
  {
    if j == i + 1 {
      assert fs[i..j] == [fs[i]];
      CountOne(fs[i]);
    } else {
      SpanFits(fs, i, j - 1, limit);
      assert fs[i..j] == fs[i..j - 1] + [fs[j - 1]];
      TotalAppend(fs[i..j - 1], [fs[j - 1]]);
      CountOne(fs[j - 1]);
    }
  }

  /** The sum of one to three neighbours. */
  lemma {:induction false} SpanTotal(fs: seq<Frag>, i: nat, j: nat)
    requires i < j <= |fs| && j <= i + 3
    ensures Total(fs[i..j]) ==
            fs[i].size + (if i + 1 < j then fs[i + 1].size else 0) + (if i + 2 < j then fs[i + 2].size else 0)
  {
    hide Total;
    SpanOne(fs, i, j);
    if i + 1 < j {
      SpanOne(fs, i + 1, j);
      if i + 2 < j {
        SpanOne(fs, i + 2, j);
      }
    }
  }

  lemma SpanOne(fs: seq<Frag>, i: nat, j: nat)
    requires i < j <= |fs|
    ensures Total(fs[i..j]) == fs[i].size + if i + 1 < j then Total(fs[i + 1..j]) else 0
  {
    assert fs[i..j][1..] == fs[i + 1..j];
  }

  // ----- carving and merging

  /** A block and its tail, counted. */
  lemma CountBlock(offset: nat, size: nat, rest: nat)
    ensures var b := Frag(offset, size, true);
            var others := [b] + Tail(offset + size, rest);
            && Owned(others) == multiset{b} && UsedBytes(others) == size
            && Total(others) == size + (if rest >= MIN_SIZE then rest else 0)
            && Odd(others) == (if Whole(size) then 0 else 1) + (if rest >= MIN_SIZE && !Whole(rest) then 1 else 0)
  {
    var b, t := Frag(offset, size, true), Tail(offset + size, rest);
    OwnedAppend([b], t);
    TotalAppend([b], t);
    CountOne(b);
    if t != [] {
      CountOne(t[0]);
    }
  }

  lemma BlockOrdered(offset: nat, size: nat, rest: nat, limit: nat)
    requires size >= MIN_SIZE && offset + size + rest <= limit
    ensures var others := [Frag(offset, size, true)] + Tail(offset + size, rest);
            && Ordered(others, limit) && Coalesced(others) && others[0] == Frag(offset, size, true)
            && (others[|others| - 1].used <==> rest < MIN_SIZE)
  {
  }

  /** A block of a whole size, or of all there is, is a fair replacement. */
  lemma CarveFair(part: seq<Frag>, offset: nat, size: nat)
    requires Odd(part) <= 1 && size <= Total(part) && (Whole(size) || size == Total(part))
    ensures Fair(part, [Frag(offset, size, true)] + Tail(offset + size, Total(part) - size))
  {
    hide Total, Odd, Tail;
    var rest := Total(part) - size;
    CountBlock(offset, size, rest);
    OddTotal(part);
    if Whole(size) {
      SumIsWhole(size, rest);
    }
  }

  /** Carving a block out of neighbouring fragments keeps the list laid out. */
  lemma {:induction false} CarveLaid(h: Heap, i: nat, j: nat, size: nat)
    requires Inv(h) && i < j <= |h.frags| && MIN_SIZE <= size <= Total(h.frags[i..j])
    requires Whole(size) || size == Total(h.frags[i..j])
    requires j < |h.frags| && Total(h.frags[i..j]) - size >= MIN_SIZE ==> h.frags[j].used
    ensures Laid(Carve(h.frags, i, j, Total(h.frags[i..j]), size), h.capacity)
  {
    hide UsedBytes, Total, Odd, Fair, Spent, Ordered, Coalesced, Replace, Tail;
    var fs := h.frags;
    var avail := Total(fs[i..j]);
    var offset := fs[i].offset;
    SpanFits(fs, i, j, h.capacity);
    OddPart(fs, i, j, h.capacity);
    CarveFair(fs[i..j], offset, size);
    BlockOrdered(offset, size, avail - size, End(fs[j - 1]));
    ReplaceLaid(fs, i, j, [Frag(offset, size, true)] + Tail(offset + size, avail - size), h.capacity);
  }

  lemma {:induction false} CarveOwned(fs: seq<Frag>, i: nat, j: nat, avail: nat, size: nat)
    requires i < j <= |fs| && size <= avail
    ensures Owned(Carve(fs, i, j, avail, size)) + Owned(fs[i..j])
            == Owned(fs) + multiset{Frag(fs[i].offset, size, true)}
    ensures UsedBytes(Carve(fs, i, j, avail, size)) + UsedBytes(fs[i..j]) == UsedBytes(fs) + size
  {
    hide Owned, UsedBytes, Replace, Tail;
    var offset := fs[i].offset;
    OwnedReplace(fs, i, j, [Frag(offset, size, true)] + Tail(offset + size, avail - size));
    CountBlock(offset, size, avail - size);
  }

  lemma NextIsUsed(h: Heap, k: nat)
    requires Inv(h) && k < |h.frags| && !h.frags[k].used
    ensures k + 1 < |h.frags| ==> h.frags[k + 1].used
    ensures k > 0 ==> h.frags[k - 1].used
  {
    hide Ordered, Spent;
  }

  lemma SizeIsMinimum(h: Heap, k: nat)
    requires Inv(h) && k < |h.frags|
    ensures MIN_SIZE <= h.frags[k].size <= h.capacity
  {
  }

  lemma {:induction false} MergeLaid(h: Heap, k: nat)
    requires Inv(h) && k < |h.frags| && h.frags[k].used
    ensures Laid(Merge(h.frags, k), h.capacity)
  {
    hide UsedBytes, Total, Odd, Spent, Ordered, Coalesced, Replace;
    var fs := h.frags;
    var m := MergerOf(fs, k);
    var part := fs[m.i..m.j];
    SpanFits(fs, m.i, m.j, h.capacity);
    SpanTotal(fs, m.i, m.j);
    OddPart(fs, m.i, m.j, h.capacity);
    OddTotal(part);
    CountOne(m.free);
    MergerEnds(h, k);
    OneOrdered(m.free, End(fs[m.j - 1]));
    ReplaceLaid(fs, m.i, m.j, [m.free], h.capacity);
  }

  lemma {:induction false} MergerEnds(h: Heap, k: nat)
    requires Inv(h) && k < |h.frags| && h.frags[k].used
    ensures var m := MergerOf(h.frags, k);
            (m.i > 0 ==> h.frags[m.i - 1].used) && (m.j < |h.frags| ==> h.frags[m.j].used)
  {
    hide Laid, UsedBytes;
    if FreeAt(h.frags, k - 1) {
      NextIsUsed(h, k - 1);
    }
    if FreeAt(h.frags, k + 1) {
      NextIsUsed(h, k + 1);
    }
  }

  lemma {:induction false} MergeOwned(fs: seq<Frag>, k: nat)
    requires k < |fs| && fs[k].used
    ensures Owned(Merge(fs, k)) + multiset{fs[k]} == Owned(fs)
    ensures UsedBytes(Merge(fs, k)) + fs[k].size == UsedBytes(fs)
  {
    hide Owned, UsedBytes, Replace;
    var m := MergerOf(fs, k);
    OwnedSpan(fs, m.i, m.j, k);
    CountOne(m.free);
    OwnedReplace(fs, m.i, m.j, [m.free]);
  }

  lemma OneOrdered(f: Frag, limit: nat)
    requires f.size >= MIN_SIZE && End(f) <= limit
    ensures Ordered([f], limit) && Coalesced([f])
  {
  }

  /** Of these neighbours only the one at k is used. */
  lemma {:induction false} OwnedSpan(fs: seq<Frag>, i: nat, j: nat, k: nat)
    requires i <= k < j <= |fs| && k <= i + 1 && j <= k + 2 && fs[k].used
    requires (i < k ==> !fs[i].used) && (k + 1 < j ==> !fs[k + 1].used)
    ensures Owned(fs[i..j]) == multiset{fs[k]} && UsedBytes(fs[i..j]) == fs[k].size
  {
    hide Owned, UsedBytes;
    var a, c := fs[i..k], fs[k + 1..j];
    assert fs[i..j] == a + [fs[k]] + c;
    OwnedFree(a);
    OwnedFree(c);
    CountOne(fs[k]);
    OwnedAppend(a, [fs[k]]);
    OwnedAppend(a + [fs[k]], c);
  }

  lemma OwnedFree(fs: seq<Frag>)
    requires |fs| <= 1 && forall k :: 0 <= k < |fs| ==> !fs[k].used
    ensures Owned(fs) == multiset{} && UsedBytes(fs) == 0
  {
    if fs != [] {
      assert fs == [fs[0]];
      CountOne(fs[0]);
    }
  }

  lemma {:induction false} UsedBytesAtLeast(fs: seq<Frag>, k: nat)
    requires k < |fs| && fs[k].used
    ensures UsedBytes(fs) >= fs[k].size
    decreases k
  {
    if k > 0 {
      UsedBytesAtLeast(fs[1..], k - 1);
    }
  }

  // ----- allocating and freeing

  lemma BlockSizeIsWhole(amount: U64)
    requires BlockSize(amount).Some?
    ensures Whole(BlockSize(amount).value) && BlockSize(amount).value >= MIN_SIZE
  {
    RoundUpIsPower(amount);
    if BlockSize(amount).value != MIN_SIZE {
      PowerAbove(RoundUp(amount));
    }
  }

  /** Allocation adds one block of the rounded size, or changes nothing. */
  lemma {:induction false} AllocateKeeps(h: Heap, amount: U64, pick: nat)
    requires Inv(h)
    ensures var (h', r) := Allocate(h, amount, pick);
            && Inv(h') && h'.capacity == h.capacity
            && (r.None? ==> h' == h)
            && (r.Some? ==>
                  && BlockSize(amount).Some?
                  && Owned(h'.frags) == Owned(h.frags) + multiset{Frag(r.value, BlockSize(amount).value, true)})
  {
    hide Owned, UsedBytes, Carve, Laid, Whole;
    var (h', r) := Allocate(h, amount, pick);
    if r.Some? {
      var fs, need := h.frags, BlockSize(amount).value;
      NextIsUsed(h, pick);
      BlockSizeIsWhole(amount);
      assert fs[pick..pick + 1] == [fs[pick]];
      CountOne(fs[pick]);
      CarveLaid(h, pick, pick + 1, need);
      CarveOwned(fs, pick, pick + 1, fs[pick].size, need);
    }
  }

  /** Allocation fails exactly when no free fragment is large enough. */
  lemma AllocateSucceeds(h: Heap, amount: U64, pick: nat)
    requires Inv(h) && amount > 0 && BlockSize(amount).Some? && BlockSize(amount).value <= h.capacity
    requires var need := BlockSize(amount).value;
             (exists k: nat :: Candidate(h.frags, k, need)) ==> Candidate(h.frags, pick, need)
    ensures var need := BlockSize(amount).value;
            Allocate(h, amount, pick).1.Some? <==>
            exists k :: 0 <= k < |h.frags| && !h.frags[k].used && h.frags[k].size >= need
  {
    var fs, need := h.frags, BlockSize(amount).value;
    forall k | 0 <= k < |fs| && !fs[k].used ensures Fits(fs[k], need) <==> fs[k].size >= need {
      BinsAreExact(amount, fs[k].size);
    }
    if k :| 0 <= k < |fs| && Fits(fs[k], need) {
      var m := LowestClass(fs, need, k);
      assert Candidate(fs, m, need);
    }
  }

  lemma {:induction false} LowestClass(fs: seq<Frag>, need: nat, k: nat) returns (m: nat)
    requires need >= MIN_SIZE && k < |fs| && Fits(fs[k], need)
    ensures Candidate(fs, m, need)
    decreases Bin(fs[k].size)
  {
    m := k;
    if n :| 0 <= n < |fs| && Fits(fs[n], need) && Bin(fs[n].size) < Bin(fs[k].size) {
      m := LowestClass(fs, need, n);
    }
  }

  /** An allocation takes a free fragment that is large enough, of the lowest size class with such a fragment. */
  lemma AllocateTakesLowest(h: Heap, amount: U64, pick: nat) returns (k: nat)
    requires Inv(h) && Allocate(h, amount, pick).1.Some?
    ensures k < |h.frags| && !h.frags[k].used && Allocate(h, amount, pick).1 == Some(h.frags[k].offset)
    ensures var need := BlockSize(amount).value;
            && MIN_SIZE <= need <= h.frags[k].size
            && forall m :: 0 <= m < |h.frags| && !h.frags[m].used && h.frags[m].size >= need ==>
                 h.frags[m].size >= MIN_SIZE && Bin(h.frags[k].size) <= Bin(h.frags[m].size)
  {
    hide BlockSize, Bin, Carve, Ordered, Coalesced, Spent, UsedBytes;
    var fs, need := h.frags, BlockSize(amount).value;
    k := pick;
    BlockSizeIsWhole(amount);
    forall m | 0 <= m < |fs| && !fs[m].used && fs[m].size >= need ensures Fits(fs[m], need) {
      BinsAreExact(amount, fs[m].size);
    }
  }

  /** In an arena of whole fragments nothing is lost and no fragment is odd. */
  lemma WholeTotal(h: Heap)
    requires Inv(h) && Whole(h.capacity)
    ensures Total(h.frags) == h.capacity && Odd(h.frags) == 0
  {
    hide Ordered, Coalesced, UsedBytes, Total, Odd, Whole;
    OddTotal(h.frags);
    if Total(h.frags) != h.capacity {
      LostIsOdd(Total(h.frags), h.capacity);
    }
  }

  lemma LostIsOdd(total: nat, capacity: nat)
    requires Whole(total) && total < capacity < total + MIN_SIZE
    ensures !Whole(capacity)
  {
    var x := total / 256;
    assert total == 256 * x;
    assert capacity - 256 * x == capacity % 256;
  }

  lemma {:induction false} WholeSize(h: Heap, k: nat)
    requires Inv(h) && Whole(h.capacity) && k < |h.frags|
    ensures Whole(h.frags[k].size)
  {
    hide Laid, UsedBytes, Total, Odd, Whole;
    var fs := h.frags;
    WholeTotal(h);
    assert fs == fs[..k] + [fs[k]] + fs[k + 1..];
    TotalAppend(fs[..k] + [fs[k]], fs[k + 1..]);
    TotalAppend(fs[..k], [fs[k]]);
    CountOne(fs[k]);
  }

  /** Freeing gives back the block at the offset, if its size is whole; in a whole arena it always is. */
  lemma {:induction false} FreeKeeps(h: Heap, offset: nat)
    requires Inv(h)
    ensures var h' := Free(h, offset);
            var k := Lookup(h.frags, offset);
            && Inv(h') && h'.capacity == h.capacity
            && (if k.Some? && Whole(h.frags[k.value].size) then
                  Owned(h'.frags) + multiset{h.frags[k.value]} == Owned(h.frags)
                else h' == h)
            && (k.Some? && Whole(h.capacity) ==> Whole(h.frags[k.value].size))
  {
    hide Owned, UsedBytes, Merge, Laid;
    var k := Lookup(h.frags, offset);
    if k.Some? {
      SizeIsMinimum(h, k.value);
      UsedBytesAtLeast(h.frags, k.value);
      MergeLaid(h, k.value);
      MergeOwned(h.frags, k.value);
      if Whole(h.capacity) {
        WholeSize(h, k.value);
      }
    }
  }

  // ----- blocks and their offsets

  lemma {:induction false} OwnedIs(fs: seq<Frag>, f: Frag)
    ensures f in Owned(fs) <==> f.used && f in fs
  {
    if fs != [] {
      OwnedIs(fs[1..], f);
    }
  }

  lemma DifferentOffsets(fs: seq<Frag>, a: nat, b: nat, limit: nat)
    requires Ordered(fs, limit) && a < |fs| && b < |fs| && a != b
    ensures fs[a].offset != fs[b].offset
  {
  }

  /** A block is found by its offset. */
  lemma LookupFinds(h: Heap, f: Frag)
    requires Inv(h) && f in Owned(h.frags)
    ensures Lookup(h.frags, f.offset).Some? && h.frags[Lookup(h.frags, f.offset).value] == f
  {
    hide Owned, UsedBytes, Lookup, Spent;
    OwnedIs(h.frags, f);
    var k :| 0 <= k < |h.frags| && h.frags[k] == f;
    var m := Lookup(h.frags, f.offset).value;
    if m != k {
      DifferentOffsets(h.frags, m, k, h.capacity);
    }
  }

  /** Two blocks that the program owns do not share a byte. */
  lemma BlocksAreApart(h: Heap, a: Frag, b: Frag)
    requires Inv(h) && a in Owned(h.frags) && b in Owned(h.frags) && a != b
    ensures End(a) <= b.offset || End(b) <= a.offset
  {
    hide Owned, UsedBytes, Spent;
    OwnedIs(h.frags, a);
    OwnedIs(h.frags, b);
  }

  /** A block can be freed exactly when its size is whole. */
  lemma FreeIsExact(h: Heap, f: Frag)
    requires Inv(h) && f in Owned(h.frags)
    ensures var h' := Free(h, f.offset);
            if Whole(f.size) then Owned(h'.frags) + multiset{f} == Owned(h.frags) else h' == h
  {
    hide Inv, Owned, Lookup, Free, Whole;
    LookupFinds(h, f);
    FreeKeeps(h, f.offset);
  }

  // ----- lost bytes

  /** The bytes between two fragments that are in none: fewer than a fragment, and none in a whole arena. */
  lemma {:induction false} GapsAreSmall(h: Heap, i: nat, j: nat)
    requires Inv(h) && i < j < |h.frags|
    ensures var end := h.frags[i].offset + Total(h.frags[i..j]);
            && end <= h.frags[j].offset < end + MIN_SIZE
            && (Whole(h.capacity) ==> h.frags[j].offset == end)
  {
    hide Total, Odd, Coalesced, UsedBytes, Whole;
    var fs := h.frags;
    assert fs == fs[..i] + fs[i..j] + fs[j..];
    TotalAppend(fs[..i] + fs[i..j], fs[j..]);
    TotalAppend(fs[..i], fs[i..j]);
    SpanFits(fs, i, j, h.capacity);
    RoomAround(fs, i, h.capacity);
    RoomAround(fs, j, h.capacity);
    if Whole(h.capacity) {
      WholeTotal(h);
    }
  }

  /** There is room before a fragment for those before it, and from it on for the others. */
  lemma {:induction false} RoomAround(fs: seq<Frag>, k: nat, limit: nat)
    requires Ordered(fs, limit) && k < |fs|
    ensures Total(fs[..k]) <= fs[k].offset && fs[k].offset + Total(fs[k..]) <= limit
  {
    assert fs[..k] == fs[0..k] && fs[k..] == fs[k..|fs|];
    SpanFits(fs, k, |fs|, limit);
    if k > 0 {
      SpanFits(fs, 0, k, limit);
    }
  }
}
