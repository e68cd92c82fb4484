/**
 The allocator as an object: the source's case analysis on its own fields, with the free lists and the
 index table that it searches instead of the fragment list.
 */
module GuestArena {
  import opened Words
  import opened GuestHeap
  import opened GuestLaws
  import opened GuestRuns
  import opened GuestBins

  // ----- addresses

  /** The offset that `free` takes from an address: the difference, cut to 32 bits. */
  function Truncated(base: U64, address: U64): U32 {
    (address - base) % TWO64 % TWO32
  }

  /** Two addresses are freed alike exactly when they differ by a multiple of 4 GiB. */
  lemma FreesAlike(base: U64, a: U64, b: U64)
    ensures Truncated(base, a) == Truncated(base, b) <==> (a - b) % TWO32 == 0
    ensures base <= a < base + TWO32 ==> Truncated(base, a) == a - base
  {
    CutTwice(a - base);
    CutTwice(b - base);
    SameCut(a - base, b - base);
  }

  lemma CutTwice(x: int)
    ensures x % TWO64 % TWO32 == x % TWO32
  {
    var q, r := x / TWO64, x % TWO64;
    Residue(x, TWO32 * q + r / TWO32, r % TWO32);
  }

  lemma Residue(x: int, q: int, r: int)
    requires x == 0x1_0000_0000 * q + r && 0 <= r < 0x1_0000_0000
    ensures x % 0x1_0000_0000 == r
  {
  }

  lemma SameCut(x: int, y: int)
    ensures x % TWO32 == y % TWO32 <==> (x - y) % TWO32 == 0
  {
    var q, r := x / TWO32, y / TWO32;
    assert x - y == TWO32 * (q - r) + (x % TWO32 - y % TWO32);
  }

  /** The plain-data copy of an arena. */
  datatype Snapshot = Snapshot(base: U64, heap: Heap, keys: set<nat>)

  /** A snapshot of an arena in order. */
  ghost predicate Sound(snap: Snapshot) {
    && snap.base + snap.heap.capacity <= TWO64 && snap.heap.capacity < TWO32
    && Inv(snap.heap) && UsedOffsets(snap.heap.frags) <= snap.keys
  }

  /** The candidate that the free lists offer, if there is one. */
  ghost predicate Chosen(h: Heap, amount: U64, pick: nat) {
    amount > 0 && BlockSize(amount).Some? && BlockSize(amount).value <= h.capacity ==>
      var need := BlockSize(amount).value;
      (exists k: nat :: Candidate(h.frags, k, need)) ==> Candidate(h.frags, pick, need)
  }

  /** The request is for something, and some free fragment is large enough. */
  ghost predicate HasRoom(h: Heap, amount: U64) {
    && amount > 0 && BlockSize(amount).Some?
    && exists k :: FreeAt(h.frags, k) && h.frags[k].size >= BlockSize(amount).value
  }

  /** Which of the candidates is chosen does not matter to whether there is room. */
  lemma ChosenSucceeds(h: Heap, amount: U64, pick: nat)
    requires Inv(h) && Chosen(h, amount, pick)
    ensures GuestHeap.Allocate(h, amount, pick).1.Some? <==> HasRoom(h, amount)
  {
    hide Inv, Candidate, BlockSize, Carve;
    if amount > 0 && BlockSize(amount).Some? {
      if BlockSize(amount).value <= h.capacity {
        AllocateSucceeds(h, amount, pick);
      } else {
        forall k | FreeAt(h.frags, k) ensures h.frags[k].size < BlockSize(amount).value {
          SizeIsMinimum(h, k);
        }
      }
    }
  }

  // ----- what a reallocation answers

  /** With the bytes of its free right neighbour the block is large enough. */
  predicate FitsRight(fs: seq<Frag>, k: nat, need: nat)
    requires k < |fs|
  {
    k + 1 < |fs| && !fs[k + 1].used && fs[k].size + fs[k + 1].size >= need
  }

  /** With the bytes of its free left neighbour, and of its right one, the block is large enough. */
  predicate FitsLeft(fs: seq<Frag>, k: nat, need: nat)
    requires k < |fs|
  {
    && k > 0 && !fs[k - 1].used
    && fs[k - 1].size + fs[k].size + (if k + 1 < |fs| then fs[k + 1].size else 0) >= need
  }

  /** The block at k can stay, can grow into a neighbour, or there is room elsewhere. */
  ghost predicate CanResize(h: Heap, k: nat, amount: U64)
    requires k < |h.frags| && BlockSize(amount).Some?
  {
    var need := BlockSize(amount).value;
    need <= h.frags[k].size || FitsRight(h.frags, k, need) || FitsLeft(h.frags, k, need) || HasRoom(h, amount)
  }

  /** The answer for the block at k: where it is now and how much is to be copied. */
  ghost predicate Answers(h: Heap, k: nat, amount: U64, r: Option<Moved>)
    requires k < |h.frags| && BlockSize(amount).Some?
  {
    var fs, need, f := h.frags, BlockSize(amount).value, h.frags[k];
    if need <= f.size || FitsRight(fs, k, need) then r == Some(Moved(f.offset, 0))
    else if FitsLeft(fs, k, need) then r == Some(Moved(fs[k - 1].offset, f.size))
    else if HasRoom(h, amount) then
      && r.Some? && r.value.copy == f.size
      && exists j :: FreeAt(fs, j) && fs[j].size >= need && fs[j].offset == r.value.offset
    else r == None
  }

  /** An accepted reallocation succeeds exactly when the block can be resized, and copies exactly when it moves. */
  lemma ReallocateAnswers(h: Heap, offset: nat, amount: U64, pick: nat)
    requires Inv(h) && Chosen(h, amount, pick) && Accepted(h, offset, amount)
    ensures var r, k := Reallocate(h, offset, amount, pick).1, Lookup(h.frags, offset).value;
            && Answers(h, k, amount, r)
            && (r.Some? <==> CanResize(h, k, amount))
            && (r.Some? ==> r.value.copy == if r.value.offset == offset then 0 else h.frags[k].size)
  {
    hide Inv, Lookup, BlockSize, Whole, Carve, Chosen, Candidate, GuestHeap.Allocate, GuestHeap.Free, Grow, Reallocate;
    var k, need := Lookup(h.frags, offset).value, BlockSize(amount).value;
    Accepts(h, offset, amount, pick);
    ResizeRoom(h, k);
    ChosenSucceeds(h, amount, pick);
    TakenIsFree(h, amount, pick, k);
    if k > 0 {
      Elsewhere(h, k - 1, k);
    }
  }

  /** An allocation gives the offset of a free fragment that is large enough, and no block's. */
  lemma TakenIsFree(h: Heap, amount: U64, pick: nat, k: nat)
    requires Inv(h) && k < |h.frags| && h.frags[k].used && BlockSize(amount).Some?
    ensures var r := GuestHeap.Allocate(h, amount, pick).1;
            r.Some? ==> r.value != h.frags[k].offset
                        && exists j :: FreeAt(h.frags, j) && h.frags[j].size >= BlockSize(amount).value
                                       && h.frags[j].offset == r.value
  {
    hide Inv, BlockSize, Carve;
    var r := GuestHeap.Allocate(h, amount, pick).1;
    if r.Some? {
      assert FreeAt(h.frags, pick);
      if pick < k {
        Elsewhere(h, pick, k);
      } else {
        Elsewhere(h, k, pick);
      }
    }
  }

  class Arena {
    const base: U64
    const capacity: nat
    var frags: seq<Frag>
    var inUse: nat
    var bins: Bins
    var index: map<nat, bool>

    function View(): Heap
      reads this
    {
      Heap(frags, capacity, inUse)
    }

    /** The layout holds, and the free lists and the index agree with the fragments. */
    ghost predicate Valid()
      reads this
    {
      && base + capacity <= TWO64 && capacity < TWO32
      && Inv(View()) && Binned(bins, frags) && Indexed(index, frags)
    }

    constructor (base: U64, size: nat)
      requires MIN_SIZE <= size < TWO32 && base + size <= TWO64
      ensures Valid() && View() == NewHeap(size) && this.base == base
    {
      var first := Frag(0, size, false);
      this.base, capacity, frags, inUse := base, size, [first], 0;
      index, bins := map[0 := true], Rebin(EMPTY, first);
      new;
      NewHeapIsLaid(size);
      EmptyBins();
      RebinKeeps(EMPTY, first, []);
      assert [first] + [] == [first];
      OffsetsOne(first);
    }

    function TakeSnapshot(): (snap: Snapshot)
      requires Valid()
      reads this
      ensures Sound(snap)
    {
      LiveAreKeys(index);
      Snapshot(base, View(), index.Keys)
    }

    /** Rebuilds an arena: free fragments go to their lists in turn, and keys without a fragment are dropped. */
    constructor Restore(snap: Snapshot)
      requires Sound(snap)
      ensures Valid() && View() == snap.heap && base == snap.base
    {
      var fs := snap.heap.frags;
      base, capacity, frags, inUse := snap.base, snap.heap.capacity, fs, snap.heap.inUse;
      index := map o | o in snap.keys && o in Offsets(fs) :: true;
      bins := RebinFree(EMPTY, fs);
      new;
      SizesAre(snap.heap);
      EmptyBins();
      RebinFreeKeeps(EMPTY, fs, []);
      assert fs + [] == fs;
      UsedAreListed(fs);
    }

    /** Puts a block in place of the fragments from i up to j and, if there is room, a free one after it. */
    method Place(i: nat, j: nat, avail: nat, size: nat)
      requires AroundOne(frags, i, j) && size <= avail < TWO32
      requires Binned(bins, frags) && Sized(frags)
      modifies this`frags, this`bins
      ensures frags == Carve(old(frags), i, j, avail, size) && Binned(bins, frags)
    {
      hide Unbin, Rebin, Binned;
      ghost var tail := Tail(frags[i].offset + size, avail - size);
      SwapKeeps(bins, frags, i, j, [Frag(frags[i].offset, size, true)], tail);
      if !frags[i].used {
        bins := Unbin(bins, frags[i]);
      }
      if i + 1 < j && !frags[j - 1].used {
        bins := Unbin(bins, frags[j - 1]);
      }
      var block := Frag(frags[i].offset, size, true);
      var leftover := avail - size;
      if leftover >= MIN_SIZE {
        var free := Frag(End(block), leftover, false);
        frags := frags[..i] + [block] + [free] + frags[j..];
        bins := Rebin(bins, free);
      } else {
        frags := frags[..i] + [block] + frags[j..];
      }
    }

    /** Makes a block of the first bytes of a free fragment, and indexes what it makes. */
    method Take(k: nat, size: nat)
      requires Valid() && k < |frags| && size <= frags[k].size
      requires Laid(Carve(frags, k, k + 1, frags[k].size, size), capacity)
      modifies this`frags, this`bins, this`index
      ensures frags == Carve(old(frags), k, k + 1, old(frags[k].size), size)
      ensures Binned(bins, frags) && Indexed(index, frags)
    {
      hide Laid, UsedBytes, Carve, Binned, Indexed;
      SizesAre(View());
      AllocateIndexed(index, View(), k, size);
      var offset, leftover := frags[k].offset, frags[k].size - size;
      Place(k, k + 1, frags[k].size, size);
      if leftover >= MIN_SIZE {
        index := index[offset + size := true];
      }
      index := index[offset := true];
    }

    /** Takes the head of the lowest non-empty free list that is high enough. */
    method Allocate(amount: U64) returns (r: Option<nat>, ghost pick: nat)
      requires Valid()
      modifies this
      ensures Valid() && Chosen(old(View()), amount, pick)
      ensures View() == GuestHeap.Allocate(old(View()), amount, pick).0
      ensures r == Address(GuestHeap.Allocate(old(View()), amount, pick).1)
      ensures r.Some? <==> HasRoom(old(View()), amount)
    {
      hide Laid, UsedBytes, Carve, BlockSize, Candidate, Binned, Indexed, Head, At, Chosen, HasRoom;
      r := None;
      pick := Choose(bins, View(), amount);
      ChosenSucceeds(View(), amount, pick);
      if amount == 0 {
        return;
      }
      var need := BlockSize(amount);
      if need.None? || need.value > capacity {
        return;
      }
      var head := Head(bins, need.value, frags);
      if head.None? {
        return;
      }
      AllocateKeeps(View(), amount, pick);
      CandidateFits(frags, pick, amount);
      var k := At(frags, head.value).value;
      OnlyOne(View(), pick, k);
      Take(k, need.value);
      inUse := inUse + need.value;
      r := Some(base + head.value);
    }

    function Address(offset: Option<nat>): Option<nat>
    {
      match offset
      case None => None
      case Some(o) => Some(base + o)
    }

    /** Marks the fragment at k free and merges it with its free neighbours. */
    method Join(k: nat)
      requires Valid() && k < |frags| && frags[k].used
      modifies this`frags, this`bins, this`index
      ensures frags == Merge(old(frags), k) && Binned(bins, frags) && Indexed(index, frags)
    {
      hide Laid, UsedBytes, Unbin, Rebin, Binned, Indexed, Forget;
      SizesAre(View());
      MergeIndexed(index, View(), k);
      MergeBinned(bins, View(), k);
      var joinLeft := k > 0 && !frags[k - 1].used;
      var joinRight := k + 1 < |frags| && !frags[k + 1].used;
      var freed := frags[k];
      index := index - {freed.offset};
      if joinRight {
        index := Forget(index, frags[k + 1].offset);
      }
      if joinLeft && joinRight {
        bins := Unbin(Unbin(bins, frags[k - 1]), frags[k + 1]);
        var prev := frags[k - 1].(size := frags[k - 1].size + freed.size + frags[k + 1].size);
        frags := frags[..k - 1] + [prev] + frags[k + 2..];
        bins := Rebin(bins, prev);
      } else if joinLeft {
        bins := Unbin(bins, frags[k - 1]);
        var prev := frags[k - 1].(size := frags[k - 1].size + freed.size);
        frags := frags[..k - 1] + [prev] + frags[k + 1..];
        bins := Rebin(bins, prev);
      } else if joinRight {
        bins := Unbin(bins, frags[k + 1]);
        var wide := Frag(freed.offset, freed.size + frags[k + 1].size, false);
        frags := frags[..k] + [wide] + frags[k + 2..];
        bins := Rebin(bins, wide);
      } else {
        var free := freed.(used := false);
        frags := frags[..k] + [free] + frags[k + 1..];
        bins := Rebin(bins, free);
      }
    }

    /** Frees the block at the truncated offset, if there is one that can be freed. */
    method Free(address: U64)
      requires Valid()
      modifies this
      ensures Valid() && View() == GuestHeap.Free(old(View()), Truncated(base, address))
    {
      hide Laid, UsedBytes, Merge, Lookup, Binned, Indexed, Found;
      var offset := Truncated(base, address);
      FreeKeeps(View(), offset);
      FoundIsLookup(index, View(), offset);
      var found := Found(index, frags, offset);
      if found.None? {
        return;
      }
      var size := frags[found.value].size;
      if size < MIN_SIZE || size > capacity || size % MIN_SIZE != 0 {
        return;
      }
      if inUse < size {
        return;
      }
      Join(found.value);
      inUse := inUse - size;
    }

    /** Gives a block another size where it is, with the bytes of its right neighbour if that is free. */
    method Refit(k: nat, avail: nat, size: nat)
      requires Valid() && k < |frags| && frags[k].used && size <= avail < TWO32
      requires Laid(Carve(frags, k, if FreeAt(frags, k + 1) then k + 2 else k + 1, avail, size), capacity)
      modifies this`frags, this`bins, this`index
      ensures frags == Carve(old(frags), k, if FreeAt(old(frags), k + 1) then k + 2 else k + 1, avail, size)
      ensures Binned(bins, frags) && Indexed(index, frags)
    {
      hide Laid, UsedBytes, Carve, Binned, Indexed;
      SizesAre(View());
      GrowIndexed(index, View(), k, avail, size);
      var offset := frags[k].offset;
      var j := k + 1;
      if FreeAt(frags, k + 1) {
        index := index - {frags[k + 1].offset};
        j := k + 2;
      }
      Place(k, j, avail, size);
      if avail - size >= MIN_SIZE {
        index := index[offset + size := true];
      }
    }

    /** Moves a block back into its free left neighbour. */
    method Extend(k: nat, avail: nat, size: nat)
      requires Valid() && 0 < k < |frags| && frags[k].used && size <= avail < TWO32
      modifies this`frags, this`bins, this`index
      ensures frags == Carve(old(frags), k - 1, if FreeAt(old(frags), k + 1) then k + 2 else k + 1, avail, size)
      ensures Binned(bins, frags) && (Laid(frags, capacity) ==> Indexed(index, frags))
    {
      hide Laid, UsedBytes, Carve, Binned, Indexed;
      SizesAre(View());
      var offset, prevOffset, nextFree := frags[k].offset, frags[k - 1].offset, FreeAt(frags, k + 1);
      var nextOffset := if nextFree then frags[k + 1].offset else 0;
      var j := if nextFree then k + 2 else k + 1;
      if Laid(Carve(frags, k - 1, j, avail, size), capacity) {
        BackIndexed(index, View(), k, avail, size);
      }
      Place(k - 1, j, avail, size);
      if avail - size >= MIN_SIZE {
        index := index[prevOffset + size := true];
      }
      index := index - {offset};
      if nextFree {
        index := index - {nextOffset};
      }
      index := index[prevOffset := true];
    }

    /** The cases of a resize, in the source's order. */
    method Resize(k: nat, need: nat, amount: U64) returns (r: Option<Moved>, ghost pick: nat)
      requires Valid() && k < |frags| && frags[k].used && Whole(frags[k].size)
      requires BlockSize(amount) == Some(need) && need <= capacity && amount > 0
      modifies this
      ensures View() == GuestHeap.Resize(old(View()), k, need, amount, pick).0 && Chosen(old(View()), amount, pick)
      ensures r == GuestHeap.Resize(old(View()), k, need, amount, pick).1
      ensures !Overruns(old(frags), k, need) ==> Valid()
    {
      hide Laid, UsedBytes, Carve, Merge, BlockSize, Binned, Indexed, Candidate, Chosen, Whole, Swapped,
        GuestHeap.Allocate, GuestHeap.Free, Total, Head, Lookup;
      pick := Choose(bins, View(), amount);
      ResizeRoom(View(), k);
      if !PlanOf(frags, k, need).Move? && !Overruns(frags, k, need) {
        ResizeInPlace(View(), k, need, amount, pick);
      }
      var size, offset := frags[k].size, frags[k].offset;
      var nextFree := k + 1 < |frags| && !frags[k + 1].used;
      var next := if k + 1 < |frags| then frags[k + 1].size else 0;
      var prevFree := k > 0 && !frags[k - 1].used;
      if need <= size {
        var leftover := size - need;
        if leftover >= MIN_SIZE {
          if inUse < leftover {
            return None, pick;
          }
          Refit(k, size + if nextFree then next else 0, need);
          inUse := inUse - leftover;
        }
        return Some(Moved(offset, 0)), pick;
      }
      if nextFree && size + next >= need {
        var grown := Fit(size + next, need);
        Refit(k, size + next, grown);
        inUse := inUse + (grown - size);
        return Some(Moved(offset, 0)), pick;
      }
      if prevFree && frags[k - 1].size + size + next >= need {
        var avail := frags[k - 1].size + size + next;
        var grown := Fit(avail, need);
        r := Some(Moved(frags[k - 1].offset, size));
        Extend(k, avail, grown);
        inUse := inUse + (grown - size);
        return;
      }
      var place;
      place, pick := Allocate(amount);
      if place.None? {
        return None, pick;
      }
      FreesAlike(base, base + offset, base);
      Free(base + offset);
      return Some(Moved(place.value - base, size)), pick;
    }

    function Relocated(r: Option<Moved>): Option<Moved> {
      match r
      case None => None
      case Some(m) => Some(Moved(base + m.offset, m.copy))
    }

    /**
     Resizes the block at an address; one outside the 4 GiB from the base is refused. What the arena
     keeps is broken exactly when the resize overruns.
     */
    method Reallocate(address: U64, amount: U64) returns (r: Option<Moved>, ghost pick: nat)
      requires Valid()
      modifies this
      ensures var offset, near := Truncated(base, address), base <= address < base + TWO32;
              if amount > 0 && !near then View() == old(View()) && r.None?
              else
                && View() == GuestHeap.Reallocate(old(View()), offset, amount, pick).0
                && r == Relocated(GuestHeap.Reallocate(old(View()), offset, amount, pick).1)
                && (amount > 0 ==> Chosen(old(View()), amount, pick))
      ensures r.Some? <==>
              var offset := Truncated(base, address);
              && base <= address < base + TWO32 && Accepted(old(View()), offset, amount)
              && CanResize(old(View()), Lookup(old(frags), offset).value, amount)
      ensures r.Some? ==>
                var size := old(frags)[Lookup(old(frags), Truncated(base, address)).value].size;
                r.value.copy == if r.value.offset == address then 0 else size
      ensures base <= address < base + TWO32 && OverrunsAt(old(View()), Truncated(base, address), amount)
              <==> !Inv(View())
      ensures Inv(View()) ==> Valid()
    {
      hide Inv, Lookup, BlockSize, GuestHeap.Resize, GuestHeap.Free, Overruns, Chosen, Binned, Indexed, Found, Whole,
        CanResize, Answers;
      pick := Choose(bins, View(), amount);
      if amount == 0 {
        Free(address);
        return None, pick;
      }
      if address < base || address - base >= TWO32 {
        return None, pick;
      }
      var offset := address - base;
      FreesAlike(base, address, base);
      FoundIsLookup(index, View(), offset);
      Accepts(View(), offset, amount, pick);
      var found, need := Found(index, frags, offset), BlockSize(amount);
      if found.None? {
        return None, pick;
      }
      var size := frags[found.value].size;
      if size < MIN_SIZE || size > capacity || !Whole(size) {
        return None, pick;
      }
      if need.None? || amount > capacity || need.value > capacity {
        return None, pick;
      }
      ghost var before := View();
      r, pick := Resize(found.value, need.value, amount);
      Accepts(before, offset, amount, pick);
      StepIsExact(before, Realloc(offset, amount, pick));
      ReallocateAnswers(before, offset, amount, pick);
      r := Relocated(r);
    }
  }

  /** The sizes around a block fit in the arena. */
  lemma {:induction false} ResizeRoom(h: Heap, k: nat)
    requires Inv(h) && k < |h.frags| && h.frags[k].used
    ensures SizeAt(h.frags, k - 1) + h.frags[k].size + SizeAt(h.frags, k + 1) <= h.capacity
    ensures h.frags[k].size <= h.inUse && End(h.frags[k]) <= h.capacity && h.frags[k].size > 0
  {
    hide Spent, Coalesced, UsedBytes, Total;
    var i, j := if k > 0 then k - 1 else k, if k + 1 < |h.frags| then k + 2 else k + 1;
    SpanFits(h.frags, i, j, h.capacity);
    SpanTotal(h.frags, i, j);
    UsedBytesAtLeast(h.frags, k);
  }

  lemma Choose(bins: Bins, h: Heap, amount: U64) returns (pick: nat)
    requires Inv(h) && h.capacity < TWO32 && Binned(bins, h.frags)
    ensures Chosen(h, amount, pick)
    ensures amount > 0 && BlockSize(amount).Some? && BlockSize(amount).value <= h.capacity ==>
              var need := BlockSize(amount).value;
              match Head(bins, need, h.frags)
              case None => !Candidate(h.frags, pick, need)
              case Some(o) => Candidate(h.frags, pick, need) && h.frags[pick].offset == o
  {
    hide Laid, UsedBytes, Binned, BlockSize, Candidate, Head;
    SizesAre(h);
    pick := 0;
    if amount > 0 && BlockSize(amount).Some? && BlockSize(amount).value <= h.capacity {
      BlockSizeIsWhole(amount);
      pick := HeadIsCandidate(bins, h.frags, BlockSize(amount).value);
    }
  }

  lemma CandidateFits(fs: seq<Frag>, pick: nat, amount: U64)
    requires BlockSize(amount).Some? && Candidate(fs, pick, BlockSize(amount).value)
    ensures pick < |fs| && fs[pick].size >= BlockSize(amount).value && !fs[pick].used
  {
    BinsAreExact(amount, fs[pick].size);
  }

  lemma OnlyOne(h: Heap, a: nat, b: nat)
    requires Inv(h) && a < |h.frags| && b < |h.frags| && h.frags[a].offset == h.frags[b].offset
    ensures a == b
  {
    if a < b {
      Elsewhere(h, a, b);
    } else if b < a {
      Elsewhere(h, b, a);
    }
  }

  lemma MergeBinned(bins: Bins, h: Heap, k: nat)
    requires Inv(h) && h.capacity < TWO32 && Binned(bins, h.frags) && k < |h.frags| && h.frags[k].used
    ensures var m := MergerOf(h.frags, k);
            Binned(Rebin(Unlink(bins, h.frags, m.i, m.j), m.free), Merge(h.frags, k))
  {
    hide Laid, UsedBytes, Binned, Unlink, Rebin, Total;
    var m := MergerOf(h.frags, k);
    SizesAre(h);
    MergeLaid(h, k);
    MergedSize(h, k);
    SwapKeeps(bins, h.frags, m.i, m.j, [], [m.free]);
    assert [] + [m.free] == [m.free];
  }

  lemma MergedSize(h: Heap, k: nat)
    requires Inv(h) && k < |h.frags|
    ensures MIN_SIZE <= MergerOf(h.frags, k).free.size <= h.capacity
  {
    hide Spent, Coalesced, UsedBytes, Total;
    var m := MergerOf(h.frags, k);
    SpanFits(h.frags, m.i, m.j, h.capacity);
    SpanTotal(h.frags, m.i, m.j);
  }

  lemma LiveAreKeys(index: map<nat, bool>)
    ensures Live(index) <= index.Keys
  {
  }

  lemma SizesAre(h: Heap)
    requires Inv(h) && h.capacity < TWO32
    ensures Sized(h.frags)
  {
  }
}
