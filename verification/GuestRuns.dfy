/**
 Reallocation in the guest heap, and what holds over whole runs of allocations, releases and
 reallocations in an arena of any size.
 */
module GuestRuns {
  import opened Words
  import opened GuestHeap
  import opened GuestLaws

  // ----- resizing a block

  /** The resize grows backward past a right neighbour in use. */
  predicate Overruns(fs: seq<Frag>, k: nat, need: nat)
    requires k < |fs|
  {
    PlanOf(fs, k, need) == Backward && k + 1 < |fs| && fs[k + 1].used
  }

  /** The bytes that a resize has to work with, where it stays in place. */
  function Avail(fs: seq<Frag>, k: nat, need: nat): (r: nat)
    requires k < |fs|
    ensures PlanOf(fs, k, need).Forward? || PlanOf(fs, k, need).Backward? ==> need <= r
  {
    match PlanOf(fs, k, need)
    case Backward => SizeAt(fs, k - 1) + fs[k].size + SizeAt(fs, k + 1)
    case _ => fs[k].size + SizeAt(fs, k + 1)
  }

  /** The size of the block after a resize. */
  function NewSize(fs: seq<Frag>, k: nat, need: nat): nat
    requires k < |fs|
  {
    match PlanOf(fs, k, need)
    case Keep => fs[k].size
    case Forward | Backward => Fit(Avail(fs, k, need), need)
    case _ => need
  }

  /** One block gave way to another. */
  ghost predicate Swapped(before: seq<Frag>, after: seq<Frag>, old': Frag, block: Frag) {
    Owned(after) + multiset{old'} == Owned(before) + multiset{block}
  }

  lemma {:induction false} CarveSwaps(h: Heap, k: nat, i: nat, j: nat, avail: nat, size: nat)
    requires Inv(h) && i <= k < j <= |h.frags| && k <= i + 1 && j <= k + 2 && h.frags[k].used
    requires (i < k ==> !h.frags[i].used) && (k + 1 < j ==> !h.frags[k + 1].used)
    requires j < |h.frags| ==> h.frags[j].used
    requires avail == (if i < k then h.frags[i].size else 0) + h.frags[k].size
                      + (if k + 1 < j then h.frags[k + 1].size else 0)
    requires MIN_SIZE <= size <= avail && (Whole(size) || size == avail)
    ensures var fs := Carve(h.frags, i, j, avail, size);
            && Laid(fs, h.capacity) && UsedBytes(fs) + h.frags[k].size == h.inUse + size
            && Swapped(h.frags, fs, h.frags[k], Frag(h.frags[i].offset, size, true))
  {
    hide Laid, Carve, Owned, UsedBytes, Total, Whole;
    SpanTotal(h.frags, i, j);
    CarveLaid(h, i, j, size);
    CarveOwned(h.frags, i, j, avail, size);
    OwnedSpan(h.frags, i, j, k);
  }

  /** The block at k became one of at least the needed size, and not a fragment larger. */
  ghost predicate Resized(h: Heap, k: nat, need: nat, h': Heap, r: Option<Moved>)
    requires k < |h.frags|
  {
    && Inv(h') && h'.capacity == h.capacity && r.Some?
    && (r.value.copy == 0 ==> r.value.offset == h.frags[k].offset)
    && Swapped(h.frags, h'.frags, h.frags[k], Frag(r.value.offset, NewSize(h.frags, k, need), true))
  }

  /** What the cases share: the sizes, and where the free right neighbour ends. */
  lemma {:induction false} Surroundings(h: Heap, k: nat, need: nat, amount: U64)
    requires Inv(h) && k < |h.frags| && h.frags[k].used && BlockSize(amount) == Some(need)
    ensures need >= MIN_SIZE && Whole(need) && MIN_SIZE <= h.frags[k].size <= h.inUse
    ensures FreeAt(h.frags, k + 1) && k + 2 < |h.frags| ==> h.frags[k + 2].used
  {
    hide Laid, BlockSize, UsedBytes, Whole;
    BlockSizeIsWhole(amount);
    SizeIsMinimum(h, k);
    UsedBytesAtLeast(h.frags, k);
    if FreeAt(h.frags, k + 1) {
      NextIsUsed(h, k + 1);
    }
  }

  lemma {:induction false} ShrinkKeeps(h: Heap, k: nat, need: nat, amount: U64, pick: nat)
    requires Inv(h) && k < |h.frags| && h.frags[k].used && BlockSize(amount) == Some(need)
    requires PlanOf(h.frags, k, need).Shrink? || PlanOf(h.frags, k, need).Keep?
    ensures var (h', r) := Resize(h, k, need, amount, pick); Resized(h, k, need, h', r)
  {
    hide Laid, Carve, Owned, UsedBytes, BlockSize, Whole;
    var fs, size, right := h.frags, h.frags[k].size, FreeAt(h.frags, k + 1);
    Surroundings(h, k, need, amount);
    if PlanOf(fs, k, need).Shrink? {
      CarveSwaps(h, k, k, if right then k + 2 else k + 1, size + if right then SizeAt(fs, k + 1) else 0, need);
    }
  }

  lemma {:induction false} ForwardKeeps(h: Heap, k: nat, need: nat, amount: U64, pick: nat)
    requires Inv(h) && k < |h.frags| && h.frags[k].used && BlockSize(amount) == Some(need)
    requires PlanOf(h.frags, k, need).Forward?
    ensures var (h', r) := Resize(h, k, need, amount, pick); Resized(h, k, need, h', r)
  {
    hide Laid, Carve, Owned, UsedBytes, BlockSize, Whole;
    var fs := h.frags;
    var avail := fs[k].size + SizeAt(fs, k + 1);
    Surroundings(h, k, need, amount);
    CarveSwaps(h, k, k, k + 2, avail, Fit(avail, need));
  }

  lemma {:induction false} BackwardIs(h: Heap, k: nat, need: nat, amount: U64, pick: nat)
    requires k < |h.frags| && PlanOf(h.frags, k, need).Backward?
    ensures var fs, size := h.frags, h.frags[k].size;
            var avail := SizeAt(fs, k - 1) + size + SizeAt(fs, k + 1);
            && FreeAt(fs, k - 1) && need <= avail && size < need && NewSize(fs, k, need) == Fit(avail, need)
            && Resize(h, k, need, amount, pick) ==
               (Heap(Carve(fs, k - 1, if FreeAt(fs, k + 1) then k + 2 else k + 1, avail, Fit(avail, need)), h.capacity,
                     h.inUse + (Fit(avail, need) - size)),
                Some(Moved(fs[k - 1].offset, size)))
  {
    hide Carve;
  }

  lemma {:induction false} BackwardKeeps(h: Heap, k: nat, need: nat, amount: U64, pick: nat)
    requires Inv(h) && k < |h.frags| && h.frags[k].used && BlockSize(amount) == Some(need)
    requires PlanOf(h.frags, k, need).Backward? && !Overruns(h.frags, k, need)
    ensures var (h', r) := Resize(h, k, need, amount, pick); Resized(h, k, need, h', r)
  {
    hide Laid, Carve, Owned, UsedBytes, BlockSize, Swapped, Resize, PlanOf, NewSize, Whole;
    var fs, size := h.frags, h.frags[k].size;
    var avail := SizeAt(fs, k - 1) + size + SizeAt(fs, k + 1);
    BackwardIs(h, k, need, amount, pick);
    Surroundings(h, k, need, amount);
    CarveSwaps(h, k, k - 1, if FreeAt(fs, k + 1) then k + 2 else k + 1, avail, Fit(avail, need));
  }

  lemma ResizeInPlace(h: Heap, k: nat, need: nat, amount: U64, pick: nat)
    requires Inv(h) && k < |h.frags| && h.frags[k].used
    requires BlockSize(amount) == Some(need) && !Overruns(h.frags, k, need) && !PlanOf(h.frags, k, need).Move?
    ensures var (h', r) := Resize(h, k, need, amount, pick); Resized(h, k, need, h', r)
  {
    hide Resized, Resize, Inv, BlockSize;
    match PlanOf(h.frags, k, need)
    case Forward => ForwardKeeps(h, k, need, amount, pick);
    case Backward => BackwardKeeps(h, k, need, amount, pick);
    case _ => ShrinkKeeps(h, k, need, amount, pick);
  }

  lemma ResizeByMoving(h: Heap, k: nat, need: nat, amount: U64, pick: nat)
    requires Inv(h) && k < |h.frags| && h.frags[k].used && Whole(h.frags[k].size)
    requires BlockSize(amount) == Some(need) && PlanOf(h.frags, k, need).Move?
    ensures var (h', r) := Resize(h, k, need, amount, pick);
            && Inv(h') && h'.capacity == h.capacity
            && (r.None? ==> h' == h)
            && (r.Some? ==> r.value.copy == h.frags[k].size >= MIN_SIZE
                            && Swapped(h.frags, h'.frags, h.frags[k], Frag(r.value.offset, need, true)))
  {
    hide Inv, Owned, Allocate, Free, BlockSize;
    var (h1, r) := Allocate(h, amount, pick);
    AllocateKeeps(h, amount, pick);
    SizeIsMinimum(h, k);
    if r.Some? {
      var f := h.frags[k];
      OwnedIs(h.frags, f);
      LookupFinds(h1, f);
      FreeKeeps(h1, f.offset);
    }
  }

  /** A reallocation that passes the checks: there is a block of a whole size, and the new size can be. */
  predicate Accepted(h: Heap, offset: nat, amount: U64) {
    var k, need := Lookup(h.frags, offset), BlockSize(amount);
    && amount > 0 && k.Some? && need.Some? && need.value <= h.capacity
    && MIN_SIZE <= h.frags[k.value].size <= h.capacity && Whole(h.frags[k.value].size)
  }

  predicate OverrunsAt(h: Heap, offset: nat, amount: U64) {
    Accepted(h, offset, amount) && Overruns(h.frags, Lookup(h.frags, offset).value, BlockSize(amount).value)
  }

  lemma Accepts(h: Heap, offset: nat, amount: U64, pick: nat)
    requires amount > 0
    ensures Reallocate(h, offset, amount, pick) ==
            if Accepted(h, offset, amount) then
              Resize(h, Lookup(h.frags, offset).value, BlockSize(amount).value, amount, pick)
            else (h, None)
  {
    hide Resize, Free;
  }

  /** A reallocation swaps the block for one of the new size, or changes nothing. */
  lemma {:induction false} ReallocateKeeps(h: Heap, offset: nat, amount: U64, pick: nat)
    requires Inv(h) && amount > 0 && !OverrunsAt(h, offset, amount)
    ensures var (h', r) := Reallocate(h, offset, amount, pick);
            && Inv(h') && h'.capacity == h.capacity
            && (r.None? ==> h' == h)
            && (r.Some? ==>
                  && Accepted(h, offset, amount)
                  && (r.value.copy == 0 ==> r.value.offset == offset)
                  && var k, need := Lookup(h.frags, offset).value, BlockSize(amount).value;
                     && amount <= need <= NewSize(h.frags, k, need) < need + MIN_SIZE
                     && Swapped(h.frags, h'.frags, h.frags[k], Frag(r.value.offset, NewSize(h.frags, k, need), true)))
  {
    hide Inv, Swapped, Lookup, Free, Allocate, Reallocate, Resize, Whole;
    Accepts(h, offset, amount, pick);
    if Accepted(h, offset, amount) {
      var k, need := Lookup(h.frags, offset).value, BlockSize(amount).value;
      if PlanOf(h.frags, k, need).Move? {
        ResizeByMoving(h, k, need, amount, pick);
      } else {
        ResizeInPlace(h, k, need, amount, pick);
      }
    }
  }

  /**
   When it grows backward past a right neighbour in use, the new fragments reach into that neighbour:
   fewer bytes are lost before it than it has.
   */
  lemma {:induction false} OverrunBreaks(h: Heap, k: nat, need: nat, amount: U64, pick: nat)
    requires Inv(h) && k < |h.frags| && Overruns(h.frags, k, need)
    ensures !Ordered(Resize(h, k, need, amount, pick).0.frags, h.capacity)
  {
    hide Ordered, Spent, UsedBytes, Coalesced, Total, Whole;
    var fs := h.frags;
    GapsAreSmall(h, k - 1, k + 1);
    SpanTotal(fs, k - 1, k + 1);
    SizeIsMinimum(h, k + 1);
    var avail := fs[k - 1].size + fs[k].size + fs[k + 1].size;
    assert fs[k - 1].offset + avail > fs[k + 1].offset;
    var fs' := Resize(h, k, need, amount, pick).0.frags;
    var t := |Tail(fs[k - 1].offset + Fit(avail, need), avail - Fit(avail, need))|;
    assert fs'[k - 1 + t + 1] == fs[k + 1];
    assert End(fs'[k - 1 + t]) == fs[k - 1].offset + avail;
    Apart(fs', k - 1 + t, k + t, h.capacity);
  }

  lemma Apart(fs: seq<Frag>, i: nat, j: nat, limit: nat)
    requires i < j < |fs| && End(fs[i]) > fs[j].offset
    ensures !Ordered(fs, limit)
  {
  }

  // ----- whole runs

  predicate Clean(h: Heap, op: Op) {
    op.Realloc? ==> !OverrunsAt(h, op.offset, op.amount)
  }

  predicate RunClean(h: Heap, ops: seq<Op>)
    decreases |ops|
  {
    ops == [] || (Clean(h, ops[0]) && RunClean(Apply(h, ops[0]), ops[1..]))
  }

  /** The heap between any two operations of the run. */
  ghost predicate InvThroughout(h: Heap, ops: seq<Op>)
    decreases |ops|
  {
    Inv(h) && (ops != [] ==> InvThroughout(Apply(h, ops[0]), ops[1..]))
  }

  lemma StepKeeps(h: Heap, op: Op)
    requires Inv(h) && Clean(h, op)
    ensures Inv(Apply(h, op)) && Apply(h, op).capacity == h.capacity
  {
    hide Inv, Free, Allocate, Reallocate, OverrunsAt, Accepted, NewSize, Whole;
    match op
    case Alloc(amount, pick) => AllocateKeeps(h, amount, pick);
    case Release(offset) => FreeKeeps(h, offset);
    case Realloc(offset, amount, pick) =>
      if amount == 0 {
        ReallocateZero(h, offset, pick);
        FreeKeeps(h, offset);
      } else {
        ReallocateKeeps(h, offset, amount, pick);
      }
  }

  lemma ReallocateZero(h: Heap, offset: nat, pick: nat)
    ensures Reallocate(h, offset, 0, pick) == (Free(h, offset), None)
  {
  }

  /** A step keeps the invariant exactly when it does not overrun. */
  lemma StepIsExact(h: Heap, op: Op)
    requires Inv(h)
    ensures Inv(Apply(h, op)) <==> Clean(h, op)
  {
    hide Ordered, Spent, Coalesced, UsedBytes, Resize, Overruns, Reallocate, Accepted;
    if Clean(h, op) {
      StepKeeps(h, op);
    } else {
      AcceptedIs(h, op.offset, op.amount);
      var k, need := Lookup(h.frags, op.offset).value, BlockSize(op.amount).value;
      Accepts(h, op.offset, op.amount, op.pick);
      OverrunBreaks(h, k, need, op.amount, op.pick);
      ResizeCapacity(h, k, need, op.amount, op.pick);
    }
  }

  lemma AcceptedIs(h: Heap, offset: nat, amount: U64)
    requires Accepted(h, offset, amount)
    ensures amount > 0 && Lookup(h.frags, offset).Some? && BlockSize(amount).Some?
  {
  }

  lemma ResizeCapacity(h: Heap, k: nat, need: nat, amount: U64, pick: nat)
    requires k < |h.frags|
    ensures Resize(h, k, need, amount, pick).0.capacity == h.capacity
  {
    hide Carve, Merge, Candidate;
  }

  /**
   Over a run the fragments stay in order, coalesced and accounted for exactly when no reallocation of
   it overruns.
   */
  lemma {:induction false} RunIsExact(h: Heap, ops: seq<Op>)
    requires Inv(h)
    ensures RunClean(h, ops) <==> InvThroughout(h, ops)
    ensures RunClean(h, ops) ==> Inv(RunAll(h, ops)) && RunAll(h, ops).capacity == h.capacity
    decreases |ops|
  {
    hide Inv, Apply, Clean;
    if ops != [] {
      StepIsExact(h, ops[0]);
      if Clean(h, ops[0]) {
        StepKeeps(h, ops[0]);
        RunIsExact(Apply(h, ops[0]), ops[1..]);
      }
    }
  }

  lemma NewHeapIsLaid(size: nat)
    requires size >= MIN_SIZE
    ensures Inv(NewHeap(size)) && Owned(NewHeap(size).frags) == multiset{}
  {
    hide Whole;
    var f := Frag(0, size, false);
    CountOne(f);
    OneOrdered(f, size);
  }

  /** So it is in an arena of any size, of which at most 255 bytes are ever lost. */
  lemma ArenaIsExact(size: nat, ops: seq<Op>)
    requires size >= MIN_SIZE
    ensures RunClean(NewHeap(size), ops) <==> InvThroughout(NewHeap(size), ops)
    ensures RunClean(NewHeap(size), ops) ==>
              var total := Total(RunAll(NewHeap(size), ops).frags);
              total <= size < total + MIN_SIZE && (Whole(size) ==> total == size)
  {
    hide Ordered, Coalesced, UsedBytes, Total, Odd, Whole, RunClean, InvThroughout, RunAll, NewHeap;
    NewHeapIsLaid(size);
    RunIsExact(NewHeap(size), ops);
    NewCapacity(size);
    var h := RunAll(NewHeap(size), ops);
    if RunClean(NewHeap(size), ops) && Whole(size) {
      WholeTotal(h);
    }
  }

  lemma NewCapacity(size: nat)
    ensures NewHeap(size).capacity == size
  {
  }

  // ----- blocks that cannot be freed

  ghost predicate AllFreeable(h: Heap) {
    forall f :: f in Owned(h.frags) ==> Whole(f.size)
  }

  /** A resize that takes all there is, and that is not whole. */
  predicate TakesOddEnd(h: Heap, op: Op) {
    && op.Realloc? && Accepted(h, op.offset, op.amount)
    && var k, need := Lookup(h.frags, op.offset).value, BlockSize(op.amount).value;
       var plan := PlanOf(h.frags, k, need);
       (plan.Forward? || plan.Backward?) && !Whole(Fit(Avail(h.frags, k, need), need))
  }

  lemma NewSizeIsOdd(h: Heap, op: Op)
    requires op.Realloc?
    ensures TakesOddEnd(h, op) <==>
            && Accepted(h, op.offset, op.amount)
            && !Whole(NewSize(h.frags, Lookup(h.frags, op.offset).value, BlockSize(op.amount).value))
  {
    hide Whole, BlockSize, Fit, Avail;
    if Accepted(h, op.offset, op.amount) {
      BlockSizeIsWhole(op.amount);
    }
  }

  lemma SwapIs(before: seq<Frag>, after: seq<Frag>, f: Frag, g: Frag)
    requires Swapped(before, after, f, g)
    ensures forall x :: x in Owned(after) ==> x == g || x in Owned(before)
    ensures forall x :: x in Owned(before) ==> x == f || x in Owned(after)
    ensures f != g ==> g in Owned(after)
  {
    hide Owned;
    forall x ensures Owned(after)[x] + multiset{f}[x] == Owned(before)[x] + multiset{g}[x] {
      assert (Owned(after) + multiset{f})[x] == (Owned(before) + multiset{g})[x];
    }
  }

  /** A block that cannot be freed comes from a resize that takes an odd end, and from nothing else. */
  lemma FreeableIsExact(h: Heap, op: Op)
    requires Inv(h) && Clean(h, op) && AllFreeable(h)
    ensures AllFreeable(Apply(h, op)) <==> !TakesOddEnd(h, op)
  {
    hide Inv, Free, Allocate, Reallocate, OverrunsAt, Owned, NewSize, Whole, BlockSize;
    match op
    case Alloc(amount, pick) =>
      AllocateKeeps(h, amount, pick);
      if Allocate(h, amount, pick).1.Some? {
        BlockSizeIsWhole(amount);
      }
    case Release(offset) =>
      FreeKeeps(h, offset);
    case Realloc(offset, amount, pick) =>
      if amount == 0 {
        ReallocateZero(h, offset, pick);
        FreeKeeps(h, offset);
      } else {
        ReallocFreeable(h, op);
      }
  }

  lemma ReallocFreeable(h: Heap, op: Op)
    requires Inv(h) && Clean(h, op) && AllFreeable(h) && op.Realloc? && op.amount > 0
    ensures AllFreeable(Apply(h, op)) <==> !TakesOddEnd(h, op)
  {
    hide Inv, Reallocate, OverrunsAt, Owned, NewSize, Whole, BlockSize, Swapped, TakesOddEnd;
    ReallocateKeeps(h, op.offset, op.amount, op.pick);
    var (h', r) := Reallocate(h, op.offset, op.amount, op.pick);
    NewSizeIsOdd(h, op);
    if Accepted(h, op.offset, op.amount) {
      var k, need := Lookup(h.frags, op.offset).value, BlockSize(op.amount).value;
      if r.Some? {
        SwapIs(h.frags, h'.frags, h.frags[k], Frag(r.value.offset, NewSize(h.frags, k, need), true));
      } else {
        RefusedSize(h, op.offset, op.amount, op.pick);
        BlockSizeIsWhole(op.amount);
      }
    }
  }

  lemma RefusedSize(h: Heap, offset: nat, amount: U64, pick: nat)
    requires Inv(h) && Accepted(h, offset, amount) && Reallocate(h, offset, amount, pick).1.None?
    ensures var k, need := Lookup(h.frags, offset).value, BlockSize(amount).value;
            NewSize(h.frags, k, need) == need
  {
    hide Inv, Carve, Allocate, Free;
    Accepts(h, offset, amount, pick);
  }

  /** Such a block is there for good. */
  lemma {:induction false} OddStays(h: Heap, ops: seq<Op>, f: Frag)
    requires Inv(h) && RunClean(h, ops) && f in Owned(h.frags) && !Whole(f.size)
    ensures f in Owned(RunAll(h, ops).frags)
    decreases |ops|
  {
    hide Inv, Apply, Clean, Owned, Whole;
    if ops != [] {
      StepKeeps(h, ops[0]);
      OddStep(h, ops[0], f);
      OddStays(Apply(h, ops[0]), ops[1..], f);
    }
  }

  lemma OddStep(h: Heap, op: Op, f: Frag)
    requires Inv(h) && Clean(h, op) && f in Owned(h.frags) && !Whole(f.size)
    ensures f in Owned(Apply(h, op).frags)
  {
    hide Inv, Free, Allocate, Reallocate, OverrunsAt, Owned, NewSize, Swapped, Lookup, BlockSize, Whole;
    match op
    case Alloc(amount, pick) => AllocateKeeps(h, amount, pick);
    case Release(offset) => FreeKeeps(h, offset);
    case Realloc(offset, amount, pick) =>
      if amount == 0 {
        ReallocateZero(h, offset, pick);
        FreeKeeps(h, offset);
      } else {
        ReallocateKeeps(h, offset, amount, pick);
        var (h', r) := Reallocate(h, offset, amount, pick);
        if r.Some? {
          var k, need := Lookup(h.frags, offset).value, BlockSize(amount).value;
          SwapIs(h.frags, h'.frags, h.frags[k], Frag(r.value.offset, NewSize(h.frags, k, need), true));
        }
      }
  }

  // ----- examples

  lemma SmallSizes()
    ensures BlockSize(256) == Some(256) && BlockSize(512) == Some(512) && BlockSize(1024) == Some(1024)
  {
    assert RoundUp(16) == 16;
    assert RoundUp(32) == 32;
    assert RoundUp(128) == 128;
    assert RoundUp(256) == 256;
    assert RoundUp(512) == 512;
    assert RoundUp(1024) == 1024;
  }

  /** Allocating when only the last fragment is free. */
  lemma AllocateLast(h: Heap, amount: U64)
    requires h.frags != [] && amount > 0 && BlockSize(amount).Some? && BlockSize(amount).value <= h.capacity
    requires var pick := |h.frags| - 1;
             && (forall k :: 0 <= k < pick ==> h.frags[k].used)
             && !h.frags[pick].used && h.frags[pick].size >= BlockSize(amount).value
    ensures var pick, need := |h.frags| - 1, BlockSize(amount).value;
            var f := h.frags[pick];
            Allocate(h, amount, pick) ==
            (Heap(h.frags[..pick] + [Frag(f.offset, need, true)] + Tail(f.offset + need, f.size - need), h.capacity,
                  h.inUse + need),
             Some(f.offset))
  {
    hide BlockSize, Bin;
    var pick, need := |h.frags| - 1, BlockSize(amount).value;
    var f := h.frags[pick];
    BlockSizeIsWhole(amount);
    BinsAreExact(amount, f.size);
    assert Candidate(h.frags, pick, need);
    var block, tail := [Frag(f.offset, need, true)], Tail(f.offset + need, f.size - need);
    assert h.frags[..pick] + (block + tail) + h.frags[pick + 1..] == h.frags[..pick] + block + tail;
  }

  /** Three blocks, the first of which is then freed. */
  lemma ExampleReached()
    ensures var ops := [Alloc(256, 0), Alloc(256, 1), Alloc(1024, 2), Release(0)];
            && RunAll(NewHeap(1536), ops) ==
               Heap([Frag(0, 256, false), Frag(256, 256, true), Frag(512, 1024, true)], 1536, 1280)
            && RunClean(NewHeap(1536), ops)
  {
    hide BlockSize, Allocate, Free;
    SmallSizes();
    var a, b, c := Frag(0, 256, true), Frag(256, 256, true), Frag(512, 1024, true);
    var h0 := NewHeap(1536);
    var h1 := Heap([a, Frag(256, 1280, false)], 1536, 256);
    var h2 := Heap([a, b, Frag(512, 1024, false)], 1536, 512);
    var h3 := Heap([a, b, c], 1536, 1536);
    AllocateLast(h0, 256);
    assert Apply(h0, Alloc(256, 0)) == h1;
    AllocateLast(h1, 256);
    assert Apply(h1, Alloc(256, 1)) == h2;
    AllocateLast(h2, 1024);
    assert Apply(h2, Alloc(1024, 2)) == h3;
    FirstFreed(a, b, c);
    RunStep(h3, Release(0), []);
    RunStep(h2, Alloc(1024, 2), [Release(0)] + []);
    RunStep(h1, Alloc(256, 1), [Alloc(1024, 2)] + ([Release(0)] + []));
    RunStep(h0, Alloc(256, 0), [Alloc(256, 1)] + ([Alloc(1024, 2)] + ([Release(0)] + [])));
    assert [Alloc(256, 0), Alloc(256, 1), Alloc(1024, 2), Release(0)] ==
           [Alloc(256, 0)] + ([Alloc(256, 1)] + ([Alloc(1024, 2)] + ([Release(0)] + [])));
  }

  lemma RunStep(h: Heap, op: Op, rest: seq<Op>)
    ensures RunAll(h, [op] + rest) == RunAll(Apply(h, op), rest)
    ensures RunClean(h, [op] + rest) <==> Clean(h, op) && RunClean(Apply(h, op), rest)
  {
    hide Apply, Clean;
    assert ([op] + rest)[1..] == rest;
  }

  lemma FirstFreed(a: Frag, b: Frag, c: Frag)
    requires a == Frag(0, 256, true) && b.used
    ensures Free(Heap([a, b, c], 1536, 1536), 0) == Heap([Frag(0, 256, false), b, c], 1536, 1280)
  {
    var fs := [a, b, c];
    assert Lookup(fs, 0) == Some(0);
    assert Merge(fs, 0) == [] + [Frag(0, 256, false)] + fs[1..];
  }

  /** In that heap, growing the block of 256 bytes to 1024 overruns the one of 1024. */
  lemma OverrunExample(pick: nat)
    ensures var a, b, c := Frag(0, 256, false), Frag(256, 256, true), Frag(512, 1024, true);
            var h := RunAll(NewHeap(1536), [Alloc(256, 0), Alloc(256, 1), Alloc(1024, 2), Release(0)]);
            && Inv(h)
            && Reallocate(h, 256, 1024, pick) ==
               (Heap([Frag(0, 1024, true), Frag(1024, 512, false), c], 1536, 2048), Some(Moved(0, 256)))
  {
    hide Inv, BlockSize, Lookup, Carve, RunAll, RunClean, InvThroughout, NewHeap;
    var a, b, c := Frag(0, 256, false), Frag(256, 256, true), Frag(512, 1024, true);
    var ops := [Alloc(256, 0), Alloc(256, 1), Alloc(1024, 2), Release(0)];
    NewHeapIsLaid(1536);
    ExampleReached();
    RunIsExact(NewHeap(1536), ops);
    SmallSizes();
    SecondBlock(a, b, c);
    ExampleCarved(a, b, c);
  }

  lemma SecondBlock(a: Frag, b: Frag, c: Frag)
    requires !a.used && b == Frag(256, 256, true)
    ensures Lookup([a, b, c], 256) == Some(1)
  {
    assert [a, b, c][1..][0] == b;
  }

  lemma ExampleCarved(a: Frag, b: Frag, c: Frag)
    requires a == Frag(0, 256, false) && b == Frag(256, 256, true) && c == Frag(512, 1024, true)
    ensures Carve([a, b, c], 0, 2, 1536, 1024) == [Frag(0, 1024, true), Frag(1024, 512, false), c]
  {
    assert [a, b, c][2..] == [c];
  }

  /** Growing a block to 512 bytes in an arena of 600 takes all of it, for good. */
  lemma UnfreeableExample(pick: nat, later: seq<Op>)
    ensures var h := RunAll(NewHeap(600), [Alloc(256, 0), Realloc(0, 512, pick)]);
            var f := Frag(0, 600, true);
            && h == Heap([f], 600, 600) && Free(h, 0) == h
            && (RunClean(h, later) ==> f in Owned(RunAll(h, later).frags))
  {
    hide BlockSize, Allocate, Inv, Owned, RunClean;
    var h0, h1 := NewHeap(600), Heap([Frag(0, 256, true), Frag(256, 344, false)], 600, 256);
    var f := Frag(0, 600, true);
    var h2 := Heap([f], 600, 600);
    SmallSizes();
    AllocateLast(h0, 256);
    assert Apply(h0, Alloc(256, 0)) == h1;
    TakesAll(h1, pick);
    RunStep(h1, Realloc(0, 512, pick), []);
    RunStep(h0, Alloc(256, 0), [Realloc(0, 512, pick)] + []);
    assert [Alloc(256, 0), Realloc(0, 512, pick)] == [Alloc(256, 0)] + ([Realloc(0, 512, pick)] + []);
    OnlyBlock(f);
    if RunClean(h2, later) {
      OddStays(h2, later, f);
    }
  }

  lemma TakesAll(h: Heap, pick: nat)
    requires h == Heap([Frag(0, 256, true), Frag(256, 344, false)], 600, 256)
    ensures Reallocate(h, 0, 512, pick) == (Heap([Frag(0, 600, true)], 600, 600), Some(Moved(0, 0)))
  {
    hide BlockSize, Allocate;
    SmallSizes();
    assert Lookup(h.frags, 0) == Some(0);
    assert PlanOf(h.frags, 0, 512) == Forward;
    assert Carve(h.frags, 0, 2, 600, 600) == [Frag(0, 600, true)];
  }

  lemma OnlyBlock(f: Frag)
    requires f == Frag(0, 600, true)
    ensures Inv(Heap([f], 600, 600)) && f in Owned([f]) && !Whole(600)
    ensures Free(Heap([f], 600, 600), 0) == Heap([f], 600, 600)
  {
    CountOne(f);
    OneOrdered(f, 600);
    assert Lookup([f], 0) == Some(0);
  }
}
