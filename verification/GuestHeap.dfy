/**
 The allocator behind the emulated heaps (`maps/heap_allocation.rs`).

 The address-ordered fragment list is a sequence. A free list per size class decides which fragment an
 allocation takes; here the choice among the fragments of the right class is left open, as `pick`, and
 `GuestBins` has the free lists that make it.
 */
module GuestHeap {
  import opened Words

  const MIN_SIZE: nat := 256

  datatype Frag = Frag(offset: nat, size: nat, used: bool)

  datatype Heap = Heap(frags: seq<Frag>, capacity: nat, inUse: nat)

  // ----- sizes and size classes

  function RoundUp(x: nat): (r: nat)
    ensures r >= x && r >= 1 && (x > 1 ==> r < 2 * x)
  {
    if x <= 1 then 1 else 2 * RoundUp((x + 1) / 2)
  }

  ghost predicate PowerOfTwo(n: nat) {
    n == 1 || (n > 1 && n % 2 == 0 && PowerOfTwo(n / 2))
  }

  /** The fragment size for a request: a power of two, at least the minimum; none on overflow. */
  function BlockSize(amount: U64): (r: Option<nat>)
    ensures r.Some? ==> r.value >= amount && r.value >= MIN_SIZE
  {
    if amount > TWO64 / 2 then None
    else Some(if RoundUp(amount) < MIN_SIZE then MIN_SIZE else RoundUp(amount))
  }

  lemma {:induction false} PowersAreApart(p: nat, q: nat)
    requires PowerOfTwo(p) && PowerOfTwo(q) && p < 2 * q
    ensures p <= q
    decreases q
  {
    if q > 1 && p > 1 {
      PowersAreApart(p / 2, q / 2);
    }
  }

  /** The fragment size is the least power of two that covers the request and the minimum; none above 2^63. */
  lemma BlockSizeIsLeast(amount: U64, p: nat)
    requires PowerOfTwo(p) && p >= amount && p >= MIN_SIZE
    ensures BlockSize(amount).Some? <==> amount <= 0x8000_0000_0000_0000
    ensures BlockSize(amount).Some? ==> PowerOfTwo(BlockSize(amount).value) && BlockSize(amount).value <= p
  {
    if BlockSize(amount).Some? {
      BlockSizeIsPower(amount);
      if RoundUp(amount) > MIN_SIZE {
        PowersAreApart(RoundUp(amount), p);
      }
    }
  }

  function Log2(n: nat): nat
    requires n > 0
  {
    if n == 1 then 0 else 1 + Log2(n / 2)
  }

  /** The free list that a fragment of this size goes to. */
  function Bin(size: nat): nat
    requires size >= MIN_SIZE
  {
    Log2(size / MIN_SIZE)
  }

  lemma {:induction false} RoundUpIsPower(x: nat)
    ensures PowerOfTwo(RoundUp(x))
  {
    if x > 1 {
      RoundUpIsPower((x + 1) / 2);
      DoubleIsPower(RoundUp((x + 1) / 2));
    }
  }

  lemma DoubleIsPower(n: nat)
    requires PowerOfTwo(n)
    ensures PowerOfTwo(2 * n)
  {
    assert 2 * n / 2 == n && 2 * n % 2 == 0;
  }

  lemma {:induction false} LogGrows(a: nat, b: nat)
    requires 0 < a <= b
    ensures Log2(a) <= Log2(b)
  {
    if a > 1 {
      LogGrows(a / 2, b / 2);
    }
  }

  lemma {:induction false} LogOfPower(p: nat, n: nat)
    requires PowerOfTwo(p) && n > 0 && Log2(n) >= Log2(p)
    ensures n >= p
  {
    if p > 1 {
      LogOfPower(p / 2, n / 2);
    }
  }

  /** Halving a power of two four times. */
  lemma Sixteenth(p: nat) returns (q: nat)
    requires PowerOfTwo(p) && p >= 16
    ensures PowerOfTwo(q) && p == 16 * q
  {
    var a := p / 2;
    assert p == 2 * a && PowerOfTwo(a);
    var b := a / 2;
    assert a == 2 * b && PowerOfTwo(b);
    var c := b / 2;
    assert b == 2 * c && PowerOfTwo(c);
    q := c / 2;
    assert c == 2 * q && PowerOfTwo(q);
  }

  lemma PowerAbove(p: nat)
    requires PowerOfTwo(p) && p >= MIN_SIZE
    ensures p % MIN_SIZE == 0 && PowerOfTwo(p / MIN_SIZE)
  {
    var q := Sixteenth(p);
    var r := Sixteenth(q);
    assert p == MIN_SIZE * r;
  }

  /** For a request the size classes are exact: a fragment is in a class at least as high iff it fits. */
  lemma BinsAreExact(amount: U64, size: nat)
    requires BlockSize(amount).Some? && size >= MIN_SIZE
    ensures Bin(size) >= Bin(BlockSize(amount).value) <==> size >= BlockSize(amount).value
  {
    var need := BlockSize(amount).value;
    BlockSizeIsPower(amount);
    PowerAbove(need);
    var a, b := need / MIN_SIZE, size / MIN_SIZE;
    if size >= need {
      LogGrows(a, b);
    }
    if Bin(size) >= Bin(need) {
      LogOfPower(a, b);
    }
  }

  function Log2Ceil(n: nat): nat {
    if n <= 1 then 0 else Log2(n - 1) + 1
  }

  lemma {:induction false} CeilOfPower(p: nat)
    requires PowerOfTwo(p)
    ensures Log2Ceil(p) == Log2(p)
  {
    if p > 1 {
      var q := p / 2;
      assert p == 2 * q && (p - 1) / 2 == q - 1;
      CeilOfPower(q);
    }
  }

  /** The list where an allocation starts to look, by a logarithm rounded up, is that of its size. */
  lemma StartsAtItsBin(amount: U64)
    requires BlockSize(amount).Some?
    ensures Log2Ceil(BlockSize(amount).value / MIN_SIZE) == Bin(BlockSize(amount).value)
  {
    hide Log2, Log2Ceil, RoundUp, PowerOfTwo;
    BlockSizeIsPower(amount);
    PowerAbove(BlockSize(amount).value);
    CeilOfPower(BlockSize(amount).value / MIN_SIZE);
  }

  lemma BlockSizeIsPower(amount: U64)
    requires BlockSize(amount).Some?
    ensures PowerOfTwo(BlockSize(amount).value)
  {
    RoundUpIsPower(amount);
    MinIsPower();
  }

  lemma MinIsPower()
    ensures PowerOfTwo(MIN_SIZE)
  {
    assert PowerOfTwo(8);
    assert PowerOfTwo(64);
  }

  // ----- fragment lists

  function End(f: Frag): nat {
    f.offset + f.size
  }

  /** The fragments from i up to j replaced by others. */
  function Replace(fs: seq<Frag>, i: nat, j: nat, others: seq<Frag>): seq<Frag>
    requires i <= j <= |fs|
  {
    fs[..i] + others + fs[j..]
  }

  // ----- the operations

  /** What is left of a range, if it is large enough to be a fragment. */
  function Tail(offset: nat, size: nat): seq<Frag> {
    if size >= MIN_SIZE then [Frag(offset, size, false)] else []
  }

  /** A block in place of the fragments from i up to j, which have `avail` bytes, and what it leaves. */
  function Carve(fs: seq<Frag>, i: nat, j: nat, avail: nat, size: nat): seq<Frag>
    requires i < j <= |fs| && size <= avail
  {
    Replace(fs, i, j, [Frag(fs[i].offset, size, true)] + Tail(fs[i].offset + size, avail - size))
  }

  predicate Fits(f: Frag, need: nat)
    requires need >= MIN_SIZE
  {
    !f.used && f.size >= MIN_SIZE && Bin(f.size) >= Bin(need)
  }

  /** A fragment in the lowest non-empty class that is high enough. */
  predicate Candidate(fs: seq<Frag>, k: nat, need: nat)
    requires need >= MIN_SIZE
  {
    && k < |fs| && Fits(fs[k], need)
    && forall m :: 0 <= m < |fs| && Fits(fs[m], need) ==> Bin(fs[k].size) <= Bin(fs[m].size)
  }

  function Allocate(h: Heap, amount: U64, pick: nat): (Heap, Option<nat>) {
    var need := BlockSize(amount);
    if amount == 0 || need.None? || need.value > h.capacity then (h, None)
    else if !Candidate(h.frags, pick, need.value) || h.frags[pick].size < need.value then (h, None)
    else
      (Heap(Carve(h.frags, pick, pick + 1, h.frags[pick].size, need.value), h.capacity, h.inUse + need.value),
       Some(h.frags[pick].offset))
  }

  /** The index table: the used fragment at an offset. */
  function Lookup(fs: seq<Frag>, offset: nat): (r: Option<nat>)
    ensures r.Some? ==> r.value < |fs| && fs[r.value].used && fs[r.value].offset == offset
    ensures r.None? ==> forall k :: 0 <= k < |fs| ==> !(fs[k].used && fs[k].offset == offset)
  {
    if fs == [] then None
    else if fs[0].used && fs[0].offset == offset then Some(0)
    else
      match Lookup(fs[1..], offset)
      case None => None
      case Some(k) => Some(k + 1)
  }

  predicate FreeAt(fs: seq<Frag>, k: int) {
    0 <= k < |fs| && !fs[k].used
  }

  function SizeAt(fs: seq<Frag>, k: int): nat {
    if 0 <= k < |fs| then fs[k].size else 0
  }

  /** The free fragment that takes the place of a block and its free neighbours, from i up to j. */
  datatype Merger = Merger(i: nat, j: nat, free: Frag)

  function MergerOf(fs: seq<Frag>, k: nat): (r: Merger)
    requires k < |fs|
    ensures r.i <= k < r.j <= |fs| && k <= r.i + 1 && r.j <= k + 2
  {
    var left, right := FreeAt(fs, k - 1), FreeAt(fs, k + 1);
    var size := (if left then fs[k - 1].size else 0) + fs[k].size + (if right then fs[k + 1].size else 0);
    var i, j := if left then k - 1 else k, if right then k + 2 else k + 1;
    Merger(i, j, Frag(fs[i].offset, size, false))
  }

  /** The fragment at k given back and merged with its free neighbours. */
  function Merge(fs: seq<Frag>, k: nat): seq<Frag>
    requires k < |fs|
  {
    var m := MergerOf(fs, k);
    Replace(fs, m.i, m.j, [m.free])
  }

  function Free(h: Heap, offset: nat): Heap {
    var k := Lookup(h.frags, offset);
    if k.None? then h
    else
      var size := h.frags[k.value].size;
      if size < MIN_SIZE || size > h.capacity || size % MIN_SIZE != 0 || h.inUse < size then h
      else Heap(Merge(h.frags, k.value), h.capacity, h.inUse - size)
  }

  datatype Plan = Keep | Shrink | Forward | Backward | Move

  /** How a resize goes about it. Growing backward counts the right neighbour's bytes, free or not. */
  function PlanOf(fs: seq<Frag>, k: nat, need: nat): Plan
    requires k < |fs|
  {
    var size, next := fs[k].size, SizeAt(fs, k + 1);
    if need <= size then (if size - need >= MIN_SIZE then Shrink else Keep)
    else if FreeAt(fs, k + 1) && size + next >= need then Forward
    else if FreeAt(fs, k - 1) && SizeAt(fs, k - 1) + size + next >= need then Backward
    else Move
  }

  /** The requested size, or all there is when the rest would be too small. */
  function Fit(avail: nat, need: nat): (r: nat)
    requires need <= avail
    ensures need <= r <= avail && r < need + MIN_SIZE
  {
    if avail - need >= MIN_SIZE then need else avail
  }

  function Grow(fs: seq<Frag>, i: nat, j: nat, avail: nat, need: nat): seq<Frag>
    requires i < j <= |fs| && need <= avail
  {
    Carve(fs, i, j, avail, Fit(avail, need))
  }

  /** Where the block is after a resize, and how many bytes the caller must copy there. */
  datatype Moved = Moved(offset: nat, copy: nat)

  function Resize(h: Heap, k: nat, need: nat, amount: U64, pick: nat): (Heap, Option<Moved>)
    requires k < |h.frags|
  {
    var fs, size, offset := h.frags, h.frags[k].size, h.frags[k].offset;
    var next := SizeAt(fs, k + 1);
    var j := if FreeAt(fs, k + 1) then k + 2 else k + 1;
    match PlanOf(fs, k, need)
    case Keep => (h, Some(Moved(offset, 0)))
    case Shrink =>
      if h.inUse < size - need then (h, None)
      else
        var avail := size + if FreeAt(fs, k + 1) then next else 0;
        (Heap(Carve(fs, k, j, avail, need), h.capacity, h.inUse - (size - need)), Some(Moved(offset, 0)))
    case Forward =>
      var avail := size + next;
      (Heap(Grow(fs, k, j, avail, need), h.capacity, h.inUse + (Fit(avail, need) - size)), Some(Moved(offset, 0)))
    case Backward =>
      var avail := SizeAt(fs, k - 1) + size + next;
      (Heap(Grow(fs, k - 1, j, avail, need), h.capacity, h.inUse + (Fit(avail, need) - size)),
       Some(Moved(fs[k - 1].offset, size)))
    case Move =>
      var (h1, r) := Allocate(h, amount, pick);
      if r.None? then (h1, None) else (Free(h1, offset), Some(Moved(r.value, size)))
  }

  function Reallocate(h: Heap, offset: nat, amount: U64, pick: nat): (Heap, Option<Moved>) {
    if amount == 0 then (Free(h, offset), None)
    else
      var k, need := Lookup(h.frags, offset), BlockSize(amount);
      if k.None? then (h, None)
      else
        var size := h.frags[k.value].size;
        if size < MIN_SIZE || size > h.capacity || size % MIN_SIZE != 0 then (h, None)
        else if need.None? || amount > h.capacity || need.value > h.capacity then (h, None)
        else Resize(h, k.value, need.value, amount, pick)
  }

  // ----- runs

  datatype Op =
    | Alloc(amount: U64, pick: nat)
    | Release(offset: nat)
    | Realloc(offset: nat, amount: U64, pick: nat)

  function Apply(h: Heap, op: Op): Heap {
    match op
    case Alloc(amount, pick) => Allocate(h, amount, pick).0
    case Release(offset) => Free(h, offset)
    case Realloc(offset, amount, pick) => Reallocate(h, offset, amount, pick).0
  }

  function RunAll(h: Heap, ops: seq<Op>): Heap
    decreases |ops|
  {
    if ops == [] then h else RunAll(Apply(h, ops[0]), ops[1..])
  }

  function NewHeap(size: nat): Heap {
    Heap([Frag(0, size, false)], size, 0)
  }
}
