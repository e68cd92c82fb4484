/**
 Table-driven exception handler lookup for x64 images (`emu/exception_handlers.rs`).

 Guest memory is a parameter: what the address map answers to dword and byte reads, and which image
 holds an address. Address sums wrap at 64 bits. RUNTIME_FUNCTION and UNWIND_INFO are laid out as in
 the Microsoft x64 exception handling documentation.
 */
module Seh {
  import opened Words

  datatype Memory = Memory(dword: U64 -> Option<U32>, byte: U64 -> Option<U8>, imageBase: U64 -> Option<U64>)

  const MAX_CHAIN_DEPTH: nat := 16

  function Plus(a: U64, b: nat): U64 {
    (a + b) % TWO64
  }

  // ----- the function table

  /** The exception directory of an image: where its RUNTIME_FUNCTION entries are and how many. */
  datatype Table = Table(at: U64, count: nat)

  function FindTable(mem: Memory, base: U64): Option<Table> {
    match mem.dword(Plus(base, 0x3C))
    case None => None
    case Some(lfanew) =>
      match mem.dword(Plus(base, lfanew + 0x84))
      case None => None
      case Some(directories) =>
        if directories < 4 then None
        else
          match (mem.dword(Plus(base, lfanew + 0xA0)), mem.dword(Plus(base, lfanew + 0xA4)))
          case (Some(rva), Some(size)) =>
            if rva == 0 || size < 12 then None else Some(Table(Plus(base, rva), size / 12))
          case _ => None
  }

  function Begin(mem: Memory, t: Table, k: nat): Option<U32> {
    mem.dword(Plus(t.at, k * 12))
  }

  function End(mem: Memory, t: Table, k: nat): Option<U32> {
    mem.dword(Plus(t.at, k * 12 + 4))
  }

  function Unwind(mem: Memory, t: Table, k: nat): Option<U32> {
    mem.dword(Plus(t.at, k * 12 + 8))
  }

  predicate Readable(mem: Memory, t: Table, k: nat) {
    Begin(mem, t, k).Some? && End(mem, t, k).Some? && Unwind(mem, t, k).Some?
  }

  predicate Covers(mem: Memory, t: Table, k: nat, rva: U32) {
    Readable(mem, t, k) && Begin(mem, t, k).value <= rva < End(mem, t, k).value
  }

  /** Every entry can be read, no entry is inverted, and entries are sorted and disjoint. */
  ghost predicate Orderly(mem: Memory, t: Table) {
    && (forall k: nat :: k < t.count ==> Readable(mem, t, k) && Begin(mem, t, k).value <= End(mem, t, k).value)
    && (forall j: nat, k: nat :: j < k < t.count ==> End(mem, t, j).value <= Begin(mem, t, k).value)
  }

  // ----- unwind information

  datatype Node = Unreadable | Chained(next: U32) | Handler(addr: U64) | Unhandled

  /** `(x + 3) & !3` */
  function AlignUp(x: U64): U64 {
    Plus(x, 3) - Plus(x, 3) % 4
  }

  function HandlerOffset(info: U64, codes: U8): U64 {
    AlignUp(Plus(info, 4 + codes * 2))
  }

  /** What the UNWIND_INFO at this RVA says. The flags are the upper five bits of its first byte. */
  function NodeAt(mem: Memory, base: U64, rva: U32): Node {
    var info := Plus(base, rva);
    match (mem.byte(info), mem.byte(Plus(info, 2)))
    case (Some(versionFlags), Some(codes)) =>
      var flags := versionFlags / 8;
      var offset := HandlerOffset(info, codes);
      if flags / 4 % 2 == 1 then
        match mem.dword(Plus(offset, 8))
        case Some(next) => Chained(next)
        case None => Unreadable
      else if flags % 4 != 0 then
        match mem.dword(offset)
        case Some(handler) => Handler(Plus(base, handler))
        case None => Unreadable
      else Unhandled
    case _ => Unreadable
  }

  /** The node reached by following n chain links; a node that is no link stays. */
  function Follow(mem: Memory, base: U64, rva: U32, n: nat): Node {
    if n == 0 then NodeAt(mem, base, rva)
    else
      match Follow(mem, base, rva, n - 1)
      case Chained(next) => NodeAt(mem, base, next)
      case node => node
  }

  function HandlerOf(node: Node): Option<U64> {
    if node.Handler? then Some(node.addr) else None
  }

  // ----- reference: linear scan, then unbounded chain resolution

  /** The first entry that covers rva. */
  function LinearScan(mem: Memory, t: Table, rva: U32, from: nat): (r: Option<nat>)
    requires from <= t.count
    ensures r.Some? ==> from <= r.value < t.count && Covers(mem, t, r.value, rva)
    ensures r.Some? ==> forall k :: from <= k < r.value ==> !Covers(mem, t, k, rva)
    ensures r.None? ==> forall k :: from <= k < t.count ==> !Covers(mem, t, k, rva)
    decreases t.count - from
  {
    if from == t.count then None
    else if Covers(mem, t, from, rva) then Some(from)
    else LinearScan(mem, t, rva, from + 1)
  }

  /** The chain from rva ends, after exactly this many links. */
  ghost predicate ChainLength(mem: Memory, base: U64, rva: U32, links: nat) {
    && !Follow(mem, base, rva, links).Chained?
    && forall n: nat :: n < links ==> Follow(mem, base, rva, n).Chained?
  }

  /** The chain followed for as long as it goes. */
  ghost function Resolved(mem: Memory, base: U64, rva: U32): Option<Node> {
    if links: nat :| ChainLength(mem, base, rva, links) then Some(Follow(mem, base, rva, links)) else None
  }

  lemma {:induction false} FollowStays(mem: Memory, base: U64, rva: U32, m: nat, n: nat)
    requires m <= n && !Follow(mem, base, rva, m).Chained?
    ensures Follow(mem, base, rva, n) == Follow(mem, base, rva, m)
    decreases n
  {
    hide NodeAt;
    if m < n {
      FollowStays(mem, base, rva, m, n - 1);
    }
  }

  lemma ChainLengthIsUnique(mem: Memory, base: U64, rva: U32, a: nat, b: nat)
    requires ChainLength(mem, base, rva, a) && ChainLength(mem, base, rva, b)
    ensures a == b
  {
  }

  lemma {:induction false} ShortChainHasLength(mem: Memory, base: U64, rva: U32, n: nat) returns (links: nat)
    requires !Follow(mem, base, rva, n).Chained?
    ensures links <= n && ChainLength(mem, base, rva, links)
    decreases n
  {
    hide NodeAt;
    if n > 0 && !Follow(mem, base, rva, n - 1).Chained? {
      links := ShortChainHasLength(mem, base, rva, n - 1);
    } else {
      links := n;
      forall m: nat | m < n ensures Follow(mem, base, rva, m).Chained? {
        if !Follow(mem, base, rva, m).Chained? {
          FollowStays(mem, base, rva, m, n - 1);
        }
      }
    }
  }

  /** Up to 15 links the bounded walk is the unbounded one; past that it finds nothing. */
  lemma BoundedIsUnbounded(mem: Memory, base: U64, rva: U32)
    ensures var bounded := HandlerOf(Follow(mem, base, rva, MAX_CHAIN_DEPTH - 1));
            && (forall links: nat :: ChainLength(mem, base, rva, links) && links < MAX_CHAIN_DEPTH ==>
                  Resolved(mem, base, rva).Some? && bounded == HandlerOf(Resolved(mem, base, rva).value))
            && ((forall links: nat :: links < MAX_CHAIN_DEPTH ==> !ChainLength(mem, base, rva, links)) ==>
                  bounded.None?)
  {
    forall links: nat | ChainLength(mem, base, rva, links) && links < MAX_CHAIN_DEPTH
      ensures Resolved(mem, base, rva) == Some(Follow(mem, base, rva, MAX_CHAIN_DEPTH - 1))
    {
      FollowStays(mem, base, rva, links, MAX_CHAIN_DEPTH - 1);
      var other: nat :| ChainLength(mem, base, rva, other)
                        && Resolved(mem, base, rva) == Some(Follow(mem, base, rva, other));
      ChainLengthIsUnique(mem, base, rva, links, other);
    }
    if !Follow(mem, base, rva, MAX_CHAIN_DEPTH - 1).Chained? {
      var links := ShortChainHasLength(mem, base, rva, MAX_CHAIN_DEPTH - 1);
    }
  }

  /** A chain that comes back to a link it already passed never ends, and the walk finds nothing. */
  lemma {:induction false} CyclesFindNothing(mem: Memory, base: U64, rva: U32, i: nat, j: nat, n: nat)
    requires i < j && Follow(mem, base, rva, i).Chained? && Follow(mem, base, rva, i) == Follow(mem, base, rva, j)
    ensures Follow(mem, base, rva, n).Chained?
    decreases n
  {
    hide NodeAt, Follow;
    if n <= j {
      if !Follow(mem, base, rva, n).Chained? {
        FollowStays(mem, base, rva, n, j);
      }
    } else {
      CyclesFindNothing(mem, base, rva, i, j, n - (j - i));
      SameTail(mem, base, rva, i, j, n - j);
    }
  }

  lemma {:induction false} SameTail(mem: Memory, base: U64, rva: U32, i: nat, j: nat, k: nat)
    requires Follow(mem, base, rva, i) == Follow(mem, base, rva, j)
    ensures Follow(mem, base, rva, i + k) == Follow(mem, base, rva, j + k)
    decreases k
  {
    hide NodeAt;
    if k > 0 {
      SameTail(mem, base, rva, i, j, k - 1);
    }
  }

  lemma AlignUpEven(x: U64)
    requires x % 2 == 0
    ensures AlignUp(x) == if x % 4 == 0 then x else Plus(x, 2)
  {
    hide Plus;
    PlusMod4(x, 3);
    PlusMod4(x, 2);
    var m := x / 4;
    assert x == 4 * m + x % 4 && m < 0x4000_0000_0000_0000;
  }

  lemma PlusMod4(a: U64, b: nat)
    requires b < TWO64
    ensures Plus(a, b) == if a + b < TWO64 then a + b else a + b - TWO64
    ensures Plus(a, b) % 4 == (a % 4 + b % 4) % 4
  {
    var sum := a + b;
    assert sum == 4 * (a / 4 + b / 4) + (a % 4 + b % 4);
    assert Plus(a, b) == if sum < TWO64 then sum else sum - TWO64;
    assert sum - TWO64 == 4 * (a / 4 + b / 4 - 0x4000_0000_0000_0000) + (a % 4 + b % 4);
  }

  /** For 4-aligned unwind information the handler data follows the codes, rounded up to an even count. */
  lemma AlignedHandlerOffset(info: U64, codes: U8)
    requires info % 4 == 0
    ensures HandlerOffset(info, codes) == Plus(info, 4 + 2 * (codes + codes % 2))
  {
    hide Plus, AlignUp;
    var end := Plus(info, 4 + codes * 2);
    PlusMod4(info, 4 + codes * 2);
    AlignUpEven(end);
    if codes % 2 == 1 {
      PlusTwice(info, 4 + codes * 2, 2);
    }
  }

  lemma PlusTwice(a: U64, b: nat, c: nat)
    requires b < TWO64 && c < TWO64
    ensures Plus(Plus(a, b), c) == Plus(a, b + c)
  {
  }

  // ----- the lookup

  /** The binary search between two bounds; an unreadable entry ends it. */
  function Bisect(mem: Memory, t: Table, rva: U32, lo: nat, hi: nat): Option<U32>
    requires lo <= hi <= t.count
    decreases hi - lo
  {
    if lo == hi then None
    else
      var mid := lo + (hi - lo) / 2;
      match (Begin(mem, t, mid), End(mem, t, mid))
      case (Some(begin), Some(end)) =>
        if rva < begin then Bisect(mem, t, rva, lo, mid)
        else if rva >= end then Bisect(mem, t, rva, mid + 1, hi)
        else Unwind(mem, t, mid)
      case _ => None
  }

  method Search(mem: Memory, t: Table, rva: U32) returns (unwind: Option<U32>)
    ensures unwind == Bisect(mem, t, rva, 0, t.count)
  {
    var lo, hi := 0, t.count;
    while lo < hi
      invariant 0 <= lo <= hi <= t.count
      invariant Bisect(mem, t, rva, lo, hi) == Bisect(mem, t, rva, 0, t.count)
    {
      var mid := lo + (hi - lo) / 2;
      var begin := Begin(mem, t, mid);
      if begin.None? {
        return None;
      }
      var end := End(mem, t, mid);
      if end.None? {
        return None;
      }
      if rva < begin.value {
        hi := mid;
      } else if rva >= end.value {
        lo := mid + 1;
      } else {
        return Unwind(mem, t, mid);
      }
    }
    return None;
  }

  /** Whatever the table holds, the entry that the search settles on covers rva. */
  lemma {:induction false} BisectIsSound(mem: Memory, t: Table, rva: U32, lo: nat, hi: nat) returns (k: nat)
    requires lo <= hi <= t.count && Bisect(mem, t, rva, lo, hi).Some?
    ensures k < t.count && Covers(mem, t, k, rva) && Unwind(mem, t, k) == Bisect(mem, t, rva, lo, hi)
    decreases hi - lo
  {
    var mid := lo + (hi - lo) / 2;
    if rva < Begin(mem, t, mid).value {
      k := BisectIsSound(mem, t, rva, lo, mid);
    } else if rva >= End(mem, t, mid).value {
      k := BisectIsSound(mem, t, rva, mid + 1, hi);
    } else {
      k := mid;
    }
  }

  /** On a readable, sorted, disjoint table the search agrees with the linear scan. */
  lemma {:induction false} BisectIsLinear(mem: Memory, t: Table, rva: U32, lo: nat, hi: nat)
    requires lo <= hi <= t.count && Orderly(mem, t)
    requires forall k: nat :: k < lo || hi <= k < t.count ==> !Covers(mem, t, k, rva)
    ensures var k := LinearScan(mem, t, rva, 0);
            Bisect(mem, t, rva, lo, hi) == if k.Some? then Unwind(mem, t, k.value) else None
    decreases hi - lo
  {
    hide LinearScan, Covers, Bisect, Begin, End, Unwind;
    if lo == hi {
      BisectEmpty(mem, t, rva, lo);
    } else {
      var mid := lo + (hi - lo) / 2;
      assert Readable(mem, t, mid);
      BisectStep(mem, t, rva, lo, hi);
      if rva < Begin(mem, t, mid).value {
        NoneFrom(mem, t, rva, mid);
        BisectIsLinear(mem, t, rva, lo, mid);
      } else if rva >= End(mem, t, mid).value {
        NoneUpTo(mem, t, rva, mid);
        BisectIsLinear(mem, t, rva, mid + 1, hi);
      } else {
        OnlyOneCovers(mem, t, rva, mid);
      }
    }
  }

  lemma BisectEmpty(mem: Memory, t: Table, rva: U32, k: nat)
    requires k <= t.count
    ensures Bisect(mem, t, rva, k, k) == None
  {
  }

  lemma BisectStep(mem: Memory, t: Table, rva: U32, lo: nat, hi: nat)
    requires lo < hi <= t.count && Readable(mem, t, lo + (hi - lo) / 2)
    ensures var mid := lo + (hi - lo) / 2;
            Bisect(mem, t, rva, lo, hi) ==
            if rva < Begin(mem, t, mid).value then Bisect(mem, t, rva, lo, mid)
            else if rva >= End(mem, t, mid).value then Bisect(mem, t, rva, mid + 1, hi)
            else Unwind(mem, t, mid)
  {
  }

  lemma NoneFrom(mem: Memory, t: Table, rva: U32, k: nat)
    requires Orderly(mem, t) && k < t.count && rva < Begin(mem, t, k).value
    ensures forall j: nat :: k <= j < t.count ==> !Covers(mem, t, j, rva)
  {
  }

  lemma NoneUpTo(mem: Memory, t: Table, rva: U32, k: nat)
    requires Orderly(mem, t) && k < t.count && rva >= End(mem, t, k).value
    ensures forall j: nat :: j <= k ==> !Covers(mem, t, j, rva)
  {
  }

  lemma OnlyOneCovers(mem: Memory, t: Table, rva: U32, k: nat)
    requires Orderly(mem, t) && k < t.count && Begin(mem, t, k).value <= rva < End(mem, t, k).value
    ensures LinearScan(mem, t, rva, 0) == Some(k)
  {
    assert Covers(mem, t, k, rva);
    var j := LinearScan(mem, t, rva, 0);
    assert j.Some? && !(k < j.value);
  }

  /** At most 16 unwind records, each read once. */
  method WalkChain(mem: Memory, base: U64, rva: U32) returns (handler: Option<U64>)
    ensures handler == HandlerOf(Follow(mem, base, rva, MAX_CHAIN_DEPTH - 1))
  {
    var unwind := rva;
    for i := 0 to MAX_CHAIN_DEPTH
      invariant i == 0 ==> unwind == rva
      invariant i > 0 ==> Follow(mem, base, rva, i - 1) == Chained(unwind)
    {
      hide NodeAt;
      var node := NodeAt(mem, base, unwind);
      assert node == Follow(mem, base, rva, i);
      if node.Chained? {
        unwind := node.next;
      } else {
        FollowStays(mem, base, rva, i, MAX_CHAIN_DEPTH - 1);
        return HandlerOf(node);
      }
    }
    return None;
  }

  /** The image, its table and the offset of `rip` in it. */
  function Locate(mem: Memory, rip: U64): Option<(U64, Table, U32)> {
    match mem.imageBase(rip)
    case None => None
    case Some(base) =>
      match FindTable(mem, base)
      case None => None
      case Some(t) => if rip < base then None else Some((base, t, (rip - base) % TWO32))
  }

  function Lookup(mem: Memory, rip: U64): Option<U64> {
    match Locate(mem, rip)
    case None => None
    case Some((base, t, rva)) =>
      match Bisect(mem, t, rva, 0, t.count)
      case None => None
      case Some(unwind) => HandlerOf(Follow(mem, base, unwind, MAX_CHAIN_DEPTH - 1))
  }

  method FindHandler(mem: Memory, rip: U64) returns (handler: Option<U64>)
    ensures handler == Lookup(mem, rip)
  {
    hide Follow, FindTable, Bisect;
    var place := Locate(mem, rip);
    if place.None? {
      return None;
    }
    var (base, t, rva) := place.value;
    var unwind := Search(mem, t, rva);
    if unwind.None? {
      return None;
    }
    handler := WalkChain(mem, base, unwind.value);
  }

  /**
   On an orderly table the lookup is the linear scan followed by unbounded chain resolution, as long
   as the chain has at most 15 links; for longer and endless chains it finds nothing.
   */
  lemma LookupMeaning(mem: Memory, rip: U64)
    requires Locate(mem, rip).Some? && Orderly(mem, Locate(mem, rip).value.1)
    ensures var (base, t, rva) := Locate(mem, rip).value;
            var k := LinearScan(mem, t, rva, 0);
            && (k.None? ==> Lookup(mem, rip).None?)
            && (k.Some? ==>
                  var u := Unwind(mem, t, k.value).value;
                  if exists links: nat :: links < MAX_CHAIN_DEPTH && ChainLength(mem, base, u, links) then
                    Resolved(mem, base, u).Some? && Lookup(mem, rip) == HandlerOf(Resolved(mem, base, u).value)
                  else Lookup(mem, rip).None?)
  {
    hide Follow, FindTable, Bisect, ChainLength, Resolved;
    var (base, t, rva) := Locate(mem, rip).value;
    BisectIsLinear(mem, t, rva, 0, t.count);
    var k := LinearScan(mem, t, rva, 0);
    if k.Some? {
      BoundedIsUnbounded(mem, base, Unwind(mem, t, k.value).value);
    }
  }
}
