/**
 The handler lookup against the layout of a PE32+ image: headers, function table and unwind records are
 given by their fields, and memory is said to hold them.

 Offsets are those of the PE format specification and of UNWIND_INFO in the Microsoft x64 exception
 handling documentation.
 */
module SehLayout {
  import opened Words
  import opened Seh

  // ----- records

  /** A RUNTIME_FUNCTION. */
  datatype Function = Function(begin: U32, end: U32, unwind: U32)

  ghost predicate HoldsFunction(mem: Memory, at: U64, f: Function) {
    && mem.dword(at) == Some(f.begin)
    && mem.dword(Plus(at, 4)) == Some(f.end)
    && mem.dword(Plus(at, 8)) == Some(f.unwind)
  }

  const SIGNATURE: nat := 4
  const FILE_HEADER: nat := 20
  const DIRECTORY_COUNT: nat := 108     // NumberOfRvaAndSizes in the optional header
  const DIRECTORIES: nat := 112         // DataDirectory in the optional header
  const EXCEPTION_DIRECTORY: nat := 3

  datatype Image = Image(lfanew: U32, directories: U32, tableRva: U32, tableSize: U32, functions: seq<Function>)

  /** An image with its function table, whose size in bytes may leave a rest. */
  ghost predicate HoldsImage(mem: Memory, base: U64, img: Image) {
    var optional := img.lfanew + SIGNATURE + FILE_HEADER;
    var directory := optional + DIRECTORIES + 8 * EXCEPTION_DIRECTORY;
    && mem.dword(Plus(base, 0x3C)) == Some(img.lfanew)
    && mem.dword(Plus(base, optional + DIRECTORY_COUNT)) == Some(img.directories)
    && mem.dword(Plus(base, directory)) == Some(img.tableRva)
    && mem.dword(Plus(base, directory + 4)) == Some(img.tableSize)
    && 12 * |img.functions| <= img.tableSize < 12 * |img.functions| + 12
    && forall k: nat :: k < |img.functions| ==> HoldsFunction(mem, EntryAt(base, img, k), img.functions[k])
  }

  function EntryAt(base: U64, img: Image, k: nat): U64 {
    Plus(base, img.tableRva + 12 * k)
  }

  /** The image has an exception directory with at least one entry. */
  predicate HasTable(img: Image) {
    img.directories > EXCEPTION_DIRECTORY && img.tableRva != 0 && img.functions != []
  }

  /** Functions do not overlap and are in the order of their addresses. */
  ghost predicate InOrder(fs: seq<Function>) {
    && (forall k :: 0 <= k < |fs| ==> fs[k].begin <= fs[k].end)
    && (forall j, k :: 0 <= j < k < |fs| ==> fs[j].end <= fs[k].begin)
  }

  /** What follows the unwind codes of a record. */
  datatype Tail = NoTail | HandlerAt(rva: U32) | Parent(entry: Function)

  datatype Record = Record(version: nat, flags: nat, codes: U8, tail: Tail)

  /** Bits of the flags. */
  predicate Has(flags: nat, bit: nat)
    requires bit > 0
  {
    flags / bit % 2 == 1
  }

  const EHANDLER: nat := 1
  const UHANDLER: nat := 2
  const CHAININFO: nat := 4

  /** The flags say what follows the codes: the parent of a chained record, a handler, or nothing. */
  predicate WellFormed(r: Record) {
    && r.version < 8 && r.flags < 32
    && (r.tail.Parent? <==> Has(r.flags, CHAININFO))
    && (r.tail.HandlerAt? <==> !Has(r.flags, CHAININFO) && (Has(r.flags, EHANDLER) || Has(r.flags, UHANDLER)))
  }

  /** The first multiple of 4 from the end of the unwind codes on. */
  function TailAt(info: U64, codes: U8): U64 {
    var end := Plus(info, 4 + 2 * codes);
    Plus(end, (4 - end % 4) % 4)
  }

  ghost predicate HoldsRecord(mem: Memory, base: U64, rva: U32, r: Record) {
    var info := Plus(base, rva);
    && WellFormed(r)
    && mem.byte(info) == Some(r.version + 8 * r.flags)
    && mem.byte(Plus(info, 2)) == Some(r.codes)
    && match r.tail
       case NoTail => true
       case HandlerAt(handler) => mem.dword(TailAt(info, r.codes)) == Some(handler)
       case Parent(f) => HoldsFunction(mem, TailAt(info, r.codes), f)
  }

  /** The records from the one at this RVA to the first that is not chained. */
  ghost predicate HoldsChain(mem: Memory, base: U64, rva: U32, rs: seq<Record>)
    decreases |rs|
  {
    && rs != [] && HoldsRecord(mem, base, rva, rs[0])
    && if rs[0].tail.Parent? then HoldsChain(mem, base, rs[0].tail.entry.unwind, rs[1..]) else |rs| == 1
  }

  // ----- the lookup reads these fields

  lemma TailIsHandlerOffset(info: U64, codes: U8)
    ensures TailAt(info, codes) == HandlerOffset(info, codes)
  {
    hide Plus;
    RoundsUp(Plus(info, 4 + 2 * codes));
  }

  lemma RoundsUp(x: U64)
    ensures AlignUp(x) == Plus(x, (4 - x % 4) % 4)
  {
    hide Plus;
    PlusMod4(x, 3);
    PlusMod4(x, (4 - x % 4) % 4);
    var m := x / 4;
    assert x == 4 * m + x % 4 && m < 0x4000_0000_0000_0000;
  }

  /** What the lookup makes of a record. */
  function NodeOf(base: U64, r: Record): Node {
    match r.tail
    case NoTail => Unhandled
    case HandlerAt(rva) => Handler(Plus(base, rva))
    case Parent(f) => Chained(f.unwind)
  }

  lemma RecordIsNode(mem: Memory, base: U64, rva: U32, r: Record)
    requires HoldsRecord(mem, base, rva, r)
    ensures NodeAt(mem, base, rva) == NodeOf(base, r)
  {
    hide Plus, HandlerOffset, TailAt;
    TailIsHandlerOffset(Plus(base, rva), r.codes);
    assert (r.version + 8 * r.flags) / 8 == r.flags;
    FlagBits(r.flags);
  }

  lemma FlagBits(flags: nat)
    ensures flags % 4 != 0 <==> Has(flags, EHANDLER) || Has(flags, UHANDLER)
  {
  }

  lemma {:induction false} ChainFollows(mem: Memory, base: U64, rva: U32, rs: seq<Record>, n: nat)
    requires HoldsChain(mem, base, rva, rs)
    ensures Follow(mem, base, rva, n) == NodeOf(base, rs[if n < |rs| then n else |rs| - 1])
    decreases |rs|, n
  {
    hide NodeAt, HoldsRecord;
    RecordIsNode(mem, base, rva, rs[0]);
    if n > 0 {
      if rs[0].tail.Parent? {
        ChainFollows(mem, base, rs[0].tail.entry.unwind, rs[1..], n - 1);
        FollowShift(mem, base, rva, n - 1);
      } else {
        FollowStays(mem, base, rva, 0, n);
      }
    }
  }

  /** Following from a chained record is following from its parent, one link fewer. */
  lemma {:induction false} FollowShift(mem: Memory, base: U64, rva: U32, n: nat)
    requires NodeAt(mem, base, rva).Chained?
    ensures Follow(mem, base, rva, n + 1) == Follow(mem, base, NodeAt(mem, base, rva).next, n)
    decreases n
  {
    hide NodeAt;
    if n > 0 {
      FollowShift(mem, base, rva, n - 1);
    }
  }

  lemma TableIsFound(mem: Memory, base: U64, img: Image)
    requires HoldsImage(mem, base, img)
    ensures FindTable(mem, base) ==
            if HasTable(img) then Some(Table(Plus(base, img.tableRva), |img.functions|)) else None
  {
    hide Plus, HoldsFunction;
  }

  lemma EntryIsFunction(mem: Memory, base: U64, img: Image, k: nat)
    requires HoldsImage(mem, base, img) && k < |img.functions|
    ensures var t, f := Table(Plus(base, img.tableRva), |img.functions|), img.functions[k];
            Begin(mem, t, k) == Some(f.begin) && End(mem, t, k) == Some(f.end) && Unwind(mem, t, k) == Some(f.unwind)
  {
    hide Plus;
    assert HoldsFunction(mem, EntryAt(base, img, k), img.functions[k]);
    var at := img.tableRva;
    PlusTwice(base, at, 12 * k);
    PlusTwice(base, at, 12 * k + 4);
    PlusTwice(base, at, 12 * k + 8);
    PlusTwice(base, at + 12 * k, 4);
    PlusTwice(base, at + 12 * k, 8);
  }

  lemma TableIsOrderly(mem: Memory, base: U64, img: Image)
    requires HoldsImage(mem, base, img) && InOrder(img.functions)
    ensures Orderly(mem, Table(Plus(base, img.tableRva), |img.functions|))
  {
    hide Plus, Begin, End, Unwind, HoldsImage;
    forall k: nat | k < |img.functions|
      ensures var t, f := Table(Plus(base, img.tableRva), |img.functions|), img.functions[k];
              Begin(mem, t, k) == Some(f.begin) && End(mem, t, k) == Some(f.end) && Unwind(mem, t, k) == Some(f.unwind)
    {
      EntryIsFunction(mem, base, img, k);
    }
  }

  /** The handler that the last record of a chain names. */
  function HandlerIn(base: U64, r: Record): Option<U64> {
    if r.tail.HandlerAt? then Some(Plus(base, r.tail.rva)) else None
  }

  /** The offset of an address in its image, in 32 bits. */
  function Offset(base: U64, rip: U64): U32
    requires base <= rip
  {
    (rip - base) % TWO32
  }

  /**
   At an address in a function of the image the lookup gives the handler that the function's unwind
   record names, itself or through up to 15 chained entries.
   */
  lemma LookupInFunction(mem: Memory, rip: U64, base: U64, img: Image, k: nat, rs: seq<Record>)
    requires mem.imageBase(rip) == Some(base) && base <= rip
    requires HoldsImage(mem, base, img) && HasTable(img) && InOrder(img.functions) && k < |img.functions|
    requires img.functions[k].begin <= Offset(base, rip) < img.functions[k].end
    requires HoldsChain(mem, base, img.functions[k].unwind, rs)
    ensures Lookup(mem, rip) == if |rs| <= 16 then HandlerIn(base, rs[|rs| - 1]) else None
  {
    hide Plus, HoldsImage, HoldsChain, Follow, FindTable, Bisect, Begin, End, Unwind, Orderly;
    var t, u := Table(Plus(base, img.tableRva), |img.functions|), img.functions[k].unwind;
    TableIsFound(mem, base, img);
    TableIsOrderly(mem, base, img);
    EntryIsFunction(mem, base, img, k);
    BisectIsLinear(mem, t, Offset(base, rip), 0, t.count);
    OnlyOneCovers(mem, t, Offset(base, rip), k);
    assert rs != [] by { ChainIsNotEmpty(mem, base, u, rs); }
    ChainFollows(mem, base, u, rs, MAX_CHAIN_DEPTH - 1);
    if |rs| > 16 {
      InnerIsChained(mem, base, u, rs, 15);
    }
  }

  lemma {:induction false} ChainIsNotEmpty(mem: Memory, base: U64, rva: U32, rs: seq<Record>)
    requires HoldsChain(mem, base, rva, rs)
    ensures rs != [] && !rs[|rs| - 1].tail.Parent?
    decreases |rs|
  {
    if rs[0].tail.Parent? {
      ChainIsNotEmpty(mem, base, rs[0].tail.entry.unwind, rs[1..]);
    }
  }

  lemma {:induction false} InnerIsChained(mem: Memory, base: U64, rva: U32, rs: seq<Record>, n: nat)
    requires HoldsChain(mem, base, rva, rs) && n + 1 < |rs|
    ensures rs[n].tail.Parent?
    decreases n
  {
    if n > 0 {
      InnerIsChained(mem, base, rs[0].tail.entry.unwind, rs[1..], n - 1);
    }
  }

  /** Where the image has no table or no function covers the address, the lookup finds nothing. */
  lemma LookupOutside(mem: Memory, rip: U64, base: U64, img: Image)
    requires mem.imageBase(rip) == Some(base) && HoldsImage(mem, base, img) && InOrder(img.functions)
    requires base <= rip && HasTable(img) ==>
               forall k :: 0 <= k < |img.functions| ==>
                 !(img.functions[k].begin <= Offset(base, rip) < img.functions[k].end)
    ensures Lookup(mem, rip) == None
  {
    hide Plus, HoldsImage, Follow, FindTable, Bisect, Begin, End, Unwind, Orderly;
    TableIsFound(mem, base, img);
    if base <= rip && HasTable(img) {
      var t, rva := Table(Plus(base, img.tableRva), |img.functions|), Offset(base, rip);
      TableIsOrderly(mem, base, img);
      forall k: nat | k < t.count ensures !Covers(mem, t, k, rva) {
        EntryIsFunction(mem, base, img, k);
      }
      BisectIsLinear(mem, t, rva, 0, t.count);
    }
  }
}
