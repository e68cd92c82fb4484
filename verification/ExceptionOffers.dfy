/** Which handler an exception goes to, from what is registered and what memory holds. */
module ExceptionOffers {
  import opened Words
  import opened Seh
  import opened SehLayout
  import opened Exceptions

  /** An EXCEPTION_REGISTRATION_RECORD on the stack. */
  datatype StackRecord = StackRecord(next: U32, handler: U32)

  ghost predicate HoldsStackRecord(mem: Memory, at: U64, r: StackRecord) {
    mem.dword(at) == Some(r.next) && mem.dword((at + 4) % TWO64) == Some(r.handler)
  }

  predicate NoVectored(s: Setup) {
    s.veh == [] || s.veh[0] == 0
  }

  predicate Goes(s: Setup, kind: Exceptions.Kind, addr: Option<U64>) {
    s.Offers() != [] && s.Offers()[0] == Offer(kind, addr)
  }

  /** The first vectored handler comes before everything else. */
  lemma VectoredFirst(s: Setup)
    requires !NoVectored(s)
    ensures Goes(s, VehKind, Some(s.veh[0]))
  {
    hide Lookup;
  }

  /** On x86 the stack record comes next: to its handler if that is mapped, to none otherwise. */
  lemma StackRecordNext(s: Setup, r: StackRecord)
    requires NoVectored(s) && s.arch != X64 && s.seh != 0 && HoldsStackRecord(s.mem, s.seh, r)
    ensures Goes(s, SehKind, if s.mapped(r.handler) then Some(r.handler) else None)
  {
  }

  /** A record of which a word cannot be read leads to no handler. */
  lemma BrokenRecord(s: Setup)
    requires NoVectored(s) && s.arch != X64 && s.seh != 0
    requires s.mem.dword(s.seh).None? || s.mem.dword((s.seh + 4) % TWO64).None?
    ensures Goes(s, SehKind, None)
  {
  }

  /** On x64 the function table comes next, with the handler of the function that the fault is in. */
  lemma TableHandlerNext(s: Setup, base: U64, img: Image, k: nat, rs: seq<Record>)
    requires NoVectored(s) && s.arch == X64 && s.mem.imageBase(s.pc) == Some(base) && base <= s.pc
    requires HoldsImage(s.mem, base, img) && HasTable(img) && InOrder(img.functions) && k < |img.functions|
    requires img.functions[k].begin <= Offset(base, s.pc) < img.functions[k].end
    requires HoldsChain(s.mem, base, img.functions[k].unwind, rs) && |rs| <= 16 && rs[|rs| - 1].tail.HandlerAt?
    ensures Goes(s, SehKind, Some((base + rs[|rs| - 1].tail.rva) % TWO64))
  {
    hide Lookup, HoldsImage, HoldsChain;
    LookupInFunction(s.mem, s.pc, base, img, k, rs);
  }

  /** The unhandled-exception filter comes last, and without it nothing is offered. */
  lemma FilterLast(s: Setup)
    requires NoVectored(s) && if s.arch == X64 then Lookup(s.mem, s.pc).None? else s.seh == 0
    ensures if s.uef != 0 then Goes(s, UefKind, Some(s.uef)) else s.Offers() == []
  {
    hide Lookup;
  }
}
