/**
 Exception dispatch and the vectored handler list (`emu/exception_handlers.rs`).

 The user's exception hook, the console's answer and whether entering a handler ends the process are
 parameters; moving the program counter to a mapped handler is one assignment.
 */
module Exceptions {
  import opened Words
  import opened Seh

  datatype Arch = X86 | X64 | Aarch64

  datatype Kind = VehKind | SehKind | UefKind

  /** A registered handler; a stack record that cannot be used has no address. */
  datatype Offer = Offer(kind: Kind, addr: Option<U64>)

  /** The handler that `veh()` reports; 0 for none. */
  function First(veh: seq<U64>): U64 {
    if veh == [] then 0 else veh[0]
  }

  /** What dispatch reads. */
  datatype Setup = Setup(arch: Arch, mem: Memory, mapped: U64 -> bool, pc: U64, veh: seq<U64>, seh: U64, uef: U64) {
    /** The stack record at `seh`: its link must be readable and its handler mapped. */
    function StackHandler(): Option<U64> {
      match mem.dword(Plus(seh, 4))
      case Some(addr) => if mem.dword(seh).Some? && mapped(addr) then Some(addr) else None
      case None => None
    }

    function VehOffers(): seq<Offer> {
      if First(veh) > 0 then [Offer(VehKind, Some(First(veh)))] else []
    }

    function SehOffers(): seq<Offer> {
      if arch == X64 then
        (if Lookup(mem, pc).Some? then [Offer(SehKind, Lookup(mem, pc))] else [])
      else
        (if seh > 0 then [Offer(SehKind, StackHandler())] else [])
    }

    function UefOffers(): seq<Offer> {
      if uef > 0 then [Offer(UefKind, Some(uef))] else []
    }

    /** The registered handlers in the order of their priority. */
    function Offers(): seq<Offer> {
      VehOffers() + SehOffers() + UefOffers()
    }
  }

  /** A handler list without one handler, order kept. */
  function Without(list: seq<U64>, h: U64): (r: seq<U64>)
    ensures h !in r
    ensures forall x :: x != h ==> multiset(r)[x] == multiset(list)[x]
  {
    if list == [] then []
    else
      assert list == [list[0]] + list[1..];
      if list[0] == h then Without(list[1..], h) else [list[0]] + Without(list[1..], h)
  }

  // ----- registrations

  datatype VehCall = Set(value: U64) | Add(first: bool, handler: U64) | Remove(handler: U64)

  function After(list: seq<U64>, c: VehCall): seq<U64> {
    match c
    case Set(value) => if value != 0 then [value] else []
    case Add(first, h) => if first then [h] + list else list + [h]
    case Remove(h) => Without(list, h)
  }

  /** The handler list after a run of calls. */
  function AfterAll(list: seq<U64>, calls: seq<VehCall>): seq<U64>
    decreases |calls|
  {
    if calls == [] then list else After(AfterAll(list, calls[..|calls| - 1]), calls[|calls| - 1])
  }

  predicate Registers(c: VehCall, h: U64) {
    (c == Set(h) && h != 0) || c == Add(true, h) || c == Add(false, h)
  }

  predicate Clears(c: VehCall, h: U64) {
    c == Remove(h) || c.Set?
  }

  /** Call i registers h and no later call clears it. */
  ghost predicate InForce(calls: seq<VehCall>, h: U64, i: nat) {
    i < |calls| && Registers(calls[i], h) && forall j :: i < j < |calls| ==> !Clears(calls[j], h)
  }

  /** A handler is on the list exactly when some call that registered it is still in force. */
  lemma {:induction false} ListedIffInForce(calls: seq<VehCall>, h: U64)
    ensures h in AfterAll([], calls) <==> exists i: nat :: InForce(calls, h, i)
    decreases |calls|
  {
    if calls != [] {
      var n := |calls| - 1;
      var front, last := calls[..n], calls[n];
      ListedIffInForce(front, h);
      InForceBefore(calls, h);
      WithoutKeeps(AfterAll([], front), h, last);
      if Registers(last, h) {
        assert InForce(calls, h, n);
      }
    }
  }

  lemma WithoutKeeps(list: seq<U64>, h: U64, last: VehCall)
    ensures h in After(list, last) <==> Registers(last, h) || (h in list && !Clears(last, h))
  {
    if last.Remove? {
      var kept := Without(list, last.handler);
      assert h in kept <==> h in multiset(kept);
      assert h in list <==> h in multiset(list);
    }
  }

  /** An earlier registration is in force iff it was and the last call does not clear it. */
  lemma InForceBefore(calls: seq<VehCall>, h: U64)
    requires calls != []
    ensures var n := |calls| - 1;
            (exists i: nat :: i < n && InForce(calls, h, i)) <==>
            !Clears(calls[n], h) && exists i: nat :: InForce(calls[..n], h, i)
  {
    var n := |calls| - 1;
    var front := calls[..n];
    assert forall j :: 0 <= j < n ==> front[j] == calls[j];
    if i: nat :| i < n && InForce(calls, h, i) {
      assert InForce(front, h, i);
    }
    if i: nat :| !Clears(calls[n], h) && InForce(front, h, i) {
      assert InForce(calls, h, i);
    }
  }

  /** A handler that no call in force registered is not offered as a vectored handler. */
  lemma ClearedIsNotOffered(s: Setup, calls: seq<VehCall>, h: U64)
    requires s.veh == AfterAll([], calls) && forall i: nat :: !InForce(calls, h, i)
    ensures Offer(VehKind, Some(h)) !in s.Offers()
  {
    ListedIffInForce(calls, h);
    hide Lookup;
  }

  /** Calls that neither clear h nor put another handler before it. */
  predicate LeavesFirst(c: VehCall, h: U64) {
    !Clears(c, h) && !(c.Add? && c.first && c.handler != h)
  }

  lemma FirstStays(list: seq<U64>, h: U64, c: VehCall)
    requires list != [] && list[0] == h && LeavesFirst(c, h)
    ensures After(list, c) != [] && After(list, c)[0] == h
  {
  }

  /** A non-zero handler added first, and not displaced since, is the first offer. */
  lemma {:induction false} AddedFirstIsNext(s: Setup, list: seq<U64>, h: U64, later: seq<VehCall>)
    requires h != 0 && s.veh == AfterAll(After(list, Add(true, h)), later)
    requires forall j :: 0 <= j < |later| ==> LeavesFirst(later[j], h)
    ensures s.Offers() != [] && s.Offers()[0] == Offer(VehKind, Some(h))
  {
    hide Lookup;
    FirstThroughout(After(list, Add(true, h)), h, later);
  }

  lemma {:induction false} FirstThroughout(list: seq<U64>, h: U64, later: seq<VehCall>)
    requires list != [] && list[0] == h && forall j :: 0 <= j < |later| ==> LeavesFirst(later[j], h)
    ensures AfterAll(list, later) != [] && AfterAll(list, later)[0] == h
    decreases |later|
  {
    if later != [] {
      FirstThroughout(list, h, later[..|later| - 1]);
      FirstStays(AfterAll(list, later[..|later| - 1]), h, later[|later| - 1]);
    }
  }

  class Emu {
    const arch: Arch
    var mem: Memory
    var mapped: U64 -> bool
    var pc: U64
    var veh: seq<U64>
    var seh: U64
    var uef: U64
    var runningScript: bool
    var terminated: bool
    var running: bool
    ghost var entered: seq<(Kind, U64)>  // handlers entered so far

    ghost function Now(): Setup
      reads this
    {
      Setup(arch, mem, mapped, pc, veh, seh, uef)
    }

    constructor (arch: Arch, mem: Memory, mapped: U64 -> bool)
      ensures this.arch == arch && this.mem == mem && this.mapped == mapped
      ensures veh == [] && seh == 0 && uef == 0 && running && !terminated && entered == []
    {
      this.arch, this.mem, this.mapped, pc := arch, mem, mapped, 0;
      veh, seh, uef, runningScript := [], 0, 0, false;
      terminated, running, entered := false, true, [];
    }

    method SetVeh(value: U64)
      modifies this`veh
      ensures veh == After(old(veh), Set(value))
      ensures First(veh) == value
    {
      veh := [];
      if value != 0 {
        veh := [value];
      }
    }

    method AddVeh(first: bool, handler: U64)
      modifies this`veh
      ensures veh == After(old(veh), Add(first, handler))
    {
      if first {
        veh := [handler] + veh;
      } else {
        veh := veh + [handler];
      }
    }

    method RemoveVeh(handler: U64)
      modifies this`veh
      ensures veh == After(old(veh), Remove(handler))
    {
      var kept: seq<U64> := [];
      assert veh[0..] == veh;
      for i := 0 to |veh|
        invariant kept + Without(veh[i..], handler) == Without(veh, handler)
      {
        assert veh[i..][1..] == veh[i + 1..];
        if veh[i] != handler {
          assert kept + ([veh[i]] + Without(veh[i + 1..], handler)) ==
                 (kept + [veh[i]]) + Without(veh[i + 1..], handler);
          kept := kept + [veh[i]];
        }
      }
      veh := kept;
    }

    /** A run of registrations. */
    method Register(calls: seq<VehCall>)
      modifies this`veh
      ensures veh == AfterAll(old(veh), calls)
    {
      for i := 0 to |calls|
        invariant veh == AfterAll(old(veh), calls[..i])
      {
        assert calls[..i + 1][..i] == calls[..i];
        match calls[i]
        case Set(value) => SetVeh(value);
        case Add(first, handler) => AddVeh(first, handler);
        case Remove(handler) => RemoveVeh(handler);
      }
      assert calls[..|calls|] == calls;
    }

    method Stop()
      modifies this`terminated, this`running
      ensures terminated && !running
    {
      terminated, running := true, false;
    }

    /** Saves the faulting context; this may end the process. */
    method EnterFor(kind: Kind, addr: U64, ends: bool)
      modifies this`terminated, this`entered
      ensures entered == old(entered) + [(kind, addr)]
      ensures terminated == (old(terminated) || ends)
    {
      entered := entered + [(kind, addr)];
      terminated := terminated || ends;
    }

    /**
     An exception enters at most one handler: the first registered one, in the order VEH, table or
     stack SEH, UEF. Without any it stops the emulation.
     */
    method Raise(handle: bool, answer: bool, entryEnds: bool)
      modifies this`pc, this`terminated, this`running, this`entered
      ensures arch == Aarch64 ==> terminated && !running && entered == old(entered) && pc == old(pc)
      ensures arch != Aarch64 && old(Now().Offers()) == [] ==>
                if arch == X86 || handle then terminated && !running && entered == old(entered) && pc == old(pc)
                else unchanged(this)
      ensures arch != Aarch64 && old(Now().Offers()) != [] && !handle ==> unchanged(this)
      ensures arch != Aarch64 && handle && old(Now().Offers()) != [] ==>
                var chosen := old(Now().Offers())[0];
                if chosen.addr.None? then terminated && !running && entered == old(entered) && pc == old(pc)
                else if arch == X86 && chosen.kind == SehKind && !runningScript && !answer then unchanged(this)
                else
                  && entered == old(entered) + [(chosen.kind, chosen.addr.value)]
                  && running == old(running) && terminated == (old(terminated) || entryEnds)
                  && pc == if arch == X86 && chosen.kind == SehKind && terminated then old(pc) else chosen.addr.value
    {
      if arch == Aarch64 {
        Stop();
        return;
      }
      if seh == 0 && First(veh) == 0 && uef == 0 && arch != X64 {
        Stop();
        return;
      }
      if !handle {
        return;
      }
      if First(veh) > 0 {
        var addr := First(veh);
        EnterFor(VehKind, addr, entryEnds);
        pc := addr;
      } else if arch == X64 {
        var found := FindHandler(mem, pc);
        if found.Some? {
          EnterFor(SehKind, found.value, entryEnds);
          pc := found.value;
        } else if uef > 0 {
          EnterFor(UefKind, uef, entryEnds);
          pc := uef;
        } else {
          Stop();
        }
      } else if seh > 0 {
        var addr := mem.dword(Plus(seh, 4));
        if addr.None? {
          Stop();
          return;
        }
        if mem.dword(seh).None? || !mapped(addr.value) {
          Stop();
          return;
        }
        if runningScript || answer {
          EnterFor(SehKind, addr.value, entryEnds);
          if !terminated {
            pc := addr.value;
          }
        }
      } else if uef > 0 {
        EnterFor(UefKind, uef, entryEnds);
        pc := uef;
      } else {
        assert false;  // the early test above caught this case
      }
    }
  }
}
