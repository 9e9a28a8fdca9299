/**
 The handler of guest traps: privilege switches, page faults, emulated instructions and the timer,
 in the order in which the hypervisor does them.
 */
module Hypervisor {
  import opened Words
  import opened Image
  import opened PageTableEntry
  import opened Tables
  import opened GuestTables
  import opened PagePool
  import opened Paging
  import opened PrivilegeSpec
  import opened ShadowRuns
  import opened Faults
  import Decoder
  import Devices
  import GuestSlice
  import opened Instructions
  import opened Traps
  import opened Machines
  import Timer
  import TimerSpec

  // ---------------------------------------------------------------- state

  class GuestThread {
    const spaces: AddressSpaces
    const timer: Timer.HostTimer
    /** `GuestThreadContext`. */
    var userMode: bool
    var shadowActive: bool
    var deferredException: bool
    var deferredMcause: Word
    var csr: Csrs
    /** The host's `mepc` and `mtval`, and the saved registers. */
    var mepc: Word
    var mtval: Word
    var regs: Decoder.Registers

    ghost function State(): (t: Thread)
      reads this, spaces
    {
      Thread(userMode, shadowActive, if deferredException then Some(deferredMcause) else None, csr,
             mepc, mtval, spaces.satp != MakeSatp(ROOT))
    }

    /** The host translates with the shadow table exactly if that is active. */
    ghost predicate Sane()
      reads this, spaces, spaces.pool, spaces.pool.pages
    {
      && spaces.Valid()
      && timer.guests.Length0 == 1 && timer.guests.Length1 == 1
      && (shadowActive ==> spaces.shadowRoot.Some? && spaces.satp == MakeSatp(spaces.shadowRoot.value))
      && (!shadowActive ==> spaces.satp == MakeSatp(ROOT))
    }

    /** Only this thread can be the one that the timer interrupts for. */
    ghost predicate OwnTarget()
      reads timer
    {
      timer.target == TimerSpec.Nobody || timer.target == TimerSpec.Thread(0, 0)
    }

    /** What holds whenever the guest runs. */
    ghost predicate Valid()
      reads this, spaces, spaces.pool, spaces.pool.pages, timer
    {
      Sane() && Inv(State()) && OwnTarget()
    }

    /** The whole state, as a value. */
    ghost function Now(): (m: Machine)
      requires spaces.pool.pages.Length == PAGES && timer.guests.Length0 == 1 && timer.guests.Length1 == 1
      reads this, spaces, spaces.pool.pages, timer, timer.guests
    {
      MachineState(State(), regs, Clock(), Snap(), spaces.own)
    }

    ghost function Clock(): (c: TimerSpec.Clock)
      requires timer.guests.Length0 == 1 && timer.guests.Length1 == 1
      reads this, timer, timer.guests
    {
      TimerSpec.Clock(timer.guests[0, 0], timer.mtimecmp, timer.target.Thread?)
    }

    ghost function Snap(): (s: Snapshot)
      requires spaces.pool.pages.Length == PAGES
      reads this, spaces, spaces.pool.pages
    {
      Snapshot(spaces.Mem(), spaces.shadowRoot, spaces.ram, csr.satpPpn)
    }

    /** The table the guest's accesses go through. */
    function Root(): (root: nat)
      requires Sane()
      reads this, spaces, spaces.pool, spaces.pool.pages
      ensures root < PAGES && root in spaces.own && spaces.own[root].level == 2 && SatpRoot(spaces.satp) == Some(root)
    {
      RootOf(shadowActive, spaces.shadowRoot)
    }

    constructor Boot(spaces: AddressSpaces, timer: Timer.HostTimer, regs: Decoder.Registers)
      requires spaces.Valid() && spaces.shadowRoot.None? && spaces.satp == MakeSatp(ROOT)
      requires timer.guests.Length0 == 1 && timer.guests.Length1 == 1 && timer.target == TimerSpec.Nobody
      ensures Valid() && State() == PrivilegeSpec.INITIAL
      ensures this.spaces == spaces && this.timer == timer && this.regs == regs
    {
      this.spaces := spaces;
      this.timer := timer;
      userMode := false;
      shadowActive := false;
      deferredException := false;
      deferredMcause := 0;
      csr := Csrs(0, 0, 0, 0, 0, 0, false, true, false, false, false, 0, 0);
      mepc := 0x8000_0000;
      mtval := 0;
      this.regs := regs;
    }

    // -------------------------------------------------------------- privilege

    /** `guest_exception`; false stands for a panic. */
    method Exception(mcause: Word) returns (ok: bool)
      requires Sane()
      modifies this`userMode, this`shadowActive, this`csr, this`mepc, spaces`satp, spaces`tlb
      ensures Sane()
      ensures ok <==> Deliver(old(State()), mcause).Some?
      ensures ok ==> State() == Deliver(old(State()), mcause).value
      ensures csr.satpPpn == old(csr.satpPpn)
    {
      if !userMode {
        return false;
      }
      if shadowActive {
        shadowActive := false;
        spaces.ActivateMachine();
      }
      assert !State().onShadow;
      csr := csr.(mdt := true, mepc := mepc);
      mepc := csr.mtvec;
      userMode := false;
      csr := csr.(mcause := mcause, mtval := mtval);
      ok := true;
    }

    /** `guest_check_deferred`. */
    method CheckDeferred() returns (ok: bool)
      requires Sane()
      modifies this`userMode, this`shadowActive, this`csr, this`mepc, this`deferredException, spaces`satp, spaces`tlb
      ensures Sane()
      ensures ok <==> PrivilegeSpec.CheckDeferred(old(State())).Some?
      ensures ok ==> State() == PrivilegeSpec.CheckDeferred(old(State())).value
      ensures csr.satpPpn == old(csr.satpPpn)
    {
      if !csr.mie || csr.mdt {
        return true;
      }
      if deferredException {
        deferredException := false;
        ok := Exception(deferredMcause);
        return;
      }
      ok := true;
    }

    /** `guest_defer_exception`. */
    method DeferException(mcause: Word) returns (ok: bool)
      requires Sane()
      modifies this`userMode, this`shadowActive, this`csr, this`mepc, this`deferredException, this`deferredMcause,
               spaces`satp, spaces`tlb
      ensures Sane()
      ensures ok <==> Apply(old(State()), Interrupt(mcause)).Some?
      ensures ok ==> State() == Apply(old(State()), Interrupt(mcause)).value
      ensures csr.satpPpn == old(csr.satpPpn)
    {
      if deferredException {
        return true;
      }
      deferredException := true;
      deferredMcause := mcause;
      assert Prepare(old(State()), Interrupt(mcause)) == Prepared(State(), true);
      ok := CheckDeferred();
    }

    /** The case of `guest_mret` for a guest that has turned on Sv39. */
    method ActivatePaging() returns (ok: bool)
      requires Sane()
      modifies this`shadowActive,
               spaces`own, spaces`tlb, spaces`shadowRoot, spaces`satp, spaces.pool, spaces.pool.pages
      ensures ok <==> RootAvailable(old(Now()))
      ensures ok ==> Sane() && State() == old(State()).(shadowActive := true, onShadow := true)
      ensures ok ==> RootReady(old(Snap()), Snap())
    {
      shadowActive := true;
      ok := spaces.ActivateShadow();
    }

    /** `guest_mret` up to its final check. */
    method ReturnToUser() returns (ok: bool)
      requires Sane()
      modifies this`userMode, this`shadowActive, this`csr, this`mepc,
               spaces`own, spaces`tlb, spaces`shadowRoot, spaces`satp, spaces.pool, spaces.pool.pages
      ensures ok <==> Return(old(State()), RootAvailable(old(Now()))).Some?
      ensures ok ==> Sane() && State() == Return(old(State()), RootAvailable(old(Now()))).value
      ensures ok ==> csr.satpPpn == old(csr.satpPpn) && RootReady(old(Snap()), Snap())
    {
      if userMode {
        return false;
      }
      userMode := true;
      mepc := csr.mepc;
      csr := csr.(mdt := false);
      if csr.satpMode == SATP_BARE {
        // The machine table stays in use.
        ok := true;
      } else if csr.satpMode == SATP_SV39 {
        ok := ActivatePaging();
      } else {
        ok := false;
      }
    }

    /** `guest_mret`; false stands for a panic, or for going on without a shadow table. */
    method Mret() returns (ok: bool)
      requires Sane()
      modifies this`userMode, this`shadowActive, this`csr, this`mepc, this`deferredException,
               spaces`own, spaces`tlb, spaces`shadowRoot, spaces`satp, spaces.pool, spaces.pool.pages
      ensures ok <==> Apply(old(State()), PrivilegeSpec.Mret(RootAvailable(old(Now())))).Some?
      ensures ok ==> Sane() && State() == Apply(old(State()), PrivilegeSpec.Mret(RootAvailable(old(Now())))).value
      ensures ok ==> csr.satpPpn == old(csr.satpPpn) && RootReady(old(Snap()), Snap())
    {
      ok := ReturnToUser();
      if ok {
        ok := CheckDeferred();
      }
    }

    // -------------------------------------------------------------- page faults

    /** Enter a translation that was found into the shadow table. */
    method EnterShadow(address: Word, ghost gm: Word, hm: Word, access: Access)
      returns (r: Outcome, ghost hmPage: Word)
      requires Sane() && shadowActive && InRam(gm) && hm == gm + GUEST_MEMORY_OFFSET
      requires Resolve(spaces.ram, csr.satpPpn, address) == Resolved(gm)
      modifies spaces`own, spaces`tlb, spaces.pool, spaces.pool.pages
      ensures Sane() && !r.TooLow? && !r.Wild?
      ensures r.Panic? ==>
                && Exhausted(spaces.own.Keys)
                && old(Walk(spaces.Mem(), spaces.shadowRoot.value, 2, address / PAGE_BYTES)).None?
      ensures r.TooHigh? ==> address >= VA_LIMIT
      ensures r.NotChanged? ==>
                && address < VA_LIMIT
                && Grants(old(Walk(spaces.Mem(), spaces.shadowRoot.value, 2, address / PAGE_BYTES)), hmPage, access)
      ensures hmPage == PageFloor(gm + GUEST_MEMORY_OFFSET)
      ensures SameMachine(old(spaces.Mem()), spaces.Mem())
      ensures r.Success? ==>
                EntersPage(old(spaces.Mem()), spaces.Mem(), spaces.shadowRoot.value, address, hmPage, access)
      ensures !r.Success? ==> SameWalks(old(spaces.Mem()), spaces.Mem(), old(spaces.own))
    {
      SameOffsetOnHost(spaces.ram, csr.satpPpn, address, gm, hm);
      hmPage := PageFloor(hm);
      assert hmPage == PageFloor(gm + GUEST_MEMORY_OFFSET);
      r := spaces.UpdateShadow(address, hm, access);
    }

    /** Make the machine table map an address; without a shadow table that is all there is to do. */
    method MapMachine(ghost address: Word, gm: Word, ghost access: Access) returns (mapped: Outcome, hm: Word)
      requires Sane()
      modifies spaces`own, spaces`tlb, spaces.pool, spaces.pool.pages
      ensures Sane() && Extends(old(spaces.own), spaces.own)
      ensures mapped.Panic? ==>
                Exhausted(spaces.own.Keys) && InRam(gm) && old(Walk(spaces.Mem(), ROOT, 2, gm / PAGE_BYTES)).None?
      ensures mapped.TooHigh? ==> gm >= VA_LIMIT
      ensures mapped.NotChanged? ==> old(Walk(spaces.Mem(), ROOT, 2, gm / PAGE_BYTES)).Some?
      ensures mapped.Success? || mapped.NotChanged? ==> InRam(gm) && hm == gm + GUEST_MEMORY_OFFSET
      ensures KeepsMachine(old(spaces.Mem()), spaces.Mem())
      ensures SameShadow(old(spaces.Mem()), spaces.Mem(), old(spaces.own))
      ensures !shadowActive || !(mapped.Success? || mapped.NotChanged?) ==>
                Handled(old(Snap()), Snap(), shadowActive, address, gm, access, mapped)
    {
      mapped, hm := spaces.EnsureGuestMachineMapped(gm);
      if mapped.Panic? {
        NotReached(old(spaces.Mem()), gm);
      }
      ThenKeepsMachine(old(spaces.Mem()), old(spaces.Mem()), spaces.Mem(), old(spaces.own), gm / 0x20_0000);
      if !shadowActive || !(mapped.Success? || mapped.NotChanged?) {
        MachineHandled(old(Snap()), old(spaces.own), Snap(), shadowActive, address, gm, access, mapped);
      }
    }

    /**
     The part of `handle_page_fault` about guest RAM: `gm` is where the guest means the faulting
     address to be.
     */
    method MapFault(address: Word, gm: Word, access: Access) returns (r: Outcome)
      requires Sane()
      requires if shadowActive then Resolve(spaces.ram, csr.satpPpn, address) == Resolved(gm) else gm == address
      modifies spaces`own, spaces`tlb, spaces.pool, spaces.pool.pages
      ensures Sane()
      ensures r.Panic? ==>
                Exhausted(spaces.own.Keys) && Unmapped(shadowActive, old(spaces.Mem()), old(Root()), address, gm)
      ensures r.TooHigh? ==> gm >= VA_LIMIT || (shadowActive && address >= VA_LIMIT)
      ensures r.NotChanged? ==>
                InRam(gm) && Permits(old(spaces.Mem()), old(Root()), address, access, gm + GUEST_MEMORY_OFFSET)
      ensures Handled(old(Snap()), Snap(), shadowActive, address, gm, access, r)
    {
      var mapped, hm := MapMachine(address, gm, access);
      if !shadowActive || !(mapped.Success? || mapped.NotChanged?) {
        if mapped.NotChanged? {
          MachinePermits(old(spaces.Mem()), old(spaces.own), old(Root()), address, gm, access);
        }
        return mapped;
      }
      ghost var m, o := spaces.Mem(), spaces.own;
      AlreadyUnmapped(old(spaces.Mem()), m, old(spaces.own), spaces.shadowRoot.value, address / PAGE_BYTES);
      ghost var hmPage;
      r, hmPage := EnterShadow(address, gm, hm, access);
      ShadowHandled(old(Snap()), old(spaces.own), m, o, Snap(), address, gm, hmPage, access, r);
      if r.NotChanged? {
        GrantReaches(old(Snap()), old(spaces.own), old(Root()), address, gm, hmPage, access);
      }
    }

    /** Where the four bytes at the host's `mepc` are; no result stands for a panic. */
    method ResolvePc() returns (s: Option<GuestSlice.HostSlice>)
      requires Sane()
      ensures s == GuestSlice.Piece(spaces.Mem(), Root(), mepc, 4)
      ensures s.Some? ==> s.value.address >= GUEST_HOST_START
    {
      var it := new GuestSlice.SliceIterator(spaces, Root(), mepc, 4);
      var ok := it.Begin();
      if !ok {
        return None;
      }
      PieceIsGuestMemory(spaces.Mem(), spaces.own, spaces.shadowRoot, Root(), mepc, 4);
      s := Some(it.host);
    }

    /** `dereference_instruction`. */
    method DereferenceInstruction(address: nat) returns (p: nat)
      requires spaces.pool.pages.Length == PAGES && address >= GUEST_HOST_START
      ensures p == Dereference(spaces.ram, address)
    {
      p := spaces.HostLoadHalf(address);
      if !Decoder.IsCompressed(p) {
        var high := spaces.HostLoadHalf(address + 2);
        p := p + 0x1_0000 * high;
      }
    }

    /** The instruction at the host's `mepc`; no result stands for a panic. */
    method FetchInstruction() returns (p: Option<nat>)
      requires Sane()
      ensures p == Fetch(spaces.Mem(), Root(), spaces.ram, mepc)
    {
      var s := ResolvePc();
      if s.None? || s.value.byteLength < 2 {
        return None;
      }
      var low := spaces.HostLoadHalf(s.value.address);
      if s.value.byteLength < InstructionLength(low) {
        return None;
      }
      var packed := DereferenceInstruction(s.value.address);
      p := Some(packed);
    }

    /** Where the guest means an address to be; anything but success ends the run. */
    method Translate(address: Word) returns (r: Outcome, gm: Word)
      requires Sane()
      modifies spaces`own, spaces`tlb, spaces.pool, spaces.pool.pages
      ensures Sane() && Extends(old(spaces.own), spaces.own)
      ensures r.Success? || r.Panic? || r.Wild?
      ensures r.Success? ==> Means(Now(), address, gm)
      ensures r.Panic? ==>
                || (Exhausted(spaces.own.Keys) && shadowActive
                    && LacksRegion(old(spaces.Mem()), TablesRead(spaces.ram, csr.satpPpn, address)))
                || (shadowActive && Resolve(spaces.ram, csr.satpPpn, address).Refused?)
      ensures r.Wild? ==> shadowActive && Resolve(spaces.ram, csr.satpPpn, address).Wild?
      ensures !shadowActive ==> spaces.Mem() == old(spaces.Mem()) && spaces.own == old(spaces.own)
      ensures KeepsMachine(old(spaces.Mem()), spaces.Mem())
      ensures SameShadow(old(spaces.Mem()), spaces.Mem(), old(spaces.own))
    {
      if !shadowActive {
        return Success, address;
      }
      gm := 0;
      var resolution := spaces.TryResolve(csr.satpPpn, address);
      match resolution {
        case None => r := Panic;
        case Some(Refused) => r := Panic;
        case Some(Wild) => r := Outcome.Wild;
        case Some(Resolved(a)) => r, gm := Success, a;
      }
    }

    /** The device writes to the low end of a register, and the rest of it is then reset. */
    method LoadRegister(reg: nat, value: Word, width: nat, signed: bool)
      requires reg < 32 && width in {1, 2, 4, 8} && value < Decoder.Modulus(width)
      modifies this`regs
      ensures regs == SetReg(old(regs), reg, Decoder.ResetUpperBits(value, width, signed))
    {
      if reg > 0 {
        Devices.LoadIgnoresOldValue(regs[reg - 1], value, width, signed);
        regs := regs[reg - 1 := Devices.Overwrite(regs[reg - 1], value, width)];
        regs := regs[reg - 1 := Decoder.ResetUpperBits(regs[reg - 1], width, signed)];
      }
    }

    ghost function CpuNow(): (c: Cpu)
      requires timer.guests.Length0 == 1 && timer.guests.Length1 == 1
      reads this, timer.guests
    {
      Cpu(regs, mepc, timer.guests[0, 0])
    }

    /** The part of `handle_page_fault` about devices; false stands for one that is not supported. */
    method EmulateDevice(access: Access, gm: Word, a: Decoder.MemoryAccess, host: Devices.Host) returns (ok: bool)
      requires timer.guests.Length0 == 1 && timer.guests.Length1 == 1
      requires InRange(a)
      modifies this`regs, this`mepc, timer.guests
      ensures (if ok then Some(CpuNow()) else None) == Emulate(access, gm, a, old(CpuNow()), host)
      ensures !ok ==> CpuNow() == old(CpuNow())
    {
      match access {
        case Read =>
          var value := Devices.LoadDevice(gm, a.width, timer.guests[0, 0], host);
          if value.None? {
            return false;
          }
          LoadRegister(a.reg, value.value, a.width, a.signed);
        case Write =>
          if !Devices.StoreSupported(gm, a.width) {
            return false;
          }
          if gm == Devices.CLINT_MTIMECMP {
            timer.StoreDeadline(0, 0, Decoder.Reg(regs, a.reg));
          }
        case Execute =>
          return false;
      }
      mepc := Wrap(mepc + a.length);
      ok := true;
    }

    /** The access that faulted, read off the instruction; no result stands for a panic. */
    method FaultingAccess(access: Access) returns (a: Option<Decoder.MemoryAccess>)
      requires Sane()
      ensures a == FaultAt(Now(), access)
    {
      var p := 0;
      if access != Execute {
        var fetched := FetchInstruction();
        if fetched.None? {
          return None;
        }
        p := fetched.value;
      }
      var parsed := FaultAccess(access, p, regs, mepc);
      a := if parsed.Unsupported? then None else Some(parsed);
    }

    /** Map the faulting page, or emulate the access if it is to a device. */
    method MapOrEmulate(access: Access, a: Decoder.MemoryAccess, gm: Word, host: Devices.Host) returns (r: Outcome)
      requires Sane() && InRange(a) && Means(Now(), a.address, gm)
      modifies this`regs, this`mepc, timer.guests, spaces`own, spaces`tlb, spaces.pool, spaces.pool.pages
      ensures Sane()
      ensures Handled(old(Snap()), Snap(), shadowActive, a.address, gm, access,
                      if r.Success? && gm < RAM_START then TooLow else r)
      ensures gm < RAM_START ==>
                && (r.Success? || r.TooLow?)
                && (if r.Success? then Some(CpuNow()) else None) == Emulate(access, gm, a, old(CpuNow()), host)
      ensures gm >= RAM_START || !r.Success? ==> CpuNow() == old(CpuNow())
      ensures !r.Success? ==> Excused(old(Now()), access, a, host, gm, r, Now())
    {
      r := MapFault(a.address, gm, access);
      assert CpuNow() == old(CpuNow());
      if r.TooLow? {
        var ok := EmulateDevice(access, gm, a, host);
        if ok {
          r := Success;
        }
      }
      if !r.Success? {
        NotMappedIsExcused(old(Now()), access, a, host, gm, r, Now());
      }
    }

    /** `handle_page_fault` once the access is known. */
    method ServeFault(access: Access, a: Decoder.MemoryAccess, host: Devices.Host) returns (r: Outcome, gm: Word)
      requires Sane() && InRange(a)
      modifies this`regs, this`mepc, timer.guests, spaces`own, spaces`tlb, spaces.pool, spaces.pool.pages
      ensures Sane()
      ensures r.Success? ==> Means(Now(), a.address, gm)
      ensures r.Success? ==>
                Handled(old(Snap()), Snap(), shadowActive, a.address, gm, access,
                        if gm < RAM_START then TooLow else Success)
      ensures r.Success? && gm < RAM_START ==> Some(CpuNow()) == Emulate(access, gm, a, old(CpuNow()), host)
      ensures r.Success? && gm >= RAM_START ==> CpuNow() == old(CpuNow())
      ensures !r.Success? ==> Excused(old(Now()), access, a, host, gm, r, Now())
    {
      r, gm := Translate(a.address);
      if !r.Success? {
        NotTranslatedIsExcused(old(Now()), access, a, host, gm, r, Now());
        return;
      }
      ghost var m := Now();
      r := MapOrEmulate(access, a, gm, host);
      if r.Success? {
        HandledBefore(old(Now()), m, a.address, gm, access, if gm < RAM_START then TooLow else Success, Snap());
      } else {
        ExcusedBefore(old(Now()), m, access, a, host, gm, r, Now());
      }
    }

    /** `handle_page_fault` once the access is known, as a change of the whole machine. */
    method ServeAccess(access: Access, a: Decoder.MemoryAccess, host: Devices.Host)
      returns (ok: bool, ghost gm: Word, ghost r: Outcome)
      requires Sane() && InRange(a)
      modifies this`regs, this`mepc, timer.guests, spaces`own, spaces`tlb, spaces.pool, spaces.pool.pages
      ensures Sane()
      ensures ok ==> FaultServed(old(Now()), access, a, gm, host, Now())
      ensures !ok ==> Excused(old(Now()), access, a, host, gm, r, Now())
    {
      ghost var m := Now();
      var outcome, address := ServeFault(access, a, host);
      ok, gm, r := outcome.Success?, address, outcome;
      ghost var n := Now();
      assert n.t == m.t.(pc := n.t.pc) && n.clock == m.clock.(guest := n.clock.guest);
      if ok {
        FaultPossible(m, access, a, gm, host, n);
      } else {
        assert Machines.Root(m) == Root();
      }
    }

    /**
     `handle_page_fault`, and the panics of its callers as false. A fault in RAM is served by
     making the table in use permit the access, at the place where the guest means it to be; it then
     goes through if its address is canonical. An access to a device is carried out.
     */
    method HandlePageFault(access: Access, host: Devices.Host) returns (ok: bool, ghost gm: Word, ghost r: Outcome)
      requires Sane()
      modifies this`regs, this`mepc, timer.guests, spaces`own, spaces`tlb, spaces.pool, spaces.pool.pages
      ensures Sane()
      ensures ok ==> FaultAt(old(Now()), access).Some?
      ensures ok ==> FaultServed(old(Now()), access, FaultAt(old(Now()), access).value, gm, host, Now())
      ensures !ok && FaultAt(old(Now()), access).Some? ==>
                Excused(old(Now()), access, FaultAt(old(Now()), access).value, host, gm, r, Now())
    {
      var a := FaultingAccess(access);
      if a.None? {
        ok, gm, r := false, 0, Panic;
        return;
      }
      ok, gm, r := ServeAccess(access, a.value, host);
    }

    // -------------------------------------------------------------- system instructions

    /** `set_virtual_csr`; false stands for a panic. */
    method SetVirtualCsr(id: nat, value: Word) returns (ok: bool)
      modifies this`csr
      ensures ok <==> SetCsr(old(csr), id, value).Some?
      ensures ok ==> csr == SetCsr(old(csr), id, value).value
    {
      ok := true;
      if id == MSTATUS {
        csr := csr.(mpp := value / 0x800 % 4, mie := Has(value, MIE_BIT));
        if Has(value, MDT_BIT) {
          csr := csr.(mdt := true);
        }
      } else if id == PrivilegeSpec.MIE {
        csr := csr.(msie := Has(value, MSIE_BIT), mtie := Has(value, MTIE_BIT), meie := Has(value, MEIE_BIT));
        ok := MieBits(csr) == value;
      } else if id == MTVEC {
        csr := csr.(mtvec := value);
      } else if id == SATP {
        csr := csr.(satpPpn := value % 0x1000_0000_0000, satpMode := value / 0x1000_0000_0000_0000 % 16);
      } else if PMP_FIRST <= id <= PMP_LAST {
        // Ignored.
      } else if id == MEPC {
        csr := csr.(mepc := value);
      } else if id == MSCRATCH {
        csr := csr.(mscratch := value);
      } else if id == MCAUSE {
        csr := csr.(mcause := value);
      } else if id == MTVAL {
        csr := csr.(mtval := value);
      } else {
        ok := false;
      }
    }

    /** What follows each access to a CSR. */
    method AfterCsr(ghost before: PrivilegeSpec.Thread, ghost e: Event) returns (ok: bool)
      requires Sane() && Prepare(before, e) == Prepared(State().(pc := Wrap(mepc + 4)), true)
      modifies this`userMode, this`shadowActive, this`csr, this`mepc, this`deferredException, spaces`satp, spaces`tlb
      ensures Sane()
      ensures (if ok then Some(State()) else None) == Apply(before, e)
    {
      mepc := Wrap(mepc + 4);
      ok := CheckDeferred();
    }

    /** The write, if there is one, and what follows it. */
    method FinishCsr(id: nat, write: Option<Word>) returns (ok: bool)
      requires Sane() && GetCsr(csr, id).Some?
      modifies this`userMode, this`shadowActive, this`csr, this`mepc, this`deferredException, spaces`satp, spaces`tlb
      ensures Sane()
      ensures (if ok then Some(State()) else None) == Apply(old(State()), CsrAccess(id, write))
    {
      if write.Some? {
        ok := SetVirtualCsr(id, write.value);
        if !ok {
          FailedCsr(old(State()), id, write);
          return;
        }
      }
      PreparedCsr(old(State()), id, write, csr);
      ok := AfterCsr(old(State()), CsrAccess(id, write));
    }

    /** CSRRW; false stands for a panic. */
    method WriteCsr(id: nat, rd: nat, rs1: nat) returns (ok: bool)
      requires Sane() && rd < 32 && rs1 < 32
      modifies this`userMode, this`shadowActive, this`csr, this`mepc, this`deferredException, this`regs,
               spaces`satp, spaces`tlb
      ensures Sane()
      ensures (if ok then Some(State()) else None)
              == Apply(old(State()), CsrAccess(id, Some(Decoder.Reg(old(regs), rs1))))
      ensures ok ==> regs == ReadInto(id, old(csr), rd, old(regs))
    {
      var write := Some(Decoder.Reg(regs, rs1));
      var oldValue := GetCsr(csr, id);
      if oldValue.None? {
        // The write would panic as well.
        FailedCsr(State(), id, write);
        return false;
      }
      if rd > 0 {
        regs := regs[rd - 1 := oldValue.value];
      }
      ok := FinishCsr(id, write);
    }

    /** CSRRS; false stands for a panic. */
    method SetBitsOfCsr(id: nat, rd: nat, rs1: nat) returns (ok: bool)
      requires Sane() && rd < 32 && rs1 < 32
      modifies this`userMode, this`shadowActive, this`csr, this`mepc, this`deferredException, this`regs,
               spaces`satp, spaces`tlb
      ensures Sane()
      ensures (if ok then Some(State()) else None) == Apply(old(State()), CsrEvent(id, old(csr), rd, rs1, old(regs)))
      ensures ok ==> regs == ReadInto(id, old(csr), rd, old(regs))
    {
      var value := GetCsr(csr, id);
      if value.None? {
        FailedCsr(State(), id, None);
        return false;
      }
      var write := TakeOperand(value.value, rd, rs1);
      CsrEventIs(id, old(csr), rd, rs1, old(regs), value.value);
      ok := FinishCsr(id, write);
    }

    /** CSRRS moves the value of the CSR to rd, and only then reads rs1. */
    method TakeOperand(value: Word, rd: nat, rs1: nat) returns (write: Option<Word>)
      requires rd < 32 && rs1 < 32
      modifies this`regs
      ensures write == SetBitsOperand(value, rd, rs1, old(regs)) && regs == SetReg(old(regs), rd, value)
    {
      if rd > 0 {
        regs := regs[rd - 1 := value];
      }
      write := None;
      if rs1 > 0 {
        write := Some(Or(value, regs[rs1 - 1]));
      }
    }

    /** `flush_shadow_pagetable`: no shadow mapping is left, and nothing else changes. */
    method Flush()
      requires Sane()
      modifies spaces`own, spaces`tlb, spaces.pool, spaces.pool.pages
      ensures Sane() && State() == old(State())
      ensures Emptied(old(Snap()), Snap())
    {
      spaces.FlushShadow();
    }

    /** Move the host's `mepc` past an instruction. */
    method AdvancePc(bytes: nat)
      modifies this`mepc
      ensures Some(State()) == Apply(old(State()), Advance(bytes))
    {
      mepc := Wrap(mepc + bytes);
    }

    /** SFENCE.VMA. */
    method FenceVma()
      requires Sane()
      modifies this`mepc, spaces`own, spaces`tlb, spaces.pool, spaces.pool.pages
      ensures Sane() && Some(State()) == Apply(old(State()), Advance(4))
      ensures Emptied(old(Snap()), Snap())
    {
      Flush();
      AdvancePc(4);
    }

    /** Carry out a system instruction; false stands for a panic. */
    method ExecuteSystem(s: System) returns (ok: bool, ghost e: Event)
      requires Sane() && !s.Other? && SystemInRange(s)
      modifies this`userMode, this`shadowActive, this`csr, this`mepc, this`deferredException, this`regs,
               spaces`own, spaces`tlb, spaces`shadowRoot, spaces`satp, spaces.pool, spaces.pool.pages
      ensures e == SystemEvent(s, old(regs), old(csr), RootAvailable(old(Now())))
      ensures (if ok then Some(State()) else None) == Apply(old(State()), e)
      ensures ok ==> Sane() && regs == SystemRegs(s, old(regs), old(csr))
      ensures ok ==> TablesAfter(s, old(Snap()), Snap())
    {
      e := SystemEvent(s, regs, csr, RootAvailable(Now()));
      if s.SfenceVma? {
        FenceVma();
        ok := true;
      } else if s.MretInstruction? {
        ok := Mret();
      } else if s.Wfi? {
        StaysPut(State());
        ok := true;
      } else {
        ok := ExecuteCsr(s);
      }
    }

    /** Carry out a CSR instruction; false stands for a panic. */
    method ExecuteCsr(s: System) returns (ok: bool)
      requires Sane() && (s.CsrReadWrite? || s.CsrReadSet?) && SystemInRange(s)
      modifies this`userMode, this`shadowActive, this`csr, this`mepc, this`deferredException, this`regs,
               spaces`satp, spaces`tlb
      ensures Sane()
      ensures (if ok then Some(State()) else None) == Apply(old(State()), SystemEvent(s, old(regs), old(csr), false))
      ensures ok ==> regs == SystemRegs(s, old(regs), old(csr)) && SameTables(old(Snap()), Snap())
    {
      match s {
        case CsrReadWrite(id, rd, rs1) =>
          ok := WriteCsr(id, rd, rs1);
        case CsrReadSet(id, rd, rs1) =>
          ok := SetBitsOfCsr(id, rd, rs1);
      }
    }

    /** The illegal-instruction case of `handle_guest_exception`. */
    method IllegalInstruction() returns (ok: bool, ghost e: Event)
      requires Sane()
      modifies this`userMode, this`shadowActive, this`csr, this`mepc, this`deferredException, this`regs,
               spaces`own, spaces`tlb, spaces`shadowRoot, spaces`satp, spaces.pool, spaces.pool.pages
      ensures SystemAt(old(Now())).None? ==> !ok
      ensures SystemAt(old(Now())).Some? ==>
                && e == SystemEvent(SystemAt(old(Now())).value, old(regs), old(csr), RootAvailable(old(Now())))
                && (if ok then Some(State()) else None) == Apply(old(State()), e)
      ensures ok ==> Sane() && regs == SystemRegs(SystemAt(old(Now())).value, old(regs), old(csr))
      ensures ok ==> TablesAfter(SystemAt(old(Now())).value, old(Snap()), Snap())
    {
      if mepc < 0x8000_0000 || mepc > 0x80_8000_0000 {
        ok, e := false, Advance(0);
        return;
      }
      var packed := FetchInstruction();
      if packed.None? {
        ok, e := false, Advance(0);
        return;
      }
      var s := DecodeSystem(packed.value);
      if s.Other? {
        ok, e := false, Advance(0);
        return;
      }
      ok, e := ExecuteSystem(s);
    }

    // -------------------------------------------------------------- traps

    /** `timer_on_interrupt`. With a single guest thread it never panics. */
    method TimerInterrupt() returns (ghost e: Event)
      requires Valid()
      modifies this`userMode, this`shadowActive, this`csr, this`mepc, this`deferredException, this`deferredMcause,
               timer.guests, spaces`satp, spaces`tlb
      ensures Sane() && Some(State()) == Apply(old(State()), e)
      ensures e == if timer.target.Thread? then Interrupt(TIMER_CAUSE) else Advance(0)
      ensures timer.guests[0, 0] == TimerSpec.Handle(old(Clock()), TimerSpec.TimerInterrupt).guest
      ensures csr.satpPpn == old(csr.satpPpn)
    {
      StaysPut(State());
      e := Advance(0);
      match timer.target {
        case Nobody =>
        case Thread(_, _) =>
          timer.Unschedule(0, 0);
          e := Interrupt(TIMER_CAUSE);
          StepKeepsInv(State(), e);
          var ok := DeferException(MCAUSE_ASYNC + 7);
      }
    }

    /** `handle_interrupt`. Interrupts other than the timer's are ignored. */
    method HandleInterrupt(mcause: Word, ghost host: Devices.Host) returns (ghost x: Effect)
      requires Valid() && mcause >= MCAUSE_ASYNC
      modifies this`userMode, this`shadowActive, this`csr, this`mepc, this`deferredException, this`deferredMcause,
               timer.guests, spaces`satp, spaces`tlb
      ensures Sane() && Serves(old(Now()), mcause, x, host, Now())
    {
      if mcause - MCAUSE_ASYNC == 7 {
        ghost var e := TimerInterrupt();
        x := TimerTrap;
      } else {
        x := Ignored;
      }
    }

    /** An illegal instruction; false stands for a panic. */
    method IllegalTrap(ghost host: Devices.Host) returns (ok: bool, ghost x: Effect)
      requires Sane()
      modifies this`userMode, this`shadowActive, this`csr, this`mepc, this`deferredException, this`regs,
               spaces`own, spaces`tlb, spaces`shadowRoot, spaces`satp, spaces.pool, spaces.pool.pages
      ensures ok ==> Sane() && Serves(old(Now()), 2, x, host, Now())
      ensures !ok ==> Unserved(old(Now()), 2, host, 0, Panic, Now())
    {
      ghost var s := SystemAt(Now());
      ghost var e;
      ok, e := IllegalInstruction();
      x := if s.Some? then Instruction(s.value) else Quiet;
    }

    /** An ecall; false stands for a panic. */
    method EcallTrap(ghost host: Devices.Host) returns (ok: bool)
      requires Sane()
      modifies this`userMode, this`shadowActive, this`csr, this`mepc, spaces`satp, spaces`tlb
      ensures Sane()
      ensures ok ==> Serves(old(Now()), 8, Call, host, Now())
      ensures !ok ==> Unserved(old(Now()), 8, host, 0, Panic, Now())
    {
      ghost var m := Now();
      ok := Exception(8);
      CallIsServed(m, host, Now(), ok);
    }

    /** A page or access fault; false stands for a panic. */
    method FaultTrap(ghost mcause: Word, access: Access, host: Devices.Host)
      returns (ok: bool, ghost x: Effect, ghost gm: Word, ghost r: Outcome)
      requires Sane() && CauseAccess(mcause) == Some(access)
      modifies this`regs, this`mepc, timer.guests, spaces`own, spaces`tlb, spaces.pool, spaces.pool.pages
      ensures Sane()
      ensures ok ==> Serves(old(Now()), mcause, x, host, Now())
      ensures !ok ==> Unserved(old(Now()), mcause, host, gm, r, Now())
    {
      ghost var m := Now();
      ok, gm, r := HandlePageFault(access, host);
      x := if FaultAt(m, access).Some? then Effect.Fault(access, FaultAt(m, access).value, gm) else Quiet;
      if ok {
        FaultIsServed(m, mcause, access, gm, host, Now());
      } else {
        FaultIsUnserved(m, mcause, access, host, gm, r, Now());
      }
    }

    /** `handle_guest_exception`; false stands for a panic. */
    method HandleGuestException(mcause: Word, host: Devices.Host)
      returns (ok: bool, ghost x: Effect, ghost gm: Word, ghost r: Outcome)
      requires Sane() && mcause < MCAUSE_ASYNC
      modifies this`userMode, this`shadowActive, this`csr, this`mepc, this`deferredException, this`regs, timer.guests,
               spaces`own, spaces`tlb, spaces`shadowRoot, spaces`satp, spaces.pool, spaces.pool.pages
      ensures ok ==> Sane() && Serves(old(Now()), mcause, x, host, Now())
      ensures !ok ==> Unserved(old(Now()), mcause, host, gm, r, Now())
    {
      x, gm, r := Quiet, 0, Panic;
      if mcause == 2 {
        ok, x := IllegalTrap(host);
      } else if mcause == 8 {
        ok := EcallTrap(host);
        x := Call;
      } else if mcause == 12 {
        ok, x, gm, r := FaultTrap(mcause, Execute, host);
      } else if mcause == 5 || mcause == 13 {
        ok, x, gm, r := FaultTrap(mcause, Read, host);
      } else if mcause == 7 || mcause == 15 {
        ok, x, gm, r := FaultTrap(mcause, Write, host);
      } else {
        ok := false;
      }
    }

    /** The beginning of `exception`. */
    method EnterTrap(entered: Word)
      requires spaces.pool.pages.Length == PAGES && timer.guests.Length0 == 1 && timer.guests.Length1 == 1
      modifies timer.guests
      ensures Now() == Suspended(old(Now()), entered)
    {
      timer.Suspend(0, 0, entered);
    }

    /** The end of `exception`. */
    method LeaveTrap(left: Word, rescheduled: Word)
      requires spaces.pool.pages.Length == PAGES && timer.guests.Length0 == 1 && timer.guests.Length1 == 1
      modifies timer`mtimecmp, timer`enabled, timer`target, timer.guests
      ensures Now() == old(Now()).(clock := TimerSpec.Reschedule(
                old(Clock()).(guest := TimerSpec.Resume(old(Clock()).guest, left)), rescheduled))
      ensures OwnTarget()
    {
      timer.Resume(0, 0, left);
      timer.Reschedule(rescheduled);
      timer.SingleThread();
      TimerSpec.SinglePick(Wrap(rescheduled + TimerSpec.QUANTUM),
                           TimerSpec.Candidate(0, 0, TimerSpec.Due(timer.guests[0, 0])));
    }

    /** The handler proper: interrupts, exceptions of the guest, and those of the hypervisor itself. */
    method Dispatch(mcause: Word, fromGuest: bool, host: Devices.Host)
      returns (ok: bool, ghost x: Effect, ghost gm: Word, ghost r: Outcome)
      requires Valid()
      modifies this`userMode, this`shadowActive, this`csr, this`mepc, this`deferredException, this`deferredMcause,
               this`regs,
               timer.guests,
               spaces`own, spaces`tlb, spaces`shadowRoot, spaces`satp, spaces.pool, spaces.pool.pages
      ensures ok ==> (mcause < MCAUSE_ASYNC ==> fromGuest)
      ensures ok ==> Sane() && Serves(old(Now()), mcause, x, host, Now()) && Inv(State())
      ensures !ok ==> mcause < MCAUSE_ASYNC && (!fromGuest || Unserved(old(Now()), mcause, host, gm, r, Now()))
    {
      x, gm, r := Quiet, 0, Panic;
      if mcause >= 0x8000_0000_0000_0000 {
        ok := true;
        x := HandleInterrupt(mcause, host);
      } else if !fromGuest {
        ok := false;
      } else {
        ok, x, gm, r := HandleGuestException(mcause, host);
      }
      if ok {
        ServedEvent(old(Now()), mcause, x, host, Now());
        StepKeepsInv(old(State()), EventOf(old(Now()), x));
      }
    }

    /**
     `exception`, from the trap of the guest to its resumption: the trap is served, with the whole
     effect that it should have, or leads to a panic for a stated reason. False stands for a panic,
     which no interrupt leads to.
     */
    method Trap(mcause: Word, fromGuest: bool, times: Times, host: Devices.Host)
      returns (ok: bool, ghost x: Effect, ghost gm: Word, ghost r: Outcome)
      requires Valid()
      modifies this`userMode, this`shadowActive, this`csr, this`mepc, this`deferredException, this`deferredMcause,
               this`regs,
               timer`mtimecmp, timer`enabled, timer`target, timer.guests,
               spaces`own, spaces`tlb, spaces`shadowRoot, spaces`satp, spaces.pool, spaces.pool.pages
      ensures ok ==> Valid() && TrapServed(old(Now()), mcause, fromGuest, times, host, x, Now())
      ensures !ok ==> TrapFails(old(Now()), mcause, fromGuest, times, host, gm, r, Now())
    {
      EnterTrap(times.entered);
      ok, x, gm, r := Dispatch(mcause, fromGuest, host);
      if ok {
        FinishTrap(old(Now()), mcause, fromGuest, times, host, x);
      }
    }

    /** The end of a trap that has been served; `a` is the machine before it. */
    method FinishTrap(ghost a: Machine, ghost mcause: Word, ghost fromGuest: bool, times: Times,
                      ghost host: Devices.Host, ghost x: Effect)
      requires Sane() && Inv(State()) && Shaped(a) && (mcause < MCAUSE_ASYNC ==> fromGuest)
      requires Serves(Suspended(a, times.entered), mcause, x, host, Now())
      modifies timer`mtimecmp, timer`enabled, timer`target, timer.guests
      ensures Valid() && TrapServed(a, mcause, fromGuest, times, host, x, Now())
    {
      ghost var d := Now();
      LeaveTrap(times.left, times.rescheduled);
      TrapIsServed(a, mcause, fromGuest, times, host, x, d, Now());
    }

    // -------------------------------------------------------------- the guest between two traps

    /** The hart caches a translation of the table in use. */
    ghost method CacheTranslation(vpn: nat)
      requires Valid() && vpn < VPNS
      modifies spaces`tlb
      ensures Valid() && Now() == old(Now())
    {
      spaces.CacheWalk(vpn);
    }

    /** The hart translates the address of a store. A translation that it has cached is the same. */
    method TranslateStore(va: Word) returns (address: Option<Word>)
      requires Valid()
      ensures address == WritableAt(Now(), va) && (address.Some? ==> address.value >= GUEST_HOST_START)
      ensures var vpn := va / PAGE_BYTES % VPNS;
              vpn in spaces.tlb ==> spaces.tlb[vpn] == Walk(spaces.Mem(), Root(), 2, vpn)
    {
      UserAccessIsInRam(spaces.Mem(), spaces.own, spaces.shadowRoot, Root(), va, Write);
      if !Canonical(va) {
        return None;
      }
      var leaf := Walk(spaces.pool.pages[..], Root(), 2, va / PAGE_BYTES % VPNS);
      WalkModulo(spaces.Mem(), Root(), va / PAGE_BYTES);
      address := ThroughLeaf(leaf, va, Write);
    }

    /**
     The guest stores: the aligned word around the address becomes `word`, of which the bytes that
     the store does not write are as they were. The store goes through exactly if user mode may
     write the page, and then it ends up in guest RAM, never in a page of the hypervisor.
     */
    method GuestStore(va: Word, word: Word) returns (address: Option<Word>)
      requires Valid()
      modifies spaces`ram, spaces.pool.pages
      ensures Valid() && Now() == Stored(old(Now()), va, word)
      ensures address == WritableAt(old(Now()), va)
      ensures address.Some? ==> !InHypervisorPage(address.value)
    {
      address := TranslateStore(va);
      if address.Some? {
        GuestRamIsDisjoint(address.value);
        WordFloorInRam(address.value);
        spaces.StoreToRam(WordFloor(address.value), word);
      }
    }

    /** The guest runs until it traps. */
    method RunUntilTrap(pc: Word, trapValue: Word, regs: Decoder.Registers)
      requires Valid()
      modifies this`mepc, this`mtval, this`regs
      ensures Valid() && Now() == Resumed(old(Now()), pc, trapValue, regs)
    {
      mepc, mtval, this.regs := pc, trapValue, regs;
    }
  }
}
