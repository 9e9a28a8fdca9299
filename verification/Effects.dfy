/**
 What a trap is for the guest, instruction by instruction: the registers, the CSRs and the pc that
 each encoded instruction, exception and interrupt leaves behind.
 */
module Effects {
  import opened Words
  import opened Image
  import opened GuestTables
  import opened Paging
  import opened PrivilegeSpec
  import opened Faults
  import opened Instructions
  import opened Traps
  import opened Machines
  import D = Decoder
  import Devices
  import T = TimerSpec

  /** The instruction at the pc, as far as the handlers can fetch it. */
  function WordAt(m: Machine): (p: Option<nat>)
    requires Shaped(m)
  {
    Fetch(m.snap.pages, Root(m), m.snap.ram, m.t.pc)
  }

  // ---------------------------------------------------------------- loads and stores

  /**
   A load fault at an encoded load is the access that the ISA describes, and so is a store fault at
   an encoded store; nothing else is a load or a store. The sign of C.LWSP is lost.
   */
  lemma FaultOfEncoded(a: Machine, i: D.Instruction)
    requires Shaped(a) && D.Encodable(i) && WordAt(a) == Some(D.Encode(i))
    ensures FaultAt(a, Read) == if D.IsLoad(i) then Some(D.AsDecoded(i, a.regs)) else None
    ensures FaultAt(a, Write) == if D.IsLoad(i) then None else Some(D.AsDecoded(i, a.regs))
  {
    D.DecodingUndoesEncoding(i, a.regs);
    D.LoadOrStore(D.Encode(i), a.regs);
  }

  /** The access is to RAM: the guest goes on where it was, and the MMU lets it through if its address is canonical. */
  ghost predicate Mapped(a: Machine, access: Access, address: Word, gm: Word, b: Machine)
    requires Shaped(b)
  {
    && b.t == a.t && b.regs == a.regs && b.clock.guest.scheduled == a.clock.guest.scheduled
    && b.clock.guest.deadline == a.clock.guest.deadline
    && AccessAt(b, address, access) == if Canonical(address) then Some(gm + 0x500_0000) else None
  }

  /** A load from a device: the register holds what the device does, and the pc has moved on. */
  ghost predicate Loaded(a: Machine, acc: D.MemoryAccess, gm: Word, host: Devices.Host, b: Machine)
    requires InRange(acc)
  {
    && CanBeLoaded(gm, acc.width) && b.t == a.t.(pc := Wrap(a.t.pc + acc.length))
    && OnlyRegister(a.regs, b.regs, acc.reg) && b.clock.guest.scheduled == a.clock.guest.scheduled
    && b.clock.guest.deadline == a.clock.guest.deadline
    && (acc.reg > 0 ==> HoldsDevice(D.Reg(b.regs, acc.reg), gm, acc.signed, a.clock.guest, host))
  }

  /** A store to a device: it can only set the guest's deadline, and the pc has moved on. */
  ghost predicate StoredTo(a: Machine, acc: D.MemoryAccess, gm: Word, b: Machine)
    requires InRange(acc)
  {
    && CanBeStored(gm, acc.width) && b.t == a.t.(pc := Wrap(a.t.pc + acc.length)) && b.regs == a.regs
    && b.clock.guest.scheduled == (gm == 0x0200_4000 || a.clock.guest.scheduled)
    && b.clock.guest.deadline == if gm == 0x0200_4000 then D.Reg(a.regs, acc.reg) else a.clock.guest.deadline
  }

  /** What serving a memory access leaves behind. */
  ghost predicate Accessed(
    a: Machine, access: Access, acc: D.MemoryAccess, gm: Word, host: Devices.Host, b: Machine)
    requires Shaped(b) && InRange(acc)
  {
    if gm >= 0x8000_0000 then Mapped(a, access, acc.address, gm, b)
    else if access.Read? then Loaded(a, acc, gm, host, b)
    else access.Write? && StoredTo(a, acc, gm, b)
  }

  /**
   From an encoded instruction to the access that is served: a load is served as a load, with the
   address, width and register that the ISA gives it, and a store as a store.
   */
  lemma MemoryTrap(a: Machine, mcause: Word, times: Times, host: Devices.Host, i: D.Instruction, x: Effect, b: Machine)
    requires Shaped(a) && Shaped(b) && D.Encodable(i) && WordAt(a) == Some(D.Encode(i))
    requires mcause in {5, 7, 13, 15} && TrapServed(a, mcause, true, times, host, x, b)
    ensures x.Fault? && x.a == D.AsDecoded(i, a.regs) && InRange(x.a) && Means(a, x.a.address, x.gm)
    ensures D.IsLoad(i) <==> mcause in {5, 13}
    ensures Accessed(a, if D.IsLoad(i) then Read else Write, x.a, x.gm, host, b)
  {
    FaultOfEncoded(Suspended(a, times.entered), i);
    AccessServed(a, mcause, times, host, x, b);
  }

  /** The same for any fault, whatever the instruction is. */
  lemma AccessServed(a: Machine, mcause: Word, times: Times, host: Devices.Host, x: Effect, b: Machine)
    requires Shaped(a) && Shaped(b) && mcause in {5, 7, 12, 13, 15}
    requires TrapServed(a, mcause, true, times, host, x, b)
    ensures x.Fault? && FaultAt(a, x.access) == Some(x.a) && InRange(x.a) && Means(a, x.a.address, x.gm)
    ensures x.access == if mcause == 12 then Execute else if mcause in {5, 13} then Read else Write
    ensures Accessed(a, x.access, x.a, x.gm, host, b)
  {
    var c := Suspended(a, times.entered);
    var d := b.(clock := T.Handle(c.clock, ActionOf(c, x)));
    FaultIsOneOf(c, mcause, x, host, d);
    FaultServes(c, x.access, x.a, x.gm, host, d);
    Resumes(a, times.entered, x.access, x.a, x.gm, host, d, b);
  }

  /** Suspending and resuming the guest's clock is not seen in what the access leaves behind. */
  lemma Resumes(a: Machine, entered: Word, access: Access, acc: D.MemoryAccess, gm: Word, host: Devices.Host,
                d: Machine, b: Machine)
    requires Shaped(b) && Shaped(d) && InRange(acc) && d == b.(clock := d.clock)
    requires d.clock.guest.scheduled == b.clock.guest.scheduled && d.clock.guest.deadline == b.clock.guest.deadline
    requires Accessed(Suspended(a, entered), access, acc, gm, host, d)
    ensures Accessed(a, access, acc, gm, host, b)
  {
  }

  lemma FaultIsOneOf(a: Machine, mcause: Word, x: Effect, host: Devices.Host, b: Machine)
    requires Shaped(a) && Shaped(b) && mcause in {5, 7, 12, 13, 15} && Serves(a, mcause, x, host, b)
    ensures x.Fault? && FaultAt(a, x.access) == Some(x.a) && InRange(x.a)
    ensures FaultServed(a, x.access, x.a, x.gm, host, b)
    ensures x.access == if mcause == 12 then Execute else if mcause in {5, 13} then Read else Write
  {
  }

  lemma FaultServes(a: Machine, access: Access, acc: D.MemoryAccess, gm: Word, host: Devices.Host, b: Machine)
    requires Shaped(a) && Shaped(b) && InRange(acc) && FaultServed(a, access, acc, gm, host, b)
    ensures Accessed(a, access, acc, gm, host, b)
  {
    if gm >= RAM_START {
      PageServes(a, access, acc.address, gm, b);
    } else if access.Read? {
      DeviceLoads(acc, gm, CpuOf(a), host);
    } else {
      DeviceStores(acc, gm, CpuOf(a), host);
    }
  }

  lemma PageServes(a: Machine, access: Access, address: Word, gm: Word, b: Machine)
    requires Shaped(a) && Shaped(b) && PageServed(a, access, address, gm, b)
    requires b.t == a.t.(pc := b.t.pc)
    ensures Mapped(a, access, address, gm, b)
  {
  }

  /** A fetch fault that is served is one in RAM, at the pc. */
  lemma FetchTrap(a: Machine, times: Times, host: Devices.Host, x: Effect, b: Machine)
    requires Shaped(a) && Shaped(b) && TrapServed(a, 12, true, times, host, x, b)
    ensures x.Fault? && x.gm >= 0x8000_0000 && Means(a, a.t.pc, x.gm) && Mapped(a, Execute, a.t.pc, x.gm, b)
  {
    AccessServed(a, 12, times, host, x, b);
  }

  /** A load or a store that is not served has an excuse; for a device, that it has no such register. */
  lemma MemoryTrapStops(a: Machine, mcause: Word, times: Times, host: Devices.Host, i: D.Instruction,
                        gm: Word, r: Outcome, b: Machine)
    requires Shaped(a) && D.Encodable(i) && WordAt(a) == Some(D.Encode(i))
    requires mcause == (if D.IsLoad(i) then 13 else 15) || mcause == (if D.IsLoad(i) then 5 else 7)
    requires TrapFails(a, mcause, true, times, host, gm, r, b)
    ensures InRange(D.AsDecoded(i, a.regs))
    ensures Excused(Suspended(a, times.entered), if D.IsLoad(i) then Read else Write,
                    D.AsDecoded(i, a.regs), host, gm, r, b)
    ensures r.TooLow? ==>
              var width := D.AsDecoded(i, a.regs).width;
              gm < 0x8000_0000 && !(if D.IsLoad(i) then CanBeLoaded(gm, width) else CanBeStored(gm, width))
  {
    var c, access := Suspended(a, times.entered), if D.IsLoad(i) then Read else Write;
    FaultOfEncoded(c, i);
    ExcuseOfFault(c, mcause, access, D.AsDecoded(i, a.regs), host, gm, r, b);
    NoSuchRegister(c, access, D.AsDecoded(i, a.regs), host, gm, r, b);
  }

  lemma NoSuchRegister(
    a: Machine, access: Access, acc: D.MemoryAccess, host: Devices.Host, gm: Word, r: Outcome, b: Machine)
    requires Shaped(a) && InRange(acc) && Excused(a, access, acc, host, gm, r, b)
    ensures r.TooLow? && access.Read? ==> gm < 0x8000_0000 && !CanBeLoaded(gm, acc.width)
    ensures r.TooLow? && access.Write? ==> gm < 0x8000_0000 && !CanBeStored(gm, acc.width)
  {
    DeviceLoads(acc, gm, CpuOf(a), host);
    DeviceStores(acc, gm, CpuOf(a), host);
  }

  // ---------------------------------------------------------------- system instructions

  /** The guest is at this instruction, in the range of addresses in which the handler looks for one. */
  predicate AtInstruction(a: Machine, p: nat)
    requires Shaped(a)
  {
    0x8000_0000 <= a.t.pc <= 0x80_8000_0000 && WordAt(a) == Some(p)
  }

  lemma SystemFound(a: Machine, p: nat)
    requires Shaped(a) && AtInstruction(a, p)
    ensures SystemAt(a) == if DecodeSystem(p).Other? then None else Some(DecodeSystem(p))
  {
  }

  /** An illegal instruction that is served is the system instruction at the pc. */
  lemma SystemTrap(a: Machine, times: Times, host: Devices.Host, p: nat, x: Effect, b: Machine)
    requires Shaped(a) && Shaped(b) && AtInstruction(a, p) && TrapServed(a, 2, true, times, host, x, b)
    ensures x == Instruction(DecodeSystem(p)) && !DecodeSystem(p).Other?
    ensures SystemServed(Suspended(a, times.entered), DecodeSystem(p), b.(clock := Suspended(a, times.entered).clock))
  {
    SystemFound(Suspended(a, times.entered), p);
  }

  /** A CSR holds what was written to it, under its mask; all others are as before, and the pc has moved on. */
  ghost predicate Written(t: PrivilegeSpec.Thread, csr: nat, value: Word, u: PrivilegeSpec.Thread) {
    && u == t.(pc := Wrap(t.pc + 4), csr := u.csr)
    && GetCsr(u.csr, csr) == Some(UnderMask(t.csr, csr, value))
    && forall other: nat :: other != csr ==> GetCsr(u.csr, other) == GetCsr(t.csr, other)
  }

  /** The destination register has what was read from a CSR, and no other register has changed. */
  predicate ReadTo(t: PrivilegeSpec.Thread, csr: nat, rd: nat, r: D.Registers, r': D.Registers) {
    GetCsr(t.csr, csr).Some? && OnlyRegister(r, r', rd)
    && (0 < rd < 32 ==> D.Reg(r', rd) == GetCsr(t.csr, csr).value)
  }

  /** A CSR has been written; if that made something due, the guest is in its handler. */
  ghost predicate WrittenAndSettled(t: PrivilegeSpec.Thread, csr: nat, value: Word, v: PrivilegeSpec.Thread) {
    && (exists u :: Written(t, csr, value, u) && Settled(u, v))
    && (t.deferred.None? ==> Written(t, csr, value, v))
  }

  /** What a CSR access with a write does to the privilege state. */
  lemma AccessWrites(t: PrivilegeSpec.Thread, csr: nat, value: Word)
    requires Inv(t) && Apply(t, CsrAccess(csr, Some(value))).Some?
    ensures WrittenAndSettled(t, csr, value, Apply(t, CsrAccess(csr, Some(value))).value)
  {
    var u := t.(csr := SetCsr(t.csr, csr, value).value, pc := Wrap(t.pc + 4));
    ReadsBack(t.csr, csr, value);
    forall other: nat | other != csr ensures GetCsr(u.csr, other) == GetCsr(t.csr, other) {
      WriteIsLocal(t.csr, csr, value, other);
    }
    if t.csr.mdt {
      WriteKeepsMdt(t.csr, csr, value);
    }
    CheckSettles(u);
  }

  /** CSRRW puts the source register into the CSR, and what the CSR held into the destination. */
  lemma CsrReadWriteTrap(
    a: Machine, times: Times, host: Devices.Host, csr: nat, rd: nat, rs1: nat, x: Effect, b: Machine)
    requires Shaped(a) && Shaped(b) && Inv(a.t) && csr < 4096 && rd < 32 && rs1 < 32
    requires AtInstruction(a, EncodeCsr(csr, rs1, 1, rd)) && TrapServed(a, 2, true, times, host, x, b)
    ensures WrittenAndSettled(a.t, csr, D.Reg(a.regs, rs1), b.t)
    ensures ReadTo(a.t, csr, rd, a.regs, b.regs) && SameTables(a.snap, b.snap)
  {
    SystemInstructionsDecode(csr, rs1, 0, rd);
    SystemTrap(a, times, host, EncodeCsr(csr, rs1, 1, rd), x, b);
    AccessWrites(a.t, csr, D.Reg(a.regs, rs1));
  }

  ghost predicate BitsAreSet(t: PrivilegeSpec.Thread, csr: nat, rd: nat, rs1: nat, regs: D.Registers,
                             v: PrivilegeSpec.Thread)
    requires rs1 < 32
  {
    if rs1 == 0 then Settled(t.(pc := Wrap(t.pc + 4)), v)
    else
      && GetCsr(t.csr, csr).Some?
      && var value: Word := GetCsr(t.csr, csr).value;
         WrittenAndSettled(t, csr, if rd == rs1 then value else Or(value, D.Reg(regs, rs1)), v)
  }

  /**
   CSRRS sets the bits of the source register in the CSR, unless the destination is the same
   register; it puts what the CSR held into the destination, and writes nothing for register 0.
   */
  lemma CsrReadSetTrap(a: Machine, times: Times, host: Devices.Host, csr: nat, rd: nat, rs1: nat, x: Effect, b: Machine)
    requires Shaped(a) && Shaped(b) && Inv(a.t) && csr < 4096 && rd < 32 && rs1 < 32
    requires AtInstruction(a, EncodeCsr(csr, rs1, 2, rd)) && TrapServed(a, 2, true, times, host, x, b)
    ensures ReadTo(a.t, csr, rd, a.regs, b.regs) && SameTables(a.snap, b.snap)
    ensures BitsAreSet(a.t, csr, rd, rs1, a.regs, b.t)
  {
    SystemInstructionsDecode(csr, rs1, 0, rd);
    SetServed(a, times, host, EncodeCsr(csr, rs1, 2, rd), csr, rd, rs1, x, b);
    SetsBits(a.t, csr, rd, rs1, a.regs);
  }

  lemma SetServed(
    a: Machine, times: Times, host: Devices.Host, p: nat, csr: nat, rd: nat, rs1: nat, x: Effect, b: Machine)
    requires Shaped(a) && Shaped(b) && rd < 32 && rs1 < 32
    requires AtInstruction(a, p) && DecodeSystem(p) == CsrReadSet(csr, rd, rs1)
    requires TrapServed(a, 2, true, times, host, x, b)
    ensures Apply(a.t, CsrEvent(csr, a.t.csr, rd, rs1, a.regs)) == Some(b.t)
    ensures ReadTo(a.t, csr, rd, a.regs, b.regs) && SameTables(a.snap, b.snap)
  {
    SystemTrap(a, times, host, p, x, b);
  }

  lemma SetsBits(t: PrivilegeSpec.Thread, csr: nat, rd: nat, rs1: nat, regs: D.Registers)
    requires Inv(t) && rd < 32 && rs1 < 32 && GetCsr(t.csr, csr).Some?
    requires Apply(t, CsrEvent(csr, t.csr, rd, rs1, regs)).Some?
    ensures BitsAreSet(t, csr, rd, rs1, regs, Apply(t, CsrEvent(csr, t.csr, rd, rs1, regs)).value)
  {
    var value: Word := GetCsr(t.csr, csr).value;
    CsrEventIs(csr, t.csr, rd, rs1, regs, value);
    if rs1 == 0 {
      CheckSettles(t.(pc := Wrap(t.pc + 4)));
    } else {
      SetBitsWord(value, rd, rs1, regs);
      AccessWrites(t, csr, if rd == rs1 then value else Or(value, D.Reg(regs, rs1)));
    }
  }

  lemma SetBitsWord(value: Word, rd: nat, rs1: nat, regs: D.Registers)
    requires 0 < rs1 < 32 && rd < 32
    ensures SetBitsOperand(value, rd, rs1, regs) == Some(if rd == rs1 then value else Or(value, D.Reg(regs, rs1)))
  {
    if rd == rs1 {
      SetBitsOfItself(value, rs1, regs);
    }
  }

  /** SFENCE.VMA empties the shadow table and moves on. */
  lemma FenceTrap(a: Machine, times: Times, host: Devices.Host, rs1: nat, rs2: nat, x: Effect, b: Machine)
    requires Shaped(a) && Shaped(b) && rs1 < 32 && rs2 < 32
    requires AtInstruction(a, D.Word32(0x73, 0, 0, rs1, rs2, 9)) && TrapServed(a, 2, true, times, host, x, b)
    ensures b.t == a.t.(pc := Wrap(a.t.pc + 4)) && b.regs == a.regs && Emptied(a.snap, b.snap)
  {
    SystemInstructionsDecode(0, rs1, rs2, 0);
    FenceServed(a, times, host, D.Word32(0x73, 0, 0, rs1, rs2, 9), x, b);
  }

  lemma FenceServed(a: Machine, times: Times, host: Devices.Host, p: nat, x: Effect, b: Machine)
    requires Shaped(a) && Shaped(b) && AtInstruction(a, p) && DecodeSystem(p) == SfenceVma
    requires TrapServed(a, 2, true, times, host, x, b)
    ensures b.t == a.t.(pc := Wrap(a.t.pc + 4)) && b.regs == a.regs && Emptied(a.snap, b.snap)
  {
    SystemTrap(a, times, host, p, x, b);
    MovesOn(a.t, 4);
  }

  /** WFI changes nothing, not even the pc. */
  lemma WfiTrap(a: Machine, times: Times, host: Devices.Host, x: Effect, b: Machine)
    requires Shaped(a) && Shaped(b) && AtInstruction(a, 0x1050_0073) && TrapServed(a, 2, true, times, host, x, b)
    ensures b.t == a.t && b.regs == a.regs && SameTables(a.snap, b.snap)
  {
    SystemInstructionsDecode(0, 0, 0, 0);
    SystemTrap(a, times, host, 0x1050_0073, x, b);
    StaysPut(a.t);
  }

  /** MRET goes to user mode at the guest's `mepc`, on the shadow table exactly if `satp` asks for Sv39. */
  lemma MretTrap(a: Machine, times: Times, host: Devices.Host, x: Effect, b: Machine)
    requires Shaped(a) && Shaped(b) && Inv(a.t) && AtInstruction(a, 0x3020_0073)
    requires TrapServed(a, 2, true, times, host, x, b)
    ensures !a.t.userMode && a.t.csr.satpMode in {0, 8} && b.regs == a.regs && RootReady(a.snap, b.snap)
    ensures exists u :: ReturnedFrom(a.t, u) && Settled(u, b.t)
    ensures !(a.t.csr.mie && a.t.deferred.Some?) ==> ReturnedFrom(a.t, b.t)
  {
    SystemInstructionsDecode(0, 0, 0, 0);
    SystemTrap(a, times, host, 0x3020_0073, x, b);
    MretReturns(a.t, RootAvailable(Suspended(a, times.entered)));
  }

  /** A system instruction is not served only where the machine does not have what it asks for. */
  lemma SystemTrapStops(a: Machine, times: Times, host: Devices.Host, p: nat, gm: Word, r: Outcome, b: Machine)
    requires Shaped(a) && Inv(a.t) && AtInstruction(a, p) && TrapFails(a, 2, true, times, host, gm, r, b)
    ensures match DecodeSystem(p)
            case SfenceVma => false
            case Wfi => false
            case MretInstruction =>
              a.t.userMode || a.t.csr.satpMode !in {0, 8} || (a.t.csr.satpMode == 8 && !RootAvailable(a))
            case CsrReadWrite(csr, rd, rs1) =>
              !Implemented(csr) || (csr == 0x304 && D.Reg(a.regs, rs1) != KnownInterrupts(D.Reg(a.regs, rs1)))
            case CsrReadSet(csr, rd, rs1) => !Implemented(csr) || CannotSet(a, csr, rd, rs1)
            case Other => true
  {
    var c, s := Suspended(a, times.entered), DecodeSystem(p);
    SystemFound(c, p);
    if !s.Other? {
      EventStops(a.t, s, a.regs, RootAvailable(c));
    }
  }

  /** The bits to be set in `mie` are not all known. */
  predicate CannotSet(a: Machine, csr: nat, rd: nat, rs1: nat)
    requires rs1 < 32
  {
    && csr == 0x304 && rs1 > 0 && rs1 != rd && GetCsr(a.t.csr, csr).Some?
    && var w := Or(GetCsr(a.t.csr, csr).value, D.Reg(a.regs, rs1)); w != KnownInterrupts(w)
  }

  lemma EventStops(t: PrivilegeSpec.Thread, s: System, regs: D.Registers, rootAvailable: bool)
    requires Inv(t) && !s.Other? && SystemInRange(s)
    requires Apply(t, SystemEvent(s, regs, t.csr, rootAvailable)).None?
    ensures match s
            case MretInstruction => t.userMode || t.csr.satpMode !in {0, 8} || (t.csr.satpMode == 8 && !rootAvailable)
            case CsrReadWrite(csr, rd, rs1) =>
              !Implemented(csr) || (csr == 0x304 && D.Reg(regs, rs1) != KnownInterrupts(D.Reg(regs, rs1)))
            case CsrReadSet(csr, rd, rs1) =>
              || !Implemented(csr)
              || (csr == 0x304 && rs1 > 0 && rs1 != rd
                  && var w := Or(GetCsr(t.csr, csr).value, D.Reg(regs, rs1)); w != KnownInterrupts(w))
            case _ => false
  {
    WhenRunsStop(t, SystemEvent(s, regs, t.csr, rootAvailable));
    match s
    case CsrReadWrite(csr, rd, rs1) => ImplementedCsrs(t.csr, csr, D.Reg(regs, rs1));
    case CsrReadSet(csr, rd, rs1) =>
      ImplementedCsrs(t.csr, csr, 0);
      if Implemented(csr) {
        SetBitsStops(t, csr, rd, rs1, regs);
      }
    case _ =>
  }

  lemma SetBitsStops(t: PrivilegeSpec.Thread, csr: nat, rd: nat, rs1: nat, regs: D.Registers)
    requires Inv(t) && rd < 32 && rs1 < 32 && GetCsr(t.csr, csr).Some?
    requires Apply(t, CsrEvent(csr, t.csr, rd, rs1, regs)).None?
    ensures csr == 0x304 && rs1 > 0 && rs1 != rd
    ensures var w := Or(GetCsr(t.csr, csr).value, D.Reg(regs, rs1)); w != KnownInterrupts(w)
  {
    var value: Word := GetCsr(t.csr, csr).value;
    WhenRunsStop(t, CsrEvent(csr, t.csr, rd, rs1, regs));
    CsrEventIs(csr, t.csr, rd, rs1, regs, value);
    ImplementedCsrs(t.csr, csr, 0);
    ReadCanBeWritten(t.csr, csr);
    if rs1 > 0 {
      SetBitsWord(value, rd, rs1, regs);
      ImplementedCsrs(t.csr, csr, Or(value, D.Reg(regs, rs1)));
    }
  }

  // ---------------------------------------------------------------- exceptions and interrupts

  /** An ecall of user mode enters the guest's handler, and one of GM is a panic. */
  lemma EcallTrap(a: Machine, times: Times, host: Devices.Host, x: Effect, b: Machine)
    requires Shaped(a) && Shaped(b) && Inv(a.t) && TrapServed(a, 8, true, times, host, x, b)
    ensures a.t.userMode && InHandler(a.t, 8, b.t) && b.t.deferred == a.t.deferred
    ensures b.regs == a.regs && SameTables(a.snap, b.snap)
  {
    DeliveryEntersHandler(a.t, 8);
  }

  /**
   The timer interrupt unschedules the guest's timer, if it was set for this guest. Then, unless an
   exception is pending already, the guest has one: in its handler at once if MIE is set and MDT clear.
   */
  lemma TimerTrapEffect(a: Machine, fromGuest: bool, times: Times, host: Devices.Host, x: Effect, b: Machine)
    requires Shaped(a) && Shaped(b) && Inv(a.t)
    requires TrapServed(a, 0x8000_0000_0000_0007, fromGuest, times, host, x, b)
    ensures b.regs == a.regs && SameTables(a.snap, b.snap)
    ensures b.clock.guest.scheduled == (a.clock.guest.scheduled && !a.clock.targeted)
    ensures if !a.clock.targeted || a.t.deferred.Some? then b.t == a.t
            else if a.t.csr.mie && !a.t.csr.mdt then
              InHandler(a.t, 0x8000_0000_0000_0007, b.t) && b.t.deferred.None?
            else b.t == a.t.(deferred := Some(0x8000_0000_0000_0007))
  {
    StaysPut(a.t);
    var u := a.t.(deferred := Some(0x8000_0000_0000_0007));
    if a.clock.targeted && a.t.deferred.None? {
      CheckSettles(u);
    }
  }

  /** Other interrupts change nothing but the timer's accounting. */
  lemma OtherInterrupts(
    a: Machine, mcause: Word, fromGuest: bool, times: Times, host: Devices.Host, x: Effect, b: Machine)
    requires Shaped(a) && Shaped(b) && mcause >= 0x8000_0000_0000_0000 && mcause != 0x8000_0000_0000_0007
    requires TrapServed(a, mcause, fromGuest, times, host, x, b)
    ensures b.t == a.t && b.regs == a.regs && SameTables(a.snap, b.snap)
    ensures b.clock.guest.scheduled == a.clock.guest.scheduled && b.clock.guest.deadline == a.clock.guest.deadline
  {
  }

  /** No other exception is served. */
  lemma OtherExceptions(
    a: Machine, mcause: Word, fromGuest: bool, times: Times, host: Devices.Host, x: Effect, b: Machine)
    requires Shaped(a) && Shaped(b) && TrapServed(a, mcause, fromGuest, times, host, x, b)
    ensures mcause in {2, 5, 7, 8, 12, 13, 15} || mcause >= 0x8000_0000_0000_0000
  {
  }

  /** Only a store to the deadline and the timer interrupt change what the guest's timer is set to. */
  lemma TimerIsKept(a: Machine, mcause: Word, fromGuest: bool, times: Times, host: Devices.Host, x: Effect, b: Machine)
    requires Shaped(a) && Shaped(b) && TrapServed(a, mcause, fromGuest, times, host, x, b)
    ensures !(x.Fault? && x.access.Write? && x.gm == 0x0200_4000) ==>
              b.clock.guest.deadline == a.clock.guest.deadline
              && (mcause != 0x8000_0000_0000_0007 ==> b.clock.guest.scheduled == a.clock.guest.scheduled)
  {
  }
}
