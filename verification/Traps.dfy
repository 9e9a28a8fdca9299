/**
 What a trap asks for, as a value: the event that an emulated instruction stands for, and which
 events a cause can lead to.
 */
module Traps {
  import opened Words
  import opened Image
  import opened Devices
  import opened Instructions
  import opened Paging
  import opened PrivilegeSpec
  import opened TimerSpec
  import D = Decoder

  const MCAUSE_ASYNC: nat := 0x8000_0000_0000_0000
  const TIMER_CAUSE: nat := MCAUSE_ASYNC + 7

  predicate SystemInRange(s: System) {
    s.CsrReadWrite? || s.CsrReadSet? ==> s.rd < 32 && s.rs1 < 32
  }

  /**
   What CSRRS writes: the CSR's value with the bits of a register set, where the register is read
   after the destination has been written. Nothing is written if the register is number 0.
   */
  function SetBitsOperand(value: Word, rd: nat, rs1: nat, regs: D.Registers): (write: Option<Word>)
    requires rd < 32 && rs1 < 32
  {
    if rs1 == 0 then None else Some(Or(value, D.Reg(SetReg(regs, rd, value), rs1)))
  }

  /** For different registers that is what the ISA asks for; for the same one, the CSR is left as it is read. */
  lemma SetBitsIsIsa(value: Word, rd: nat, rs1: nat, regs: D.Registers, k: nat)
    requires 0 < rs1 < 32 && rd < 32 && k < 64
    ensures var write := SetBitsOperand(value, rd, rs1, regs).value;
            BitAt(write, k) <==> BitAt(value, k) || (rd != rs1 && BitAt(D.Reg(regs, rs1), k))
  {
    SixtyFour();
    OrSetsBits(value, D.Reg(SetReg(regs, rd, value), rs1), 64, k);
  }

  /**
   CSRRS writes what the ISA asks for exactly if its two registers differ, or the register asks
   for no bit that the CSR lacks.
   */
  lemma SetBitsIsIsaIff(value: Word, rd: nat, rs1: nat, regs: D.Registers)
    requires 0 < rs1 < 32 && rd < 32
    ensures SetBitsOperand(value, rd, rs1, regs).value == Or(value, D.Reg(regs, rs1))
            <==> rd != rs1 || Covers(value, D.Reg(regs, rs1), 64)
  {
    SixtyFour();
    OrAbsorbs(value, D.Reg(regs, rs1), 64);
    OrAbsorbs(value, value, 64);
    assert Covers(value, value, 64);
  }

  /** For the same register the CSR is written as it was read. */
  lemma SetBitsOfItself(value: Word, rs1: nat, regs: D.Registers)
    requires 0 < rs1 < 32
    ensures SetBitsOperand(value, rs1, rs1, regs) == Some(value)
  {
    SixtyFour();
    OrAbsorbs(value, value, 64);
    assert Covers(value, value, 64);
  }

  /** CSRRS x5, mscratch, x5: the bit in x5 is lost. */
  lemma SetBitsLosesOperand(regs: D.Registers)
    requires D.Reg(regs, 5) == 1
    ensures DecodeSystem(0x3402_A2F3) == CsrReadSet(MSCRATCH, 5, 5)
    ensures SetBitsOperand(0, 5, 5, regs) == Some(0) && Or(0, D.Reg(regs, 5)) != 0
  {
    SixtyFour();
    OrAbsorbs(0, 0, 64);
    assert Covers(0, 0, 64);
    OrSetsBits(0, 1, 64, 0);
    assert BitAt(1, 0) && !BitAt(0, 0);
  }

  function CsrEvent(csr: nat, c: Csrs, rd: nat, rs1: nat, regs: D.Registers): (e: Event)
    requires rd < 32 && rs1 < 32
  {
    match GetCsr(c, csr)
    case None => CsrAccess(csr, None)
    case Some(value) => CsrAccess(csr, SetBitsOperand(value, rd, rs1, regs))
  }

  lemma CsrEventIs(csr: nat, c: Csrs, rd: nat, rs1: nat, regs: D.Registers, value: Word)
    requires rd < 32 && rs1 < 32 && GetCsr(c, csr) == Some(value)
    ensures CsrEvent(csr, c, rd, rs1, regs) == CsrAccess(csr, SetBitsOperand(value, rd, rs1, regs))
    ensures ReadInto(csr, c, rd, regs) == SetReg(regs, rd, value)
  {
  }

  /** The event that a system instruction stands for. */
  function SystemEvent(s: System, regs: D.Registers, c: Csrs, rootAvailable: bool): (e: Event)
    requires SystemInRange(s)
  {
    match s
    case SfenceVma => Advance(4)
    case MretInstruction => Mret(rootAvailable)
    case CsrReadWrite(csr, rd, rs1) => CsrAccess(csr, Some(D.Reg(regs, rs1)))
    case CsrReadSet(csr, rd, rs1) => CsrEvent(csr, c, rd, rs1, regs)
    // WFI does not even move the pc.
    case _ => Advance(0)
  }

  function ReadInto(csr: nat, c: Csrs, rd: nat, regs: D.Registers): (r: D.Registers)
    requires rd < 32
  {
    match GetCsr(c, csr) case None => regs case Some(value) => SetReg(regs, rd, value)
  }

  /** The registers after a system instruction. */
  function SystemRegs(s: System, regs: D.Registers, c: Csrs): (r: D.Registers)
    requires SystemInRange(s)
  {
    match s
    case CsrReadWrite(csr, rd, rs1) => ReadInto(csr, c, rd, regs)
    case CsrReadSet(csr, rd, rs1) => ReadInto(csr, c, rd, regs)
    case _ => regs
  }

  /** A CSR that can be written can be read. */
  lemma WritableIsReadable(c: Csrs, csr: nat, value: Word)
    ensures SetCsr(c, csr, value).Some? ==> GetCsr(c, csr).Some?
  {
  }

  /** The state in which a successful CSR access reaches its end. */
  lemma PreparedCsr(t: PrivilegeSpec.Thread, csr: nat, write: Option<Word>, c: Csrs)
    requires GetCsr(t.csr, csr).Some?
    requires (if write.Some? then SetCsr(t.csr, csr, write.value) else Some(t.csr)) == Some(c)
    ensures Prepare(t, CsrAccess(csr, write)) == Prepared(t.(csr := c, pc := Wrap(t.pc + 4)), true)
  {
  }

  lemma FailedCsr(t: PrivilegeSpec.Thread, csr: nat, write: Option<Word>)
    requires GetCsr(t.csr, csr).None? || (write.Some? && SetCsr(t.csr, csr, write.value).None?)
    ensures Apply(t, CsrAccess(csr, write)).None?
  {
  }

  /** An emulated access is, for the guest's privilege state, a move of the pc by two or four. */
  lemma EmulationAdvances(t: PrivilegeSpec.Thread, access: Access, gm: Word, a: D.MemoryAccess, c: Cpu, host: Host)
    requires InRange(a) && Emulate(access, gm, a, c, host).Some? && c.pc == t.pc
    ensures Apply(t, Advance(a.length)) == Some(t.(pc := Emulate(access, gm, a, c, host).value.pc))
  {
  }

  lemma MovesOn(t: PrivilegeSpec.Thread, bytes: nat)
    ensures Apply(t, Advance(bytes)) == Some(t.(pc := Wrap(t.pc + bytes)))
  {
  }

  lemma StaysPut(t: PrivilegeSpec.Thread)
    ensures Apply(t, Advance(0)) == Some(t)
  {
  }

  /** The events that a trap with this cause can lead to. */
  predicate Caused(mcause: Word, e: Event) {
    if mcause >= MCAUSE_ASYNC then e == Advance(0) || (mcause == TIMER_CAUSE && e == Interrupt(TIMER_CAUSE))
    else if mcause == 2 then e.Mret? || e.CsrAccess? || e == Advance(0) || e == Advance(4)
    else if mcause == 8 then e == Ecall(8)
    else mcause in {5, 7, 12, 13, 15} && e in {Advance(0), Advance(2), Advance(4)}
  }

  /** A system instruction changes one register at most. */
  lemma SystemIsLocal(s: System, regs: D.Registers, c: Csrs, rootAvailable: bool)
    requires SystemInRange(s)
    ensures OneRegister(regs, SystemRegs(s, regs, c))
    ensures Caused(2, SystemEvent(s, regs, c, rootAvailable))
  {
    SetRegIsOne(regs, 0, 0);
    if (s.CsrReadWrite? || s.CsrReadSet?) && GetCsr(c, s.csr).Some? {
      SetRegIsOne(regs, s.rd, GetCsr(c, s.csr).value);
    }
  }
}
