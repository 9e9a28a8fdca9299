/**
 The guest's privilege state as a value: what each kind of trap does to it, and what holds after
 every sequence of traps.
 */
module PrivilegeSpec {
  import opened Words

  /** `mode` and `ppn` of the guest's `satp` are bit fields of 4 and 44 bits. */
  type Mode = n: nat | n < 16
  type Ppn = n: nat | n < 0x1000_0000_0000
  /** `mpp` of the guest's `mstatus` has 2 bits. */
  type Mpp = n: nat | n < 4

  /** The virtual CSRs of a guest thread. */
  datatype Csrs = Csrs(
    mtvec: Word, mepc: Word, mscratch: Word, mcause: Word, mtval: Word,
    mpp: Mpp, mie: bool, mdt: bool, msie: bool, mtie: bool, meie: bool,
    satpMode: Mode, satpPpn: Ppn)

  /**
   A guest thread and the host registers it is resumed with: `pc` is the host's `mepc`,
   `trapValue` its `mtval`, and `onShadow` says which root its `satp` names.
   */
  datatype Thread = Thread(
    userMode: bool, shadowActive: bool, deferred: Option<Word>, csr: Csrs,
    pc: Word, trapValue: Word, onShadow: bool)

  // ---------------------------------------------------------------- virtual CSRs

  const MSTATUS: nat := 0x300
  const MIE: nat := 0x304
  const MTVEC: nat := 0x305
  const MSCRATCH: nat := 0x340
  const MEPC: nat := 0x341
  const MCAUSE: nat := 0x342
  const MTVAL: nat := 0x343
  const SATP: nat := 0x180
  const PMP_FIRST: nat := 0x3A0
  const PMP_LAST: nat := 0x3EF

  const MIE_BIT: nat := 0x8
  const MDT_BIT: nat := 0x400_0000_0000
  const MSIE_BIT: nat := 0x8
  const MTIE_BIT: nat := 0x80
  const MEIE_BIT: nat := 0x800

  function Bit(b: bool, bit: nat): nat {
    if b then bit else 0
  }

  /** MDT is sticky: a write can set it, and only mret clears it. */
  function SetMstatus(c: Csrs, value: Word): (u: Csrs) {
    c.(mpp := value / 0x800 % 4, mie := Has(value, MIE_BIT), mdt := c.mdt || Has(value, MDT_BIT))
  }

  function SetMie(c: Csrs, value: Word): (u: Csrs) {
    c.(msie := Has(value, MSIE_BIT), mtie := Has(value, MTIE_BIT), meie := Has(value, MEIE_BIT))
  }

  function MieBits(c: Csrs): (bits: Word) {
    Bit(c.msie, MSIE_BIT) + Bit(c.mtie, MTIE_BIT) + Bit(c.meie, MEIE_BIT)
  }

  /** The address space identifier is dropped. */
  function SetSatp(c: Csrs, value: Word): (u: Csrs) {
    c.(satpPpn := value % 0x1000_0000_0000, satpMode := value / 0x1000_0000_0000_0000 % 16)
  }

  /** `set_virtual_csr`; no result stands for a panic. */
  function SetCsr(c: Csrs, csr: nat, value: Word): (r: Option<Csrs>) {
    if csr == MSTATUS then Some(SetMstatus(c, value))
    else if csr == MIE then
      // Bits other than these three are not handled.
      if MieBits(SetMie(c, value)) == value then Some(SetMie(c, value)) else None
    else if csr == SATP then Some(SetSatp(c, value))
    else SetPlain(c, csr, value)
  }

  /** The CSRs that only hold a word, and those whose writes are ignored. */
  function SetPlain(c: Csrs, csr: nat, value: Word): (r: Option<Csrs>) {
    if csr == MTVEC then Some(c.(mtvec := value))
    else if PMP_FIRST <= csr <= PMP_LAST then Some(c)
    else if csr == MEPC then Some(c.(mepc := value))
    else if csr == MSCRATCH then Some(c.(mscratch := value))
    else if csr == MCAUSE then Some(c.(mcause := value))
    else if csr == MTVAL then Some(c.(mtval := value))
    else None
  }

  /** `get_virtual_csr`; no result stands for a panic. */
  function GetCsr(c: Csrs, csr: nat): (r: Option<Word>) {
    if csr == MSTATUS then
      Some(Wrap(0x2_0000_0000 + c.mpp * 0x800 + Bit(c.mie, MIE_BIT) + Bit(c.mdt, MDT_BIT)))
    else if csr == MIE then Some(MieBits(c))
    else if csr == MTVEC then Some(c.mtvec)
    else if csr == SATP then Some(c.satpMode * 0x1000_0000_0000_0000 + c.satpPpn)
    else if PMP_FIRST <= csr <= PMP_LAST then Some(0)
    else if csr == MEPC then Some(c.mepc)
    else if csr == MSCRATCH then Some(c.mscratch)
    else if csr == MCAUSE then Some(c.mcause)
    else if csr == MTVAL then Some(c.mtval)
    else None
  }

  // ---------------------------------------------------------------- what the virtual CSRs hold

  /** The CSRs that a guest has, by their numbers in the architecture. */
  predicate Implemented(csr: nat) {
    csr in {0x180, 0x300, 0x304, 0x305, 0x340, 0x341, 0x342, 0x343} || 0x3A0 <= csr <= 0x3EF
  }

  /** Bits 3, 7 and 11 of a word, the interrupts that `mie` knows. */
  function KnownInterrupts(value: Word): (bits: nat) {
    value / 0x8 % 2 * 0x8 + value / 0x80 % 2 * 0x80 + value / 0x800 % 2 * 0x800
  }

  /** Exactly these CSRs can be read and written, but `mie` only with bits that it knows. */
  lemma ImplementedCsrs(c: Csrs, csr: nat, value: Word)
    ensures GetCsr(c, csr).Some? <==> Implemented(csr)
    ensures SetCsr(c, csr, value).Some? <==> Implemented(csr) && (csr == 0x304 ==> value == KnownInterrupts(value))
  {
    KnownBits(c, value);
    if csr in {0x300, 0x304, 0x180} {
    } else {
      assert SetCsr(c, csr, value) == SetPlain(c, csr, value);
    }
  }

  lemma KnownBits(c: Csrs, value: Word)
    ensures MieBits(SetMie(c, value)) == KnownInterrupts(value)
  {
    OneBit(value / 0x8);
    OneBit(value / 0x80);
    OneBit(value / 0x800);
  }

  /** Whatever a CSR reads as can be written to it. */
  lemma ReadCanBeWritten(c: Csrs, csr: nat)
    requires Implemented(csr)
    ensures GetCsr(c, csr).Some? && SetCsr(c, csr, GetCsr(c, csr).value).Some?
  {
    var bits := MieBits(c);
    assert c.msie <==> bits / 0x8 % 2 == 1;
    assert c.mtie <==> bits / 0x80 % 2 == 1;
    assert c.meie <==> bits / 0x800 % 2 == 1;
    ImplementedCsrs(c, csr, if csr == 0x304 then bits else 0);
  }

  lemma OneBit(n: nat)
    ensures n % 2 == 0 || n % 2 == 1
  {
  }

  /** A word with the given mode, address space identifier and page number, as the architecture lays out `satp`. */
  function SatpWord(mode: Mode, asid: nat, ppn: Ppn): (w: Word)
    requires asid < 0x1_0000
  {
    mode * 0x1000_0000_0000_0000 + asid * 0x1000_0000_0000 + ppn
  }

  /** Writing `satp` sets mode and page number, and nothing else. */
  lemma SatpFields(c: Csrs, mode: Mode, asid: nat, ppn: Ppn)
    requires asid < 0x1_0000
    ensures SetCsr(c, 0x180, SatpWord(mode, asid, ppn)) == Some(c.(satpMode := mode, satpPpn := ppn))
    ensures GetCsr(c.(satpMode := mode, satpPpn := ppn), 0x180) == Some(SatpWord(mode, 0, ppn))
  {
    var w := SatpWord(mode, asid, ppn);
    assert w == (mode * 0x1_0000 + asid) * 0x1000_0000_0000 + ppn;
    assert w / 0x1000_0000_0000_0000 == mode;
  }

  /** Writing `mstatus` sets MPP from bits 12 and 11 and MIE from bit 3, and can set but not clear MDT, bit 42. */
  lemma MstatusFields(c: Csrs, value: Word)
    ensures SetCsr(c, 0x300, value).Some?
    ensures var u := SetCsr(c, 0x300, value).value;
            && u == c.(mpp := u.mpp, mie := u.mie, mdt := u.mdt)
            && u.mpp == value / 0x800 % 4
            && (u.mie <==> value / 0x8 % 2 == 1)
            && (u.mdt <==> c.mdt || value / 0x400_0000_0000 % 2 == 1)
  {
  }

  /** Writing `mie` sets MSIE, MTIE and MEIE from bits 3, 7 and 11. */
  lemma MieFields(c: Csrs, value: Word)
    requires SetCsr(c, 0x304, value).Some?
    ensures var u := SetCsr(c, 0x304, value).value;
            && u == c.(msie := u.msie, mtie := u.mtie, meie := u.meie)
            && (u.msie <==> value / 0x8 % 2 == 1)
            && (u.mtie <==> value / 0x80 % 2 == 1)
            && (u.meie <==> value / 0x800 % 2 == 1)
  {
  }

  /** What is read from a CSR after a write: the fields it has. MDT is sticky, and UXL is always 2. */
  function UnderMask(c: Csrs, csr: nat, value: Word): (w: nat) {
    if csr == 0x300 then
      0x2_0000_0000 + value / 0x800 % 4 * 0x800 + value / 0x8 % 2 * 0x8
      + (if c.mdt then 0x400_0000_0000 else value / 0x400_0000_0000 % 2 * 0x400_0000_0000)
    else if csr == 0x180 then value / 0x1000_0000_0000_0000 * 0x1000_0000_0000_0000 + value % 0x1000_0000_0000
    else if 0x3A0 <= csr <= 0x3EF then 0
    else value
  }

  /** Reading a CSR back gives the value that was written, under the mask of the CSR. */
  lemma ReadsBack(c: Csrs, csr: nat, value: Word)
    requires SetCsr(c, csr, value).Some?
    ensures GetCsr(SetCsr(c, csr, value).value, csr) == Some(UnderMask(c, csr, value))
  {
    if csr == 0x300 {
      MstatusReadsBack(c, value);
    } else if csr == 0x304 {
      KnownBits(c, value);
    } else if csr == 0x180 {
      SatpReadsBack(c, value);
    } else {
      assert SetCsr(c, csr, value) == SetPlain(c, csr, value);
      PlainReadsBack(c, csr, value);
    }
  }

  lemma SatpReadsBack(c: Csrs, value: Word)
    ensures GetCsr(SetSatp(c, value), 0x180) == Some(UnderMask(c, 0x180, value))
  {
    assert value / 0x1000_0000_0000_0000 < 16;
  }

  lemma PlainReadsBack(c: Csrs, csr: nat, value: Word)
    requires SetPlain(c, csr, value).Some? && csr !in {0x180, 0x300, 0x304}
    ensures GetCsr(SetPlain(c, csr, value).value, csr) == Some(UnderMask(c, csr, value))
  {
  }

  lemma MstatusReadsBack(c: Csrs, value: Word)
    ensures GetCsr(SetMstatus(c, value), 0x300) == Some(UnderMask(c, 0x300, value))
  {
    OneBit(value / 0x8);
    OneBit(value / 0x400_0000_0000);
    MstatusFits(value / 0x800 % 4, value / 0x8 % 2 == 1, c.mdt || value / 0x400_0000_0000 % 2 == 1);
  }

  lemma MstatusFits(mpp: Mpp, mie: bool, mdt: bool)
    ensures var w := 0x2_0000_0000 + mpp * 0x800 + Bit(mie, MIE_BIT) + Bit(mdt, MDT_BIT); Wrap(w) == w
  {
  }

  /** A write to one CSR is not seen in any other. */
  lemma WriteIsLocal(c: Csrs, csr: nat, value: Word, other: nat)
    requires SetCsr(c, csr, value).Some? && other != csr
    ensures GetCsr(SetCsr(c, csr, value).value, other) == GetCsr(c, other)
  {
    if csr !in {0x180, 0x300, 0x304} {
      PlainWriteIsLocal(c, csr, value, other);
    }
  }

  lemma PlainWriteIsLocal(c: Csrs, csr: nat, value: Word, other: nat)
    requires SetPlain(c, csr, value).Some? && other != csr && csr !in {0x180, 0x300, 0x304}
    ensures GetCsr(SetPlain(c, csr, value).value, other) == GetCsr(c, other)
  {
    var u := SetPlain(c, csr, value).value;
    assert u == c.(mtvec := u.mtvec, mepc := u.mepc, mscratch := u.mscratch, mcause := u.mcause, mtval := u.mtval);
    if csr == 0x305 {
      assert u == c.(mtvec := value);
    } else if csr == 0x341 {
      assert u == c.(mepc := value);
    } else if csr == 0x340 {
      assert u == c.(mscratch := value);
    } else if csr == 0x342 {
      assert u == c.(mcause := value);
    } else if csr == 0x343 {
      assert u == c.(mtval := value);
    }
  }

  /** Two guests whose CSRs all read the same have the same CSRs: there is no hidden state in them. */
  lemma ReadsDetermine(c: Csrs, d: Csrs)
    requires forall csr: nat :: GetCsr(c, csr) == GetCsr(d, csr)
    ensures c == d
  {
    assert GetCsr(c, 0x300) == GetCsr(d, 0x300) && GetCsr(c, 0x304) == GetCsr(d, 0x304);
    assert GetCsr(c, 0x180) == GetCsr(d, 0x180) && GetCsr(c, 0x305) == GetCsr(d, 0x305);
    assert GetCsr(c, 0x340) == GetCsr(d, 0x340) && GetCsr(c, 0x341) == GetCsr(d, 0x341);
    assert GetCsr(c, 0x342) == GetCsr(d, 0x342) && GetCsr(c, 0x343) == GetCsr(d, 0x343);
    MstatusFits(c.mpp, c.mie, c.mdt);
    MstatusFits(d.mpp, d.mie, d.mdt);
  }

  // ---------------------------------------------------------------- switching privilege

  /** `guest_exception`: enter the guest's handler; from GM this is a panic. */
  function Deliver(t: Thread, mcause: Word): (r: Option<Thread>) {
    if !t.userMode then None
    else Some(t.(shadowActive := false, onShadow := t.onShadow && !t.shadowActive,
                 pc := t.csr.mtvec, userMode := false,
                 csr := t.csr.(mdt := true, mepc := t.pc, mcause := mcause, mtval := t.trapValue)))
  }

  /** The deferred exception that `guest_check_deferred` would deliver now. */
  function Due(t: Thread): (d: seq<Word>) {
    if t.csr.mie && !t.csr.mdt && t.deferred.Some? then [t.deferred.value] else []
  }

  /** `guest_check_deferred`. */
  function CheckDeferred(t: Thread): (r: Option<Thread>) {
    if !t.csr.mie || t.csr.mdt || t.deferred.None? then Some(t)
    else Deliver(t.(deferred := None), t.deferred.value)
  }

  const SATP_BARE: nat := 0
  const SATP_SV39: nat := 8

  /** `guest_mret` up to its final check; `rootAvailable` says whether there is, or can be, a shadow root. */
  function Return(t: Thread, rootAvailable: bool): (r: Option<Thread>) {
    if t.userMode then None
    else
      var u := t.(userMode := true, pc := t.csr.mepc, csr := t.csr.(mdt := false));
      if u.csr.satpMode == SATP_BARE then Some(u)
      else if u.csr.satpMode == SATP_SV39 && rootAvailable then Some(u.(shadowActive := true, onShadow := true))
      else None
  }

  /**
   The guest is in its handler, where an exception at `u` takes it: on the machine table, with the
   interrupted pc, the cause and the trap value where the handler looks for them. All other CSRs
   read as before, and of `mstatus` only MDT has changed.
   */
  ghost predicate InHandler(u: Thread, mcause: Word, t: Thread) {
    && !t.userMode && !t.shadowActive && !t.onShadow
    && GetCsr(u.csr, 0x305) == Some(t.pc) && t.trapValue == u.trapValue
    && GetCsr(t.csr, 0x341) == Some(u.pc) && GetCsr(t.csr, 0x342) == Some(mcause)
    && GetCsr(t.csr, 0x343) == Some(u.trapValue)
    && t.csr.mdt && t.csr.mie == u.csr.mie && t.csr.mpp == u.csr.mpp
    && forall csr: nat :: csr !in {0x300, 0x341, 0x342, 0x343} ==> GetCsr(t.csr, csr) == GetCsr(u.csr, csr)
  }

  /** An exception takes a guest from user mode to its handler, and does nothing else. */
  lemma DeliveryEntersHandler(u: Thread, mcause: Word)
    requires u.onShadow <==> u.shadowActive
    ensures Deliver(u, mcause).Some? <==> u.userMode
    ensures u.userMode ==>
              InHandler(u, mcause, Deliver(u, mcause).value) && Deliver(u, mcause).value.deferred == u.deferred
  {
  }

  /** What is pending is delivered exactly if MIE is set and MDT is clear. */
  ghost predicate Settled(u: Thread, t: Thread) {
    if u.csr.mie && !u.csr.mdt && u.deferred.Some? then InHandler(u, u.deferred.value, t) && t.deferred.None?
    else t == u
  }

  lemma CheckSettles(u: Thread)
    requires (!u.csr.mdt ==> u.userMode) && (u.onShadow <==> u.shadowActive)
    ensures CheckDeferred(u).Some? && Settled(u, CheckDeferred(u).value)
  {
    if u.csr.mie && !u.csr.mdt && u.deferred.Some? {
      DeliveryEntersHandler(u.(deferred := None), u.deferred.value);
    }
  }

  /** `u` is `t` in user mode at the guest's own `mepc`, with paging on exactly if `satp` has mode 8. */
  predicate ReturnedFrom(t: Thread, u: Thread) {
    && u.userMode && GetCsr(t.csr, 0x341) == Some(u.pc)
    && u.csr == t.csr.(mdt := false) && u.deferred == t.deferred && u.trapValue == t.trapValue
    && (u.shadowActive <==> t.csr.satpMode == 8) && (u.onShadow <==> t.csr.satpMode == 8)
  }

  /** What mret does before its check, for a guest in GM; and exactly when it is possible. */
  lemma ReturnTurnsPagingOn(t: Thread, rootAvailable: bool)
    requires Inv(t)
    ensures Return(t, rootAvailable).Some? <==>
              !t.userMode && (t.csr.satpMode == 0 || (t.csr.satpMode == 8 && rootAvailable))
    ensures Return(t, rootAvailable).Some? ==> ReturnedFrom(t, Return(t, rootAvailable).value)
  {
  }

  /** A whole mret: the guest is in user mode, or at once in its handler if something was due. */
  lemma MretReturns(t: Thread, rootAvailable: bool)
    requires Inv(t) && Apply(t, Mret(rootAvailable)).Some?
    ensures !t.userMode && t.csr.satpMode in {0, 8}
    ensures exists u :: ReturnedFrom(t, u) && Settled(u, Apply(t, Mret(rootAvailable)).value)
    ensures !(t.csr.mie && t.deferred.Some?) ==> ReturnedFrom(t, Apply(t, Mret(rootAvailable)).value)
  {
    ReturnTurnsPagingOn(t, rootAvailable);
    CheckSettles(Return(t, rootAvailable).value);
  }

  /** What can happen to a guest thread between two resumptions. */
  datatype Event =
    | GuestRuns(pc: Word, trapValue: Word)
    | Mret(rootAvailable: bool)
    | CsrAccess(csr: nat, write: Option<Word>)
    | Ecall(mcause: Word)
    | Interrupt(mcause: Word)
    | Advance(bytes: nat)

  /** The state in which an event reaches `guest_check_deferred`, and whether it does. */
  datatype Prepared = Prepared(t: Thread, checks: bool) | Stops

  function Prepare(t: Thread, e: Event): (p: Prepared) {
    match e
    case GuestRuns(pc, trapValue) => Prepared(t.(pc := pc, trapValue := trapValue), false)
    case Mret(rootAvailable) =>
      (match Return(t, rootAvailable) case Some(u) => Prepared(u, true) case None => Stops)
    case CsrAccess(csr, write) =>
      if GetCsr(t.csr, csr).None? then Stops
      else (match (if write.Some? then SetCsr(t.csr, csr, write.value) else Some(t.csr))
            case Some(c) => Prepared(t.(csr := c, pc := Wrap(t.pc + 4)), true)
            case None => Stops)
    case Ecall(mcause) =>
      (match Deliver(t, mcause) case Some(u) => Prepared(u, false) case None => Stops)
    case Interrupt(mcause) =>
      // Only one exception can be deferred at a time.
      if t.deferred.Some? then Prepared(t, false) else Prepared(t.(deferred := Some(mcause)), true)
    case Advance(bytes) => Prepared(t.(pc := Wrap(t.pc + bytes)), false)
  }

  function Apply(t: Thread, e: Event): (r: Option<Thread>) {
    match Prepare(t, e)
    case Stops => None
    case Prepared(u, checks) => if checks then CheckDeferred(u) else Some(u)
  }

  /** The deferrals that an event makes: at most one. */
  function Accepted(t: Thread, e: Event): (a: seq<Word>) {
    if e.Interrupt? && t.deferred.None? then [e.mcause] else []
  }

  /** The deferred exceptions that an event delivers. */
  function Delivered(t: Thread, e: Event): (d: seq<Word>) {
    match Prepare(t, e)
    case Stops => []
    case Prepared(u, checks) => if checks then Due(u) else []
  }

  // ---------------------------------------------------------------- runs

  /** `GUEST_THREAD_CONTEXT_INIT`, with the host registers that `boot_main` leaves. */
  const INITIAL := Thread(false, false, None,
                          Csrs(0, 0, 0, 0, 0, 0, false, true, false, false, false, 0, 0),
                          0x8000_0000, 0, false)

  /** The state after a sequence of events, if none of them ended the run. */
  function After(events: seq<Event>): (r: Option<Thread>) {
    if events == [] then Some(INITIAL)
    else match After(events[..|events| - 1])
         case None => None
         case Some(t) => Apply(t, events[|events| - 1])
  }

  function AllAccepted(events: seq<Event>): (a: seq<Word>) {
    if events == [] then []
    else match After(events[..|events| - 1])
         case None => AllAccepted(events[..|events| - 1])
         case Some(t) => AllAccepted(events[..|events| - 1]) + Accepted(t, events[|events| - 1])
  }

  function AllDelivered(events: seq<Event>): (d: seq<Word>) {
    if events == [] then []
    else match After(events[..|events| - 1])
         case None => AllDelivered(events[..|events| - 1])
         case Some(t) => AllDelivered(events[..|events| - 1]) + Delivered(t, events[|events| - 1])
  }

  function Pending(t: Thread): (p: seq<Word>) {
    match t.deferred case None => [] case Some(mcause) => [mcause]
  }

  /** What holds whenever the guest is resumed. */
  predicate Inv(t: Thread) {
    && (!t.csr.mdt ==> t.userMode)
    && (t.deferred.Some? ==> !t.csr.mie || t.csr.mdt)
    && (t.shadowActive ==> t.userMode)
    && (t.onShadow <==> t.shadowActive)
  }

  /** Delivering a deferred exception never finds the guest in GM. */
  lemma CheckNeverPanics(t: Thread)
    requires !t.csr.mdt ==> t.userMode
    ensures CheckDeferred(t).Some?
  {
  }

  /** A CSR write never clears MDT. */
  lemma WriteKeepsMdt(c: Csrs, csr: nat, value: Word)
    requires SetCsr(c, csr, value).Some? && c.mdt
    ensures SetCsr(c, csr, value).value.mdt
  {
  }

  lemma OthersKeepMtvec(c: Csrs, csr: nat, value: Word)
    requires SetCsr(c, csr, value).Some? && csr != MTVEC
    ensures SetCsr(c, csr, value).value.mtvec == c.mtvec
  {
  }

  /** What holds when an event reaches the check for a deferred exception, or passes it by. */
  lemma PrepareKeeps(t: Thread, e: Event)
    requires Inv(t) && Prepare(t, e).Prepared?
    ensures var u := Prepare(t, e).t;
            && (!u.csr.mdt ==> u.userMode) && (u.shadowActive ==> u.userMode) && (u.onShadow <==> u.shadowActive)
            && Pending(u) == Pending(t) + Accepted(t, e)
            && (!Prepare(t, e).checks && u.deferred.Some? ==> !u.csr.mie || u.csr.mdt)
  {
    if e.CsrAccess? && e.write.Some? && t.csr.mdt {
      WriteKeepsMdt(t.csr, e.csr, e.write.value);
    }
  }

  lemma CheckKeeps(u: Thread)
    requires (!u.csr.mdt ==> u.userMode) && (u.shadowActive ==> u.userMode) && (u.onShadow <==> u.shadowActive)
    ensures CheckDeferred(u).Some? && Inv(CheckDeferred(u).value)
    ensures Pending(u) == Due(u) + Pending(CheckDeferred(u).value)
  {
  }

  lemma StepKeepsInv(t: Thread, e: Event)
    requires Inv(t) && Apply(t, e).Some?
    ensures Inv(Apply(t, e).value)
    ensures Pending(t) + Accepted(t, e) == Delivered(t, e) + Pending(Apply(t, e).value)
  {
    PrepareKeeps(t, e);
    if Prepare(t, e).checks {
      CheckKeeps(Prepare(t, e).t);
    }
  }

  /** Every sequence of events keeps the invariant, and loses or repeats no accepted exception. */
  lemma {:induction false} EveryRun(events: seq<Event>)
    requires After(events).Some?
    ensures Inv(After(events).value)
    ensures AllAccepted(events) == AllDelivered(events) + Pending(After(events).value)
  {
    if events != [] {
      var before, e := events[..|events| - 1], events[|events| - 1];
      EveryRun(before);
      var t := After(before).value;
      StepKeepsInv(t, e);
      calc {
        AllAccepted(events);
        AllAccepted(before) + Accepted(t, e);
        AllDelivered(before) + Pending(t) + Accepted(t, e);
        { assert Pending(t) + Accepted(t, e) == Delivered(t, e) + Pending(Apply(t, e).value); }
        AllDelivered(before) + (Delivered(t, e) + Pending(Apply(t, e).value));
        AllDelivered(events) + Pending(After(events).value);
      }
    }
  }

  lemma DeliveredState(u: Thread)
    requires Due(u) != [] && u.userMode && (u.onShadow <==> u.shadowActive)
    ensures CheckDeferred(u).Some?
    ensures var w := CheckDeferred(u).value;
            && !w.userMode && w.csr.mdt && w.deferred.None? && !w.onShadow
            && w.csr.mcause == Due(u)[0] && w.csr.mepc == u.pc && w.pc == u.csr.mtvec
  {
  }

  lemma PreparedPc(t: Thread, e: Event)
    requires Prepare(t, e).Prepared? && (e.CsrAccess? || e.Mret? || e.Interrupt?)
    ensures var u := Prepare(t, e).t;
            && u.pc == (if e.CsrAccess? then Wrap(t.pc + 4) else if e.Mret? then t.csr.mepc else t.pc)
            && (!(e.CsrAccess? && e.csr == MTVEC) ==> u.csr.mtvec == t.csr.mtvec)
  {
    if e.CsrAccess? && e.write.Some? && e.csr != MTVEC {
      OthersKeepMtvec(t.csr, e.csr, e.write.value);
    }
  }

  /**
   An exception is delivered with the pc the guest would have gone on at: past the instruction for
   a CSR access, at the guest's own `mepc` for mret. Every state of a run meets the requirement.
   */
  lemma DeliveryResumesLater(t: Thread, e: Event)
    requires Inv(t) && Delivered(t, e) != []
    ensures Apply(t, e).Some? && |Delivered(t, e)| == 1
    ensures var u := Apply(t, e).value;
            && !u.userMode && u.csr.mdt && u.deferred.None? && !u.onShadow
            && u.csr.mcause == Delivered(t, e)[0]
            && (e.CsrAccess? ==> u.csr.mepc == Wrap(t.pc + 4) && (e.csr != MTVEC ==> u.pc == t.csr.mtvec))
            && (e.Mret? ==> u.csr.mepc == t.csr.mepc && u.pc == t.csr.mtvec)
            && (e.Interrupt? ==> u.csr.mepc == t.pc && u.pc == t.csr.mtvec)
  {
    PrepareKeeps(t, e);
    PreparedPc(t, e);
    DeliveredState(Prepare(t, e).t);
  }

  /** A run ends only where the source panics on purpose, or has no shadow root to go on with. */
  lemma WhenRunsStop(t: Thread, e: Event)
    requires Inv(t)
    ensures Apply(t, e).None? <==>
              || (e.Mret?
                  && (t.userMode || (t.csr.satpMode != SATP_BARE && !(t.csr.satpMode == SATP_SV39 && e.rootAvailable))))
              || (e.Ecall? && !t.userMode)
              || (e.CsrAccess?
                  && (GetCsr(t.csr, e.csr).None? || (e.write.Some? && SetCsr(t.csr, e.csr, e.write.value).None?)))
  {
    if Prepare(t, e).Prepared? {
      PrepareKeeps(t, e);
      CheckKeeps(Prepare(t, e).t);
    }
  }
}
