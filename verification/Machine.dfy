/**
 The machine at one moment, as a value, and what serving a trap does to it: the whole effect of a
 trap that is served, and the reasons for which one is not.
 */
module Machines {
  import opened Words
  import opened Image
  import opened PageTableEntry
  import opened Tables
  import opened GuestTables
  import opened Paging
  import opened PrivilegeSpec
  import opened TimerSpec
  import opened ShadowRuns
  import opened Faults
  import opened Instructions
  import opened Traps
  import D = Decoder
  import Devices

  /** The guest's privilege state, registers and timer, all tables and guest RAM, and who owns which page. */
  datatype Machine = MachineState(
    t: PrivilegeSpec.Thread, regs: D.Registers, clock: Clock, snap: Snapshot, own: Ownership)

  predicate Shaped(m: Machine) {
    WellFormed(m.snap) && (m.t.shadowActive ==> m.snap.shadowRoot.Some?)
  }

  /** The live pages form the two trees, and the guest's root is the one its `satp` names. */
  ghost predicate Sound(m: Machine) {
    && Shaped(m) && Forest(m.snap.pages, m.own) && RootsOK(m.own, m.snap.shadowRoot)
    && m.snap.ppn == m.t.csr.satpPpn
  }

  function RootOf(active: bool, shadowRoot: Option<nat>): (root: nat)
    requires active ==> shadowRoot.Some?
  {
    if active then shadowRoot.value else ROOT
  }

  /** The table the guest's accesses go through. */
  function Root(m: Machine): (root: nat)
    requires Shaped(m)
    ensures root < PAGES
  {
    RootOf(m.t.shadowActive, m.snap.shadowRoot)
  }

  function CpuOf(m: Machine): (c: Cpu) {
    Cpu(m.regs, m.t.pc, m.clock.guest)
  }

  /** Whether there is, or can be, a shadow root. */
  ghost predicate RootAvailable(m: Machine) {
    m.snap.shadowRoot.Some? || !Exhausted(m.own.Keys)
  }

  /** The guest means `address` to be at `gm`. */
  predicate Means(m: Machine, address: Word, gm: Word)
    requires Shaped(m)
  {
    MeansIn(m.t.shadowActive, m.snap.ram, m.snap.ppn, address, gm)
  }

  /** Where the MMU takes an access of the guest; no result stands for a page fault. */
  function AccessAt(m: Machine, va: Word, access: Access): (address: Option<nat>)
    requires Shaped(m)
  {
    UserAccess(m.snap.pages, Root(m), va, access)
  }

  /** Where the guest may write an address. */
  function WritableAt(m: Machine, va: Word): (address: Option<nat>)
    requires Shaped(m)
  {
    AccessAt(m, va, Write)
  }

  /** The system instruction at the pc; no result stands for a panic. */
  function SystemAt(m: Machine): (s: Option<System>)
    requires Shaped(m)
    ensures s.Some? ==> !s.value.Other? && SystemInRange(s.value)
  {
    if m.t.pc < RAM_START || m.t.pc > RAM_START + VA_LIMIT then None
    else match Fetch(m.snap.pages, Root(m), m.snap.ram, m.t.pc)
         case None => None
         case Some(p) => if DecodeSystem(p).Other? then None else Some(DecodeSystem(p))
  }

  /** The access that faults at the pc; no result stands for a panic. */
  function FaultAt(m: Machine, access: Access): (a: Option<D.MemoryAccess>)
    requires Shaped(m)
    ensures a.Some? ==> InRange(a.value)
  {
    Faulting(m.snap.pages, Root(m), m.snap.ram, m.t.pc, access, m.regs)
  }

  /** After a store of the guest to `va`: the aligned word around it becomes `word`, if user mode may write it. */
  function Stored(m: Machine, va: Word, word: Word): (n: Machine)
    requires Shaped(m)
  {
    match WritableAt(m, va)
    case None => m
    case Some(address) => m.(snap := m.snap.(ram := m.snap.ram[WordFloor(address) := word]))
  }

  /** After the guest has run until its next trap. */
  function Resumed(m: Machine, pc: Word, trapValue: Word, regs: D.Registers): (n: Machine) {
    m.(t := m.t.(pc := pc, trapValue := trapValue), regs := regs)
  }

  // ---------------------------------------------------------------- a trap that is served

  /** What a trap turned out to be. `Quiet` is for moments that are not traps. */
  datatype Effect =
    | Quiet
    | Instruction(s: System)
    | Call
    | TimerTrap
    | Ignored
    | Fault(access: Access, a: D.MemoryAccess, gm: Word)

  /** Access faults are taken for page faults. */
  function CauseAccess(mcause: Word): (a: Option<Access>) {
    if mcause == 12 then Some(Execute)
    else if mcause == 5 || mcause == 13 then Some(Read)
    else if mcause == 7 || mcause == 15 then Some(Write)
    else None
  }

  ghost predicate TablesAfter(s: System, a: Snapshot, b: Snapshot)
    requires WellFormed(a) && WellFormed(b)
  {
    match s
    case SfenceVma => Emptied(a, b)
    case MretInstruction => RootReady(a, b)
    case _ => SameTables(a, b)
  }

  ghost predicate SystemServed(a: Machine, s: System, b: Machine)
    requires Shaped(a) && Shaped(b) && SystemInRange(s)
  {
    && Apply(a.t, SystemEvent(s, a.regs, a.t.csr, RootAvailable(a))) == Some(b.t)
    && b.regs == SystemRegs(s, a.regs, a.t.csr) && b.clock == a.clock
    && TablesAfter(s, a.snap, b.snap)
  }

  /** What a fault in RAM leads to: the access is entered into the tables, and the table in use permits it. */
  ghost predicate PageServed(a: Machine, access: Access, address: Word, gm: Word, b: Machine)
    requires Shaped(a) && Shaped(b)
  {
    && Handled(a.snap, b.snap, a.t.shadowActive, address, gm, access, Success)
    && CpuOf(b) == CpuOf(a) && Permits(b.snap.pages, Root(b), address, access, gm + GUEST_MEMORY_OFFSET)
  }

  /** What a fault at a device leads to: the access is carried out. */
  ghost predicate DeviceServed(
    a: Machine, access: Access, acc: D.MemoryAccess, gm: Word, host: Devices.Host, b: Machine)
    requires InRange(acc)
  {
    && Handled(a.snap, b.snap, a.t.shadowActive, acc.address, gm, access, TooLow)
    && Emulate(access, gm, acc, CpuOf(a), host) == Some(CpuOf(b))
  }

  /** The guest means the access to be to RAM, or to a device, and it is served as such. */
  ghost predicate FaultServed(
    a: Machine, access: Access, acc: D.MemoryAccess, gm: Word, host: Devices.Host, b: Machine)
    requires Shaped(a) && Shaped(b) && InRange(acc)
  {
    && Means(a, acc.address, gm)
    && b.t == a.t.(pc := b.t.pc) && b.clock == a.clock.(guest := b.clock.guest)
    && if gm < RAM_START then DeviceServed(a, access, acc, gm, host, b) else PageServed(a, access, acc.address, gm, b)
  }

  /** The handler proper, between the suspension and the resumption of the guest's clock. */
  ghost predicate Serves(a: Machine, mcause: Word, x: Effect, host: Devices.Host, b: Machine)
    requires Shaped(a) && Shaped(b)
  {
    match x
    case Quiet => false
    case Instruction(s) => mcause == 2 && SystemAt(a) == Some(s) && SystemServed(a, s, b)
    case Call =>
      mcause == 8 && Apply(a.t, Ecall(8)) == Some(b.t)
      && b.regs == a.regs && b.clock == a.clock && SameTables(a.snap, b.snap)
    case TimerTrap =>
      mcause == TIMER_CAUSE && Apply(a.t, EventOf(a, x)) == Some(b.t)
      && b.regs == a.regs && b.clock == Handle(a.clock, TimerInterrupt) && SameTables(a.snap, b.snap)
    case Ignored =>
      mcause >= MCAUSE_ASYNC && mcause != TIMER_CAUSE
      && b.t == a.t && b.regs == a.regs && b.clock == a.clock && SameTables(a.snap, b.snap)
    case Fault(access, acc, gm) =>
      CauseAccess(mcause) == Some(access) && FaultAt(a, access) == Some(acc) && FaultServed(a, access, acc, gm, host, b)
  }

  /** What a trap is for the privilege state. */
  ghost function EventOf(a: Machine, x: Effect): (e: Event) {
    match x
    case Instruction(s) => if SystemInRange(s) then SystemEvent(s, a.regs, a.t.csr, RootAvailable(a)) else Advance(0)
    case Call => Ecall(8)
    case TimerTrap => if a.clock.targeted then Interrupt(TIMER_CAUSE) else Advance(0)
    case Fault(_, acc, gm) => if gm < RAM_START && InRange(acc) then Advance(acc.length) else Advance(0)
    case _ => Advance(0)
  }

  /** What a trap is for the timer. */
  function ActionOf(a: Machine, x: Effect): (t: Action) {
    match x
    case TimerTrap => TimerInterrupt
    case Fault(access, acc, gm) =>
      if gm < RAM_START && InRange(acc) then EmulatedAction(access, gm, acc, a.regs) else Nothing
    case _ => Nothing
  }

  predicate IsFlush(x: Effect) {
    x == Instruction(SfenceVma)
  }

  function Suspended(a: Machine, entered: Word): (m: Machine) {
    a.(clock := a.clock.(guest := Suspend(a.clock.guest, entered)))
  }

  /** One trap from entry to resumption. */
  ghost predicate TrapServed(
    a: Machine, mcause: Word, fromGuest: bool, times: Times, host: Devices.Host, x: Effect, b: Machine)
    requires Shaped(a) && Shaped(b)
  {
    var c := Suspended(a, times.entered);
    && (mcause < MCAUSE_ASYNC ==> fromGuest)
    && Serves(c, mcause, x, host, b.(clock := Handle(c.clock, ActionOf(c, x))))
    && b.clock == Serve(a.clock, Trap(times.entered, times.left, times.rescheduled, ActionOf(c, x)))
  }

  /** Host times on entry, on leaving the handler, and when the next interrupt is chosen. */
  datatype Times = Times(entered: Word, left: Word, rescheduled: Word)

  // ---------------------------------------------------------------- a trap that is not served

  /** Why a fault was not served; `b` is the machine at the moment of the panic. */
  ghost predicate Excused(
    a: Machine, access: Access, acc: D.MemoryAccess, host: Devices.Host, gm: Word, r: Outcome, b: Machine)
    requires Shaped(a) && InRange(acc)
  {
    ExcusedIn(a.t.shadowActive, a.snap.ram, a.snap.ppn, a.snap.pages, Root(a), b.own.Keys,
              access, acc, host, gm, r, CpuOf(a))
  }

  /** Why an exception of the guest leads to a panic. */
  ghost predicate Unserved(a: Machine, mcause: Word, host: Devices.Host, gm: Word, r: Outcome, b: Machine)
    requires Shaped(a)
  {
    if mcause == 2 then
      || SystemAt(a).None?
      || Apply(a.t, SystemEvent(SystemAt(a).value, a.regs, a.t.csr, RootAvailable(a))).None?
    else if mcause == 8 then !a.t.userMode
    else if CauseAccess(mcause).Some? then
      var access := CauseAccess(mcause).value;
      FaultAt(a, access).None? || Excused(a, access, FaultAt(a, access).value, host, gm, r, b)
    else true
  }

  /** Why a trap leads to a panic. No interrupt does. */
  ghost predicate TrapFails(a: Machine, mcause: Word, fromGuest: bool, times: Times, host: Devices.Host,
                            gm: Word, r: Outcome, b: Machine)
    requires Shaped(a)
  {
    mcause < MCAUSE_ASYNC && (!fromGuest || Unserved(Suspended(a, times.entered), mcause, host, gm, r, b))
  }

  lemma CallIsServed(a: Machine, host: Devices.Host, b: Machine, ok: bool)
    requires Shaped(a) && Shaped(b) && (ok <==> Deliver(a.t, 8).Some?)
    requires ok ==> b.t == Deliver(a.t, 8).value && b.regs == a.regs && b.clock == a.clock && SameTables(a.snap, b.snap)
    ensures if ok then Serves(a, 8, Call, host, b) else Unserved(a, 8, host, 0, Panic, b)
  {
  }

  /** What handling a fault did to the tables and to the guest is all that serving it asks for. */
  lemma FaultPossible(a: Machine, access: Access, acc: D.MemoryAccess, gm: Word, host: Devices.Host, b: Machine)
    requires Sound(a) && Shaped(b) && InRange(acc) && Means(a, acc.address, gm)
    requires Handled(a.snap, b.snap, a.t.shadowActive, acc.address, gm, access,
                     if gm < RAM_START then TooLow else Success)
    requires b.t == a.t.(pc := b.t.pc) && b.clock == a.clock.(guest := b.clock.guest)
    requires if gm < RAM_START then Emulate(access, gm, acc, CpuOf(a), host) == Some(CpuOf(b)) else CpuOf(b) == CpuOf(a)
    ensures FaultServed(a, access, acc, gm, host, b)
  {
    if gm < RAM_START {
      assert DeviceServed(a, access, acc, gm, host, b);
    } else {
      PageIsServed(a, access, acc.address, gm, gm + GUEST_MEMORY_OFFSET, b);
    }
  }

  lemma PageIsServed(a: Machine, access: Access, address: Word, gm: Word, hm: Word, b: Machine)
    requires Sound(a) && Shaped(b) && Means(a, address, gm) && hm == gm + GUEST_MEMORY_OFFSET
    requires Handled(a.snap, b.snap, a.t.shadowActive, address, gm, access, Success)
    requires b.t.shadowActive == a.t.shadowActive && CpuOf(b) == CpuOf(a)
    ensures PageServed(a, access, address, gm, b)
  {
    RamFaultPermits(a, access, address, gm, hm, b);
  }

  lemma RamFaultPermits(a: Machine, access: Access, address: Word, gm: Word, hm: Word, b: Machine)
    requires Sound(a) && Shaped(b) && Means(a, address, gm) && hm == gm + GUEST_MEMORY_OFFSET
    requires Handled(a.snap, b.snap, a.t.shadowActive, address, gm, access, Success)
    requires b.t.shadowActive == a.t.shadowActive
    ensures Permits(b.snap.pages, Root(b), address, access, hm)
  {
    HandledFaultReaches(a.snap, a.own, b.snap, a.t.shadowActive, Root(b), address, gm, hm, access);
  }

  /** A fault whose address could not be translated. */
  lemma NotTranslatedIsExcused(a: Machine, access: Access, acc: D.MemoryAccess, host: Devices.Host,
                               gm: Word, r: Outcome, b: Machine)
    requires Shaped(a) && InRange(acc) && a.t.shadowActive && (r.Panic? || r.Wild?)
    requires var found := Resolve(a.snap.ram, a.snap.ppn, acc.address);
             if r.Wild? then found.Wild?
             else found.Refused?
                  || (Exhausted(b.own.Keys)
                      && LacksRegion(a.snap.pages, TablesRead(a.snap.ram, a.snap.ppn, acc.address)))
    ensures Excused(a, access, acc, host, gm, r, b)
  {
  }

  /** A fault that was translated, but led to no change. */
  lemma NotMappedIsExcused(a: Machine, access: Access, acc: D.MemoryAccess, host: Devices.Host,
                           gm: Word, r: Outcome, b: Machine)
    requires Shaped(a) && InRange(acc) && Means(a, acc.address, gm) && !r.Success? && !r.Wild?
    requires r.TooLow? <==> gm < RAM_START
    requires r.TooLow? ==> Emulate(access, gm, acc, CpuOf(a), host).None?
    requires r.Panic? ==>
               Exhausted(b.own.Keys) && Unmapped(a.t.shadowActive, a.snap.pages, Root(a), acc.address, gm)
    requires r.TooHigh? ==> gm >= VA_LIMIT || (a.t.shadowActive && acc.address >= VA_LIMIT)
    requires r.NotChanged? ==>
               InRam(gm) && Permits(a.snap.pages, Root(a), acc.address, access, gm + GUEST_MEMORY_OFFSET)
    ensures Excused(a, access, acc, host, gm, r, b)
  {
  }

  /** Walking the guest's tables first does not change what serving a fault does to the tables. */
  lemma HandledBefore(a: Machine, m: Machine, address: Word, gm: Word, access: Access, r: Outcome, b: Snapshot)
    requires Shaped(a) && Shaped(m) && RootsOK(a.own, a.snap.shadowRoot)
    requires m == a.(snap := a.snap.(pages := m.snap.pages), own := m.own)
    requires if a.t.shadowActive then OnlyFills(a.snap.pages, m.snap.pages, a.own) else m.snap.pages == a.snap.pages
    requires Handled(m.snap, b, a.t.shadowActive, address, gm, access, r)
    ensures Handled(a.snap, b, a.t.shadowActive, address, gm, access, r)
  {
    if a.t.shadowActive {
      ThenHandled(a.snap, a.own, m.snap.pages, b, address, gm, access, r);
    }
  }

  /** Nor does it change why a fault is not served. */
  lemma ExcusedBefore(a: Machine, m: Machine, access: Access, acc: D.MemoryAccess, host: Devices.Host,
                      gm: Word, r: Outcome, b: Machine)
    requires Shaped(a) && Shaped(m) && RootsOK(a.own, a.snap.shadowRoot) && InRange(acc)
    requires m == a.(snap := a.snap.(pages := m.snap.pages), own := m.own)
    requires if a.t.shadowActive then OnlyFills(a.snap.pages, m.snap.pages, a.own) else m.snap.pages == a.snap.pages
    requires Excused(m, access, acc, host, gm, r, b)
    ensures Excused(a, access, acc, host, gm, r, b)
  {
    if a.t.shadowActive {
      ThenExcused(a.snap.ram, a.snap.ppn, a.snap.pages, m.snap.pages, a.own, Root(a), b.own.Keys,
                  access, acc, host, gm, r, CpuOf(a));
    }
  }

  lemma FaultIsServed(a: Machine, mcause: Word, access: Access, gm: Word, host: Devices.Host, b: Machine)
    requires Shaped(a) && Shaped(b) && CauseAccess(mcause) == Some(access) && FaultAt(a, access).Some?
    requires FaultServed(a, access, FaultAt(a, access).value, gm, host, b)
    ensures Serves(a, mcause, Fault(access, FaultAt(a, access).value, gm), host, b)
  {
  }

  lemma FaultIsUnserved(a: Machine, mcause: Word, access: Access, host: Devices.Host, gm: Word, r: Outcome, b: Machine)
    requires Shaped(a) && CauseAccess(mcause) == Some(access)
    requires FaultAt(a, access).Some? ==> Excused(a, access, FaultAt(a, access).value, host, gm, r, b)
    ensures Unserved(a, mcause, host, gm, r, b)
  {
  }

  // ---------------------------------------------------------------- what follows for each of the parts

  lemma ServedEvent(a: Machine, mcause: Word, x: Effect, host: Devices.Host, b: Machine)
    requires Shaped(a) && Shaped(b) && Serves(a, mcause, x, host, b)
    ensures Apply(a.t, EventOf(a, x)) == Some(b.t) && Caused(mcause, EventOf(a, x))
    ensures OneRegister(a.regs, b.regs)
  {
    SetRegIsOne(a.regs, 0, 0);
    StaysPut(a.t);
    match x
    case Instruction(s) => SystemIsLocal(s, a.regs, a.t.csr, RootAvailable(a));
    case Fault(access, acc, gm) => FaultIsEvent(a, access, acc, gm, host, b);
    case _ =>
  }

  lemma FaultIsEvent(a: Machine, access: Access, acc: D.MemoryAccess, gm: Word, host: Devices.Host, b: Machine)
    requires Shaped(a) && Shaped(b) && InRange(acc) && FaultServed(a, access, acc, gm, host, b)
    ensures Apply(a.t, EventOf(a, Fault(access, acc, gm))) == Some(b.t)
    ensures b.clock == Handle(a.clock, ActionOf(a, Fault(access, acc, gm)))
    ensures OneRegister(a.regs, b.regs)
  {
    if gm < RAM_START {
      EmulationIsLocal(access, gm, acc, CpuOf(a), host, a.clock);
      EmulationAdvances(a.t, access, gm, acc, CpuOf(a), host);
    } else {
      StaysPut(a.t);
      SetRegIsOne(a.regs, 0, 0);
    }
  }

  lemma ServedAction(a: Machine, mcause: Word, x: Effect, host: Devices.Host, b: Machine)
    requires Shaped(a) && Shaped(b) && Serves(a, mcause, x, host, b)
    ensures b.clock == Handle(a.clock, ActionOf(a, x))
    ensures ActionOf(a, x).TimerInterrupt? && a.clock.targeted <==> EventOf(a, x).Interrupt?
  {
    match x
    case Fault(access, acc, gm) => FaultIsEvent(a, access, acc, gm, host, b);
    case _ =>
  }

  lemma ServedTables(a: Machine, mcause: Word, x: Effect, host: Devices.Host, b: Machine)
    requires Shaped(a) && Shaped(b) && Serves(a, mcause, x, host, b)
    ensures ShadowStep(a.snap, IsFlush(x), b.snap)
    ensures KeepsMachine(a.snap.pages, b.snap.pages) && b.snap.ram == a.snap.ram
  {
    match x
    case Instruction(s) =>
      if s.SfenceVma? {
        EmptiedStep(a.snap, b.snap);
      } else {
        RootReadyStep(a.snap, b.snap);
      }
    case Fault(_, _, _) =>
    case _ => RootReadyStep(a.snap, b.snap);
  }

  /** The handler between suspension and resumption makes a whole trap. */
  lemma TrapIsServed(a: Machine, mcause: Word, fromGuest: bool, times: Times, host: Devices.Host,
                     x: Effect, d: Machine, b: Machine)
    requires Shaped(a) && Shaped(d) && (mcause < MCAUSE_ASYNC ==> fromGuest)
    requires Serves(Suspended(a, times.entered), mcause, x, host, d)
    requires b == d.(clock := Reschedule(d.clock.(guest := Resume(d.clock.guest, times.left)), times.rescheduled))
    ensures TrapServed(a, mcause, fromGuest, times, host, x, b)
  {
    ServedAction(Suspended(a, times.entered), mcause, x, host, d);
  }

  /** One trap, for the privilege state, the timer, the shadow table and the registers. */
  lemma TrapInParts(a: Machine, mcause: Word, fromGuest: bool, times: Times, host: Devices.Host, x: Effect, b: Machine)
    requires Shaped(a) && Shaped(b) && TrapServed(a, mcause, fromGuest, times, host, x, b)
    ensures var c := Suspended(a, times.entered);
            var trap := Trap(times.entered, times.left, times.rescheduled, ActionOf(c, x));
            && Apply(a.t, EventOf(c, x)) == Some(b.t) && Caused(mcause, EventOf(c, x))
            && b.clock == Serve(a.clock, trap) && (Defers(a.clock, trap) <==> EventOf(c, x).Interrupt?)
    ensures ShadowStep(a.snap, IsFlush(x), b.snap)
    ensures KeepsMachine(a.snap.pages, b.snap.pages) && b.snap.ram == a.snap.ram
    ensures OneRegister(a.regs, b.regs)
  {
    var c := Suspended(a, times.entered);
    var d := b.(clock := Handle(c.clock, ActionOf(c, x)));
    ServedEvent(c, mcause, x, host, d);
    ServedAction(c, mcause, x, host, d);
    ServedTables(c, mcause, x, host, d);
  }

  // ---------------------------------------------------------------- served or not, and only once

  lemma RamFaultAdds(a: Machine, access: Access, address: Word, gm: Word, hm: Word, b: Snapshot)
    requires Sound(a) && Means(a, address, gm) && hm == gm + GUEST_MEMORY_OFFSET
    requires Handled(a.snap, b, a.t.shadowActive, address, gm, access, Success)
    ensures !Permits(a.snap.pages, Root(a), address, access, hm)
  {
    NotPermittedBefore(a.snap, a.own, b, a.t.shadowActive, Root(a), address, gm, hm, access);
  }

  lemma FaultOrExcuse(a: Machine, access: Access, acc: D.MemoryAccess, host: Devices.Host, gm: Word, b: Machine,
                      gm': Word, r: Outcome, c: Machine)
    requires Sound(a) && Shaped(b) && InRange(acc)
    requires FaultServed(a, access, acc, gm, host, b) && Excused(a, access, acc, host, gm', r, c)
    ensures r.Panic? && Exhausted(c.own.Keys)
  {
    if gm < RAM_START {
      EmulatedOrExcuse(a.t.shadowActive, a.snap.ram, a.snap.ppn, a.snap.pages, Root(a), c.own.Keys,
                       access, acc, host, gm, gm', r, CpuOf(a));
    } else {
      HandledOrExcuse(a.snap, a.own, b.snap, a.t.shadowActive, Root(a), c.own.Keys,
                      access, acc, host, gm, gm', r, CpuOf(a));
    }
  }

  /**
   What a trap leads to is settled by the machine that it meets: a trap that can be served fails only
   when the pool turns out to be exhausted.
   */
  lemma ServedOrStopped(a: Machine, mcause: Word, fromGuest: bool, times: Times, host: Devices.Host,
                        x: Effect, b: Machine, gm: Word, r: Outcome, c: Machine)
    requires Sound(a) && Shaped(b)
    requires TrapServed(a, mcause, fromGuest, times, host, x, b)
    requires TrapFails(a, mcause, fromGuest, times, host, gm, r, c)
    ensures x.Fault? && r.Panic? && Exhausted(c.own.Keys)
  {
    var s := Suspended(a, times.entered);
    ServedOrUnserved(s, mcause, host, x, b.(clock := Handle(s.clock, ActionOf(s, x))), gm, r, c);
  }

  lemma ServedOrUnserved(a: Machine, mcause: Word, host: Devices.Host, x: Effect, b: Machine,
                         gm: Word, r: Outcome, c: Machine)
    requires Sound(a) && Shaped(b) && mcause < MCAUSE_ASYNC
    requires Serves(a, mcause, x, host, b) && Unserved(a, mcause, host, gm, r, c)
    ensures x.Fault? && r.Panic? && Exhausted(c.own.Keys)
  {
    match x
    case Fault(access, acc, gm0) =>
      ExcuseOfFault(a, mcause, access, acc, host, gm, r, c);
      FaultOrExcuse(a, access, acc, host, gm0, b, gm, r, c);
    case _ =>
  }

  lemma ExcuseOfFault(a: Machine, mcause: Word, access: Access, acc: D.MemoryAccess, host: Devices.Host,
                      gm: Word, r: Outcome, b: Machine)
    requires Shaped(a) && Unserved(a, mcause, host, gm, r, b)
    requires CauseAccess(mcause) == Some(access) && FaultAt(a, access) == Some(acc)
    ensures Excused(a, access, acc, host, gm, r, b)
  {
  }

  /** After a fault in RAM has been served, the MMU lets the access through exactly if its address is canonical. */
  lemma ServedGoesThrough(a: Machine, access: Access, acc: D.MemoryAccess, gm: Word, host: Devices.Host, b: Machine)
    requires Shaped(a) && Shaped(b) && InRange(acc)
    requires FaultServed(a, access, acc, gm, host, b) && gm >= RAM_START
    ensures AccessAt(b, acc.address, access) == Some(gm + GUEST_MEMORY_OFFSET) <==> Canonical(acc.address)
    ensures AccessAt(b, acc.address, access) == None <==> !Canonical(acc.address)
  {
  }

  /** The guest is about to make the same access, with the tables that a fault left behind. */
  predicate SameAccess(b: Machine, d: Machine) {
    d.snap == b.snap && d.t.shadowActive == b.t.shadowActive
  }

  /** With the tables that a fault in RAM left behind, the same access is never served again. */
  lemma NotServedTwice(a: Machine, access: Access, acc: D.MemoryAccess, gm: Word, host: Devices.Host, b: Machine,
                       d: Machine, gm': Word, host': Devices.Host, c: Machine)
    requires Shaped(a) && Shaped(b) && Sound(d) && Shaped(c) && InRange(acc) && SameAccess(b, d)
    requires FaultServed(a, access, acc, gm, host, b) && gm >= RAM_START
    ensures !FaultServed(d, access, acc, gm', host', c)
  {
    if FaultServed(d, access, acc, gm', host', c) {
      RamFaultAdds(d, access, acc.address, gm', gm' + GUEST_MEMORY_OFFSET, c.snap);
    }
  }

  lemma TrapNotServedTwice(a: Machine, mcause: Word, fromGuest: bool, times: Times, host: Devices.Host,
                           x: Effect, b: Machine, mcause': Word, fromGuest': bool, times': Times,
                           host': Devices.Host, y: Effect, c: Machine)
    requires Shaped(a) && Sound(b) && Shaped(c) && x.Fault? && x.gm >= RAM_START
    requires TrapServed(a, mcause, fromGuest, times, host, x, b)
    requires TrapServed(b, mcause', fromGuest', times', host', y, c)
    ensures y.Fault? ==> y.access != x.access || y.a != x.a
  {
    var a1, b1 := Suspended(a, times.entered), Suspended(b, times'.entered);
    var b0, c0 := b.(clock := Handle(a1.clock, ActionOf(a1, x))), c.(clock := Handle(b1.clock, ActionOf(b1, y)));
    if y.Fault? && y.access == x.access && y.a == x.a {
      NotServedTwice(a1, x.access, x.a, x.gm, host, b0, b1, y.gm, host', c0);
    }
  }

  /** The guest fetches from such an address on the machine table: the MMU raises the fault again. */
  lemma NonCanonicalFetch(a: Machine, fromGuest: bool, times: Times, host: Devices.Host, x: Effect, b: Machine)
    requires Shaped(a) && Shaped(b) && InRam(a.t.pc) && !Canonical(a.t.pc) && !a.t.shadowActive
    requires TrapServed(a, 12, fromGuest, times, host, x, b)
    ensures x == Fault(Execute, D.MemoryAccess(a.t.pc, 4, 0, 4, false), a.t.pc)
    ensures b.t.pc == a.t.pc && !b.t.shadowActive && AccessAt(b, a.t.pc, Execute) == None
  {
  }

  lemma NonCanonicalFetchTwice(
    a: Machine, fromGuest: bool, times: Times, host: Devices.Host, x: Effect,
    b: Machine, fromGuest': bool, times': Times, host': Devices.Host, y: Effect, c: Machine)
    requires Shaped(a) && Sound(b) && Shaped(c) && InRam(a.t.pc) && !Canonical(a.t.pc) && !a.t.shadowActive
    requires TrapServed(a, 12, fromGuest, times, host, x, b)
    ensures !TrapServed(b, 12, fromGuest', times', host', y, c)
  {
    NonCanonicalFetch(a, fromGuest, times, host, x, b);
    if TrapServed(b, 12, fromGuest', times', host', y, c) {
      NonCanonicalFetch(b, fromGuest', times', host', y, c);
      TrapNotServedTwice(a, 12, fromGuest, times, host, x, b, 12, fromGuest', times', host', y, c);
    }
  }

  /**
   An access to RAM at an address that is not canonical is mapped when it faults, faults again, and
   is then refused.
   */
  lemma NonCanonicalFaultsAgain(a: Machine, access: Access, acc: D.MemoryAccess, gm: Word, host: Devices.Host,
                                b: Machine, d: Machine, host': Devices.Host, c: Machine)
    requires Shaped(a) && Shaped(b) && Shaped(d) && InRange(acc) && SameAccess(b, d)
    requires FaultServed(a, access, acc, gm, host, b) && gm >= RAM_START && !Canonical(acc.address)
    ensures AccessAt(d, acc.address, access) == None
    ensures Excused(d, access, acc, host', gm, NotChanged, c)
  {
  }

  /** A fault that the MMU raises at a canonical address is never answered by nothing having to be changed. */
  lemma RealFaultIsChanged(a: Machine, mcause: Word, times: Times, host: Devices.Host, gm: Word, r: Outcome, b: Machine)
    requires Shaped(a) && CauseAccess(mcause).Some? && FaultAt(a, CauseAccess(mcause).value).Some?
    requires TrapFails(a, mcause, true, times, host, gm, r, b)
    requires var acc := FaultAt(a, CauseAccess(mcause).value).value;
             Canonical(acc.address) && AccessAt(a, acc.address, CauseAccess(mcause).value) == None
    ensures r != NotChanged
  {
  }
}
