# A model of the RISC-V hypervisor, with proofs

This Dafny project models the machine-mode hypervisor in `src/` and proves what its parts promise
each other: two-stage address translation over a page pool, the guest's privilege state, the
virtual timer, device emulation, and the trap handler that drives them. `dafny verify
dfyconfig.toml` checks everything.

## How the model is built

Code that updates memory is modelled by classes whose methods do the same updates; what the updates
mean is stated with functions over snapshots of that memory, and the theorems are lemmas about those
functions.

| file | what it models |
|---|---|
| `Words.dfy` | 64-bit words; where the linked image, the machine root table, the page pool and guest RAM lie |
| `PageTableEntry.dfy` | packing and unpacking of entries (`src/vmem.h`) |
| `Tables.dfy` | table pages, walks, and the ownership of live pages as a forest |
| `GuestTables.dfy` | the guest's own tables: the walk in software, and Sv39 as the reference |
| `Allocator.dfy`, `PagePool.dfy`, `PoolHarts.dfy` | the page allocator: as a sequential object, in memory, and on any number of harts |
| `Paging.dfy` | machine table, shadow table, fences and teardown (`src/vmem.c`) |
| `GuestSlice.dfy` | the iterator over guest memory |
| `ShadowRuns.dfy`, `Faults.dfy` | the shadow table as a cache over whole runs; why faults get the guest further |
| `Decoder.dfy`, `Devices.dfy`, `Instructions.dfy` | instruction fetch, decoding, and device emulation |
| `PrivilegeSpec.dfy`, `TimerSpec.dfy`, `Timer.dfy` | the guest's privilege state and its timer |
| `Traps.dfy`, `Machine.dfy`, `Hypervisor.dfy` | what a trap asks for, its whole effect on the machine as a value, and the handler that has this effect |
| `Effects.dfy` | the effect of each encoded instruction, exception and interrupt on registers, CSRs, pc and tables |
| `Runs.dfy`, `Reached.dfy`, `GuestView.dfy` | runs of guest and hypervisor together, recorded state by state; what holds in every state that is reached, and what the guest sees |
| `StackTrace.dfy` | the cycle-detecting walk in `panic` |

Hypervisor memory is an array of 16385 pages of 512 words: page 0 is the machine root table, the
others are the pool. A ghost map says which pages are live, at which level of which tree, and below
which entry. Guest RAM is a separate memory that the guest writes as it pleases; a store of the guest
goes to whichever of the two its translation leads to, and that it never leads to the first is a
theorem, not an assumption. The hart's translation cache is a ghost map that may hold any
translation of the table in use, successful or not, and that only a fence empties.

`panic()` ends a run: methods report it as `false`, `None` or `Panic`. Two more ways to leave the
source's defined behaviour also end a run: a guest table outside the handled range, after which the
source goes on through a pointer that was never set (`Wild`), and `mret` with an exhausted pool, after
which it goes on with a NULL shadow table.

Host registers (`mepc`, `mtval`, `satp`), the time, and what the UART would answer are fields or
parameters. The image may be linked anywhere at or above 0x80000000 as long as its tables end below
0x85000000; nothing else is known about `LAYOUT`.

Where comments or documentation and code differ, the model follows the code: the software walk stops
before it reads a third-level guest entry (`src/vmem.c:378`; the walk of the hypervisor's own tables
uses `component_offset + 9` at `src/vmem.c:754`), the C.LWSP decoder does not report a signed load
(`src/vmem.c:151-157`), and WFI leaves the pc where it is (`src/exchandlers.c:99-105`).

## Properties that do not hold as hoped

Each has a concrete input and the exact condition under which it does hold.

- The software walk agrees with Sv39 (`GuestTables.SoftwareWalkIsSv39`) for canonical addresses,
  regular entries and pages of 1 GiB and 2 MiB. A 4 KiB page is refused
  (`GuestTables.SmallPageIsRefused`); a misaligned leaf and a non-canonical address are translated
  where the MMU faults (`GuestTables.MisalignedLeafIsTaken`, `GuestTables.BitsAboveAreIgnored`).
- An emulated load extends its value as the ISA asks (`Decoder.LoadedValueIsIsa`), except C.LWSP of a
  word with its top bit set (`Decoder.StackLoadLosesSign`).
- A fault in RAM that has been served lets the access through exactly if its address is canonical
  (`Machines.ServedGoesThrough`). The addresses from 2^38 up to 2^39 are mapped as well, but the MMU
  still refuses them (`Faults.UpperHalfStillFaults`): the second fault finds nothing to change, and the
  run ends (`Machines.NonCanonicalFaultsAgain`, `Reached.NonCanonicalFetchStops`). At canonical
  addresses no fault of the MMU ends that way (`Machines.RealFaultIsChanged`).
- A deferred timer exception is not early exactly if deadline plus adjustment stays below 2^64 or the
  adjustment exceeds the host's time (`TimerSpec.DeferralIsNotEarly`, `TimerSpec.EarlyDeferral`).
- Nothing comes before the next host deadline exactly if all times lie in some window shorter than
  2^63 (`TimerSpec.PickIsMinimumIffWindow`, `TimerSpec.WindowIsNeeded`).
- CSRRS reads its source register after its destination has been written. It writes what the ISA asks
  for exactly if the registers differ or the register asks for no bit that the CSR lacks
  (`Traps.SetBitsIsIsaIff`, `Traps.SetBitsLosesOperand`).

## Model

| member | source | states |
|---|---|---|
| Runs.Drive | src/hypervisor.c:52-75 | for any script of guest stores, cached translations, guest execution and traps, from any valid state: the log begins in that state, records after each input the state that this input leads to, and ends in the state reached; a run that stops does so at a trap that fails for a stated reason, or at the end of the script |
| Runs.Run | src/hypervisor.c:14-75 | the same from boot, with any contents of pool and guest RAM |
| Runs.Advance | src/hypervisor.c:52-75 | one input makes exactly the step that it should, or fails with a reason |
| Runs.Boot | src/hypervisor.c:14-50 | the machine before its first guest instruction is valid and has the given pool, RAM and registers |
| Reached.ShadowOfRun | src/vmem.c:404-447 | in every state of a run, each shadow mapping is what the guest's own tables, as they were in RAM at a recorded moment since the last flush, said of the page |
| Reached.ShadowRefinesGuestInRun | src/vmem.c:404-447 | while the guest's translation of a page has not changed since the last flush, the shadow table maps the page exactly there, or not at all |
| Reached.UserFaultsAreBounded | src/vmem.c:502-547 | over any stretch of a run without a flush, while the guest's translations stay the same, at most 3 * 2^27 RAM faults are served in user mode |
| Reached.MachineFaultsAreBounded | src/vmem.c:502-507 | over any run at most 2^18 RAM faults are served on the machine table |
| Reached.MachineOfRun | src/vmem.c:553-615 | over any run, no machine translation is ever unmapped or moved |
| Reached.StateOfRun | src/guestprivilege.c:7-84 | in every state of a run: satp names the shadow root exactly while it is active, which implies user mode; accepted exceptions are delivered once or pending, and are no more than the stores to mtimecmp; the adjustment is the time that the script's traps spent in the hypervisor |
| Reached.RunInParts | src/hypervisor.c:52-75 | a run of the machine is a run of the privilege state and one of the timer, and every accepted exception goes back to a deferral of the timer |
| Reached.FaultAdds | src/vmem.c:502-547 | a served RAM fault of a run adds to the permitted accesses, or maps a further region |
| Reached.NeverServedTwice | src/vmem.c:502-547 | in no run do two traps in a row serve the same access to RAM |
| Reached.NonCanonicalFetchStops | src/exchandlers.c:167-189 | in every run, a guest that jumps to a non-canonical address of RAM on the machine table is served once, faults again, and stops the run |
| Reached.LeavesOfRun | src/vmem.c:553-615 | in every state of a run, each leaf of either root maps memory at or above 0x85000000 |
| Reached.GuestIsConfined | src/vmem.h:42-44 | in no state of a run does the MMU let the guest at a page of the hypervisor, whatever the guest does |
| Reached.DeferralOfRun | src/timer.c:26-31 | in every run, a timer exception is deferred no earlier than the guest asked for, exactly if the due time did not wrap around or the adjustment exceeds the host's time |
| GuestView.DeadlineOfRun | src/virtmmdev.c:86-96 | in every state of a run, the guest's deadline is what it last stored to 0x02004000, and zero before |
| GuestView.ClockOfRun | src/timer.c:84-98 | in every state of a run, the guest's clock lags behind by the time that the traps of the script spent in the hypervisor, with 50 cycles for each |
| GuestView.LoadOfClint | src/virtmmdev.c:13-33 | in every run, an encoded load that traps is served as that load; eight bytes from 0x02004000 are what the guest last stored there, and from 0x0200BFF8 the host's time without the hidden time |
| GuestView.TimerOfRun | src/timer.c:52-66 | after every trap of a run the host's timer is set to the time at which the guest's clock reads its deadline, for the guest, if that comes before the quantum of 20000 ticks in some window shorter than 2^63, and to the quantum otherwise |
| GuestView.MretOfRun | src/guestprivilege.c:7-36 | in every run, an mret with nothing due leads to user mode at the guest's mepc, with MDT clear and all else as before, on the shadow table exactly if satp has mode 8 |
| GuestView.UserModeIsShadowed | src/guestprivilege.c:22-28 | in every state of a run, the host translates with the shadow table exactly while the guest is in user mode with paging on |
| Machines.TrapInParts | src/hypervisor.c:52-75 | a served trap is one event of the privilege state, one trap of the timer and one step of the shadow cache, and changes one register at most |
| Machines.ServedOrStopped | src/exchandlers.c:38-237 | whatever its cause, a trap that can be served fails only as a page fault for which the pool turns out to be exhausted |
| Machines.ServedTables | src/exchandlers.c:38-237 | only SFENCE.VMA flushes, nothing takes back a machine translation, and guest RAM is not touched |
| Machines.FaultPossible | src/vmem.c:502-547 | handling a fault in RAM makes the table in use permit the access at the guest's address plus the offset, so that the MMU lets it through exactly if its address is canonical; handling one at a device carries it out |
| Machines.ServedGoesThrough | src/vmem.c:502-547 | after a served fault in RAM the access goes through exactly if its address is canonical, and otherwise faults again |
| Machines.NotServedTwice | src/vmem.c:502-547 | with the tables that a served RAM fault left behind, nothing serves the same access again |
| Machines.NonCanonicalFaultsAgain | src/vmem.c:412-417 | an access to RAM at a non-canonical address faults again after it was served, and is then refused as NOT_CHANGED |
| Machines.RealFaultIsChanged | src/exchandlers.c:167-233 | a fault that the MMU raises at a canonical address never ends in NOT_CHANGED |
| Effects.FaultOfEncoded | src/vmem.c:452-490 | for every encoded load or store at the pc: a load fault is the access of a load and fails for a store, a store fault is the access of a store and fails for a load |
| Effects.MemoryTrap | src/exchandlers.c:190-233 | from an encoded instruction to the served access: loads are served for causes 5 and 13 and stores for 7 and 15, with the address, width and register of the ISA; in RAM the access goes through if its address is canonical, at a device the register, the pc or the deadline is what it should be |
| Effects.MemoryTrapStops | src/exchandlers.c:190-233 | an encoded load or store that is not served has an excuse other than its decoding; a device is refused only if it has no such register of that width |
| Effects.FetchTrap | src/exchandlers.c:167-189 | a served fetch fault is in RAM, at the pc |
| Effects.CsrReadWriteTrap | src/exchandlers.c:109-124 | every encoded CSRRW: the source register is in the CSR under its mask, no other CSR has changed, the old value is in the destination, the pc has moved on, and what became due is delivered |
| Effects.CsrReadSetTrap | src/exchandlers.c:126-139 | every encoded CSRRS: the CSR has the bits of the source register, unless that is the destination too; otherwise as for CSRRW |
| Effects.FenceTrap | src/exchandlers.c:86-91 | every encoded SFENCE.VMA empties the shadow table, moves the pc by 4 and changes nothing else |
| Effects.WfiTrap | src/exchandlers.c:99-105 | WFI changes nothing |
| Effects.MretTrap | src/exchandlers.c:93-98 | MRET comes from GM, returns as mret should, and delivers what is due |
| Effects.SystemTrapStops | src/exchandlers.c:43-163 | a system instruction is refused only for a CSR that does not exist, bits of mie that are not known, an unsupported mode of satp, an exhausted pool, or mret in user mode |
| Effects.EcallTrap | src/exchandlers.c:162-165 | an ecall enters the guest's handler from user mode, with cause 8 |
| Effects.TimerTrapEffect | src/timer.c:68-82 | the timer interrupt unschedules the guest's timer and leaves one exception pending or delivered |
| Effects.OtherInterrupts | src/exchandlers.c:14-28 | other interrupts change nothing |
| Effects.OtherExceptions | src/exchandlers.c:230-235 | no other exception is served |
| Effects.TimerIsKept | src/virtmmdev.c:86-96 | only a store to the deadline and the timer interrupt change what the guest's timer is set to |
| Hypervisor.GuestThread.Trap | src/hypervisor.c:52-75 | a trap from entry to resumption has its whole effect: the exact privilege state, registers, timer and tables for the instruction, ecall, interrupt or fault that it is; or it is a panic for a reason that holds, which it never is for an interrupt |
| Hypervisor.GuestThread.EnterTrap | src/hypervisor.c:57 | only the guest's clock is suspended |
| Hypervisor.GuestThread.LeaveTrap | src/hypervisor.c:69-70 | resume before reschedule, with the target that results, and nothing else |
| Hypervisor.GuestThread.Dispatch | src/hypervisor.c:58-68 | the effect of the handler proper; a trap from machine mode is a panic |
| Hypervisor.GuestThread.HandleInterrupt | src/exchandlers.c:14-28 | the timer interrupt defers an exception if the timer was set for this thread; other interrupts change nothing |
| Hypervisor.GuestThread.HandleGuestException | src/exchandlers.c:38-237 | each exception has its whole effect on the machine, or leads to a panic for a stated reason |
| Hypervisor.GuestThread.FaultTrap | src/exchandlers.c:167-233 | a fault is served as a whole, or there is an excuse |
| Hypervisor.GuestThread.HandlePageFault | src/vmem.c:449-551 | success in RAM means that the table in use now permits the access of the faulting instruction, at the guest's own address plus the offset, which the MMU lets through exactly if the address is canonical; success below RAM means that the access was emulated; otherwise there is a stated excuse |
| Hypervisor.GuestThread.ServeAccess | src/vmem.c:492-551 | the same for a known access, as a change of the whole machine |
| Hypervisor.GuestThread.ExecuteSystem | src/exchandlers.c:77-142 | event, registers and tables after SFENCE.VMA, MRET, WFI, CSRRW and CSRRS |
| Hypervisor.GuestThread.ExecuteCsr | src/exchandlers.c:109-139 | state and registers after CSRRW and CSRRS, with all tables as they were |
| Hypervisor.GuestThread.SetBitsOfCsr | src/exchandlers.c:126-139 | CSRRS, with rd written before rs1 is read |
| Hypervisor.GuestThread.TakeOperand | src/exchandlers.c:130-135 | what CSRRS writes to the CSR and to rd |
| Hypervisor.GuestThread.FenceVma | src/exchandlers.c:86-91 | the shadow table is empty, the machine table as before, and the pc moves on |
| Hypervisor.GuestThread.Flush | src/vmem.c:663-673 | no shadow mapping survives |
| Hypervisor.GuestThread.Mret | src/guestprivilege.c:7-36 | the privilege state after mret, with what was due delivered (`PrivilegeSpec.MretReturns`); all tables are as before, except that an empty shadow table may have appeared |
| Hypervisor.GuestThread.ReturnToUser | src/guestprivilege.c:11-34 | mret up to its check: which table the host uses afterwards (`PrivilegeSpec.ReturnTurnsPagingOn`) |
| Hypervisor.GuestThread.GuestStore | src/vmem.c:410-444 | a store of the guest succeeds exactly where user mode may write, changes one word of guest RAM, and leaves the rest of the machine and every page of the hypervisor as it is |
| Hypervisor.GuestThread.TranslateStore | src/vmem.c:594-615 | a non-canonical address is refused, no cached translation says anything else than the table in use, and none leads below guest RAM |
| Hypervisor.GuestThread.RunUntilTrap | src/hypervisor.c:52-75 | between traps the guest changes its pc, its registers and the trap value, and no table |
| Hypervisor.GuestThread.TimerInterrupt | src/timer.c:68-82 | with a target, the guest's timer is unscheduled and an exception deferred; the call for another thread cannot happen |
| Hypervisor.GuestThread.IllegalInstruction | src/exchandlers.c:43-163 | fetch, range check and dispatch; succeeds exactly for a system instruction that does not panic |
| Hypervisor.GuestThread.WriteCsr | src/exchandlers.c:109-124 | CSRRW: old value to rd, operand to the CSR, pc past the instruction, then the deferred check |
| Hypervisor.GuestThread.SetVirtualCsr | src/virtcsr.c:91-164 | the write that each CSR number stands for, or a panic; what is read afterwards follows from `PrivilegeSpec.ReadsBack` and `PrivilegeSpec.WriteIsLocal` |
| Hypervisor.GuestThread.ServeFault | src/vmem.c:492-551 | translation, mapping and emulation composed, from the tables before the fault |
| Hypervisor.GuestThread.MapOrEmulate | src/vmem.c:502-551 | a device access is served exactly if it is supported, and then does what emulation says |
| Hypervisor.GuestThread.MapFault | src/vmem.c:502-547 | a RAM fault enters exactly one page into the shadow table, or one region into the machine table; NOT_CHANGED only if the table in use permitted the access already, so that only a non-canonical address can have faulted; a panic only if something was not mapped and the pool is exhausted |
| Hypervisor.GuestThread.Translate | src/vmem.c:492-500 | the guest-machine address that the guest means; a panic only when its tables refuse, or when one of them is not mapped and the pool is exhausted |
| Hypervisor.GuestThread.EmulateDevice | src/vmem.c:517-540 | the registers, pc and timer that the emulated access leaves behind, which are those of the device at the address (`Instructions.DeviceLoads`, `Instructions.DeviceStores`); nothing changes if it is not supported |
| Hypervisor.GuestThread.LoadRegister | src/vmem.c:325-343 | what is left of the old register value is nothing |
| Hypervisor.GuestThread.FaultingAccess | src/vmem.c:452-490 | the access that the instruction at the pc makes, or a panic; for every encoded load and store it is the one that the ISA describes (`Effects.FaultOfEncoded`) |
| Hypervisor.GuestThread.FetchInstruction | src/vmem.c:459-482 | the instruction is read through the table the guest runs on, or refused when it crosses a page |
| Hypervisor.GuestThread.Exception | src/guestprivilege.c:38-57 | the guest's handler is entered on the machine table, from user mode only |
| Hypervisor.GuestThread.DeferException | src/guestprivilege.c:59-69 | one exception can be pending; it is delivered at once if enabled |
| Hypervisor.GuestThread.CheckDeferred | src/guestprivilege.c:71-84 | a pending exception is delivered exactly if MIE is set and MDT is clear |
| Hypervisor.GuestThread.Boot | src/contexts.c:3-5 | the first guest is entered with MDT set, in GM, on the machine table |
| ShadowRuns.ShadowRefinesGuest | src/vmem.c:404-447 | while the guest's translation of a page is unchanged since the last flush, the shadow table maps the page exactly there plus the offset, or not at all |
| ShadowRuns.ShadowIsExplained | src/vmem.c:404-447 | every shadow mapping is the guest's translation at some moment since the last flush |
| ShadowRuns.RightIsKept | src/vmem.c:436-446 | while the guest's translations stay the same, only a flush takes back what the shadow table rightly permits |
| ShadowRuns.RegionsAreKept | src/vmem.c:594-611 | a step that keeps the machine's translations unmaps no region |
| Faults.HandledFaultReaches | src/vmem.c:502-547 | after success for a RAM address, the active table permits the access, and the MMU lets it through exactly if the address is canonical |
| Faults.ShadowFaultMakesProgress | src/vmem.c:502-547 | each served RAM fault in user mode adds to what the shadow table rightly permits, whatever it held before |
| Faults.AddedPageIsRight | src/vmem.c:436-446 | the page that is entered was not rightly mapped for the access, and is now |
| Faults.MachineFaultMakesProgress | src/vmem.c:502-507 | each served RAM fault on the machine table maps a further region |
| Faults.RootReadyStep | src/guestprivilege.c:22-28 | a new empty root is a step of the cache |
| Faults.EmptiedStep | src/vmem.c:663-673 | emptying the shadow table is a flush |
| Faults.ShadowHandled | src/vmem.c:502-547 | filling the machine table and then the shadow table is one step of the cache |
| Faults.ThenHandled | src/vmem.c:494-506 | walking the guest's tables first does not change what serving the fault does |
| Faults.RegionIsMappedTogether | src/vmem.c:562-611 | pages of one 2 MiB region are mapped together |
| Faults.GrantReaches | src/vmem.c:440-442 | a page that is mapped right would have faulted only at a non-canonical address |
| Faults.UpperHalfStillFaults | src/vmem.c:553-611 | 2^38 mapped on the machine table as the code maps it: permitted, and still a fault of the MMU |
| Faults.NotPermittedBefore | src/vmem.c:502-547 | a RAM fault that is served was not permitted before |
| Faults.SameOffset | src/vmem.c:406-409 | guest and host addresses agree modulo 4096, so the mismatch panic is unreachable |
| Paging.AddressSpaces.EnsureGuestMachineMapped | src/vmem.c:553-615 | the four results, exactly; the address is gm + 0x5000000; one region is added and nothing moves; a fence follows |
| Paging.AddressSpaces.EnsureRegion | src/vmem.c:590-614 | the second level: a mapped region is left alone, another one is mapped as a whole |
| Paging.AddressSpaces.TryResolve | src/vmem.c:352-401 | the software walk of the guest's tables, which never touches guest memory or what was mapped; a panic only if one of the guest's tables that it reads is not mapped and the pool is exhausted |
| Paging.AddressSpaces.ReadGuestEntry | src/vmem.c:382-397 | the guest's entry is read through a mapping made on demand |
| Paging.AddressSpaces.UpdateShadow | src/vmem.c:404-447 | a point update: the page gets the host page and the permission, every other walk is unchanged; NOT_CHANGED exactly if it was granted already |
| Paging.AddressSpaces.Descend | src/vmem.c:421-435 | the third-level table on the path of the address; hanging tables changes no walk |
| Paging.AddressSpaces.DescendOnce | src/vmem.c:421-435 | one level of the descent |
| Paging.KeepsMachineTransitively | src/vmem.c:594-611 | keeping the machine's translations composes |
| Paging.AddressSpaces.StoreLeaf | src/vmem.c:436-446 | a stale leaf is replaced, a matching one extended |
| Paging.AddressSpaces.ChildTable | src/vmem.c:422-434 | a missing table is allocated, linked and maps nothing |
| Paging.AddressSpaces.HangTable | src/vmem.c:423-432 | allocation fails exactly when the pool is exhausted, and then nothing changed |
| Paging.AddressSpaces.FillRegion | src/vmem.c:600-610 | the second-level entry maps its whole region |
| Paging.AddressSpaces.AllocateTable | src/vmem.c:617-632 | a page nobody owns, zeroed, whatever was in it |
| Paging.AddressSpaces.ClearTable | src/vmem.c:634-652 | the table is zeroed and everything below it returned; tables of its level or above and the machine's are untouched |
| Paging.AddressSpaces.ClearEntry | src/vmem.c:639-651 | one round of the loop: leaves are dropped, tables are returned with all below |
| Paging.AddressSpaces.DeallocTable | src/vmem.c:654-661 | a detached subtree is returned to the pool as a whole; its height is the termination measure |
| Paging.AddressSpaces.FlushShadow | src/vmem.c:663-673 | the root is zero, every former descendant is free, root and machine tables stay, nothing new is handed out |
| Paging.AddressSpaces.ActivateShadow | src/guestprivilege.c:22-28 | the shadow root is created empty on demand, named by satp and fenced |
| Paging.AddressSpaces.EnsureShadowRoot | src/guestprivilege.c:24-26 | allocation fails exactly when the pool is exhausted |
| Paging.AddressSpaces.ActivateMachine | src/guestprivilege.c:46-50 | satp names the machine root and the cache is empty |
| Paging.AddressSpaces.Boot | src/hypervisor.c:45-48 | an empty machine table, no shadow table |
| Paging.AddressSpaces.HostLoad | src/vmem.c:394-397 | above the image, host loads read guest RAM |
| Paging.AddressSpaces.StoreToRam | src/vmem.c:410-444 | a store to guest RAM changes nothing else |
| Paging.MachineWalk | src/vmem.c:594-615 | every machine leaf maps a 2 MiB region with RWXU to itself plus the offset |
| Paging.ShadowWalk | src/vmem.c:410-444 | every shadow leaf is a 4 KiB page above the image with V, U, R |
| Paging.MapRegion | src/vmem.c:600-610 | writing the second-level entry maps one region and no other, and keeps the forest |
| Paging.StoresLeaf | src/vmem.c:436-445 | writing the third-level entry maps one page and no other, and keeps the forest |
| Paging.Grow | src/vmem.c:423-432 | linking a zeroed page keeps the forest |
| Paging.GrowMapsNothing | src/vmem.c:423-432 | hanging an empty table below an entry leaves every walk as it was, so that no fence is needed yet |
| Paging.NewLeafPerms | src/vmem.c:437-444 | earlier permissions for the same page stay, the new one is there |
| Paging.LeafAfter | src/vmem.c:436-444 | what the code writes is the leaf that the walk should find |
| Paging.StillCoherent | src/vmem.c:445 | as long as walks do not change, a cache without a fence stays honest |
| Paging.Flushed | src/vmem.c:663-673 | after a flush the root is the whole shadow tree and maps nothing |
| Paging.MakeSatp | src/csr.h:44 | the root that satp names is the one it was made from |
| Paging.SatpIsSv39 | src/csr.h:44 | satp asks for mode 8 and has the page number of the root in its low 44 bits |
| Tables.ForestMeansTrees | src/vmem.c:419-444 | a live page is a root nothing points to, or the child of exactly one V-only entry of a table of its tree one level up |
| Tables.PointUpdate | src/vmem.c:436-445 | overwriting one third-level entry changes the walk of one page number |
| Tables.SameEntrySamePage | src/vmem.c:410-414 | two page numbers that reach the same third-level entry are the same |
| Tables.WalkFromPath | src/vmem.c:421-435 | the walk passes through the tables on the path |
| Tables.LinkMapsNothing | src/vmem.c:423-432 | hanging an empty table changes no walk |
| Tables.WriteLeaf | src/vmem.c:436-445 | writing a leaf keeps the ownership forest |
| Tables.LinkTable | src/vmem.c:423-432 | linking a table keeps the ownership forest |
| Tables.Detach | src/vmem.c:640-650 | clearing the entry makes the child a tree of its own |
| Tables.RemoveRoot | src/vmem.c:654-661 | a cleared table can be given up |
| Tables.EmptyRootIsAlone | src/vmem.c:663-673 | an empty shadow root has no descendants left |
| Tables.WalkInTree | src/vmem.c:404-447 | walks depend on the pages of their own tree only |
| Tables.UnusedPage | src/pagealloc.c:41-53 | pages that are not live may hold anything |
| GuestTables.SoftwareWalkIsSv39 | src/vmem.c:352-401 | the software walk finds an address exactly if Sv39 does with a leaf above the third level, for canonical addresses and regular entries |
| GuestTables.SmallPageIsRefused | src/vmem.c:378-381 | a guest with a 4 KiB page: Sv39 translates, the code refuses |
| GuestTables.MisalignedLeafIsTaken | src/vmem.c:365-376 | a guest with a misaligned 1 GiB leaf: Sv39 faults, the code translates |
| GuestTables.BitsAboveAreIgnored | src/vmem.c:393 | a non-canonical address: Sv39 faults, the code translates |
| GuestTables.Sv39FromAgrees | src/vmem.c:360-400 | the agreement from any table on |
| GuestTables.LeafAgrees | src/vmem.c:365-376 | both walks take the same address from a leaf |
| GuestTables.ResolvePageByPage | src/vmem.c:371-375 | the walk keeps offsets and moves whole pages |
| PageTableEntry.UnpackPack | src/vmem.h:89-103 | unpacking undoes packing up to the page offset |
| PageTableEntry.PackUnpack | src/vmem.h:89-103 | packing undoes unpacking exactly for words without high bits |
| PageTableEntry.LeafyIsAnyOfRWX | src/vmem.c:646-649 | the leaf test is that any of R, W, X is set |
| PagePool.Pool.AllocatePage | src/pagealloc.c:23-39 | NULL exactly when all pages are live; otherwise the first free page or the next fresh one; the pool does what the sequential allocator does |
| PagePool.Pool.DeallocatePage | src/pagealloc.c:41-53 | the page becomes the head of the list, as in the sequential allocator; only its first word changes |
| PagePool.PartitionIsSound | src/pagealloc.c:15-18 | the pool in memory is a sound state of the sequential allocator |
| AllocatorSpec.AllocateKeepsSound | src/pagealloc.c:29-35 | the page handed out was not held, and there is none exactly if all are |
| AllocatorSpec.FreeKeepsSound | src/pagealloc.c:50-51 | a page given back is free once |
| PagePool.Pool.constructor | src/pagealloc.c:15-18 | the pool starts with nothing allocated |
| PagePool.Conservation | src/pagealloc.c:23-53 | free plus live pages are all that were ever handed out |
| PagePool.PushLinked | src/pagealloc.c:50-51 | the list in memory after a deallocation |
| PagePool.PopLinked | src/pagealloc.c:29-31 | the list in memory after an allocation |
| PoolHarts.AllocatorLinearises | src/pagealloc.c:23-53 | under every schedule of any number of harts the allocator is the sequential one, the list in memory is its free list, and no page has two owners |
| PoolHarts.NullMeansFull | src/pagealloc.c:29-35 | an allocation fails exactly if all pages are held when it takes effect |
| PoolHarts.StepKeepsInv | src/pagealloc.c:23-53 | every atomic step of every hart keeps mutual exclusion, the list and exclusive ownership |
| PoolHarts.LockStepKeepsInv | src/sync.h:20-31 | test-and-set and release |
| PoolHarts.FreeTakesEffect | src/pagealloc.c:50-51 | the free takes effect with the write of the top |
| PoolHarts.AllocateTakesEffect | src/pagealloc.c:29-35 | the allocation takes effect with the write of the top, of the index, or with the failed test |
| PoolHarts.ClientStepKeepsInv | src/pagealloc.c:41-53 | callers allocate, free pages they own, and write what they like into them |
| GuestSlice.SliceIterator.Drain | src/vmem.h:148-170 | the pieces are non-empty, their lengths sum up, and each byte is where the table maps the guest's byte |
| GuestSlice.SliceIterator.Resolve | src/vmem.c:675-762 | the piece at the current offset; a panic exactly if the byte is not mapped for the guest |
| GuestSlice.SliceIterator.FindLeaf | src/vmem.c:714-757 | the loop finds the leaf that the walk of the table finds |
| GuestSlice.SliceIterator.Begin | src/vmem.h:148-157 | the first piece, which is empty for an empty slice; a panic exactly if there is a first byte that is not mapped for the guest |
| GuestSlice.SliceIterator.Advance | src/vmem.h:159-163 | the next piece starts where the last one ended |
| GuestSlice.PieceBytes | src/vmem.c:722-748 | each byte of a piece is the page walk of the guest's byte |
| GuestSlice.NextPiece | src/vmem.h:159-163 | pieces laid end to end are the guest's bytes |
| GuestSlice.PieceIsLongest | src/vmem.c:722-748 | a piece ends only at the limit or at the end of its leaf |
| Decoder.DecodingUndoesEncoding | src/vmem.c:18-323 | address, width, register, length and extension of every encoded load and store |
| Decoder.LoadOrStore | src/vmem.c:18-323 | no word is decoded both as a load and as a store |
| Decoder.OnlyEncodingsDecode | src/vmem.c:18-323 | a word is decoded exactly if it encodes a supported load or store, or is C.LWSP or C.LDSP into register 0; every other word is a panic |
| Decoder.LoadIsEncoded | src/vmem.c:18-182 | the load that a decoded word encodes |
| Decoder.StoreIsEncoded | src/vmem.c:184-323 | the store that a decoded word encodes |
| Decoder.RepackWord32 | src/instructions.h:45-56 | packing undoes unpacking |
| Decoder.RepackWord16 | src/instructions.h:58-67 | packing undoes unpacking of a compressed instruction |
| Decoder.LoadedValueIsIsa | src/vmem.c:325-343 | the loaded register is the ISA's, except for the sign of C.LWSP |
| Decoder.StackLoadLosesSign | src/vmem.c:151-157 | a C.LWSP that is extended with zeros |
| Decoder.LoadDecodes | src/vmem.c:31-99 | base-format loads |
| Decoder.StoreDecodes | src/vmem.c:195-245 | base-format stores |
| Decoder.CompressedLoadDecodes | src/vmem.c:108-142 | C.LW and C.LD |
| Decoder.CompressedStoreDecodes | src/vmem.c:252-285 | C.SW and C.SD |
| Decoder.StackLoadDecodes | src/vmem.c:143-170 | C.LWSP and C.LDSP |
| Decoder.StackStoreDecodes | src/vmem.c:286-312 | C.SWSP and C.SDSP |
| Decoder.UnpackWord32 | src/instructions.h:45-56 | the fields of an instruction word |
| Decoder.UnpackWord16 | src/instructions.h:58-67 | the fields of a compressed instruction |
| Decoder.ExtensionIsExact | src/vmem.c:325-343 | the extended register keeps the bytes and reads as the number they stand for |
| Devices.LoadIgnoresOldValue | src/virtmmdev.c:10-81 | what the register held before a load does not matter |
| Devices.Overwrite | src/virtmmdev.c:10-81 | a device writes the low bytes of the register |
| Instructions.LoadEmulationIsIsa | src/vmem.c:517-532 | an emulated load changes its register, as the ISA extends it, and the pc; what the device holds is stated by `Instructions.DeviceLoads` |
| Instructions.StoreEmulationIsIsa | src/vmem.c:533-540 | an emulated store changes the guest's deadline at most, and the pc |
| Instructions.EmulationIsLocal | src/vmem.c:517-540 | an emulated access changes one register at most and is one action of the timer |
| Instructions.DeviceLoads | src/virtmmdev.c:10-81 | exactly which addresses and widths can be loaded, and what each load leaves in its register |
| Instructions.DeviceStores | src/virtmmdev.c:83-147 | exactly which addresses and widths can be stored to; only a store to 0x02004000 is seen, and sets the deadline |
| Instructions.FetchNeedsOneLeaf | src/vmem.c:459-482 | an instruction can be fetched exactly if all of its bytes lie in one mapped leaf |
| Instructions.FetchIsGuestMemory | src/instructions.h:32-43 | each fetched byte is the guest's, where the table maps it, in guest RAM |
| Instructions.DereferencedBytes | src/instructions.h:32-43 | the high half is read only if there is one |
| Instructions.PieceIsGuestMemory | src/vmem.c:722-748 | the host never reads its own pages through a guest address |
| Instructions.LeafIsGuestMemory | src/vmem.c:555-561 | every leaf of either root maps at or above 0x85000000 |
| Instructions.SystemInstructionsDecode | src/exchandlers.c:76-142 | the encodings of SFENCE.VMA, MRET, WFI, CSRRW and CSRRS are recognised |
| Instructions.OnlySystemInstructionsDecode | src/exchandlers.c:76-142 | no other word is taken for one of them |
| Instructions.OrSetsBits | src/exchandlers.c:134 | each bit of the result of the or |
| Instructions.OrAbsorbs | src/exchandlers.c:134 | the or changes nothing exactly if all bits are set already |
| Traps.SetBitsIsIsa | src/exchandlers.c:130-135 | CSRRS sets the bits of its register, for different registers |
| Traps.SetBitsIsIsaIff | src/exchandlers.c:130-135 | CSRRS writes what the ISA asks for exactly if its registers differ or the CSR has all bits of the register |
| Traps.SetBitsLosesOperand | src/exchandlers.c:130-135 | csrrs x5, mscratch, x5 loses the bit in x5 |
| Traps.SystemIsLocal | src/exchandlers.c:77-142 | a system instruction changes one register at most |
| Traps.WritableIsReadable | src/exchandlers.c:113-117 | a CSR that CSRRW may write could have been read, so skipping the read cannot matter |
| PrivilegeSpec.EveryRun | src/guestprivilege.c:7-84 | every sequence of traps keeps the invariant and neither loses nor repeats an accepted exception |
| PrivilegeSpec.ImplementedCsrs | src/virtcsr.c:19-164 | exactly these CSR numbers can be read and written, and mie only with bits 3, 7 and 11 |
| PrivilegeSpec.SatpFields | src/virtcsr.c:133-137 | a word laid out as satp sets mode and page number and nothing else |
| PrivilegeSpec.MstatusFields | src/virtcsr.c:105-116 | mstatus sets MPP from bits 12 and 11 and MIE from bit 3, and can only set MDT, bit 42 |
| PrivilegeSpec.MieFields | src/virtcsr.c:117-129 | mie sets its three interrupts from bits 3, 7 and 11 |
| PrivilegeSpec.ReadsBack | src/virtcsr.c:8-164 | reading a CSR after a write gives the value under the mask of the CSR |
| PrivilegeSpec.WriteIsLocal | src/virtcsr.c:91-164 | a write to one CSR is not seen in any other |
| PrivilegeSpec.ReadsDetermine | src/virtcsr.c:8-89 | CSRs that all read the same are the same |
| PrivilegeSpec.DeliveryEntersHandler | src/guestprivilege.c:38-57 | an exception enters the handler at mtvec on the machine table, with pc, cause and trap value in mepc, mcause and mtval; of mstatus only MDT changes, and no other CSR does |
| PrivilegeSpec.CheckSettles | src/guestprivilege.c:71-84 | what is pending is delivered exactly if MIE is set and MDT is clear |
| PrivilegeSpec.ReturnTurnsPagingOn | src/guestprivilege.c:7-36 | mret is possible exactly in GM, with mode 0, or with mode 8 and a shadow root; it leads to user mode at mepc with MDT clear, on the shadow table exactly for mode 8 |
| PrivilegeSpec.MretReturns | src/guestprivilege.c:7-36 | the same for mret with its check |
| PrivilegeSpec.StepKeepsInv | src/guestprivilege.c:7-84 | MDT clear implies user mode, pending implies MIE clear or MDT set, satp names the shadow root exactly while it is active |
| PrivilegeSpec.DeliveryResumesLater | src/guestprivilege.c:51-56 | a delivered exception saves the pc the guest would have gone on at |
| PrivilegeSpec.WhenRunsStop | src/guestprivilege.c:11-45 | a run stops exactly at the panics that are meant |
| PrivilegeSpec.CheckNeverPanics | src/guestprivilege.c:71-84 | deferred delivery never finds the guest in GM |
| PrivilegeSpec.WriteKeepsMdt | src/virtcsr.c:104-116 | a CSR write never clears MDT |
| PrivilegeSpec.CheckKeeps | src/guestprivilege.c:71-84 | the check leaves nothing deliverable pending |
| PrivilegeSpec.PrepareKeeps | src/guestprivilege.c:59-69 | what holds when an event reaches the check |
| Timer.HostTimer.Reschedule | src/timer.c:52-66 | in any window shorter than 2^63, the host's deadline is the minimum of the quantum and the host times at which the threads' own clocks read their deadlines, for all threads of all guests, and the target is a thread that attains it, or nobody if none comes strictly before the quantum |
| Timer.HostTimer.PickIsEarliest | src/timer.c:52-66 | the pick of the loops is that minimum over the threads themselves |
| Timer.HostTimer.InBefore | src/timer.c:56-57 | the loops come to every thread |
| Timer.HostTimer.BeforeIsThreads | src/timer.c:56-57 | the loops come to nothing but threads |
| Timer.HostTimer.InterruptSooner | src/timer.c:39-50 | the deadline moves exactly if the new one is sooner |
| Timer.HostTimer.Suspend | src/timer.c:84-89 | only this thread's timer changes |
| Timer.HostTimer.Resume | src/timer.c:91-98 | only this thread's adjustment changes |
| Timer.HostTimer.StoreDeadline | src/virtmmdev.c:86-96 | a store schedules the timer |
| Timer.HostTimer.Unschedule | src/timer.c:78-79 | only this thread's timer is unscheduled |
| TimerSpec.PickIsMinimum | src/timer.c:52-66 | the pick is the minimum of quantum and deadlines, for the first thread that attains it strictly |
| TimerSpec.CompareIsOrder | src/timer.h:23-33 | serial comparison is a total order in a window shorter than 2^63 |
| TimerSpec.PickIsMinimumIffWindow | src/timer.c:52-66 | nothing comes before the pick exactly if all times lie in some window shorter than 2^63 |
| TimerSpec.WindowIsNeeded | src/timer.c:52-66 | a single thread whose timer is due 2^63 after the quantum, and is taken to be due before it |
| TimerSpec.AdjustmentIsHiddenTime | src/timer.c:84-98 | over any run the adjustment is the sum of resume - suspend + 50, modulo 2^64 |
| TimerSpec.DeferralIsNotEarly | src/timer.c:26-31 | when a timer exception is deferred, the guest's clock has reached its deadline exactly if deadline plus adjustment stays below 2^64 or the adjustment exceeds the host's time |
| TimerSpec.EarlyDeferral | src/timer.c:58-62 | a deadline that is deferred too early |
| TimerSpec.OneDeferralPerStore | src/timer.c:68-82 | at most one deferral for each store to mtimecmp |
| TimerSpec.TargetIsDue | src/timer.c:52-66 | the interrupt target is scheduled and its due time is the host's deadline |
| TimerSpec.DueReadsDeadline | src/timer.c:58-62 | the due time is the one host time at which the guest's own clock reads its deadline: neither early nor late |
| TimerSpec.ServedInTime | src/timer.c:52-66 | a deadline before the quantum, in some window, is what the timer is set to after a trap |
| StackTrace.PrintTrace | src/panic.c:14-40 | the walk ends, prints every reachable entry, each once if there is no cycle, and reports a cycle exactly if one is reachable |
| StackTrace.NoticedSoon | src/panic.c:27-39 | the slow pointer is met within twice the number of entries |
| Image.PageAddress | src/pagealloc.c:15-21 | page addresses are aligned, invertible and inside the image |
| Image.GuestRamIsDisjoint | src/vmem.h:42-44 | guest RAM and the hypervisor's tables do not overlap |

## Left out

- ShadowRuns.ShadowRefinesGuest: address agreement only; the shadow permissions come from the faulting accesses and not from the guest's leaf, as the TODO at `src/vmem.c:403` says.
- Reached.UserFaultsAreBounded: bounds faults that are served while the guest's translations stay the same; a guest that changes its tables can fault again.
- Machines.ServedOrStopped: does not count the tables that a fault needs against the pages that are free; a panic of the pool is excused by something that is not mapped and a pool that is exhausted.
- Faults.HandledFaultReaches: says nothing about accessed and dirty bits, which the code does not set.
- Instructions.LoadEmulationIsIsa: excludes C.LWSP of a word with its top bit set, where the code differs from the ISA.
- Hypervisor.GuestThread.Trap: one guest thread, as the repository is configured (`src/base_types.h:19-23`); the timer alone is modelled for any number of them.
- Hypervisor.GuestThread.GuestStore: a store that crosses an aligned word is two stores, and the bytes that a narrower store leaves alone are part of the word it is given.
- PoolHarts.AllocatorLinearises: atomic steps in one global order, no weaker memory model, and no progress of the busy wait.
- Paging.AddressSpaces.EnsureGuestMachineMapped: one hart; the code itself leaves concurrent changes to the machine table as a TODO.
- Paging.AddressSpaces.ClearTable: never called with NULL here, where the code returns at once.
- What happens after a guest table outside the handled range (`src/vmem.c:386-391`): the code goes on through an unset pointer.
- What happens after mret with an exhausted pool (`src/guestprivilege.c:24-27`): the code goes on with a NULL table.
- UART output and the UART and PLIC registers beyond the value that a load returns: input and output.
- Assembly entry and exit, the nested handler stack, boot of CSRs and PMP: no source-level semantics.
- Address space identifiers, and the address arguments of SFENCE.VMA: the code always flushes everything.
- Waiting in WFI, external interrupts, page-boundary accesses: not implemented in the source.
- Diagnostic printing, including what the stack trace prints for each entry.
- The guest's own loads and fetches: they change nothing that is modelled.
