/** What a guest sees over a run: its clock, its deadline, and the mode that it is in. */
module GuestView {
  import opened Words
  import opened PrivilegeSpec
  import opened Paging
  import opened Instructions
  import opened Traps
  import opened Machines
  import opened Runs
  import opened Reached
  import opened Effects
  import D = Decoder
  import Devices
  import T = TimerSpec

  // ---------------------------------------------------------------- the traps of a run

  /** One trap of a run. */
  lemma TrapOfRun(script: seq<Input>, log: Log, k: nat) returns (x: Effect, b: Machine)
    requires Records(script, log) && k < |log.effects| && script[k].Trap?
    ensures x == log.effects[k] && b == log.states[k + 1] && Shaped(log.states[k]) && Shaped(b)
    ensures var i := script[k]; TrapServed(log.states[k], i.mcause, i.fromGuest, i.times, i.host, x, b)
  {
    assert StepAt(script, log, k);
    x, b := log.effects[k], log.states[k + 1];
  }

  /** One exception of the guest in a run. */
  lemma ExceptionOfRun(script: seq<Input>, log: Log, k: nat) returns (x: Effect, b: Machine)
    requires Records(script, log) && k < |log.effects| && script[k].Trap? && script[k].mcause < 0x8000_0000_0000_0000
    ensures x == log.effects[k] && b == log.states[k + 1] && Shaped(log.states[k]) && Shaped(b)
    ensures TrapServed(log.states[k], script[k].mcause, true, script[k].times, script[k].host, x, b)
  {
    x, b := TrapOfRun(script, log, k);
    assert script[k].fromGuest;
  }

  // ---------------------------------------------------------------- the guest's deadline

  /** The step stores to the guest's `mtimecmp`. */
  predicate StoresDeadline(x: Effect) {
    x.Fault? && x.access.Write? && x.gm == 0x0200_4000 && x.a.MemoryAccess? && x.a.reg < 32
  }

  /** What the guest last stored to its `mtimecmp` before state `n`; zero if nothing. */
  function LastStored(log: Log, n: nat): (value: Word)
    requires n <= |log.effects| && |log.states| == |log.effects| + 1
  {
    if n == 0 then 0
    else if StoresDeadline(log.effects[n - 1]) then D.Reg(log.states[n - 1].regs, log.effects[n - 1].a.reg)
    else LastStored(log, n - 1)
  }

  /** What a step does to the guest's deadline. */
  lemma StepOfDeadline(a: Machine, i: Input, x: Effect, b: Machine)
    requires Shaped(a) && Shaped(b) && Does(a, i, x, b)
    ensures b.clock.guest.deadline
            == if StoresDeadline(x) then D.Reg(a.regs, x.a.reg) else a.clock.guest.deadline
  {
    match i
    case Trap(mcause, fromGuest, times, host) =>
      if StoresDeadline(x) {
        AccessServed(a, mcause, times, host, x, b);
      } else {
        WriteIsInRange(a, mcause, fromGuest, times, host, x, b);
        TimerIsKept(a, mcause, fromGuest, times, host, x, b);
      }
    case _ =>
  }

  lemma WriteIsInRange(
    a: Machine, mcause: Word, fromGuest: bool, times: Times, host: Devices.Host, x: Effect, b: Machine)
    requires Shaped(a) && Shaped(b) && TrapServed(a, mcause, fromGuest, times, host, x, b)
    ensures x.Fault? ==> InRange(x.a)
  {
  }

  predicate DeadlineFollows(log: Log, k: nat)
    requires k < |log.effects| && |log.states| == |log.effects| + 1
  {
    var x := log.effects[k];
    log.states[k + 1].clock.guest.deadline
    == if StoresDeadline(x) then D.Reg(log.states[k].regs, x.a.reg) else log.states[k].clock.guest.deadline
  }

  lemma {:induction false} DeadlineIsLastStored(log: Log, n: nat)
    requires |log.states| == |log.effects| + 1 && n <= |log.effects| && log.states[0].clock.guest.deadline == 0
    requires forall k: nat | k < |log.effects| :: DeadlineFollows(log, k)
    ensures log.states[n].clock.guest.deadline == LastStored(log, n)
  {
    if n > 0 {
      DeadlineIsLastStored(log, n - 1);
      assert DeadlineFollows(log, n - 1);
    }
  }

  /** In every state of a run the guest's deadline is what the guest last stored. */
  lemma DeadlineOfRun(script: seq<Input>, log: Log, n: nat)
    requires Records(script, log) && Starts(log.states[0]) && n <= |log.effects|
    ensures log.states[n].clock.guest.deadline == LastStored(log, n)
  {
    forall k: nat | k < |log.effects| ensures DeadlineFollows(log, k) {
      assert StepAt(script, log, k);
      StepOfDeadline(log.states[k], script[k], log.effects[k], log.states[k + 1]);
    }
    DeadlineIsLastStored(log, n);
  }

  // ---------------------------------------------------------------- the guest's clock

  /** The time that the traps of the script before input `n` spent in the hypervisor, with 50 cycles for each. */
  function HiddenTime(script: seq<Input>, n: nat): (t: int)
    requires n <= |script|
  {
    if n == 0 then 0
    else match script[n - 1]
         case Trap(_, _, times, _) => HiddenTime(script, n - 1) + (times.left - times.entered) + 50
         case _ => HiddenTime(script, n - 1)
  }

  lemma AppendHidden(traps: seq<T.Trap>, t: T.Trap)
    ensures T.Hidden(traps + [t]) == T.Hidden(traps) + (t.left - t.entered) + 50
  {
    assert (traps + [t])[..|traps|] == traps;
  }

  lemma {:induction false} HiddenByTraps(script: seq<Input>, log: Log, n: nat)
    requires n <= |log.effects| <= |script| && |log.states| == |log.effects| + 1
    ensures T.Hidden(TimerTraps(script, log, n)) == HiddenTime(script, n)
  {
    if n > 0 {
      HiddenByTraps(script, log, n - 1);
      var before, t := TimerTraps(script, log, n - 1), StepTraps(log.states[n - 1], script[n - 1], log.effects[n - 1]);
      if t != [] {
        AppendHidden(before, t[0]);
        assert t == [t[0]];
      } else {
        assert before + t == before;
      }
    }
  }

  /** In every state of a run the guest's clock lags behind the host's by the hidden time. */
  lemma ClockOfRun(script: seq<Input>, log: Log, n: nat)
    requires Records(script, log) && Starts(log.states[0]) && n <= |log.effects|
    ensures log.states[n].clock.guest.adjustment == Wrap(HiddenTime(script, n))
  {
    StateOfRun(script, log, n);
    HiddenByTraps(script, log, n);
  }

  // ---------------------------------------------------------------- loads and stores of devices

  /** An eight-byte load of `mtimecmp` yields `deadline`, and one of `mtime` yields `time`. */
  ghost predicate LoadsClint(acc: D.MemoryAccess, gm: Word, regs: D.Registers, deadline: Word, time: Word)
    requires InRange(acc)
  {
    && (gm == 0x0200_4000 ==> acc.width == 8 && (acc.reg > 0 ==> D.Reg(regs, acc.reg) == deadline))
    && (gm == 0x0200_BFF8 ==> acc.width == 8 && (acc.reg > 0 ==> D.Reg(regs, acc.reg) == time))
  }

  lemma LoadedFromClint(a: Machine, acc: D.MemoryAccess, gm: Word, host: Devices.Host, b: Machine, hidden: int)
    requires InRange(acc) && Loaded(a, acc, gm, host, b) && a.clock.guest.adjustment == Wrap(hidden)
    ensures LoadsClint(acc, gm, b.regs, a.clock.guest.deadline, Wrap(host.now - hidden))
  {
    if gm == 0x0200_BFF8 && acc.reg > 0 {
      ClockReading(D.Reg(b.regs, acc.reg), hidden, host.now);
    }
  }

  /** A load instruction of the guest that traps, with the access that it makes. */
  ghost predicate IsLoadTrap(a: Machine, i: D.Instruction, x: Effect)
    requires Shaped(a) && D.Encodable(i)
  {
    D.IsLoad(i) && x.Fault? && x.a == D.AsDecoded(i, a.regs) && InRange(x.a) && Means(a, x.a.address, x.gm)
  }

  lemma ClintLoad(a: Machine, mcause: Word, times: Times, host: Devices.Host, x: Effect, b: Machine,
                  deadline: Word, hidden: int, time: Word)
    requires Shaped(a) && Shaped(b) && mcause in {5, 13} && TrapServed(a, mcause, true, times, host, x, b)
    requires a.clock.guest.adjustment == Wrap(hidden) && a.clock.guest.deadline == deadline
    requires time == Wrap(host.now - hidden)
    ensures x.Fault? && InRange(x.a) && LoadsClint(x.a, x.gm, b.regs, deadline, time)
  {
    AccessServed(a, mcause, times, host, x, b);
    if x.gm < 0x8000_0000 {
      LoadedFromClint(a, x.a, x.gm, host, b, hidden);
    }
  }

  /** What a served load fault of a run puts into its register, if it is one from the CLINT. */
  lemma ClintOfRun(script: seq<Input>, log: Log, k: nat, stored: Word, hidden: int, time: Word)
    requires |log.states| == |log.effects| + 1 && k < |log.effects| <= |script| && StepAt(script, log, k)
    requires script[k].Trap? && script[k].mcause in {5, 13}
    requires log.states[k].clock.guest.deadline == stored && log.states[k].clock.guest.adjustment == Wrap(hidden)
    requires time == Wrap(script[k].host.now - hidden)
    ensures log.effects[k].Fault? && InRange(log.effects[k].a)
    ensures LoadsClint(log.effects[k].a, log.effects[k].gm, log.states[k + 1].regs, stored, time)
  {
    match script[k]
    case Trap(mcause, _, times, host) =>
      ClintLoad(log.states[k], mcause, times, host, log.effects[k], log.states[k + 1], stored, hidden, time);
  }

  /** A load fault of a run at an encoded instruction is served as the load that it encodes. */
  lemma LoadTrapOfRun(script: seq<Input>, log: Log, k: nat, i: D.Instruction)
    requires Records(script, log) && k < |log.effects| && script[k].Trap? && script[k].mcause in {5, 13}
    requires Shaped(log.states[k]) && D.Encodable(i) && WordAt(log.states[k]) == Some(D.Encode(i))
    ensures IsLoadTrap(log.states[k], i, log.effects[k])
  {
    var x, b := ExceptionOfRun(script, log, k);
    MemoryTrap(log.states[k], script[k].mcause, script[k].times, script[k].host, i, x, b);
  }

  /**
   A load of the guest from its CLINT, in any run: an eight-byte load of `mtimecmp` yields what the
   guest last stored there, and one of `mtime` yields the host's time without the hidden time.
   */
  lemma LoadOfClint(script: seq<Input>, log: Log, k: nat, i: D.Instruction) returns (stored: Word, hidden: int)
    requires Records(script, log) && Starts(log.states[0]) && k < |log.effects|
    requires script[k].Trap? && script[k].mcause in {5, 13}
    requires Shaped(log.states[k]) && D.Encodable(i) && WordAt(log.states[k]) == Some(D.Encode(i))
    ensures IsLoadTrap(log.states[k], i, log.effects[k])
    ensures stored == LastStored(log, k) && hidden == HiddenTime(script, k)
    ensures LoadsClint(log.effects[k].a, log.effects[k].gm, log.states[k + 1].regs,
                       stored, Wrap(script[k].host.now - hidden))
  {
    LoadTrapOfRun(script, log, k, i);
    DeadlineOfRun(script, log, k);
    ClockOfRun(script, log, k);
    assert StepAt(script, log, k);
    stored, hidden := LastStored(log, k), HiddenTime(script, k);
    ClintOfRun(script, log, k, stored, hidden, Wrap(script[k].host.now - hidden));
  }

  lemma ClockReading(value: Word, hidden: int, now: Word)
    requires (value + Wrap(hidden)) % TWO64 == now
    ensures value == Wrap(now - hidden)
  {
    var q := (value + Wrap(hidden)) / TWO64;
    assert value + Wrap(hidden) == q * TWO64 + now;
    assert hidden == hidden / TWO64 * TWO64 + Wrap(hidden);
    WrapIs(now - hidden, -q - hidden / TWO64, value);
  }

  // ---------------------------------------------------------------- the next timer interrupt

  /**
   After each trap of a run the host's timer is set to the time at which the guest's own clock reads
   its deadline, if that comes before the quantum of 20000 ticks in a window shorter than 2^63, and
   then the interrupt will be for the guest; otherwise it is set to the quantum.
   */
  lemma TimerOfRun(script: seq<Input>, log: Log, k: nat, start: Word, t: Word)
    requires Records(script, log) && k < |log.effects| && script[k].Trap?
    requires T.Within(start, Wrap(script[k].times.rescheduled + 20000))
    ensures T.SetInTime(log.states[k + 1].clock, Wrap(script[k].times.rescheduled + 20000), start, t)
  {
    var x, b := TrapOfRun(script, log, k);
    TimerAfterTrap(log.states[k], script[k].mcause, script[k].fromGuest, script[k].times, script[k].host,
                   x, b, start, t);
  }

  lemma TimerAfterTrap(a: Machine, mcause: Word, fromGuest: bool, times: Times, host: Devices.Host,
                       x: Effect, b: Machine, start: Word, t: Word)
    requires Shaped(a) && Shaped(b) && TrapServed(a, mcause, fromGuest, times, host, x, b)
    requires T.Within(start, Wrap(times.rescheduled + 20000))
    ensures T.SetInTime(b.clock, Wrap(times.rescheduled + 20000), start, t)
  {
    T.ServedInTime(a.clock, T.Trap(times.entered, times.left, times.rescheduled,
                                   ActionOf(Suspended(a, times.entered), x)), start, t);
  }

  // ---------------------------------------------------------------- the guest's mode

  /** From GM, with `satp` in a supported mode, to user mode, unless something is due. */
  predicate ReturnsToUser(t: PrivilegeSpec.Thread, u: PrivilegeSpec.Thread) {
    && !t.userMode && t.csr.satpMode in {0, 8}
    && (!t.csr.mie || t.deferred.None? ==> ReturnedFrom(t, u))
  }

  /**
   An MRET of a run with nothing due: user mode at the guest's own `mepc`, with MDT clear and every
   other CSR as before, and on the shadow table exactly if the mode in `satp` is 8.
   */
  lemma MretOfRun(script: seq<Input>, log: Log, k: nat)
    requires Records(script, log) && Starts(log.states[0]) && k < |log.effects| && Shaped(log.states[k])
    requires script[k].Trap? && script[k].mcause == 2 && AtInstruction(log.states[k], 0x3020_0073)
    ensures ReturnsToUser(log.states[k].t, log.states[k + 1].t)
  {
    InvOfRun(script, log, k);
    var x, b := ExceptionOfRun(script, log, k);
    MretWithNothingDue(log.states[k], script[k].times, script[k].host, x, b);
  }

  lemma MretWithNothingDue(a: Machine, times: Times, host: Devices.Host, x: Effect, b: Machine)
    requires Shaped(a) && Shaped(b) && Inv(a.t) && AtInstruction(a, 0x3020_0073)
    requires TrapServed(a, 2, true, times, host, x, b)
    ensures ReturnsToUser(a.t, b.t)
  {
    MretTrap(a, times, host, x, b);
  }

  /** Every state of a run keeps the invariant of the privilege state. */
  lemma InvOfRun(script: seq<Input>, log: Log, n: nat)
    requires Records(script, log) && Starts(log.states[0]) && n <= |log.effects|
    ensures Inv(log.states[n].t)
  {
    StateOfRun(script, log, n);
  }

  /** While a guest in user mode has paging on, every access that it makes goes through the shadow table. */
  lemma UserModeIsShadowed(script: seq<Input>, log: Log, n: nat)
    requires Records(script, log) && Starts(log.states[0]) && n <= |log.effects| && Shaped(log.states[n])
    ensures var m := log.states[n];
            m.t.onShadow <==> m.t.shadowActive && m.t.userMode && m.snap.shadowRoot == Some(Root(m))
  {
    InvOfRun(script, log, n);
  }
}
