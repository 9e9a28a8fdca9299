/**
 The virtual timer as values: serial comparison of 64-bit times, the choice of the next host
 deadline, and the accounting of the time a guest does not see.
 */
module TimerSpec {
  import opened Words

  datatype CompareResult = LT | EQ | GT

  const HALF: nat := 0x8000_0000_0000_0000

  /** `timer_compare`: the sign of the difference modulo 2^64. */
  function Compare(lhs: Word, rhs: Word): (c: CompareResult) {
    var diff := Wrap(lhs - rhs);
    if diff == 0 then EQ else if diff >= HALF then LT else GT
  }

  /** How far a time lies past the start of a window, going round. */
  function Past(start: Word, time: Word): (d: Word) {
    Wrap(time - start)
  }

  predicate Within(start: Word, time: Word) {
    Past(start, time) < HALF
  }

  lemma PastIs(start: Word, time: Word)
    ensures Past(start, time) == if time >= start then time - start else time - start + TWO64
  {
  }

  /** Inside any window shorter than 2^63, serial comparison is the order of the times in it. */
  lemma CompareIsOrder(start: Word, a: Word, b: Word)
    requires Within(start, a) && Within(start, b)
    ensures Compare(a, b) == if Past(start, a) < Past(start, b) then LT else if a == b then EQ else GT
    ensures Past(start, a) == Past(start, b) <==> a == b
  {
    PastIs(start, a);
    PastIs(start, b);
    PastIs(b, a);
  }

  // ---------------------------------------------------------------- choosing the next deadline

  /** A guest thread and the host time of its timer, if one is scheduled. */
  datatype Candidate = Candidate(machine: nat, thread: nat, due: Option<Word>)
  datatype Target = Nobody | Thread(machine: nat, thread: nat)
  datatype Pick = Pick(time: Word, target: Target)

  /** `timer_interrupt_sooner`, with the update of `interrupt_target` that follows it. */
  function Sooner(p: Pick, c: Candidate): (q: Pick) {
    if c.due.Some? && Compare(c.due.value, p.time) == LT then Pick(c.due.value, Thread(c.machine, c.thread)) else p
  }

  function PickFrom(cap: Word, cs: seq<Candidate>): (p: Pick) {
    if cs == [] then Pick(cap, Nobody) else Sooner(PickFrom(cap, cs[..|cs| - 1]), cs[|cs| - 1])
  }

  predicate AllWithin(start: Word, cap: Word, cs: seq<Candidate>) {
    Within(start, cap) && forall k | 0 <= k < |cs| :: cs[k].due.Some? ==> Within(start, cs[k].due.value)
  }

  /** The pick is what candidate `k` asks for, and no earlier candidate asks for as early a time. */
  predicate FirstAt(start: Word, cs: seq<Candidate>, k: nat, p: Pick)
    requires k < |cs|
  {
    && cs[k].due == Some(p.time) && p.target == Thread(cs[k].machine, cs[k].thread)
    && forall j | 0 <= j < k :: cs[j].due.Some? ==> Past(start, p.time) < Past(start, cs[j].due.value)
  }

  /** When all times lie in one window, the pick is their minimum, for the first thread that attains it. */
  lemma {:induction false} PickIsMinimum(start: Word, cap: Word, cs: seq<Candidate>)
    requires AllWithin(start, cap, cs)
    ensures var p := PickFrom(cap, cs);
            && Within(start, p.time)
            && Past(start, p.time) <= Past(start, cap)
            && (forall k | 0 <= k < |cs| :: cs[k].due.Some? ==> Past(start, p.time) <= Past(start, cs[k].due.value))
            && (if p.target.Nobody? then p.time == cap
                else Past(start, p.time) < Past(start, cap) && exists k: nat :: k < |cs| && FirstAt(start, cs, k, p))
  {
    if cs != [] {
      var n := |cs| - 1;
      var before := cs[..n];
      PickIsMinimum(start, cap, before);
      var q, p := PickFrom(cap, before), PickFrom(cap, cs);
      assert forall k | 0 <= k < n :: before[k] == cs[k];
      if cs[n].due.Some? {
        CompareIsOrder(start, cs[n].due.value, q.time);
      }
      if p != q {
        assert FirstAt(start, cs, n, p);
      } else if !q.target.Nobody? {
        var k: nat :| k < |before| && FirstAt(start, before, k, q);
        assert FirstAt(start, cs, k, p);
      }
    }
  }

  /** Nothing that was to be considered comes before the pick, by the comparison that the code uses. */
  predicate NothingSooner(p: Pick, cap: Word, cs: seq<Candidate>) {
    Compare(cap, p.time) != LT && forall k | 0 <= k < |cs| :: cs[k].due.Some? ==> Compare(cs[k].due.value, p.time) != LT
  }

  /** The pick is a minimum exactly if all times lie in some window shorter than 2^63. */
  lemma PickIsMinimumIffWindow(cap: Word, cs: seq<Candidate>)
    ensures NothingSooner(PickFrom(cap, cs), cap, cs) <==> exists start: Word :: AllWithin(start, cap, cs)
  {
    var p := PickFrom(cap, cs);
    forall t: Word ensures Compare(t, p.time) != LT <==> Within(p.time, t) {
      WrapSmall(t);
    }
    if NothingSooner(p, cap, cs) {
      assert AllWithin(p.time, cap, cs);
    }
    if start: Word :| AllWithin(start, cap, cs) {
      PickIsMinimum(start, cap, cs);
      CompareIsOrder(start, cap, p.time);
      forall k | 0 <= k < |cs| && cs[k].due.Some? ensures Compare(cs[k].due.value, p.time) != LT {
        CompareIsOrder(start, cs[k].due.value, p.time);
      }
    }
  }

  /**
   Without a common window the pick can be later than the quantum it was meant to undercut: a single
   thread whose timer is due 2^63 after the quantum is taken to be due before it.
   */
  lemma WindowIsNeeded()
    ensures PickFrom(0, [Candidate(0, 0, Some(HALF))]) == Pick(HALF, Thread(0, 0)) && Compare(0, HALF) == LT
  {
    SinglePick(0, Candidate(0, 0, Some(HALF)));
    assert Compare(HALF, 0) == LT;
  }

  // ---------------------------------------------------------------- the time a guest sees

  /** The timer fields of a guest thread. */
  datatype GuestTimer = GuestTimer(scheduled: bool, deadline: Word, suspendedAt: Word, adjustment: Word)

  /** The cycles added for entering and leaving the handler. */
  const EXTRA_CYCLES: nat := 50
  /** `MILLISECONDS(200)`. */
  const QUANTUM: nat := 20000

  function Suspend(g: GuestTimer, now: Word): (h: GuestTimer) {
    g.(suspendedAt := now)
  }

  function Resume(g: GuestTimer, now: Word): (h: GuestTimer) {
    g.(adjustment := Wrap(g.adjustment + Wrap(now - g.suspendedAt) + EXTRA_CYCLES))
  }

  /** `timer_get_time_virtual`. */
  function VirtualTime(g: GuestTimer, now: Word): (t: Word) {
    Wrap(now - g.adjustment)
  }

  /** The host time at which a guest's deadline falls. */
  function Due(g: GuestTimer): (d: Option<Word>) {
    if g.scheduled then Some(Wrap(g.deadline + g.adjustment)) else None
  }

  /** At this host time the guest's own clock reads the deadline that it has asked for. */
  predicate ReadsDeadline(g: GuestTimer, t: Word) {
    g.scheduled && VirtualTime(g, t) == g.deadline
  }

  /** The due time is the one host time at which the guest's clock reads its deadline: neither early nor late. */
  lemma DueReadsDeadline(g: GuestTimer)
    ensures Due(g).Some? <==> g.scheduled
    ensures Due(g).Some? ==> VirtualTime(g, Due(g).value) == g.deadline
    ensures forall t: Word :: ReadsDeadline(g, t) <==> Due(g) == Some(t)
  {
    DueAndVirtual(g.deadline, g.adjustment, 0);
    forall t: Word ensures ReadsDeadline(g, t) <==> Due(g) == Some(t) {
      DueAndVirtual(g.deadline, g.adjustment, t);
    }
    if g.scheduled {
      assert ReadsDeadline(g, Due(g).value);
    }
  }

  // ---------------------------------------------------------------- runs of one guest thread

  /**
   The timer state of the machine as configured, with one guest thread: its timer fields, the
   host's `mtimecmp`, and whether the thread is the interrupt target.
   */
  datatype Clock = Clock(guest: GuestTimer, mtimecmp: Word, targeted: bool)

  /** What the handler of a trap does to the timer. */
  datatype Action = Nothing | TimerInterrupt | StoreDeadline(value: Word)

  /** One trap: host times on entry, on leaving the handler, and when the next interrupt is chosen. */
  datatype Trap = Trap(entered: Word, left: Word, rescheduled: Word, action: Action)

  function Handle(c: Clock, a: Action): (d: Clock) {
    match a
    case Nothing => c
    case TimerInterrupt => if c.targeted then c.(guest := c.guest.(scheduled := false)) else c
    case StoreDeadline(value) => c.(guest := c.guest.(deadline := value, scheduled := true))
  }

  function Reschedule(c: Clock, now: Word): (d: Clock) {
    var p := PickFrom(Wrap(now + QUANTUM), [Candidate(0, 0, Due(c.guest))]);
    c.(mtimecmp := p.time, targeted := p.target.Thread?)
  }

  /**
   The host's timer is set to the time at which the guest's clock reads its deadline, for the guest,
   if there is such a time before `cap`; otherwise it is set to `cap`, for nobody.
   */
  predicate SetInTime(c: Clock, cap: Word, start: Word, t: Word) {
    && (!c.guest.scheduled ==> c.mtimecmp == cap && !c.targeted)
    && (ReadsDeadline(c.guest, t) && Within(start, t) ==>
          if Past(start, t) < Past(start, cap) then c.mtimecmp == t && c.targeted
          else c.mtimecmp == cap && !c.targeted)
  }

  /**
   The next host interrupt is not late: a deadline that comes before the quantum of 20000 ticks, in
   some window shorter than 2^63, is what the host's timer is set to, for this thread.
   */
  lemma RescheduledInTime(c: Clock, now: Word, start: Word, t: Word)
    requires Within(start, Wrap(now + 20000))
    ensures Reschedule(c, now).guest == c.guest && SetInTime(Reschedule(c, now), Wrap(now + 20000), start, t)
  {
    var cap := Wrap(now + 20000);
    SinglePick(cap, Candidate(0, 0, Due(c.guest)));
    DueReadsDeadline(c.guest);
    if Within(start, t) {
      CompareIsOrder(start, t, cap);
    }
  }

  /** The order in which `exception` calls into the timer. */
  function Serve(c: Clock, t: Trap): (d: Clock) {
    var c1 := c.(guest := Suspend(c.guest, t.entered));
    var c2 := Handle(c1, t.action);
    var c3 := c2.(guest := Resume(c2.guest, t.left));
    Reschedule(c3, t.rescheduled)
  }

  /** That is so after a whole trap, for the guest's clock as the trap leaves it. */
  lemma ServedInTime(c: Clock, trap: Trap, start: Word, t: Word)
    requires Within(start, Wrap(trap.rescheduled + 20000))
    ensures SetInTime(Serve(c, trap), Wrap(trap.rescheduled + 20000), start, t)
  {
    var c1 := c.(guest := Suspend(c.guest, trap.entered));
    var c2 := Handle(c1, trap.action);
    RescheduledInTime(c2.(guest := Resume(c2.guest, trap.left)), trap.rescheduled, start, t);
  }

  /** The trap defers a timer exception to the guest. */
  predicate Defers(c: Clock, t: Trap) {
    t.action.TimerInterrupt? && c.targeted
  }

  /** Time does not run backwards, and the host's timer only interrupts once its deadline is reached. */
  predicate Possible(c: Clock, t: Trap) {
    && t.entered <= t.left <= t.rescheduled
    && (t.action.TimerInterrupt? ==> c.mtimecmp <= t.entered)
  }

  const INITIAL := Clock(GuestTimer(false, 0, 0, 0), 0, false)

  function Served(traps: seq<Trap>): (c: Clock) {
    if traps == [] then INITIAL else Serve(Served(traps[..|traps| - 1]), traps[|traps| - 1])
  }

  /** The time spent in the hypervisor, with the extra cycles, not reduced modulo 2^64. */
  function Hidden(traps: seq<Trap>): (n: int) {
    if traps == [] then 0
    else Hidden(traps[..|traps| - 1]) + (traps[|traps| - 1].left - traps[|traps| - 1].entered) + EXTRA_CYCLES
  }

  function Stores(traps: seq<Trap>): (n: nat) {
    if traps == [] then 0
    else Stores(traps[..|traps| - 1]) + (if traps[|traps| - 1].action.StoreDeadline? then 1 else 0)
  }

  function Deferrals(traps: seq<Trap>): (n: nat) {
    if traps == [] then 0
    else Deferrals(traps[..|traps| - 1])
         + (if Defers(Served(traps[..|traps| - 1]), traps[|traps| - 1]) then 1 else 0)
  }

  /** In every run `timer_adjustment` is the time spent in the hypervisor, modulo 2^64. */
  lemma {:induction false} AdjustmentIsHiddenTime(traps: seq<Trap>)
    ensures Served(traps).guest.adjustment == Wrap(Hidden(traps))
  {
    if traps != [] {
      var before, t := traps[..|traps| - 1], traps[|traps| - 1];
      AdjustmentIsHiddenTime(before);
      var spent := Wrap(t.left - t.entered);
      assert Served(traps).guest.adjustment == Wrap(Wrap(Hidden(before)) + (spent + EXTRA_CYCLES));
      WrapSum(Hidden(before), spent + EXTRA_CYCLES);
      WrapSum(t.left - t.entered, Hidden(before) + EXTRA_CYCLES);
      assert Hidden(traps) == (t.left - t.entered) + (Hidden(before) + EXTRA_CYCLES);
    }
  }

  /** After every trap the interrupt target has its timer scheduled, and `mtimecmp` is its due time. */
  lemma TargetIsDue(traps: seq<Trap>)
    requires Served(traps).targeted
    ensures Served(traps).guest.scheduled
    ensures Due(Served(traps).guest) == Some(Served(traps).mtimecmp)
  {
    var before, t := traps[..|traps| - 1], traps[|traps| - 1];
    var c := Served(before);
    var c2 := Handle(c.(guest := Suspend(c.guest, t.entered)), t.action);
    var c3 := c2.(guest := Resume(c2.guest, t.left));
    SinglePick(Wrap(t.rescheduled + QUANTUM), Candidate(0, 0, Due(c3.guest)));
  }

  lemma SinglePick(cap: Word, c: Candidate)
    ensures PickFrom(cap, [c]) == Sooner(Pick(cap, Nobody), c)
  {
    assert [c][..0] == [];
    assert PickFrom(cap, []) == Pick(cap, Nobody);
  }

  /**
   When a timer exception is deferred, the guest's own clock has reached its deadline, exactly if
   the due time did not wrap around or the adjustment exceeds the host's time.
   */
  lemma DeferralIsNotEarly(traps: seq<Trap>, t: Trap)
    requires Defers(Served(traps), t) && Served(traps).mtimecmp <= t.entered
    ensures var g := Served(traps).guest;
            VirtualTime(g, t.entered) >= g.deadline <==> g.deadline + g.adjustment < TWO64 || t.entered < g.adjustment
  {
    TargetIsDue(traps);
    var g := Served(traps).guest;
    DueAndVirtual(g.deadline, g.adjustment, t.entered);
  }

  /** A deadline close to the end of time: the due time wraps around, and the guest is interrupted at once. */
  lemma EarlyDeferral()
    ensures var traps, t := [Trap(0, 0, 0, StoreDeadline(TWO64 - 1))], Trap(100, 100, 100, TimerInterrupt);
            && Possible(Served(traps), t) && Defers(Served(traps), t)
            && VirtualTime(Served(traps).guest, t.entered) == 50 && Served(traps).guest.deadline == TWO64 - 1
  {
    var trap := Trap(0, 0, 0, StoreDeadline(TWO64 - 1));
    assert [trap][..0] == [];
    assert Served([]) == INITIAL;
    var c := Handle(INITIAL, StoreDeadline(TWO64 - 1));
    var g := Resume(Suspend(c.guest, 0), 0);
    assert g == GuestTimer(true, TWO64 - 1, 0, 50) && Due(g) == Some(49);
    assert Compare(49, QUANTUM) == LT;
    SinglePick(QUANTUM, Candidate(0, 0, Some(49)));
    assert Served([trap]) == Serve(INITIAL, trap);
  }

  lemma DueAndVirtual(deadline: Word, adjustment: Word, now: Word)
    ensures Wrap(deadline + adjustment)
            == if deadline + adjustment < TWO64 then deadline + adjustment else deadline + adjustment - TWO64
    ensures Wrap(now - adjustment) == if now >= adjustment then now - adjustment else now - adjustment + TWO64
  {
  }

  /** Each store to the guest's `mtimecmp` leads to at most one deferral. */
  lemma {:induction false} OneDeferralPerStore(traps: seq<Trap>)
    ensures Deferrals(traps) + (if Served(traps).guest.scheduled then 1 else 0) <= Stores(traps)
  {
    if traps != [] {
      var before, t := traps[..|traps| - 1], traps[|traps| - 1];
      OneDeferralPerStore(before);
      if Defers(Served(before), t) {
        TargetIsDue(before);
      }
    }
  }
}
