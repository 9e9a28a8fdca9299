/** The timer of the host, shared by all guest threads. */
module Timer {
  import opened Words
  import opened TimerSpec

  class HostTimer {
    /** The timer fields of `guest_threads`, by machine and thread. */
    const guests: array2<GuestTimer>
    /** The host's `mtimecmp`, and whether its timer interrupt is enabled. */
    var mtimecmp: Word
    var enabled: bool
    var target: Target

    constructor (machines: nat, threads: nat)
      ensures fresh(guests) && guests.Length0 == machines && guests.Length1 == threads
      ensures forall i, j | 0 <= i < machines && 0 <= j < threads :: guests[i, j] == GuestTimer(false, 0, 0, 0)
      ensures mtimecmp == 0 && !enabled && target == Nobody
    {
      guests := new GuestTimer[machines, threads]((i, j) => GuestTimer(false, 0, 0, 0));
      mtimecmp := 0;
      enabled := false;
      target := Nobody;
    }

    /** What thread `j` of machine `i` asks for. */
    function At(i: nat, j: nat): (c: Candidate)
      requires i < guests.Length0 && j < guests.Length1
      reads guests
    {
      Candidate(i, j, Due(guests[i, j]))
    }

    /** The threads before thread `j` of machine `i`, in the order of the loops. */
    ghost function Before(i: nat, j: nat): (cs: seq<Candidate>)
      requires i <= guests.Length0 && j <= guests.Length1 && (i == guests.Length0 ==> j == 0)
      reads guests
      decreases i, j
    {
      if j > 0 then Before(i, j - 1) + [At(i, j - 1)]
      else if i > 0 then Before(i - 1, guests.Length1)
      else []
    }

    /** The loops have been at exactly the threads before the one they are at. */
    lemma InBefore(i: nat, j: nat, a: nat, b: nat)
      requires i <= guests.Length0 && j <= guests.Length1 && (i == guests.Length0 ==> j == 0)
      requires b < guests.Length1 && (a < i || (a == i && b < j))
      ensures At(a, b) in Before(i, j)
      decreases i, j
    {
      if j > 0 {
        if a < i || b < j - 1 {
          InBefore(i, j - 1, a, b);
        }
      } else {
        InBefore(i - 1, guests.Length1, a, b);
      }
    }

    lemma BeforeIsThreads(i: nat, j: nat, c: Candidate)
      requires i <= guests.Length0 && j <= guests.Length1 && (i == guests.Length0 ==> j == 0) && c in Before(i, j)
      ensures c.machine < guests.Length0 && c.thread < guests.Length1 && c == At(c.machine, c.thread)
      decreases i, j
    {
      if j > 0 {
        if c != At(i, j - 1) {
          BeforeIsThreads(i, j - 1, c);
        }
      } else {
        BeforeIsThreads(i - 1, guests.Length1, c);
      }
    }

    /** The quantum and the deadlines of all threads lie in the window shorter than 2^63 that begins at `start`. */
    ghost predicate OneWindow(start: Word, cap: Word)
      reads guests
    {
      && Within(start, cap)
      && forall i: nat, j: nat, t: Word | i < guests.Length0 && j < guests.Length1 && ReadsDeadline(guests[i, j], t) ::
           Within(start, t)
    }

    /**
     The host's deadline is the minimum of the quantum and the host times at which the threads'
     own clocks read their deadlines, and the target is a thread that attains it, or nobody if none
     comes strictly before the quantum.
     */
    ghost predicate Earliest(start: Word, cap: Word)
      reads this, guests
    {
      && Past(start, mtimecmp) <= Past(start, cap)
      && (forall i: nat, j: nat, t: Word | i < guests.Length0 && j < guests.Length1 && ReadsDeadline(guests[i, j], t) ::
            Past(start, mtimecmp) <= Past(start, t))
      && match target
         case Nobody => mtimecmp == cap
         case Thread(i, j) =>
           && i < guests.Length0 && j < guests.Length1 && ReadsDeadline(guests[i, j], mtimecmp)
           && Past(start, mtimecmp) < Past(start, cap)
    }

    lemma PickIsEarliest(start: Word, cap: Word)
      requires OneWindow(start, cap) && Pick(mtimecmp, target) == PickFrom(cap, All())
      ensures Earliest(start, cap)
    {
      var cs := All();
      forall k | 0 <= k < |cs| && cs[k].due.Some? ensures Within(start, cs[k].due.value) {
        BeforeIsThreads(guests.Length0, 0, cs[k]);
        DueReadsDeadline(guests[cs[k].machine, cs[k].thread]);
      }
      PickIsMinimum(start, cap, cs);
      forall i: nat, j: nat, t: Word | i < guests.Length0 && j < guests.Length1 && ReadsDeadline(guests[i, j], t)
        ensures Past(start, mtimecmp) <= Past(start, t)
      {
        DueReadsDeadline(guests[i, j]);
        InBefore(guests.Length0, 0, i, j);
        var k :| 0 <= k < |cs| && cs[k] == At(i, j);
      }
      if target.Thread? {
        var k: nat :| k < |cs| && FirstAt(start, cs, k, Pick(mtimecmp, target));
        BeforeIsThreads(guests.Length0, 0, cs[k]);
        DueReadsDeadline(guests[cs[k].machine, cs[k].thread]);
      }
    }

    ghost predicate EarliestInAnyWindow(cap: Word)
      reads this, guests
    {
      forall start: Word | OneWindow(start, cap) :: Earliest(start, cap)
    }

    lemma PickIsEarliestInAnyWindow(cap: Word)
      requires Pick(mtimecmp, target) == PickFrom(cap, All())
      ensures EarliestInAnyWindow(cap)
    {
      forall start: Word | OneWindow(start, cap) ensures Earliest(start, cap) {
        PickIsEarliest(start, cap);
      }
    }

    /** All guest threads. */
    ghost function All(): (cs: seq<Candidate>)
      reads guests
    {
      Before(guests.Length0, 0)
    }

    /** With one guest thread there is one candidate. */
    lemma SingleThread()
      requires guests.Length0 == 1 && guests.Length1 == 1
      ensures All() == [Candidate(0, 0, Due(guests[0, 0]))]
    {
      assert Before(0, 0) == [];
      assert Before(0, 1) == Before(0, 0) + [At(0, 0)];
    }

    /** `timer_interrupt_at`. */
    method InterruptAt(deadline: Word)
      modifies this`mtimecmp, this`enabled
      ensures mtimecmp == deadline && enabled
    {
      mtimecmp := deadline;
      enabled := true;
    }

    /** `timer_interrupt_sooner`. */
    method InterruptSooner(deadline: Word) returns (sooner: bool)
      modifies this`mtimecmp, this`enabled
      ensures sooner <==> Compare(deadline, old(mtimecmp)) == LT
      ensures if sooner then mtimecmp == deadline && enabled
              else mtimecmp == old(mtimecmp) && enabled == old(enabled)
    {
      match Compare(deadline, mtimecmp) {
        case LT =>
          mtimecmp := deadline;
          enabled := true;
          sooner := true;
        case _ =>
          sooner := false;
      }
    }

    /** `timer_reschedule`. */
    method Reschedule(now: Word)
      modifies this`mtimecmp, this`enabled, this`target
      ensures Pick(mtimecmp, target) == PickFrom(Wrap(now + QUANTUM), All()) && enabled
      ensures EarliestInAnyWindow(Wrap(now + QUANTUM))
    {
      target := Nobody;
      InterruptAt(Wrap(now + QUANTUM));
      for i := 0 to guests.Length0
        invariant enabled
        invariant Pick(mtimecmp, target) == PickFrom(Wrap(now + QUANTUM), Before(i, 0))
      {
        for j := 0 to guests.Length1
          invariant enabled
          invariant Pick(mtimecmp, target) == PickFrom(Wrap(now + QUANTUM), Before(i, j))
        {
          var guest := guests[i, j];
          assert Before(i, j + 1)[..|Before(i, j + 1)| - 1] == Before(i, j);
          if guest.scheduled {
            var sooner := InterruptSooner(Wrap(guest.deadline + guest.adjustment));
            if sooner {
              target := Thread(i, j);
            }
          }
        }
      }
      PickIsEarliestInAnyWindow(Wrap(now + QUANTUM));
    }

    /** `timer_suspend_virtual`. */
    method Suspend(i: nat, j: nat, now: Word)
      requires i < guests.Length0 && j < guests.Length1
      modifies guests
      ensures OnlyChanges(i, j, TimerSpec.Suspend(old(guests[i, j]), now))
    {
      guests[i, j] := guests[i, j].(suspendedAt := now);
    }

    /** `timer_resume_virtual`. */
    method Resume(i: nat, j: nat, now: Word)
      requires i < guests.Length0 && j < guests.Length1
      modifies guests
      ensures OnlyChanges(i, j, TimerSpec.Resume(old(guests[i, j]), now))
    {
      var guest := guests[i, j];
      guests[i, j] := guest.(adjustment := Wrap(guest.adjustment + Wrap(now - guest.suspendedAt) + EXTRA_CYCLES));
    }

    /** The part of `timer_on_interrupt` about the timer. */
    method Unschedule(i: nat, j: nat)
      requires i < guests.Length0 && j < guests.Length1
      modifies guests
      ensures OnlyChanges(i, j, old(guests[i, j]).(scheduled := false))
    {
      guests[i, j] := guests[i, j].(scheduled := false);
    }

    /** The store to the virtual `mtimecmp`. */
    method StoreDeadline(i: nat, j: nat, value: Word)
      requires i < guests.Length0 && j < guests.Length1
      modifies guests
      ensures OnlyChanges(i, j, old(guests[i, j]).(deadline := value, scheduled := true))
    {
      guests[i, j] := guests[i, j].(deadline := value, scheduled := true);
    }

    /** One guest thread has the given timer now, and the others are as before. */
    twostate predicate OnlyChanges(i: nat, j: nat, g: GuestTimer)
      requires i < guests.Length0 && j < guests.Length1
      reads guests
    {
      && guests[i, j] == g
      && forall a: nat, b: nat | a < guests.Length0 && b < guests.Length1 && (a != i || b != j) ::
           guests[a, b] == old(guests[a, b])
    }
  }
}
