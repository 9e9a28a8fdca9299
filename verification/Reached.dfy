/** What holds in every state that a run reaches. */
module Reached {
  import opened Words
  import opened Image
  import opened Tables
  import opened GuestTables
  import opened Paging
  import opened PrivilegeSpec
  import opened ShadowRuns
  import opened Instructions
  import opened Traps
  import opened Machines
  import opened Runs
  import Faults
  import T = TimerSpec

  // ---------------------------------------------------------------- the parts of a run

  /** The event of the privilege state that one step of a run is, if it is one. */
  ghost function StepEvents(a: Machine, i: Input, x: Effect): (e: seq<Event>) {
    match i
    case Guest(pc, trapValue, _) => [GuestRuns(pc, trapValue)]
    case Trap(_, _, times, _) => [EventOf(Suspended(a, times.entered), x)]
    case _ => []
  }

  ghost function Events(script: seq<Input>, log: Log, n: nat): (e: seq<Event>)
    requires n <= |log.effects| <= |script| && |log.states| == |log.effects| + 1
  {
    if n == 0 then []
    else Events(script, log, n - 1) + StepEvents(log.states[n - 1], script[n - 1], log.effects[n - 1])
  }

  /** The trap of the timer that one step of a run is, with its own times. */
  function StepTraps(a: Machine, i: Input, x: Effect): (t: seq<T.Trap>) {
    match i
    case Trap(_, _, times, _) =>
      [T.Trap(times.entered, times.left, times.rescheduled, ActionOf(Suspended(a, times.entered), x))]
    case _ => []
  }

  function TimerTraps(script: seq<Input>, log: Log, n: nat): (t: seq<T.Trap>)
    requires n <= |log.effects| <= |script| && |log.states| == |log.effects| + 1
  {
    if n == 0 then []
    else TimerTraps(script, log, n - 1) + StepTraps(log.states[n - 1], script[n - 1], log.effects[n - 1])
  }

  /** The shadow table's part of one step. */
  lemma StepInParts(script: seq<Input>, log: Log, k: nat)
    requires Records(script, log) && k < |log.effects|
    ensures Sound(log.states[k]) && Sound(log.states[k + 1])
    ensures ShadowStep(log.states[k].snap, IsFlush(log.effects[k]), log.states[k + 1].snap)
    ensures KeepsMachine(log.states[k].snap.pages, log.states[k + 1].snap.pages)
  {
    assert StepAt(script, log, k);
    var a, x, b := log.states[k], log.effects[k], log.states[k + 1];
    match script[k]
    case Trap(mcause, fromGuest, times, host) => TrapInParts(a, mcause, fromGuest, times, host, x, b);
    case _ =>
      forall v: nat | v < VPNS ensures PageStep(a.snap, false, b.snap, v) {
      }
  }

  /** The privilege state and the timer after one step. */
  ghost predicate PartStep(a: Machine, i: Input, x: Effect, b: Machine) {
    var e, t := StepEvents(a, i, x), StepTraps(a, i, x);
    && (if e == [] then b.t == a.t else |e| == 1 && Apply(a.t, e[0]) == Some(b.t))
    && (if t == [] then b.clock == a.clock && (e != [] ==> !e[0].Interrupt?)
        else |t| == 1 && e != [] && b.clock == T.Serve(a.clock, t[0]) && (T.Defers(a.clock, t[0]) <==> e[0].Interrupt?))
  }

  lemma StepOfParts(a: Machine, i: Input, x: Effect, b: Machine)
    requires Shaped(a) && Shaped(b) && Does(a, i, x, b)
    ensures PartStep(a, i, x, b)
  {
    match i
    case Trap(mcause, fromGuest, times, host) => TrapInParts(a, mcause, fromGuest, times, host, x, b);
    case _ =>
  }

  lemma AppendEvent(events: seq<Event>, e: Event)
    requires After(events).Some?
    ensures After(events + [e]) == Apply(After(events).value, e)
    ensures AllAccepted(events + [e]) == AllAccepted(events) + Accepted(After(events).value, e)
  {
    assert (events + [e])[..|events|] == events;
  }

  lemma AppendTrap(traps: seq<T.Trap>, t: T.Trap)
    ensures T.Served(traps + [t]) == T.Serve(T.Served(traps), t)
    ensures T.Deferrals(traps + [t]) == T.Deferrals(traps) + (if T.Defers(T.Served(traps), t) then 1 else 0)
  {
    assert (traps + [t])[..|traps|] == traps;
  }

  /** The events and timer traps of the run so far lead to this state. */
  ghost predicate LeadTo(events: seq<Event>, traps: seq<T.Trap>, m: Machine) {
    && After(events) == Some(m.t) && T.Served(traps) == m.clock
    && |AllAccepted(events)| <= T.Deferrals(traps)
  }

  lemma LeadFurther(events: seq<Event>, traps: seq<T.Trap>, a: Machine, i: Input, x: Effect, b: Machine)
    requires LeadTo(events, traps, a) && PartStep(a, i, x, b)
    ensures LeadTo(events + StepEvents(a, i, x), traps + StepTraps(a, i, x), b)
  {
    var e, t := StepEvents(a, i, x), StepTraps(a, i, x);
    assert events + [] == events && traps + [] == traps;
    if e != [] {
      AppendEvent(events, e[0]);
      assert e == [e[0]];
    }
    if t != [] {
      AppendTrap(traps, t[0]);
      assert t == [t[0]];
    }
  }

  lemma NothingLeads(m: Machine)
    requires Starts(m)
    ensures LeadTo([], [], m)
  {
  }

  ghost predicate PartAt(script: seq<Input>, log: Log, k: nat)
    requires k < |log.effects| <= |script| && |log.states| == |log.effects| + 1
  {
    PartStep(log.states[k], script[k], log.effects[k], log.states[k + 1])
  }

  lemma {:induction false} PartsLead(script: seq<Input>, log: Log, n: nat)
    requires n <= |log.effects| <= |script| && |log.states| == |log.effects| + 1 && LeadTo([], [], log.states[0])
    requires forall k: nat | k < |log.effects| :: PartAt(script, log, k)
    ensures LeadTo(Events(script, log, n), TimerTraps(script, log, n), log.states[n])
  {
    if n == 0 {
      assert Events(script, log, 0) == [] && TimerTraps(script, log, 0) == [];
    } else {
      PartsLead(script, log, n - 1);
      StepLeads(script, log, n - 1);
    }
  }

  lemma StepLeads(script: seq<Input>, log: Log, k: nat)
    requires k < |log.effects| <= |script| && |log.states| == |log.effects| + 1 && PartAt(script, log, k)
    requires LeadTo(Events(script, log, k), TimerTraps(script, log, k), log.states[k])
    ensures LeadTo(Events(script, log, k + 1), TimerTraps(script, log, k + 1), log.states[k + 1])
  {
    LeadFurther(Events(script, log, k), TimerTraps(script, log, k),
                log.states[k], script[k], log.effects[k], log.states[k + 1]);
  }

  /** A run of the machine is a run of the privilege state and one of the timer, with the same deferrals. */
  lemma RunInParts(script: seq<Input>, log: Log, n: nat)
    requires Records(script, log) && Starts(log.states[0]) && n <= |log.effects|
    ensures LeadTo(Events(script, log, n), TimerTraps(script, log, n), log.states[n])
  {
    forall k: nat | k < |log.effects| ensures PartAt(script, log, k) {
      assert StepAt(script, log, k);
      StepOfParts(log.states[k], script[k], log.effects[k], log.states[k + 1]);
    }
    NothingLeads(log.states[0]);
    PartsLead(script, log, n);
  }

  function Snaps(log: Log): (s: seq<Snapshot>)
    ensures |s| == |log.states| && forall k | 0 <= k < |s| :: s[k] == log.states[k].snap
  {
    seq(|log.states|, k requires 0 <= k < |log.states| => log.states[k].snap)
  }

  function Flushes(log: Log): (f: seq<bool>)
    ensures |f| == |log.effects| && forall k | 0 <= k < |f| :: f[k] == IsFlush(log.effects[k])
  {
    seq(|log.effects|, k requires 0 <= k < |log.effects| => IsFlush(log.effects[k]))
  }

  lemma ShadowPart(script: seq<Input>, log: Log)
    requires Records(script, log) && Starts(log.states[0])
    ensures IsRun(Snaps(log), Flushes(log))
  {
    forall k | 0 <= k < |log.effects| ensures ShadowStep(Snaps(log)[k], Flushes(log)[k], Snaps(log)[k + 1]) {
      StepInParts(script, log, k);
    }
  }

  // ---------------------------------------------------------------- the shadow table

  /** No flush from state `j` to state `n`. */
  predicate NoFlush(log: Log, j: nat, n: nat)
    requires n <= |log.effects|
  {
    forall k | j <= k < n :: !IsFlush(log.effects[k])
  }

  /**
   In every state of a run, each shadow mapping is where the guest's own tables, as they were in
   RAM at some moment since the last flush, and the machine's offset put the page.
   */
  lemma ShadowOfRun(script: seq<Input>, log: Log, n: nat, vpn: nat) returns (j: nat)
    requires Records(script, log) && Starts(log.states[0]) && n <= |log.effects| && vpn < VPNS
    requires Shaped(log.states[n]) && Mapping(log.states[n].snap, vpn).Some?
    ensures j <= n && NoFlush(log, j, n) && Shaped(log.states[j])
    ensures Truth(log.states[j].snap, vpn) == Some(Mapping(log.states[n].snap, vpn).value.base)
  {
    ShadowPart(script, log);
    j := ShadowIsExplained(Snaps(log), Flushes(log), n, vpn);
    forall k | j <= k < n ensures !IsFlush(log.effects[k]) {
      assert !Flushes(log)[k];
    }
  }

  /**
   In every state of a run, if the guest's own translation of a page has not changed since the last
   flush, the shadow table maps the page exactly there, or not at all.
   */
  lemma ShadowRefinesGuestInRun(script: seq<Input>, log: Log, n: nat, vpn: nat)
    requires Records(script, log) && Starts(log.states[0]) && n <= |log.effects| && vpn < VPNS && Shaped(log.states[n])
    requires forall j: nat | j <= n && NoFlush(log, j, n) && Shaped(log.states[j]) ::
               Truth(log.states[j].snap, vpn) == Truth(log.states[n].snap, vpn)
    ensures var l := Mapping(log.states[n].snap, vpn);
            l.Some? ==> Truth(log.states[n].snap, vpn) == Some(l.value.base)
  {
    if Mapping(log.states[n].snap, vpn).Some? {
      var j := ShadowOfRun(script, log, n, vpn);
    }
  }

  /** The guest's tables and `satp` put every page where they did at state `i`, in all states up to `n`. */
  ghost predicate TruthFixed(log: Log, i: nat, n: nat)
    requires i <= n < |log.states|
  {
    forall k: nat | i <= k <= n && Shaped(log.states[k]) && Shaped(log.states[i]) ::
      SameTruth(log.states[i].snap, log.states[k].snap)
  }

  /** A RAM fault that was served in user mode with paging. */
  predicate IsUserFault(a: Machine, x: Effect) {
    x.Fault? && x.gm >= RAM_START && a.t.shadowActive
  }

  /** A RAM fault that was served on the machine table. */
  predicate IsMachineFault(a: Machine, x: Effect) {
    x.Fault? && x.gm >= RAM_START && !a.t.shadowActive
  }

  function Count(flags: seq<bool>): (c: nat) {
    if flags == [] then 0 else Count(flags[..|flags| - 1]) + (if flags[|flags| - 1] then 1 else 0)
  }

  /** Which of the steps from state `i` to state `n` served a RAM fault in user mode, or on the machine table. */
  function UserFaults(log: Log, i: nat, n: nat): (flags: seq<bool>)
    requires i <= n <= |log.effects| && |log.states| == |log.effects| + 1
    ensures |flags| == n - i
    ensures forall k: nat | k < n - i :: flags[k] == IsUserFault(log.states[i + k], log.effects[i + k])
  {
    seq(n - i, k requires 0 <= k < n - i => IsUserFault(log.states[i + k], log.effects[i + k]))
  }

  function MachineFaults(log: Log, n: nat): (flags: seq<bool>)
    requires n <= |log.effects| && |log.states| == |log.effects| + 1
    ensures |flags| == n
    ensures forall k: nat | k < n :: flags[k] == IsMachineFault(log.states[k], log.effects[k])
  {
    seq(n, k requires 0 <= k < n => IsMachineFault(log.states[k], log.effects[k]))
  }

  /** Sets that only grow cannot grow more often than the last one has elements. */
  lemma {:induction false} GrowthsAreBounded(sets: seq<set<nat>>, grows: seq<bool>)
    requires |sets| == |grows| + 1
    requires forall k: nat | k < |grows| :: sets[k] <= sets[k + 1] && (grows[k] ==> sets[k] < sets[k + 1])
    ensures Count(grows) <= |sets[|grows|]|
  {
    if grows != [] {
      var n := |grows| - 1;
      GrowthsAreBounded(sets[..n + 1], grows[..n]);
      SubsetCount(sets[n], sets[n + 1]);
    }
  }

  /** What a served RAM fault adds to the tables. */
  lemma FaultAdds(a: Machine, i: Input, x: Effect, b: Machine)
    requires Sound(a) && Sound(b) && Does(a, i, x, b)
    ensures IsUserFault(a, x) ==> Right(a.snap) < Right(b.snap)
    ensures IsMachineFault(a, x) ==> Regions(a.snap.pages) < Regions(b.snap.pages)
  {
    if x.Fault? && x.gm >= RAM_START {
      if a.t.shadowActive {
        Faults.ShadowFaultMakesProgress(a.snap, a.own, b.snap, x.a.address, x.gm, x.access);
      } else {
        Faults.MachineFaultMakesProgress(a.snap, a.own, b.snap, x.gm, x.access);
      }
    }
  }

  /** No fault in RAM is served twice in a row: the access is permitted by then. */
  lemma NeverServedTwice(script: seq<Input>, log: Log, k: nat)
    requires Records(script, log) && k + 1 < |log.effects|
    requires log.effects[k].Fault? && log.effects[k].gm >= RAM_START && log.effects[k + 1].Fault?
    ensures log.effects[k + 1].access != log.effects[k].access || log.effects[k + 1].a != log.effects[k].a
  {
    assert StepAt(script, log, k) && StepAt(script, log, k + 1) && Sound(log.states[k + 1]);
    match (script[k], script[k + 1])
    case (Trap(mcause, fromGuest, times, host), Trap(mcause', fromGuest', times', host')) =>
      TrapNotServedTwice(log.states[k], mcause, fromGuest, times, host, log.effects[k], log.states[k + 1],
                         mcause', fromGuest', times', host', log.effects[k + 1], log.states[k + 2]);
    case _ =>
  }

  /**
   A guest that jumps, on the machine table, to an address of RAM that is not canonical, such as
   2^38: the fault is served, the MMU raises it again, and the run ends.
   */
  lemma NonCanonicalFetchStops(script: seq<Input>, log: Log, k: nat)
    requires Records(script, log) && k < |log.effects| && k + 1 < |script|
    requires script[k].Trap? && script[k + 1].Trap? && script[k].mcause == 12 && script[k + 1].mcause == 12
    requires var t := log.states[k].t; InRam(t.pc) && !Canonical(t.pc) && !t.shadowActive
    ensures |log.effects| == k + 1
    ensures Shaped(log.states[k + 1]) && AccessAt(log.states[k + 1], log.states[k].t.pc, Execute) == None
  {
    assert StepAt(script, log, k);
    assert |log.effects| > k + 1 ==> StepAt(script, log, k + 1) && Sound(log.states[k + 1]);
    match (script[k], script[k + 1])
    case (Trap(_, fromGuest, times, host), Trap(_, fromGuest', times', host')) =>
      var a, b := log.states[k], log.states[k + 1];
      NonCanonicalFetch(a, fromGuest, times, host, log.effects[k], b);
      if |log.effects| > k + 1 {
        NonCanonicalFetchTwice(a, fromGuest, times, host, log.effects[k], b,
                               fromGuest', times', host', log.effects[k + 1], log.states[k + 2]);
      }
  }

  /** The accesses that the shadow table rightly permits. */
  ghost function RightIn(m: Machine): (r: set<nat>) {
    if Shaped(m) then Right(m.snap) else {}
  }

  ghost function RightSets(log: Log, i: nat, n: nat): (s: seq<set<nat>>)
    requires i <= n < |log.states|
    ensures |s| == n - i + 1 && forall k: nat | k <= n - i :: s[k] == RightIn(log.states[i + k])
  {
    seq(n - i + 1, k requires 0 <= k <= n - i => RightIn(log.states[i + k]))
  }

  ghost function RegionSets(log: Log): (s: seq<set<nat>>)
    ensures |s| == |log.states| && forall k: nat | k < |s| :: s[k] == Regions(log.states[k].snap.pages)
  {
    seq(|log.states|, k requires 0 <= k < |log.states| => Regions(log.states[k].snap.pages))
  }

  /** One step, while the guest's translations stay the same and there is no flush. */
  lemma RightStep(script: seq<Input>, log: Log, i: nat, n: nat, k: nat)
    requires Records(script, log) && i <= k < n <= |log.effects| && !IsFlush(log.effects[k]) && TruthFixed(log, i, n)
    ensures RightIn(log.states[k]) <= RightIn(log.states[k + 1])
    ensures IsUserFault(log.states[k], log.effects[k]) ==> RightIn(log.states[k]) < RightIn(log.states[k + 1])
  {
    StepInParts(script, log, k);
    assert StepAt(script, log, k) && Sound(log.states[i]);
    FaultAdds(log.states[k], script[k], log.effects[k], log.states[k + 1]);
    SameTruthTransitively(log.states[i].snap, log.states[k].snap, log.states[k + 1].snap);
    RightIsKept(log.states[k].snap, log.states[k + 1].snap);
  }

  lemma RegionStep(script: seq<Input>, log: Log, k: nat)
    requires Records(script, log) && k < |log.effects|
    ensures var m, m' := log.states[k].snap.pages, log.states[k + 1].snap.pages;
            Regions(m) <= Regions(m') && (IsMachineFault(log.states[k], log.effects[k]) ==> Regions(m) < Regions(m'))
  {
    StepInParts(script, log, k);
    assert StepAt(script, log, k);
    FaultAdds(log.states[k], script[k], log.effects[k], log.states[k + 1]);
    RegionsAreKept(log.states[k].snap.pages, log.states[k + 1].snap.pages);
  }

  ghost predicate RightGrows(log: Log, k: nat)
    requires k < |log.effects| && |log.states| == |log.effects| + 1
  {
    && RightIn(log.states[k]) <= RightIn(log.states[k + 1])
    && (IsUserFault(log.states[k], log.effects[k]) ==> RightIn(log.states[k]) < RightIn(log.states[k + 1]))
  }

  lemma UserFaultsAdd(log: Log, i: nat, n: nat)
    requires |log.states| == |log.effects| + 1 && i <= n <= |log.effects|
    requires forall k: nat | i <= k < n :: RightGrows(log, k)
    ensures Count(UserFaults(log, i, n)) <= |RightIn(log.states[n])|
  {
    var sets, grows := RightSets(log, i, n), UserFaults(log, i, n);
    forall k: nat | k < |grows| ensures sets[k] <= sets[k + 1] && (grows[k] ==> sets[k] < sets[k + 1]) {
      assert RightGrows(log, i + k);
    }
    GrowthsAreBounded(sets, grows);
  }

  /**
   Over any stretch of a run without a flush, while the guest's translations stay the same, no more
   user-mode faults in RAM are served than there are accesses to pages.
   */
  lemma UserFaultsAreBounded(script: seq<Input>, log: Log, i: nat, n: nat)
    requires Records(script, log) && i <= n <= |log.effects| && NoFlush(log, i, n) && TruthFixed(log, i, n)
    ensures Count(UserFaults(log, i, n)) <= |RightIn(log.states[n])| <= 3 * VPNS
  {
    forall k: nat | i <= k < n ensures RightGrows(log, k) {
      RightStep(script, log, i, n, k);
    }
    UserFaultsAdd(log, i, n);
    BoundedCount(RightIn(log.states[n]), 3 * VPNS);
  }

  lemma SameTruthTransitively(i: Snapshot, a: Snapshot, b: Snapshot)
    requires WellFormed(i) && WellFormed(a) && WellFormed(b) && SameTruth(i, a) && SameTruth(i, b)
    ensures SameTruth(a, b)
  {
    forall v: nat | v < VPNS ensures Truth(a, v) == Truth(b, v) {
      assert Truth(i, v) == Truth(a, v) && Truth(i, v) == Truth(b, v);
    }
  }

  /** Over any run, no more RAM faults are served on the machine table than it has regions. */
  lemma MachineFaultsAreBounded(script: seq<Input>, log: Log)
    requires Records(script, log)
    ensures Count(MachineFaults(log, |log.effects|)) <= |Regions(Last(log).snap.pages)| <= REGIONS
  {
    var sets, grows := RegionSets(log), MachineFaults(log, |log.effects|);
    forall k: nat | k < |grows| ensures sets[k] <= sets[k + 1] && (grows[k] ==> sets[k] < sets[k + 1]) {
      RegionStep(script, log, k);
    }
    GrowthsAreBounded(sets, grows);
    BoundedCount(Regions(Last(log).snap.pages), REGIONS);
  }

  lemma {:induction false} KeptThroughout(snaps: seq<Snapshot>, i: nat, n: nat)
    requires i <= n < |snaps| && forall k: nat | k < |snaps| - 1 :: KeepsMachine(snaps[k].pages, snaps[k + 1].pages)
    ensures KeepsMachine(snaps[i].pages, snaps[n].pages)
  {
    if n > i {
      KeptThroughout(snaps, i, n - 1);
      KeepsMachineTransitively(snaps[i].pages, snaps[n - 1].pages, snaps[n].pages);
    }
  }

  /** Nothing that the machine table maps is ever unmapped or moved. */
  lemma MachineOfRun(script: seq<Input>, log: Log, i: nat, n: nat)
    requires Records(script, log) && i <= n <= |log.effects|
    ensures KeepsMachine(log.states[i].snap.pages, log.states[n].snap.pages)
  {
    var snaps := Snaps(log);
    forall k: nat | k < |snaps| - 1 ensures KeepsMachine(snaps[k].pages, snaps[k + 1].pages) {
      StepInParts(script, log, k);
    }
    KeptThroughout(snaps, i, n);
  }

  /** In every state of a run, each leaf of either root maps guest RAM, above the hypervisor's own memory. */
  lemma LeavesOfRun(script: seq<Input>, log: Log, n: nat, root: nat, vpn: nat)
    requires Records(script, log) && n <= |log.effects|
    requires root < PAGES && (root == ROOT || log.states[n].snap.shadowRoot == Some(root))
    ensures var l := Walk(log.states[n].snap.pages, root, 2, vpn);
            l.Some? ==> GUEST_HOST_START <= l.value.base && l.value.base + LeafBytes(l.value.level) <= TWO64
  {
    assert Sound(log.states[n]);
    LeafIsGuestMemory(log.states[n].snap.pages, log.states[n].own, log.states[n].snap.shadowRoot, root, vpn);
  }

  /** In no state of a run does the MMU let the guest at a page of the hypervisor. */
  lemma GuestIsConfined(script: seq<Input>, log: Log, n: nat, va: Word, access: Access)
    requires Records(script, log) && n <= |log.effects| && Shaped(log.states[n])
    ensures var address := AccessAt(log.states[n], va, access);
            address.Some? ==> address.value < TWO64 && !InHypervisorPage(address.value)
  {
    var m := log.states[n];
    assert Sound(m);
    Faults.UserAccessIsInRam(m.snap.pages, m.own, m.snap.shadowRoot, Root(m), va, access);
    if AccessAt(log.states[n], va, access).Some? {
      GuestRamIsDisjoint(AccessAt(log.states[n], va, access).value);
    }
  }

  // ---------------------------------------------------------------- privilege and timer

  /**
   In every state of a run the host translates with the shadow table exactly while it is active,
   which is in user mode only; every exception that was accepted was delivered once or is still
   pending, and there are no more of them than stores to the guest's deadline; and the guest's clock
   lags by the time that the traps of the script spent in the hypervisor.
   */
  lemma StateOfRun(script: seq<Input>, log: Log, n: nat)
    requires Records(script, log) && Starts(log.states[0]) && n <= |log.effects|
    ensures Inv(log.states[n].t)
    ensures var events, traps := Events(script, log, n), TimerTraps(script, log, n);
            && AllAccepted(events) == AllDelivered(events) + Pending(log.states[n].t)
            && |AllDelivered(events)| + |Pending(log.states[n].t)|
               + (if log.states[n].clock.guest.scheduled then 1 else 0)
               <= T.Stores(traps)
            && log.states[n].clock.guest.adjustment == Wrap(T.Hidden(traps))
  {
    RunInParts(script, log, n);
    assert LeadTo(Events(script, log, n), TimerTraps(script, log, n), log.states[n]);
    EveryRun(Events(script, log, n));
    T.OneDeferralPerStore(TimerTraps(script, log, n));
    T.AdjustmentIsHiddenTime(TimerTraps(script, log, n));
  }

  /**
   When a run defers a timer exception, and the host's timer did not interrupt before its time, the
   guest's own clock has reached the guest's deadline, exactly if the due time did not wrap around or
   the adjustment exceeds the host's time.
   */
  lemma DeferralOfRun(script: seq<Input>, log: Log, k: nat)
    requires Records(script, log) && Starts(log.states[0]) && k < |log.effects| && script[k].Trap?
    requires log.effects[k].TimerTrap? && log.states[k].clock.targeted
    requires log.states[k].clock.mtimecmp <= script[k].times.entered
    ensures var g, entered := log.states[k].clock.guest, script[k].times.entered;
            T.VirtualTime(g, entered) >= g.deadline <==> g.deadline + g.adjustment < TWO64 || entered < g.adjustment
  {
    RunInParts(script, log, k);
    assert LeadTo(Events(script, log, k), TimerTraps(script, log, k), log.states[k]);
    match script[k]
    case Trap(_, _, times, _) =>
      T.DeferralIsNotEarly(TimerTraps(script, log, k),
                           T.Trap(times.entered, times.left, times.rescheduled, T.TimerInterrupt));
  }
}
