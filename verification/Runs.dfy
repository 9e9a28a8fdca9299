/**
 Whole runs of the machine: the guest executing and storing as it pleases, and the hypervisor
 serving its traps. What was proved about each part holds in every state that is reached.
 */
module Runs {
  import opened Words
  import opened Image
  import opened Tables
  import opened GuestTables
  import opened PagePool
  import opened Paging
  import opened PrivilegeSpec
  import opened ShadowRuns
  import opened Machines
  import opened Hypervisor
  import T = TimerSpec
  import D = Decoder
  import Devices
  import Faults
  import Timer

  // ---------------------------------------------------------------- what is recorded of a run

  /** What happens next, as far as the hypervisor does not decide it. */
  datatype Input =
    | Store(va: Word, word: Word)
    | Lookup(vpn: nat)
    | Guest(pc: Word, trapValue: Word, regs: D.Registers)
    | Trap(mcause: Word, fromGuest: bool, times: Times, host: Devices.Host)

  predicate Possible(i: Input) {
    i.Lookup? ==> i.vpn < VPNS
  }

  /** All states of a run, from the first to the last, and what came of each input in between. */
  datatype Log = Log(states: seq<Machine>, effects: seq<Effect>)

  /** One step of the machine. */
  ghost predicate Does(a: Machine, i: Input, x: Effect, b: Machine)
    requires Shaped(a) && Shaped(b)
  {
    match i
    case Store(va, word) => x == Quiet && b == Stored(a, va, word)
    case Lookup(_) => x == Quiet && b == a
    case Guest(pc, trapValue, regs) => x == Quiet && b == Resumed(a, pc, trapValue, regs)
    case Trap(mcause, fromGuest, times, host) => TrapServed(a, mcause, fromGuest, times, host, x, b)
  }

  /** The log has one state more than it has inputs of the script behind it, and each input made its step. */
  ghost predicate Records(script: seq<Input>, log: Log) {
    && |log.states| == |log.effects| + 1 && |log.effects| <= |script|
    && (forall k | 0 <= k < |log.states| :: Sound(log.states[k]))
    && forall k: nat | k < |log.effects| :: StepAt(script, log, k)
  }

  ghost predicate StepAt(script: seq<Input>, log: Log, k: nat)
    requires |log.states| == |log.effects| + 1 && |log.effects| <= |script| && k < |log.effects|
  {
    && Shaped(log.states[k]) && Shaped(log.states[k + 1])
    && Does(log.states[k], script[k], log.effects[k], log.states[k + 1])
  }

  function Last(log: Log): (m: Machine)
    requires log.states != []
  {
    log.states[|log.states| - 1]
  }

  function Extended(log: Log, x: Effect, m: Machine): (e: Log) {
    Log(log.states + [m], log.effects + [x])
  }

  lemma RecordsMore(script: seq<Input>, log: Log, x: Effect, m: Machine)
    requires Records(script, log) && |log.effects| < |script| && Sound(m)
    requires Does(Last(log), script[|log.effects|], x, m)
    ensures Records(script, Extended(log, x, m))
  {
    var e := Extended(log, x, m);
    forall k: nat | k < |e.effects| ensures StepAt(script, e, k) {
      if k < |log.effects| {
        assert StepAt(script, log, k);
        StepStays(script, log, e, k);
      } else {
        NewStep(script, log, x, m);
      }
    }
  }

  lemma StepStays(script: seq<Input>, log: Log, e: Log, k: nat)
    requires |log.states| == |log.effects| + 1 && |log.effects| <= |script|
    requires k < |log.effects| && StepAt(script, log, k)
    requires |e.states| == |e.effects| + 1 && |e.effects| <= |script| && k < |e.effects|
    requires e.states[k] == log.states[k] && e.states[k + 1] == log.states[k + 1] && e.effects[k] == log.effects[k]
    ensures StepAt(script, e, k)
  {
  }

  lemma NewStep(script: seq<Input>, log: Log, x: Effect, m: Machine)
    requires |log.states| == |log.effects| + 1 && |log.effects| < |script| && Shaped(Last(log)) && Shaped(m)
    requires Does(Last(log), script[|log.effects|], x, m)
    ensures StepAt(script, Extended(log, x, m), |log.effects|)
  {
  }

  /** The input led to a panic, for a reason that holds of the machine `b` at that moment. */
  ghost predicate Fails(a: Machine, i: Input, gm: Word, r: Outcome, b: Machine)
    requires Shaped(a)
  {
    i.Trap? && TrapFails(a, i.mcause, i.fromGuest, i.times, i.host, gm, r, b)
  }

  // ---------------------------------------------------------------- running

  /** One input; false stands for a panic. */
  method Advance(g: GuestThread, i: Input) returns (ok: bool, ghost x: Effect, ghost gm: Word, ghost r: Outcome)
    requires g.Valid() && Possible(i)
    modifies g, g.timer`mtimecmp, g.timer`enabled, g.timer`target, g.timer.guests,
             g.spaces`own, g.spaces`tlb, g.spaces`shadowRoot, g.spaces`satp, g.spaces`ram,
             g.spaces.pool, g.spaces.pool.pages
    ensures ok ==> g.Valid() && Does(old(g.Now()), i, x, g.Now())
    ensures !ok ==> Fails(old(g.Now()), i, gm, r, g.Now())
  {
    ok, x, gm, r := true, Quiet, 0, Panic;
    match i {
      case Store(va, word) =>
        var _ := g.GuestStore(va, word);
      case Lookup(vpn) =>
        g.CacheTranslation(vpn);
      case Guest(pc, trapValue, regs) =>
        g.RunUntilTrap(pc, trapValue, regs);
      case Trap(mcause, fromGuest, times, host) =>
        ok, x, gm, r := g.Trap(mcause, fromGuest, times, host);
    }
  }

  /**
   Any run of the machine, to the end of the script or to a panic. The log records every state in
   between, from the one the run starts in to the one it ends in; after a panic, it says which
   input led to it and why.
   */
  method Drive(g: GuestThread, script: seq<Input>) returns (ok: bool, ghost log: Log, ghost gm: Word, ghost r: Outcome)
    requires g.Valid() && forall k | 0 <= k < |script| :: Possible(script[k])
    modifies g, g.timer`mtimecmp, g.timer`enabled, g.timer`target, g.timer.guests,
             g.spaces`own, g.spaces`tlb, g.spaces`shadowRoot, g.spaces`satp, g.spaces`ram,
             g.spaces.pool, g.spaces.pool.pages
    ensures Records(script, log) && log.states[0] == old(g.Now())
    ensures ok ==> g.Valid() && |log.effects| == |script| && Last(log) == g.Now()
    ensures !ok ==> |log.effects| < |script| && Fails(Last(log), script[|log.effects|], gm, r, g.Now())
  {
    ok, gm, r := true, 0, Panic;
    log := Log([g.Now()], []);
    var i := 0;
    while i < |script|
      invariant i <= |script| && g.Valid()
      invariant Records(script, log) && |log.effects| == i && Last(log) == g.Now() && log.states[0] == old(g.Now())
    {
      ghost var x;
      ok, x, gm, r := Advance(g, script[i]);
      if !ok {
        return;
      }
      RecordsMore(script, log, x, g.Now());
      log := Extended(log, x, g.Now());
      i := i + 1;
    }
  }

  /** `boot_main`: the machine before its first guest instruction, with anything in the pool and in guest RAM. */
  method Boot(pages: array<Page>, ram: Ram, regs: D.Registers) returns (g: GuestThread)
    requires pages.Length == PAGES && pages[ROOT] == ZeroPage()
    ensures fresh(g) && fresh(g.spaces) && fresh(g.timer) && fresh(g.timer.guests) && fresh(g.spaces.pool)
    ensures g.spaces.pool.pages == pages
    ensures g.Valid() && Starts(g.Now())
    ensures g.Now().snap.pages == old(pages[..]) && g.Now().snap.ram == ram && g.Now().regs == regs
  {
    var pool := new Pool(pages);
    var spaces := new AddressSpaces.Boot(pool, ram);
    var timer := new Timer.HostTimer(1, 1);
    g := new GuestThread.Boot(spaces, timer, regs);
  }

  /** The guest has not run yet. */
  predicate Starts(m: Machine) {
    m.t == PrivilegeSpec.INITIAL && m.clock == T.INITIAL && m.snap.shadowRoot.None?
  }

  /** Any run from boot. */
  method Run(pages: array<Page>, ram: Ram, regs: D.Registers, script: seq<Input>)
    returns (ok: bool, g: GuestThread, ghost log: Log, ghost gm: Word, ghost r: Outcome)
    requires pages.Length == PAGES && pages[ROOT] == ZeroPage()
    requires forall k | 0 <= k < |script| :: Possible(script[k])
    modifies pages
    ensures g.spaces.pool.pages == pages && g.timer.guests.Length0 == 1 && g.timer.guests.Length1 == 1
    ensures Records(script, log) && Starts(log.states[0])
    ensures var m := log.states[0]; m.snap.pages == old(pages[..]) && m.snap.ram == ram && m.regs == regs
    ensures ok ==> g.Valid() && |log.effects| == |script| && Last(log) == g.Now()
    ensures !ok ==> |log.effects| < |script| && Fails(Last(log), script[|log.effects|], gm, r, g.Now())
  {
    g := Boot(pages, ram, regs);
    ok, log, gm, r := Drive(g, script);
  }
}
