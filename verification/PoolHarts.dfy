/**
 The page allocator under any number of harts. Each step of a schedule is one access to shared
 memory by one hart; the lock is a flag that is tested and set atomically.
 */
module PoolHarts {
  import opened Words
  import opened Image
  import opened AllocatorSpec

  // ---------------------------------------------------------------- harts

  /** Where a hart is in `allocate_page` or `deallocate_page`. */
  datatype Pc =
    | Client
    | AllocAcquire
    | AllocReadTop
    | AllocReadNext(entry: nat)
    | AllocWriteTop(entry: nat, next: Option<nat>)
    | AllocReadIndex
    | AllocWriteIndex(index: nat)
    | AllocRelease(result: Option<nat>)
    | AllocReturn(result: Option<nat>)
    | FreeAcquire(page: nat)
    | FreeReadTop(page: nat)
    | FreeWriteNext(page: nat, top: Option<nat>)
    | FreeWriteTop(page: nat)
    | FreeRelease

  /** Between taking the lock and giving it back. */
  predicate Critical(pc: Pc) {
    !pc.Client? && !pc.AllocAcquire? && !pc.AllocReturn? && !pc.FreeAcquire?
  }

  /** `owned` are the pages the hart's own code may use. */
  datatype Hart = Hart(pc: Pc, owned: set<nat>, returned: seq<Option<nat>>)

  /**
   Shared memory: the lock, `free_list_top`, word 0 of every page read as a pointer, and
   `next_unallocated_idx`. `log` records the operations in the order in which they take effect.
   */
  datatype System = System(
    locked: bool, top: Option<nat>, links: map<nat, Option<nat>>, index: nat,
    harts: seq<Hart>, log: seq<Operation>)

  /** What the client code of a hart may do next; in the allocator, it just goes on. */
  datatype Choice = CallAllocate | CallFree(page: nat) | Scribble(page: nat, value: Option<nat>)

  function WithPc(s: System, h: nat, pc: Pc): (t: System)
    requires h < |s.harts|
  {
    s.(harts := s.harts[h := s.harts[h].(pc := pc)])
  }

  /** Calls with a page the hart does not own, or NULL, are not made: they leave the state as it is. */
  function ClientStep(s: System, h: nat, c: Choice): (t: System)
    requires h < |s.harts|
  {
    var hart := s.harts[h];
    match c
    case CallAllocate => WithPc(s, h, AllocAcquire)
    case CallFree(page) =>
      if page in hart.owned then
        s.(harts := s.harts[h := hart.(pc := FreeAcquire(page), owned := hart.owned - {page})])
      else s
    case Scribble(page, value) =>
      if page in hart.owned then s.(links := s.links[page := value]) else s
  }

  /** One step of hart `h`. */
  function Step(s: System, h: nat, c: Choice): (t: System)
    requires h < |s.harts|
  {
    var hart := s.harts[h];
    match hart.pc
    case Client => ClientStep(s, h, c)
    case AllocAcquire =>
      // Test and set: while the flag is set, the hart spins.
      if s.locked then s else WithPc(s.(locked := true), h, AllocReadTop)
    case AllocReadTop =>
      WithPc(s, h, if s.top.Some? then AllocReadNext(s.top.value) else AllocReadIndex)
    case AllocReadNext(entry) =>
      WithPc(s, h, AllocWriteTop(entry, if entry in s.links then s.links[entry] else None))
    case AllocWriteTop(entry, next) =>
      WithPc(s.(top := next, log := s.log + [Allocated(h, Some(entry))]), h, AllocRelease(Some(entry)))
    case AllocReadIndex =>
      if s.index < POOL_PAGES then WithPc(s, h, AllocWriteIndex(s.index))
      else WithPc(s.(log := s.log + [Allocated(h, None)]), h, AllocRelease(None))
    case AllocWriteIndex(index) =>
      // Page numbers start at 1: number 0 is the machine root.
      WithPc(s.(index := index + 1, log := s.log + [Allocated(h, Some(index + 1))]), h, AllocRelease(Some(index + 1)))
    case AllocRelease(result) => WithPc(s.(locked := false), h, AllocReturn(result))
    case AllocReturn(result) =>
      var owned := if result.Some? then hart.owned + {result.value} else hart.owned;
      s.(harts := s.harts[h := Hart(Client, owned, hart.returned + [result])])
    case FreeAcquire(page) =>
      if s.locked then s else WithPc(s.(locked := true), h, FreeReadTop(page))
    case FreeReadTop(page) => WithPc(s, h, FreeWriteNext(page, s.top))
    case FreeWriteNext(page, top) => WithPc(s.(links := s.links[page := top]), h, FreeWriteTop(page))
    case FreeWriteTop(page) =>
      WithPc(s.(top := Some(page), log := s.log + [Freed(h, page)]), h, FreeRelease)
    case FreeRelease => WithPc(s.(locked := false), h, Client)
  }

  // ---------------------------------------------------------------- the invariant

  /** A page on its way between a hart and the allocator. */
  function InTransit(pc: Pc): (p: set<nat>) {
    match pc
    case AllocRelease(result) => if result.Some? then {result.value} else {}
    case AllocReturn(result) => if result.Some? then {result.value} else {}
    case FreeAcquire(page) => {page}
    case FreeReadTop(page) => {page}
    case FreeWriteNext(page, _) => {page}
    case FreeWriteTop(page) => {page}
    case _ => {}
  }

  function Holds(hart: Hart): (p: set<nat>) {
    hart.owned + InTransit(hart.pc)
  }

  /** The linked list in memory is the sequential allocator's stack. */
  ghost predicate Linked(s: System, a: Allocator) {
    && s.top == Head(a.free, 0) && s.index == a.bump
    && forall k | 0 <= k < |a.free| :: a.free[k] in s.links && s.links[a.free[k]] == Head(a.free, k + 1)
  }

  /** What a hart inside the allocator has read is still true. */
  predicate LocalOK(s: System, a: Allocator, pc: Pc) {
    match pc
    case AllocReadNext(entry) => a.free != [] && entry == a.free[0]
    case AllocWriteTop(entry, next) => a.free != [] && entry == a.free[0] && next == Head(a.free, 1)
    case AllocReadIndex => a.free == []
    case AllocWriteIndex(index) => a.free == [] && index == a.bump && index < POOL_PAGES
    case FreeWriteNext(_, top) => top == Head(a.free, 0)
    case FreeWriteTop(page) => page in s.links && s.links[page] == Head(a.free, 0)
    case _ => true
  }

  /** The results of the calls that hart `h` makes, in the order in which they take effect. */
  function Results(log: seq<Operation>, h: nat): (r: seq<Option<nat>>) {
    if log == [] then []
    else
      var op := log[|log| - 1];
      Results(log[..|log| - 1], h) + (if op.Allocated? && op.hart == h then [op.result] else [])
  }

  /** The result that a hart is about to return. */
  function Unreturned(pc: Pc): (r: seq<Option<nat>>) {
    match pc
    case AllocRelease(result) => [result]
    case AllocReturn(result) => [result]
    case _ => []
  }

  /** Pages are held by one hart each, and those are the pages the sequential allocator has given out. */
  ghost predicate Exclusive(harts: seq<Hart>, held: set<nat>) {
    && (forall h | 0 <= h < |harts| :: harts[h].owned !! InTransit(harts[h].pc) && Holds(harts[h]) <= held)
    && (forall g, h | 0 <= g < h < |harts| :: Holds(harts[g]) !! Holds(harts[h]))
    && (forall p | p in held :: exists h :: 0 <= h < |harts| && p in Holds(harts[h]))
  }

  /** At most one hart is in its critical section, and the lock is set exactly if one is. */
  ghost predicate MutualExclusion(s: System) {
    && (forall h | 0 <= h < |s.harts| :: Critical(s.harts[h].pc) ==> s.locked)
    && (forall g, h | 0 <= g < h < |s.harts| :: !(Critical(s.harts[g].pc) && Critical(s.harts[h].pc)))
    && (s.locked ==> exists h :: 0 <= h < |s.harts| && Critical(s.harts[h].pc))
  }

  ghost predicate Inv(s: System) {
    var a := Replay(s.log);
    && LegalLog(s.log) && Sound(a)
    && MutualExclusion(s)
    && Linked(s, a)
    && (forall h | 0 <= h < |s.harts| :: LocalOK(s, a, s.harts[h].pc))
    && Exclusive(s.harts, a.held)
    && ResultsKept(s)
  }

  // ---------------------------------------------------------------- every step keeps it

  lemma ExclusiveUpdate(harts: seq<Hart>, held: set<nat>, h: nat, hart: Hart)
    requires h < |harts| && Exclusive(harts, held)
    requires hart.owned !! InTransit(hart.pc)
    requires (Holds(hart) - Holds(harts[h])) !! held
    ensures Exclusive(harts[h := hart], held - Holds(harts[h]) + Holds(hart))
  {
    var harts', held' := harts[h := hart], held - Holds(harts[h]) + Holds(hart);
    forall p | p in held' ensures exists g :: 0 <= g < |harts'| && p in Holds(harts'[g]) {
      StillHeldBySome(harts, harts', held, h, hart, p);
    }
    forall g | 0 <= g < |harts'| && g != h ensures Holds(harts'[g]) !! Holds(hart) && Holds(harts'[g]) <= held' {
      OthersUnaffected(Holds(harts[g]), Holds(harts[h]), Holds(hart), held);
    }
  }

  lemma StillHeldBySome(harts: seq<Hart>, harts': seq<Hart>, held: set<nat>, h: nat, hart: Hart, p: nat)
    requires h < |harts| && Exclusive(harts, held) && p in held - Holds(harts[h]) + Holds(hart)
    requires harts' == harts[h := hart]
    ensures exists g :: 0 <= g < |harts'| && p in Holds(harts'[g])
  {
    if p in Holds(hart) {
      assert p in Holds(harts'[h]);
    } else {
      var g :| 0 <= g < |harts| && p in Holds(harts[g]);
      assert p in Holds(harts'[g]);
    }
  }

  lemma OthersUnaffected(other: set<nat>, before: set<nat>, after: set<nat>, held: set<nat>)
    requires other !! before && other <= held && (after - before) !! held
    ensures other !! after && other <= held - before + after
  {
  }

  /** The lock after a hart has moved to a new place in the code. */
  lemma ExclusionUpdate(s: System, t: System, h: nat)
    requires h < |s.harts| && |t.harts| == |s.harts| && t.harts == s.harts[h := t.harts[h]] && MutualExclusion(s)
    requires if Critical(s.harts[h].pc) then t.locked <==> Critical(t.harts[h].pc)
             else if Critical(t.harts[h].pc) then !s.locked && t.locked
             else t.locked == s.locked
    ensures MutualExclusion(t)
  {
    if Critical(t.harts[h].pc) {
      assert Critical(t.harts[h].pc);
    } else if t.locked {
      var g :| 0 <= g < |s.harts| && Critical(s.harts[g].pc);
      assert Critical(t.harts[g].pc);
    }
  }

  /** Harts outside their critical section have read nothing they rely on. */
  lemma OthersAreOutside(s: System, h: nat, g: nat, t: System, b: Allocator)
    requires h < |s.harts| && g < |s.harts| && g != h && MutualExclusion(s)
    requires Critical(s.harts[h].pc)
    ensures LocalOK(t, b, s.harts[g].pc)
  {
  }

  /** A step of one hart that performs no operation. */
  lemma QuietStep(s: System, t: System, h: nat)
    requires Inv(s) && h < |s.harts| && |t.harts| == |s.harts|
    requires t.harts == s.harts[h := t.harts[h]] && t.log == s.log && t.top == s.top && t.index == s.index
    requires forall p | p in Replay(s.log).free :: p in s.links ==> p in t.links && t.links[p] == s.links[p]
    requires MutualExclusion(t)
    requires forall g | 0 <= g < |s.harts| && g != h && s.harts[g].pc.FreeWriteTop? ::
               var p := s.harts[g].pc.page; p in s.links ==> p in t.links && t.links[p] == s.links[p]
    requires LocalOK(t, Replay(s.log), t.harts[h].pc)
    requires Holds(t.harts[h]) == Holds(s.harts[h]) && t.harts[h].owned !! InTransit(t.harts[h].pc)
    requires t.harts[h].returned + Unreturned(t.harts[h].pc) == s.harts[h].returned + Unreturned(s.harts[h].pc)
    ensures Inv(t)
  {
    var a := Replay(s.log);
    ExclusiveUpdate(s.harts, a.held, h, t.harts[h]);
    assert a.held - Holds(s.harts[h]) + Holds(t.harts[h]) == a.held;
    forall g | 0 <= g < |t.harts| ensures LocalOK(t, a, t.harts[g].pc) {
      assert LocalOK(s, a, s.harts[g].pc);
    }
  }

  /** A step that performs an operation: it takes effect on the sequential allocator at once. */
  lemma OperationStep(s: System, t: System, h: nat, op: Operation)
    requires Inv(s) && h < |s.harts| && |t.harts| == |s.harts| && op.hart == h
    requires t.harts == s.harts[h := t.harts[h]] && t.log == s.log + [op] && t.locked == s.locked
    requires Legal(Replay(s.log), op) && Sound(Perform(Replay(s.log), op))
    requires Linked(t, Perform(Replay(s.log), op))
    requires Critical(s.harts[h].pc) && Critical(t.harts[h].pc) && t.harts[h].owned == s.harts[h].owned
    requires LocalOK(t, Perform(Replay(s.log), op), t.harts[h].pc)
    requires (Holds(t.harts[h]) - Holds(s.harts[h])) !! Replay(s.log).held
    requires t.harts[h].owned !! InTransit(t.harts[h].pc)
    requires Perform(Replay(s.log), op).held == Replay(s.log).held - Holds(s.harts[h]) + Holds(t.harts[h])
    requires t.harts[h].returned == s.harts[h].returned && Unreturned(s.harts[h].pc) == []
    requires Unreturned(t.harts[h].pc) == if op.Allocated? then [op.result] else []
    ensures Inv(t)
  {
    var a, b := Replay(s.log), Perform(Replay(s.log), op);
    assert t.log[..|t.log| - 1] == s.log;
    assert Replay(t.log) == b && LegalLog(t.log);
    ExclusionUpdate(s, t, h);
    ExclusiveUpdate(s.harts, a.held, h, t.harts[h]);
    LocalsAfter(s, t, h, b);
    ResultsAfter(s, t, h, op);
  }

  lemma LocalsAfter(s: System, t: System, h: nat, b: Allocator)
    requires h < |s.harts| && |t.harts| == |s.harts| && t.harts == s.harts[h := t.harts[h]]
    requires MutualExclusion(s) && Critical(s.harts[h].pc) && LocalOK(t, b, t.harts[h].pc)
    ensures forall g | 0 <= g < |t.harts| :: LocalOK(t, b, t.harts[g].pc)
  {
    forall g | 0 <= g < |t.harts| ensures LocalOK(t, b, t.harts[g].pc) {
      if g != h {
        OthersAreOutside(s, h, g, t, b);
      }
    }
  }

  /** Each hart has had the results of its own calls, and is about to have the one that took effect. */
  ghost predicate ResultsKept(s: System) {
    forall g | 0 <= g < |s.harts| :: Results(s.log, g) == s.harts[g].returned + Unreturned(s.harts[g].pc)
  }

  lemma ResultsAfter(s: System, t: System, h: nat, op: Operation)
    requires ResultsKept(s) && h < |s.harts| && |t.harts| == |s.harts| && op.hart == h
    requires t.harts == s.harts[h := t.harts[h]] && t.log == s.log + [op]
    requires t.harts[h].returned == s.harts[h].returned && Unreturned(s.harts[h].pc) == []
    requires Unreturned(t.harts[h].pc) == if op.Allocated? then [op.result] else []
    ensures ResultsKept(t)
  {
    assert t.log[..|t.log| - 1] == s.log;
    forall g | 0 <= g < |t.harts| ensures Results(t.log, g) == t.harts[g].returned + Unreturned(t.harts[g].pc) {
      assert Results(s.log, g) == s.harts[g].returned + Unreturned(s.harts[g].pc);
    }
  }

  lemma ClientStepKeepsInv(s: System, h: nat, c: Choice)
    requires Inv(s) && h < |s.harts| && s.harts[h].pc.Client?
    ensures Inv(ClientStep(s, h, c))
  {
    match c
    case CallAllocate =>
      ExclusionUpdate(s, ClientStep(s, h, c), h);
      MoveStep(s, ClientStep(s, h, c), h, AllocAcquire);
    case CallFree(page) => CallFreeKeepsInv(s, h, page);
    case Scribble(page, value) => ScribbleKeepsInv(s, h, page, value);
  }

  lemma CallFreeKeepsInv(s: System, h: nat, page: nat)
    requires Inv(s) && h < |s.harts| && s.harts[h].pc.Client?
    ensures Inv(ClientStep(s, h, CallFree(page)))
  {
    var t := ClientStep(s, h, CallFree(page));
    if page in s.harts[h].owned {
      TakenBack(s.harts[h].owned, page);
      assert t.harts == s.harts[h := t.harts[h]];
      ExclusionUpdate(s, t, h);
      QuietStep(s, t, h);
    }
  }

  lemma TakenBack(owned: set<nat>, page: nat)
    requires page in owned
    ensures owned - {page} + {page} == owned && (owned - {page}) !! {page}
  {
  }

  lemma ScribbleKeepsInv(s: System, h: nat, page: nat, value: Option<nat>)
    requires Inv(s) && h < |s.harts| && s.harts[h].pc.Client?
    ensures Inv(ClientStep(s, h, Scribble(page, value)))
  {
    var t := ClientStep(s, h, Scribble(page, value));
    if page in s.harts[h].owned {
      assert t.harts == s.harts[h := t.harts[h]];
      ExclusionUpdate(s, t, h);
      ScribbleIsHarmless(s, h, Scribble(page, value));
      QuietStep(s, t, h);
    }
  }

  /** A page that a hart owns is neither on the free list nor being freed by another hart. */
  lemma ScribbleIsHarmless(s: System, h: nat, c: Choice)
    requires Inv(s) && h < |s.harts| && c.Scribble? && c.page in s.harts[h].owned
    ensures c.page !in Replay(s.log).free
    ensures forall g | 0 <= g < |s.harts| && g != h && s.harts[g].pc.FreeWriteTop? :: s.harts[g].pc.page != c.page
  {
    OwnedIsHeld(s, h, c.page);
    forall g | 0 <= g < |s.harts| && g != h && s.harts[g].pc.FreeWriteTop? ensures s.harts[g].pc.page != c.page {
      OthersHoldOthers(s.harts, Replay(s.log).held, g, h);
    }
  }

  lemma OwnedIsHeld(s: System, h: nat, p: nat)
    requires Inv(s) && h < |s.harts| && p in s.harts[h].owned
    ensures p in Replay(s.log).held && p !in Replay(s.log).free
  {
    assert p in Holds(s.harts[h]);
  }

  lemma OthersHoldOthers(harts: seq<Hart>, held: set<nat>, g: nat, h: nat)
    requires Exclusive(harts, held) && g < |harts| && h < |harts| && g != h
    ensures Holds(harts[g]) !! Holds(harts[h])
  {
  }

  /** A step that only moves a hart on, and perhaps the lock. */
  lemma MoveStep(s: System, t: System, h: nat, pc: Pc)
    requires Inv(s) && h < |s.harts| && t == WithPc(s.(locked := t.locked), h, pc) && MutualExclusion(t)
    requires LocalOK(t, Replay(s.log), pc)
    requires InTransit(pc) == InTransit(s.harts[h].pc) && Unreturned(pc) == Unreturned(s.harts[h].pc)
    ensures Inv(t)
  {
    assert t.harts == s.harts[h := t.harts[h]];
    QuietStep(s, t, h);
  }

  /** A step that takes the lock or gives it back, and moves on. */
  lemma LockMoves(s: System, h: nat, locked: bool, pc: Pc)
    requires Inv(s) && h < |s.harts| && LocalOK(s, Replay(s.log), pc)
    requires if locked then !s.locked && !Critical(s.harts[h].pc) && Critical(pc)
             else Critical(s.harts[h].pc) && !Critical(pc)
    requires InTransit(pc) == InTransit(s.harts[h].pc) && Unreturned(pc) == Unreturned(s.harts[h].pc)
    ensures Inv(WithPc(s.(locked := locked), h, pc))
  {
    var t := WithPc(s.(locked := locked), h, pc);
    assert t.harts == s.harts[h := t.harts[h]];
    ExclusionUpdate(s, t, h);
    MoveStep(s, t, h, pc);
  }

  /** Steps that take or give back the lock. */
  lemma LockStepKeepsInv(s: System, h: nat, c: Choice)
    requires Inv(s) && h < |s.harts|
    requires var pc := s.harts[h].pc; pc.AllocAcquire? || pc.FreeAcquire? || pc.AllocRelease? || pc.FreeRelease?
    ensures Inv(Step(s, h, c))
  {
    var pc := s.harts[h].pc;
    if pc.AllocRelease? {
      LockMoves(s, h, false, AllocReturn(pc.result));
    } else if pc.FreeRelease? {
      LockMoves(s, h, false, Client);
    } else if !s.locked {
      LockMoves(s, h, true, if pc.AllocAcquire? then AllocReadTop else FreeReadTop(pc.page));
    }
  }

  lemma ReturnKeepsInv(s: System, h: nat, c: Choice)
    requires Inv(s) && h < |s.harts| && s.harts[h].pc.AllocReturn?
    ensures Inv(Step(s, h, c))
  {
    var t := Step(s, h, c);
    assert t.harts == s.harts[h := t.harts[h]];
    ExclusionUpdate(s, t, h);
    QuietStep(s, t, h);
  }

  /** Steps in the critical section that only read. */
  lemma ReadStepKeepsInv(s: System, h: nat, c: Choice)
    requires Inv(s) && h < |s.harts|
    requires var pc := s.harts[h].pc;
             pc.AllocReadTop? || pc.AllocReadNext? || pc.FreeReadTop? || (pc.AllocReadIndex? && s.index < POOL_PAGES)
    ensures Inv(Step(s, h, c))
  {
    var pc := ReadStepPc(s, h, c);
    assert LocalOK(s, Replay(s.log), s.harts[h].pc);
    ExclusionUpdate(s, Step(s, h, c), h);
    MoveStep(s, Step(s, h, c), h, pc);
  }

  /** Where a read leads to. */
  lemma ReadStepPc(s: System, h: nat, c: Choice) returns (pc: Pc)
    requires h < |s.harts|
    requires var pc := s.harts[h].pc;
             pc.AllocReadTop? || pc.AllocReadNext? || pc.FreeReadTop? || (pc.AllocReadIndex? && s.index < POOL_PAGES)
    ensures Step(s, h, c) == WithPc(s, h, pc) && Critical(pc) && Critical(s.harts[h].pc)
    ensures InTransit(pc) == InTransit(s.harts[h].pc) && Unreturned(pc) == Unreturned(s.harts[h].pc)
    ensures pc == match s.harts[h].pc
                  case AllocReadTop => (if s.top.Some? then AllocReadNext(s.top.value) else AllocReadIndex)
                  case AllocReadNext(entry) => AllocWriteTop(entry, if entry in s.links then s.links[entry] else None)
                  case AllocReadIndex => AllocWriteIndex(s.index)
                  case FreeReadTop(page) => FreeWriteNext(page, s.top)
                  case _ => pc
  {
    pc := Step(s, h, c).harts[h].pc;
  }

  lemma NoOtherFrees(s: System, h: nat)
    requires MutualExclusion(s) && h < |s.harts| && Critical(s.harts[h].pc)
    ensures forall g | 0 <= g < |s.harts| && g != h :: !s.harts[g].pc.FreeWriteTop?
  {
    forall g | 0 <= g < |s.harts| && g != h ensures !s.harts[g].pc.FreeWriteTop? {
      if s.harts[g].pc.FreeWriteTop? {
        assert Critical(s.harts[g].pc);
      }
    }
  }

  /** The page being freed is linked in front of the list before it becomes the top. */
  lemma WriteNextKeepsInv(s: System, h: nat, c: Choice)
    requires Inv(s) && h < |s.harts| && s.harts[h].pc.FreeWriteNext?
    ensures Inv(Step(s, h, c))
  {
    var t := Step(s, h, c);
    var p := s.harts[h].pc.page;
    assert LocalOK(s, Replay(s.log), s.harts[h].pc);
    assert t.harts == s.harts[h := t.harts[h]];
    assert p in Holds(s.harts[h]) && p in Replay(s.log).held;
    ExclusionUpdate(s, t, h);
    NoOtherFrees(s, h);
    QuietStep(s, t, h);
  }

  lemma AllocateTakesEffect(s: System, h: nat, c: Choice)
    requires Inv(s) && h < |s.harts|
    requires var pc := s.harts[h].pc;
             pc.AllocWriteTop? || pc.AllocWriteIndex? || (pc.AllocReadIndex? && s.index >= POOL_PAGES)
    ensures Inv(Step(s, h, c))
  {
    var pc := s.harts[h].pc;
    if pc.AllocWriteTop? {
      PopTakesEffect(s, h, c);
    } else if pc.AllocWriteIndex? {
      BumpTakesEffect(s, h, c);
    } else {
      FailureTakesEffect(s, h, c);
    }
  }

  lemma PopTakesEffect(s: System, h: nat, c: Choice)
    requires Inv(s) && h < |s.harts| && s.harts[h].pc.AllocWriteTop?
    ensures Inv(Step(s, h, c))
  {
    assert LocalOK(s, Replay(s.log), s.harts[h].pc);
    AllocateFrom(s, Step(s, h, c), h, Some(s.harts[h].pc.entry));
  }

  lemma BumpTakesEffect(s: System, h: nat, c: Choice)
    requires Inv(s) && h < |s.harts| && s.harts[h].pc.AllocWriteIndex?
    ensures Inv(Step(s, h, c))
  {
    assert LocalOK(s, Replay(s.log), s.harts[h].pc);
    BumpIsLinked(s, Step(s, h, c), Replay(s.log));
    AllocateFrom(s, Step(s, h, c), h, Some(s.harts[h].pc.index + 1));
  }

  lemma BumpIsLinked(s: System, t: System, a: Allocator)
    requires Linked(s, a) && a.free == [] && a.bump < POOL_PAGES && t.top == s.top && t.index == a.bump + 1
    ensures Linked(t, Allocate(a)) && AllocateResult(a) == Some(a.bump + 1)
  {
  }

  lemma FailureTakesEffect(s: System, h: nat, c: Choice)
    requires Inv(s) && h < |s.harts| && s.harts[h].pc.AllocReadIndex? && s.index >= POOL_PAGES
    ensures Inv(Step(s, h, c))
  {
    assert LocalOK(s, Replay(s.log), s.harts[h].pc);
    AllocateFrom(s, Step(s, h, c), h, None);
  }

  /** The step that makes an allocation take effect, with the result of the sequential allocator. */
  lemma AllocateFrom(s: System, t: System, h: nat, result: Option<nat>)
    requires Inv(s) && h < |s.harts| && result == AllocateResult(Replay(s.log))
    requires var pc := s.harts[h].pc; pc.AllocWriteTop? || pc.AllocWriteIndex? || pc.AllocReadIndex?
    requires t == WithPc(s.(top := t.top, index := t.index, log := s.log + [Allocated(h, result)]), h,
                         AllocRelease(result))
    requires Linked(t, Allocate(Replay(s.log)))
    ensures Inv(t)
  {
    AllocateKeepsSound(Replay(s.log));
    assert t.harts == s.harts[h := t.harts[h]];
    OperationStep(s, t, h, Allocated(h, result));
  }

  lemma FreeTakesEffect(s: System, h: nat, c: Choice)
    requires Inv(s) && h < |s.harts| && s.harts[h].pc.FreeWriteTop?
    ensures Inv(Step(s, h, c))
  {
    var t := Step(s, h, c);
    var a, p := Replay(s.log), s.harts[h].pc.page;
    assert LocalOK(s, a, s.harts[h].pc);
    assert t.harts == s.harts[h := t.harts[h]];
    assert p in Holds(s.harts[h]) && p in a.held;
    FreeKeepsSound(a, p);
    FreedIsLinked(s, t, a, p);
    assert s.harts[h].owned !! InTransit(s.harts[h].pc);
    assert Holds(t.harts[h]) == Holds(s.harts[h]) - {p};
    OperationStep(s, t, h, Freed(h, p));
  }

  lemma FreedIsLinked(s: System, t: System, a: Allocator, p: nat)
    requires Linked(s, a) && p in s.links && s.links[p] == Head(a.free, 0)
    requires t.top == Some(p) && t.links == s.links && t.index == s.index
    ensures Linked(t, Free(a, p))
  {
    var b := Free(a, p);
    forall k | 0 <= k < |b.free| ensures b.free[k] in t.links && t.links[b.free[k]] == Head(b.free, k + 1) {
      if k > 0 {
        assert b.free[k] == a.free[k - 1];
      }
    }
  }

  lemma StepKeepsInv(s: System, h: nat, c: Choice)
    requires Inv(s) && h < |s.harts|
    ensures Inv(Step(s, h, c))
  {
    var pc := s.harts[h].pc;
    if pc.Client? {
      ClientStepKeepsInv(s, h, c);
    } else if pc.FreeWriteNext? {
      WriteNextKeepsInv(s, h, c);
    } else if pc.FreeWriteTop? {
      FreeTakesEffect(s, h, c);
    } else if pc.AllocWriteTop? || pc.AllocWriteIndex? || (pc.AllocReadIndex? && s.index >= POOL_PAGES) {
      AllocateTakesEffect(s, h, c);
    } else if pc.AllocReturn? {
      ReturnKeepsInv(s, h, c);
    } else if pc.AllocAcquire? || pc.FreeAcquire? || pc.AllocRelease? || pc.FreeRelease? {
      LockStepKeepsInv(s, h, c);
    } else {
      ReadStepKeepsInv(s, h, c);
    }
  }

  // ---------------------------------------------------------------- schedules

  /** No page allocated yet, and every hart in its own code. `links` is whatever the pages hold. */
  function Boot(harts: nat, links: map<nat, Option<nat>>): (s: System) {
    System(false, None, links, 0, seq(harts, _ => Hart(Client, {}, [])), [])
  }

  /** One step of a schedule: which hart moves, and what its client code wants. */
  datatype Turn = Turn(hart: nat, choice: Choice)

  function Execute(s: System, turns: seq<Turn>): (t: System)
    requires forall k | 0 <= k < |turns| :: turns[k].hart < |s.harts|
    ensures |t.harts| == |s.harts|
  {
    if turns == [] then s
    else
      var last := turns[|turns| - 1];
      Step(Execute(s, turns[..|turns| - 1]), last.hart, last.choice)
  }

  lemma BootInv(harts: nat, links: map<nat, Option<nat>>)
    ensures Inv(Boot(harts, links))
  {
  }

  lemma {:induction false} ExecuteKeepsInv(s: System, turns: seq<Turn>)
    requires Inv(s) && forall k | 0 <= k < |turns| :: turns[k].hart < |s.harts|
    ensures Inv(Execute(s, turns))
  {
    if turns != [] {
      var last := turns[|turns| - 1];
      ExecuteKeepsInv(s, turns[..|turns| - 1]);
      StepKeepsInv(Execute(s, turns[..|turns| - 1]), last.hart, last.choice);
    }
  }

  /**
   Whatever the schedule and the number of harts, what the harts see is a run of the sequential
   allocator: the operations, in the order in which they took effect, are legal, and each hart gets
   the results of its own calls in the order it made them. The list in memory is that allocator's
   free list, and no page is held by two harts or held and free at once.
   */
  lemma {:induction false} AllocatorLinearises(harts: nat, links: map<nat, Option<nat>>, turns: seq<Turn>)
    requires forall k | 0 <= k < |turns| :: turns[k].hart < harts
    ensures var s := Execute(Boot(harts, links), turns);
            && LegalLog(s.log) && Sound(Replay(s.log)) && Linked(s, Replay(s.log))
            && (forall h | 0 <= h < harts :: s.harts[h].returned <= Results(s.log, h))
            && (forall g, h | 0 <= g < h < harts :: s.harts[g].owned !! s.harts[h].owned)
            && (forall h, p | 0 <= h < harts && p in s.harts[h].owned :: p in Replay(s.log).held)
  {
    BootInv(harts, links);
    ExecuteKeepsInv(Boot(harts, links), turns);
    InvMeansExclusive(Execute(Boot(harts, links), turns));
  }

  lemma InvMeansExclusive(s: System)
    requires Inv(s)
    ensures forall h | 0 <= h < |s.harts| :: s.harts[h].returned <= Results(s.log, h)
    ensures forall g, h | 0 <= g < h < |s.harts| :: s.harts[g].owned !! s.harts[h].owned
    ensures forall h, p | 0 <= h < |s.harts| && p in s.harts[h].owned :: p in Replay(s.log).held
  {
    forall g, h | 0 <= g < h < |s.harts| ensures s.harts[g].owned !! s.harts[h].owned {
      assert Holds(s.harts[g]) !! Holds(s.harts[h]);
    }
    forall h, p | 0 <= h < |s.harts| && p in s.harts[h].owned ensures p in Replay(s.log).held {
      assert p in Holds(s.harts[h]);
    }
  }

  /** An allocation fails exactly if, when it takes effect, every page of the pool is held. */
  lemma NullMeansFull(log: seq<Operation>, k: nat)
    requires LegalLog(log) && k < |log| && log[k].Allocated?
    ensures log[k].result.None? <==> Full(Replay(log[..k]))
  {
    LegalPrefix(log, k);
    SoundReplay(log[..k]);
    var a := Replay(log[..k]);
    AllocateKeepsSound(a);
    assert log[k].result == AllocateResult(a);
  }

  lemma {:induction false} LegalPrefix(log: seq<Operation>, k: nat)
    requires LegalLog(log) && k < |log|
    ensures LegalLog(log[..k]) && Legal(Replay(log[..k]), log[k])
  {
    if k < |log| - 1 {
      LegalPrefix(log[..|log| - 1], k);
      assert log[..|log| - 1][..k] == log[..k];
    } else {
      assert log[..k] == log[..|log| - 1];
    }
  }

  lemma {:induction false} SoundReplay(log: seq<Operation>)
    requires LegalLog(log)
    ensures Sound(Replay(log))
  {
    if log != [] {
      var before := log[..|log| - 1];
      SoundReplay(before);
      if log[|log| - 1].Allocated? {
        AllocateKeepsSound(Replay(before));
      } else {
        FreeKeepsSound(Replay(before), log[|log| - 1].page);
      }
    }
  }
}
