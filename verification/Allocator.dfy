/** What the page allocator is for, as a sequential object: pages 1 .. POOL_PAGES, handed out and taken back. */
module AllocatorSpec {
  import opened Words
  import opened Image

  /** What the allocator is for: a stack of free pages, the bump index, and the pages held by callers. */
  datatype Allocator = Allocator(free: seq<nat>, bump: nat, held: set<nat>)

  datatype Operation = Allocated(hart: nat, result: Option<nat>) | Freed(hart: nat, page: nat)

  predicate Distinct(s: seq<nat>) {
    forall i, j | 0 <= i < j < |s| :: s[i] != s[j]
  }

  function Head(s: seq<nat>, k: nat): Option<nat> {
    if k < |s| then Some(s[k]) else None
  }

  /** Free and held pages are those up to the bump index, and none is both. */
  ghost predicate Sound(a: Allocator) {
    && a.bump <= POOL_PAGES && Distinct(a.free)
    && (forall p | p in a.free :: p !in a.held)
    && (forall p: nat :: p in a.free || p in a.held <==> 1 <= p <= a.bump)
  }

  function AllocateResult(a: Allocator): (r: Option<nat>) {
    if a.free != [] then Some(a.free[0]) else if a.bump < POOL_PAGES then Some(a.bump + 1) else None
  }

  function Allocate(a: Allocator): (b: Allocator) {
    if a.free != [] then Allocator(a.free[1..], a.bump, a.held + {a.free[0]})
    else if a.bump < POOL_PAGES then Allocator([], a.bump + 1, a.held + {a.bump + 1})
    else a
  }

  function Free(a: Allocator, p: nat): (b: Allocator) {
    Allocator([p] + a.free, a.bump, a.held - {p})
  }

  /** The operation is one the sequential allocator performs from this state. */
  predicate Legal(a: Allocator, op: Operation) {
    match op
    case Allocated(_, result) => result == AllocateResult(a)
    case Freed(_, page) => page in a.held
  }

  function Perform(a: Allocator, op: Operation): (b: Allocator) {
    match op
    case Allocated(_, _) => Allocate(a)
    case Freed(_, page) => Free(a, page)
  }

  const EMPTY := Allocator([], 0, {})

  function Replay(log: seq<Operation>): (a: Allocator) {
    if log == [] then EMPTY else Perform(Replay(log[..|log| - 1]), log[|log| - 1])
  }

  predicate LegalLog(log: seq<Operation>) {
    log == [] || (LegalLog(log[..|log| - 1]) && Legal(Replay(log[..|log| - 1]), log[|log| - 1]))
  }

  /** Every page of the pool is held. */
  ghost predicate Full(a: Allocator) {
    forall p: nat | 1 <= p <= POOL_PAGES :: p in a.held
  }

  lemma AllocateKeepsSound(a: Allocator)
    requires Sound(a)
    ensures Sound(Allocate(a))
    ensures AllocateResult(a).Some? ==>
              && AllocateResult(a).value !in a.held
              && Allocate(a).held == a.held + {AllocateResult(a).value}
    ensures AllocateResult(a).None? <==> Full(a)
  {
    var b := Allocate(a);
    if a.free != [] {
      assert a.free[0] in a.free;
      assert forall k | 0 <= k < |b.free| :: b.free[k] == a.free[k + 1];
      assert a.free == [a.free[0]] + b.free;
    } else if a.bump < POOL_PAGES {
      assert a.bump + 1 !in a.held by {
        assert !(a.bump + 1 in a.free || a.bump + 1 in a.held);
      }
    } else {
      forall p: nat | 1 <= p <= POOL_PAGES ensures p in a.held {
        assert p in a.free || p in a.held;
      }
    }
  }

  lemma FreeKeepsSound(a: Allocator, p: nat)
    requires Sound(a) && p in a.held
    ensures Sound(Free(a, p))
  {
    var b := Free(a, p);
    assert forall q :: q in b.free <==> q == p || q in a.free;
    forall i, j | 0 <= i < j < |b.free| ensures b.free[i] != b.free[j] {
      assert b.free[j] == a.free[j - 1] && a.free[j - 1] in a.free;
    }
    assert p in a.free || p in a.held;
  }
}
