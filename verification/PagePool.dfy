/** The page allocator: a bump index and a free list threaded through the free pages. */
module PagePool {
  import opened Words
  import opened Image
  import opened AllocatorSpec
  import opened PageTableEntry
  import opened Tables

  /** A pointer to a page, or NULL. */
  function Pointer(p: Option<nat>): (w: Word)
    requires p.Some? ==> p.value < PAGES
  {
    if p.None? then 0 else PageAddress(p.value)
  }

  /** Word 0 of each free page points to the next one, starting at `top`. */
  ghost predicate Linked(m: Mem, top: Word, free: seq<nat>) {
    && (forall k | 0 <= k < |free| :: free[k] < PAGES)
    && top == Pointer(Head(free, 0))
    && (forall k | 0 <= k < |free| :: m[free[k]][0] == Pointer(Head(free, k + 1)))
  }

  /** Free pages, live pages and pages never handed out partition the pool. */
  ghost predicate Partition(free: seq<nat>, bump: nat, live: set<nat>) {
    && bump <= POOL_PAGES
    && ROOT in live
    && Distinct(free)
    && (forall p | p in free :: p !in live)
    && (forall p: nat | p != ROOT :: p in live || p in free <==> p <= bump)
  }

  lemma PushLinked(m: Mem, top: Word, free: seq<nat>, p: nat)
    requires Linked(m, top, free) && p < PAGES && p !in free
    ensures Linked(Put(m, p, 0, top), PageAddress(p), [p] + free)
  {
    var free', m' := [p] + free, Put(m, p, 0, top);
    forall k | 0 <= k < |free'| ensures free'[k] < PAGES && m'[free'[k]][0] == Pointer(Head(free', k + 1)) {
      if k > 0 {
        assert free'[k] == free[k - 1] && free[k - 1] in free;
        assert Head(free', k + 1) == Head(free, k);
      }
    }
  }

  lemma PopLinked(m: Mem, top: Word, free: seq<nat>)
    requires Linked(m, top, free) && free != []
    ensures PageOf(top) == Some(free[0])
    ensures Linked(m, m[free[0]][0], free[1..])
  {
    var free' := free[1..];
    forall k | 0 <= k < |free'| ensures free'[k] < PAGES && m[free'[k]][0] == Pointer(Head(free', k + 1)) {
      assert free'[k] == free[k + 1];
    }
  }

  lemma PushPartition(free: seq<nat>, bump: nat, live: set<nat>, p: nat)
    requires Partition(free, bump, live) && p in live && p != ROOT
    ensures Partition([p] + free, bump, live - {p})
  {
    var free' := [p] + free;
    assert forall q :: q in free' <==> q == p || q in free;
    forall i, j | 0 <= i < j < |free'| ensures free'[i] != free'[j] {
      assert free'[j] == free[j - 1] && free[j - 1] in free;
    }
    assert p in live || p in free;
  }

  lemma PopPartition(free: seq<nat>, bump: nat, live: set<nat>)
    requires Partition(free, bump, live) && free != []
    ensures 1 <= free[0] <= POOL_PAGES && free[0] !in live
    ensures Partition(free[1..], bump, live + {free[0]})
  {
    var p, free' := free[0], free[1..];
    assert p in free;
    assert p in live || p in free;
    assert forall k | 0 <= k < |free'| :: free'[k] == free[k + 1];
    assert free == [p] + free';
  }

  lemma LinkedElsewhere(m: Mem, top: Word, free: seq<nat>, p: nat, page: Page)
    requires Linked(m, top, free) && p < PAGES && p !in free
    ensures Linked(m[p := page], top, free)
  {
    assert forall k | 0 <= k < |free| :: free[k] in free;
  }

  /** Free plus live pages are all that was ever handed out, and the machine root. */
  lemma Conservation(free: seq<nat>, bump: nat, live: set<nat>)
    requires Partition(free, bump, live)
    ensures |free| + |live| == bump + 1
  {
    var onList := Elements(free);
    forall p: nat ensures p in onList + live <==> p in UpTo(bump) {
      assert p != ROOT ==> (p in live || p in free <==> p <= bump);
    }
    assert onList + live == UpTo(bump) && onList !! live;
    DistinctCount(free);
  }

  function UpTo(n: nat): (s: set<nat>)
    ensures forall p: nat :: p in s <==> p <= n
    ensures |s| == n + 1
  {
    if n == 0 then {0} else UpTo(n - 1) + {n}
  }

  function Elements(s: seq<nat>): (e: set<nat>)
    ensures forall p :: p in e <==> p in s
  {
    if s == [] then {} else {s[0]} + Elements(s[1..])
  }

  lemma {:induction false} DistinctCount(s: seq<nat>)
    requires Distinct(s)
    ensures |Elements(s)| == |s|
  {
    if s != [] {
      var rest := s[1..];
      assert forall k | 0 <= k < |rest| :: rest[k] == s[k + 1];
      DistinctCount(rest);
      assert s[0] !in rest;
    }
  }

  /** The pool, as the sequential allocator that the harts are shown to share. */
  function Abstract(free: seq<nat>, bump: nat, live: set<nat>): (a: Allocator) {
    Allocator(free, bump, live - {ROOT})
  }

  lemma PartitionIsSound(free: seq<nat>, bump: nat, live: set<nat>)
    requires ROOT in live
    ensures Partition(free, bump, live) <==> Sound(Abstract(free, bump, live))
  {
    var a := Abstract(free, bump, live);
    if Sound(a) {
      assert forall p | p in free :: 1 <= p;
      forall p: nat | p != ROOT ensures p in live || p in free <==> p <= bump {
        assert p in a.free || p in a.held <==> 1 <= p <= a.bump;
      }
    }
    if Partition(free, bump, live) {
      forall p: nat ensures p in a.free || p in a.held <==> 1 <= p <= a.bump {
        assert p != ROOT ==> (p in live || p in free <==> p <= bump);
      }
    }
  }

  class Pool {
    /** `page_pool`, together with the machine root table as page 0. */
    const pages: array<Page>
    var freeListTop: Word
    var nextUnallocatedIdx: nat
    /** The free list, first page first. */
    ghost var free: seq<nat>

    ghost predicate Valid(live: set<nat>)
      reads this, pages
    {
      && pages.Length == PAGES
      && Linked(pages[..], freeListTop, free)
      && Partition(free, nextUnallocatedIdx, live)
    }

    ghost function Model(live: set<nat>): (a: Allocator)
      reads this
    {
      Abstract(free, nextUnallocatedIdx, live)
    }

    constructor (pages: array<Page>)
      requires pages.Length == PAGES
      ensures this.pages == pages && Valid({ROOT}) && free == []
    {
      this.pages := pages;
      freeListTop := 0;
      nextUnallocatedIdx := 0;
      free := [];
    }

    /**
     A page nobody uses, or NULL exactly when all pages of the pool are live. The contents of
     the page are whatever was left there.
     */
    method AllocatePage(ghost live: set<nat>) returns (result: Option<nat>)
      requires Valid(live)
      modifies this
      ensures result.None? <==> forall p: nat | 1 <= p <= POOL_PAGES :: p in live
      ensures result.None? ==> Valid(live) && unchanged(this)
      ensures result.Some? ==>
                && 1 <= result.value <= POOL_PAGES && result.value !in live
                && Valid(live + {result.value})
                && (if old(free) != [] then result.value == old(free)[0] && free == old(free)[1..]
                    else free == [] && result.value == old(nextUnallocatedIdx) + 1)
      ensures result == AllocateResult(old(Model(live)))
      ensures Model(if result.Some? then live + {result.value} else live) == Allocate(old(Model(live)))
    {
      result := None;
      if freeListTop != 0 {
        PopLinked(pages[..], freeListTop, free);
        PopPartition(free, nextUnallocatedIdx, live);
        var entry := PageOf(freeListTop).value;
        freeListTop := pages[entry][0];
        result := Some(entry);
        free := free[1..];
        assert entry !in live;
      } else if nextUnallocatedIdx < POOL_PAGES {
        assert free == [];
        result := Some(1 + nextUnallocatedIdx);
        assert result.value !in live;
        nextUnallocatedIdx := nextUnallocatedIdx + 1;
      } else {
        assert free == [];
        forall p: nat | 1 <= p <= POOL_PAGES ensures p in live {
          assert p in live || p in free;
        }
      }
    }

    /** Put a page at the head of the free list. Only its first word is overwritten. */
    method DeallocatePage(p: nat, ghost live: set<nat>)
      requires Valid(live) && p in live && 1 <= p <= POOL_PAGES
      modifies this, pages
      ensures Valid(live - {p})
      ensures free == [p] + old(free) && nextUnallocatedIdx == old(nextUnallocatedIdx)
      ensures Model(live - {p}) == Free(old(Model(live)), p)
      ensures forall q | 0 <= q < PAGES && q != p :: pages[q] == old(pages[q])
    {
      PushPartition(free, nextUnallocatedIdx, live, p);
      PushLinked(pages[..], freeListTop, free, p);
      pages[p] := pages[p][0 := freeListTop];
      assert pages[..] == Put(old(pages[..]), p, 0, freeListTop);
      freeListTop := PageAddress(p);
      free := [p] + free;
    }
  }
}
