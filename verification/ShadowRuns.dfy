/**
 The shadow table as a cache of the guest's translations, over whole runs: what it says is always
 what the guest's tables said at some moment since the last flush.
 */
module ShadowRuns {
  import opened Words
  import opened Image
  import opened PageTableEntry
  import opened Tables
  import opened GuestTables
  import opened Paging

  /** What the correctness of the cache depends on, at one moment. */
  datatype Snapshot = Snapshot(pages: Mem, shadowRoot: Option<nat>, ram: Ram, ppn: nat)

  predicate WellFormed(s: Snapshot) {
    s.ppn < 0x1000_0000_0000 && (s.shadowRoot.Some? ==> s.shadowRoot.value < PAGES)
  }

  /** The shadow mapping of a page. */
  function Mapping(s: Snapshot, vpn: nat): (l: Option<Leaf>)
    requires WellFormed(s)
  {
    if s.shadowRoot.None? then None else Walk(s.pages, s.shadowRoot.value, 2, vpn)
  }

  /** Where the guest's tables, followed by the machine's offset, put a page. */
  function Truth(s: Snapshot, vpn: nat): (hm: Option<nat>)
    requires WellFormed(s) && vpn < VPNS
  {
    match Resolve(s.ram, s.ppn, vpn * PAGE_BYTES)
    case Resolved(gm) => Some(gm + GUEST_MEMORY_OFFSET)
    case _ => None
  }

  predicate Explained(s: Snapshot, vpn: nat, base: nat)
    requires WellFormed(s) && vpn < VPNS
  {
    Truth(s, vpn) == Some(base)
  }

  /** Every access that is permitted with the first permissions is with the second. */
  ghost predicate Wider(perms: Mask, perms': Mask) {
    forall access :: Allows(perms, access) ==> Allows(perms', access)
  }

  /**
   What a step may do to the mapping of a page. A flush removes it. Any other step leaves it alone,
   or maps the page to where the guest's tables put it now; if it was mapped there before, no
   permission is taken back.
   */
  ghost predicate PageStep(a: Snapshot, flushed: bool, b: Snapshot, vpn: nat)
    requires WellFormed(a) && WellFormed(b) && vpn < VPNS
  {
    var l, l' := Mapping(a, vpn), Mapping(b, vpn);
    if flushed then l' == None
    else
      || l' == l
      || (l'.Some? && Explained(b, vpn, l'.value.base)
          && (l.Some? && l.value.base == l'.value.base ==> Wider(l.value.perms, l'.value.perms)))
  }

  ghost predicate ShadowStep(a: Snapshot, flushed: bool, b: Snapshot)
    requires WellFormed(a) && WellFormed(b)
  {
    forall vpn: nat | vpn < VPNS :: PageStep(a, flushed, b, vpn)
  }

  /** `flushes[k]` says whether the step from state `k` to state `k + 1` is a flush. */
  ghost predicate IsRun(states: seq<Snapshot>, flushes: seq<bool>) {
    && |states| == |flushes| + 1
    && (forall k | 0 <= k < |states| :: WellFormed(states[k]))
    && states[0].shadowRoot.None?
    && forall k | 0 <= k < |flushes| :: ShadowStep(states[k], flushes[k], states[k + 1])
  }

  /** State `j` is not before the last flush at or before state `k`. */
  predicate SinceFlush(flushes: seq<bool>, j: nat, k: nat)
    requires k <= |flushes|
  {
    j <= k && forall i | j <= i < k :: !flushes[i]
  }

  /**
   In every run, each mapping in the shadow table is the guest's own translation at some moment
   since the last flush, moved by the machine's offset.
   */
  lemma {:induction false} ShadowIsExplained(states: seq<Snapshot>, flushes: seq<bool>, k: nat, vpn: nat)
    returns (j: nat)
    requires IsRun(states, flushes) && k < |states| && vpn < VPNS && Mapping(states[k], vpn).Some?
    ensures SinceFlush(flushes, j, k) && Explained(states[j], vpn, Mapping(states[k], vpn).value.base)
    decreases k
  {
    if Explained(states[k], vpn, Mapping(states[k], vpn).value.base) {
      j := k;
    } else {
      assert k > 0;
      assert ShadowStep(states[k - 1], flushes[k - 1], states[k]);
      assert PageStep(states[k - 1], flushes[k - 1], states[k], vpn);
      j := ShadowIsExplained(states, flushes, k - 1, vpn);
    }
  }

  /**
   While the guest's translation of a page has not changed since the last flush, the shadow table
   maps the page exactly there, or not at all.
   */
  lemma ShadowRefinesGuest(states: seq<Snapshot>, flushes: seq<bool>, k: nat, vpn: nat)
    requires IsRun(states, flushes) && k < |states| && vpn < VPNS
    requires forall j: nat | SinceFlush(flushes, j, k) :: Truth(states[j], vpn) == Truth(states[k], vpn)
    ensures Mapping(states[k], vpn).Some? ==> Truth(states[k], vpn) == Some(Mapping(states[k], vpn).value.base)
  {
    if Mapping(states[k], vpn).Some? {
      var j := ShadowIsExplained(states, flushes, k, vpn);
      assert Truth(states[j], vpn) == Truth(states[k], vpn);
    }
  }

  // ---------------------------------------------------------------- progress of fault handling

  /** A page and an access to it, as a number. */
  function Key(vpn: nat, access: Access): (k: nat) {
    vpn * 3 + (match access case Read => 0 case Write => 1 case Execute => 2)
  }

  function PageOfKey(k: nat): nat {
    k / 3
  }

  function AccessOfKey(k: nat): Access {
    if k % 3 == 0 then Read else if k % 3 == 1 then Write else Execute
  }

  lemma KeyIsInvertible(vpn: nat, access: Access)
    ensures PageOfKey(Key(vpn, access)) == vpn && AccessOfKey(Key(vpn, access)) == access
    ensures vpn < VPNS ==> Key(vpn, access) < 3 * VPNS
  {
  }

  /** The page is mapped to where the guest's tables put it, with permission for the access. */
  predicate IsRight(s: Snapshot, k: nat)
    requires WellFormed(s)
  {
    && PageOfKey(k) < VPNS
    && var l := Mapping(s, PageOfKey(k));
       l.Some? && Truth(s, PageOfKey(k)) == Some(l.value.base) && Allows(l.value.perms, AccessOfKey(k))
  }

  /** The accesses that the shadow table rightly permits. */
  ghost function Right(s: Snapshot): (r: set<nat>)
    requires WellFormed(s)
    ensures forall k: nat :: k in r <==> k < 3 * VPNS && IsRight(s, k)
  {
    set k: nat | k < 3 * VPNS && IsRight(s, k)
  }

  /** The guest's tables put every page where they did. */
  ghost predicate SameTruth(a: Snapshot, b: Snapshot)
    requires WellFormed(a) && WellFormed(b)
  {
    forall v: nat | v < VPNS :: Truth(a, v) == Truth(b, v)
  }

  /** While the guest's translations stay the same, only a flush takes back what is rightly permitted. */
  lemma RightIsKept(a: Snapshot, b: Snapshot)
    requires WellFormed(a) && WellFormed(b) && ShadowStep(a, false, b) && SameTruth(a, b)
    ensures Right(a) <= Right(b)
  {
    forall k | k in Right(a) ensures k in Right(b) {
      assert IsRight(a, k);
      var v := PageOfKey(k);
      assert PageStep(a, false, b, v) && Truth(a, v) == Truth(b, v);
    }
  }

  /** The 2 MiB regions that the machine table maps. */
  ghost function Regions(m: Mem): (r: set<nat>)
    ensures forall k: nat :: k in r <==> k < REGIONS && Walk(m, ROOT, 2, k * ENTRIES).Some?
  {
    set k: nat | k < REGIONS && Walk(m, ROOT, 2, k * ENTRIES).Some?
  }

  const REGIONS: nat := 0x4_0000

  lemma RegionStart(k: nat)
    requires k < REGIONS
    ensures k * ENTRIES < VPNS && k * ENTRIES / ENTRIES == k
  {
  }

  /** Nothing is ever taken back from the machine table. */
  lemma RegionsAreKept(m: Mem, m': Mem)
    requires KeepsMachine(m, m')
    ensures Regions(m) <= Regions(m')
  {
    forall k | k in Regions(m) ensures k in Regions(m') {
      RegionStart(k);
      assert Walk(m', ROOT, 2, k * ENTRIES) == Walk(m, ROOT, 2, k * ENTRIES);
    }
  }

  lemma {:induction false} BoundedCount(s: set<nat>, n: nat)
    requires forall k | k in s :: k < n
    ensures |s| <= n
  {
    if n > 0 {
      BoundedCount(s - {n - 1}, n - 1);
    } else {
      assert s == {};
    }
  }

  lemma {:induction false} SubsetCount(a: set<nat>, b: set<nat>)
    requires a <= b
    ensures |a| <= |b|
    ensures a < b ==> |a| < |b|
  {
    if a != {} {
      var e :| e in a;
      SubsetCount(a - {e}, b - {e});
    }
  }
}
