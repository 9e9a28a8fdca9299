/**
 The hypervisor's paging state and the operations on it: the lazily filled machine table, the
 shadow table, and the fences that keep the hart's translation cache honest.
 */
module Paging {
  import opened Words
  import opened Image
  import opened PageTableEntry
  import opened Tables
  import opened GuestTables
  import opened PagePool

  datatype Access = Read | Write | Execute

  /** What the fault handlers report. `Panic` and `Wild` end the run. */
  datatype Outcome = Success | NotChanged | TooLow | TooHigh | Panic | Wild

  function BitOf(access: Access): (bit: Mask)
    ensures bit > 0
  {
    match access
    case Read => R
    case Write => W
    case Execute => X
  }

  predicate Allows(perms: Mask, access: Access) {
    Has(perms, BitOf(access))
  }

  /** Every page of the pool is in use, so that no table can be allocated. */
  ghost predicate Exhausted(live: set<nat>) {
    forall p: nat | 1 <= p <= POOL_PAGES :: p in live
  }

  const SATP_MODE_SV39: nat := 0x8000_0000_0000_0000

  function MakeSatp(root: nat): (satp: Word)
    requires root < PAGES
    ensures SatpRoot(satp) == Some(root)
  {
    SatpPpn(PageAddress(root) / PAGE_BYTES);
    SATP_MODE_SV39 + PageAddress(root) / PAGE_BYTES
  }

  /** The word asks for mode 8, Sv39, and has the page number of the root in its low 44 bits. */
  lemma SatpIsSv39(root: nat)
    requires root < PAGES
    ensures MakeSatp(root) / 0x1000_0000_0000_0000 == 8
    ensures MakeSatp(root) % 0x1000_0000_0000 * 0x1000 == PageAddress(root)
  {
    SatpPpn(PageAddress(root) / PAGE_BYTES);
  }

  lemma SatpPpn(ppn: nat)
    requires ppn < 0x1000_0000_0000
    ensures (SATP_MODE_SV39 + ppn) % 0x1000_0000_0000 == ppn
  {
  }

  function SatpRoot(satp: Word): (root: Option<nat>)
    ensures root.Some? ==> root.value < PAGES
  {
    PageOf(satp % 0x1000_0000_0000 * PAGE_BYTES)
  }

  /** The mapping that the machine table has for a page, once it has one. */
  function MachineLeaf(vpn: nat): (l: Leaf)
    requires vpn < VPNS
  {
    Leaf(vpn / ENTRIES * 0x20_0000 + GUEST_MEMORY_OFFSET, 1, V_U_RWX)
  }

  /** Whatever the machine table maps, it maps to the guest-machine address plus the offset. */
  lemma MachineWalk(m: Mem, own: Ownership, vpn: nat)
    requires Forest(m, own) && ROOT in own && own[ROOT] == Node(2, Machine, Top) && vpn < VPNS
    ensures var r := Walk(m, ROOT, 2, vpn);
            r == None || (r == Some(MachineLeaf(vpn)) && vpn >= RAM_START / PAGE_BYTES)
  {
    var i2, i1 := Index(vpn, 2), Index(vpn, 1);
    assert EntryOK(m, own, ROOT, i2);
    var e := At(m, ROOT, i2);
    if IsTable(e) {
      var c := PageOf(e.address).value;
      assert EntryOK(m, own, c, i1);
      RegionOfIndices(vpn);
    }
  }

  lemma RegionOfIndices(vpn: nat)
    requires vpn < VPNS
    ensures vpn / ENTRIES == Index(vpn, 2) * ENTRIES + Index(vpn, 1)
    ensures vpn / ENTRIES * 0x20_0000 == Index(vpn, 2) * 0x4000_0000 + Index(vpn, 1) * 0x20_0000
    ensures Index(vpn, 2) >= 2 ==> vpn >= RAM_START / PAGE_BYTES
  {
    assert vpn / 0x40000 == vpn / ENTRIES / ENTRIES;
  }

  /** Whatever the shadow table maps, it maps page by page above the hypervisor's image. */
  lemma {:induction false} ShadowWalk(m: Mem, own: Ownership, p: nat, vpn: nat)
    requires Forest(m, own) && p in own && p < PAGES && own[p].level <= 2 && own[p].tree.Shadow?
    ensures var r := Walk(m, p, own[p].level, vpn);
            r.Some? ==> && r.value.level == 0 && r.value.base % PAGE_BYTES == 0
                        && r.value.base >= GUEST_HOST_START && ShadowPerms(r.value.perms)
    decreases own[p].level
  {
    var i := Index(vpn, own[p].level);
    assert EntryOK(m, own, p, i);
    var e := At(m, p, i);
    if IsTable(e) {
      var c := PageOf(e.address).value;
      assert NodeOK(m, own, c);
      ShadowWalk(m, own, c, vpn);
    }
  }

  /** The pages owned before are still owned, in the same place. */
  ghost predicate Extends(own: Ownership, own': Ownership) {
    forall q | q in own :: q in own' && own'[q] == own[q]
  }

  /** Every walk from an owned table finds the same. */
  ghost predicate SameWalks(m: Mem, m': Mem, own: Ownership) {
    forall q: nat, v: nat | q in own && q < PAGES && own[q].level <= 2 ::
      Walk(m', q, own[q].level, v) == Walk(m, q, own[q].level, v)
  }

  /** `satp` names the machine root or the shadow root. */
  ghost predicate SatpOK(satp: Word, shadow: Option<nat>) {
    satp == MakeSatp(ROOT) || (shadow.Some? && shadow.value < PAGES && satp == MakeSatp(shadow.value))
  }

  /** Every cached translation is what a walk of the current table finds. */
  ghost predicate CachesWalks(m: Mem, satp: Word, tlb: map<nat, Option<Leaf>>) {
    && SatpRoot(satp).Some?
    && forall v | v in tlb :: v < VPNS && tlb[v] == Walk(m, SatpRoot(satp).value, 2, v)
  }

  lemma StillCoherent(m: Mem, m': Mem, own: Ownership, shadow: Option<nat>, satp: Word, tlb: map<nat, Option<Leaf>>)
    requires Forest(m, own) && RootsOK(own, shadow) && SatpOK(satp, shadow)
    requires SameWalks(m, m', own) && CachesWalks(m, satp, tlb)
    ensures CachesWalks(m', satp, tlb)
  {
    var root := SatpRoot(satp).value;
    assert root in own && own[root].level == 2;
    assert forall v | v in tlb :: Walk(m', root, own[root].level, v) == Walk(m, root, own[root].level, v);
  }

  function Grown(own: Ownership, p: nat, i: nat, c: nat): (grown: Ownership)
    requires p in own && own[p].level > 0
  {
    own[c := Node(own[p].level - 1, own[p].tree, In(p, i))]
  }

  function Hung(m: Mem, p: nat, i: nat, c: nat): (hung: Mem)
    requires p < PAGES && i < ENTRIES && c < PAGES
  {
    Put(m[c := ZeroPage()], p, i, Pack(Entry(PageAddress(c), V)))
  }

  /** Zeroing an unused page and hanging it below an empty entry keeps the forest. */
  lemma Grow(m: Mem, own: Ownership, shadow: Option<nat>, p: nat, i: nat, c: nat)
    requires Forest(m, own) && RootsOK(own, shadow)
    requires p in own && p < PAGES && i < ENTRIES && c < PAGES && c !in own && !Has(At(m, p, i).perms, V)
    requires own[p].level > 0 && (own[p].tree.Machine? ==> own[p].level == 2)
    ensures Forest(Hung(m, p, i, c), Grown(own, p, i, c))
    ensures RootsOK(Grown(own, p, i, c), shadow)
    ensures At(Hung(m, p, i, c), p, i) == Entry(PageAddress(c), V)
  {
    UnusedPage(m, own, c, ZeroPage());
    UnpackPack(Entry(PageAddress(c), V));
    LinkTable(m[c := ZeroPage()], own, p, i, c);
  }

  /** Zeroing an unused page and hanging it below an empty entry changes no walk. */
  lemma GrowMapsNothing(m: Mem, own: Ownership, p: nat, i: nat, c: nat, m': Mem)
    requires Forest(m, own)
    requires p in own && p < PAGES && i < ENTRIES && c < PAGES && c !in own && !Has(At(m, p, i).perms, V)
    requires m' == Hung(m, p, i, c)
    ensures SameWalks(m, m', own)
  {
    var z := m[c := ZeroPage()];
    UnusedPage(m, own, c, ZeroPage());
    forall q: nat, v: nat | q in own && q < PAGES && own[q].level <= 2
      ensures Walk(m', q, own[q].level, v) == Walk(m, q, own[q].level, v)
    {
      LinkMapsNothing(z, own, p, i, c, q, v);
      WalkInForest(m, z, own, q, v);
    }
  }

  /** The machine table maps one more 2 MiB region and is otherwise as before. */
  ghost predicate MapsRegion(m: Mem, m': Mem, region: nat) {
    forall v: nat | v < VPNS ::
      Walk(m', ROOT, 2, v) == if v / ENTRIES == region then Some(MachineLeaf(v)) else Walk(m, ROOT, 2, v)
  }

  /** Walks from shadow tables find the same. */
  ghost predicate SameShadow(m: Mem, m': Mem, own: Ownership) {
    forall q: nat, v: nat | q in own && own[q].tree.Shadow? && q < PAGES && own[q].level <= 2 ::
      Walk(m', q, own[q].level, v) == Walk(m, q, own[q].level, v)
  }

  lemma RegionIndices(gm: nat)
    ensures Index(gm / PAGE_BYTES, 1) == gm / 0x20_0000 % ENTRIES
    ensures gm < VA_LIMIT ==> Index(gm / PAGE_BYTES, 2) == gm / 0x4000_0000
    ensures gm / PAGE_BYTES / ENTRIES == gm / 0x20_0000
    ensures gm / 0x20_0000 == gm / 0x4000_0000 * ENTRIES + gm / 0x20_0000 % ENTRIES
    ensures gm == gm / 0x20_0000 * 0x20_0000 + gm / PAGE_BYTES % ENTRIES * PAGE_BYTES + gm % PAGE_BYTES
    ensures gm < VA_LIMIT ==> gm / PAGE_BYTES < VPNS
  {
  }

  /** Without an entry in the machine root, an address is not mapped. */
  lemma NotReached(m: Mem, gm: nat)
    requires gm < VA_LIMIT && !Has(At(m, ROOT, gm / 0x4000_0000).perms, V)
    ensures Walk(m, ROOT, 2, gm / PAGE_BYTES).None?
  {
    RegionIndices(gm);
  }

  /** Entries of the machine root are empty or point to a table of the second level. */
  lemma MachineEntry(m: Mem, own: Ownership, vpn: nat)
    requires Forest(m, own) && ROOT in own && own[ROOT] == Node(2, Machine, Top)
    ensures var e := At(m, ROOT, Index(vpn, 2));
            Has(e.perms, V) ==>
              && IsTable(e) && PageOf(e.address).Some? && PageOf(e.address).value in own
              && own[PageOf(e.address).value] == Node(1, Machine, In(ROOT, Index(vpn, 2)))
  {
    assert EntryOK(m, own, ROOT, Index(vpn, 2));
  }

  lemma ThenMapsRegion(m0: Mem, m1: Mem, m2: Mem, own: Ownership, own1: Ownership, region: nat)
    requires ROOT in own && own[ROOT].level == 2 && Extends(own, own1)
    requires SameWalks(m0, m1, own) && MapsRegion(m1, m2, region) && SameShadow(m1, m2, own1)
    ensures MapsRegion(m0, m2, region) && SameShadow(m0, m2, own)
  {
    forall v: nat | v < VPNS
      ensures Walk(m2, ROOT, 2, v) == if v / ENTRIES == region then Some(MachineLeaf(v)) else Walk(m0, ROOT, 2, v)
    {
      assert Walk(m1, ROOT, own[ROOT].level, v) == Walk(m0, ROOT, own[ROOT].level, v);
    }
    forall q: nat, v: nat | q in own && own[q].tree.Shadow? && q < PAGES && own[q].level <= 2
      ensures Walk(m2, q, own[q].level, v) == Walk(m0, q, own[q].level, v)
    {
      assert Walk(m1, q, own[q].level, v) == Walk(m0, q, own[q].level, v);
      assert own1[q] == own[q];
    }
  }

  lemma ThenMapsRegionOrStays(m0: Mem, m1: Mem, m2: Mem, own: Ownership, own1: Ownership, region: nat)
    requires ROOT in own && own[ROOT].level == 2 && Extends(own, own1)
    requires SameWalks(m0, m1, own) && SameShadow(m1, m2, own1)
    ensures MapsRegion(m1, m2, region) ==> MapsRegion(m0, m2, region)
    ensures SameShadow(m0, m2, own)
    ensures forall v: nat | v < VPNS :: Walk(m1, ROOT, 2, v) == Walk(m0, ROOT, 2, v)
  {
    forall v: nat | v < VPNS ensures Walk(m1, ROOT, 2, v) == Walk(m0, ROOT, 2, v) {
      assert Walk(m1, ROOT, own[ROOT].level, v) == Walk(m0, ROOT, own[ROOT].level, v);
    }
    if MapsRegion(m1, m2, region) {
      ThenMapsRegion(m0, m1, m2, own, own1, region);
    } else {
      forall q: nat, v: nat | q in own && own[q].tree.Shadow? && q < PAGES && own[q].level <= 2
        ensures Walk(m2, q, own[q].level, v) == Walk(m0, q, own[q].level, v)
      {
        assert Walk(m1, q, own[q].level, v) == Walk(m0, q, own[q].level, v);
        assert own1[q] == own[q];
      }
    }
  }

  /** Nothing that the machine table maps is unmapped or moved. */
  ghost predicate KeepsMachine(m: Mem, m': Mem) {
    forall v: nat | v < VPNS && Walk(m, ROOT, 2, v).Some? :: Walk(m', ROOT, 2, v) == Walk(m, ROOT, 2, v)
  }

  lemma ThenKeepsMachine(m0: Mem, m1: Mem, m2: Mem, own: Ownership, region: nat)
    requires Forest(m1, own) && ROOT in own && own[ROOT] == Node(2, Machine, Top)
    requires KeepsMachine(m0, m1) && (m2 == m1 || MapsRegion(m1, m2, region))
    ensures KeepsMachine(m0, m2)
  {
    forall v: nat | v < VPNS && Walk(m0, ROOT, 2, v).Some? ensures Walk(m2, ROOT, 2, v) == Walk(m0, ROOT, 2, v) {
      MachineWalk(m1, own, v);
      assert Walk(m1, ROOT, 2, v) == Walk(m0, ROOT, 2, v);
    }
  }

  lemma ThenSameShadow(m0: Mem, m1: Mem, m2: Mem, own: Ownership, own1: Ownership)
    requires Extends(own, own1) && SameShadow(m0, m1, own) && SameShadow(m1, m2, own1)
    ensures SameShadow(m0, m2, own)
  {
    forall q: nat, v: nat | q in own && own[q].tree.Shadow? && q < PAGES && own[q].level <= 2
      ensures Walk(m2, q, own[q].level, v) == Walk(m0, q, own[q].level, v)
    {
      assert Walk(m1, q, own[q].level, v) == Walk(m0, q, own[q].level, v);
      assert own1[q] == own[q];
    }
  }

  lemma KeepsMachineTransitively(m0: Mem, m1: Mem, m2: Mem)
    requires KeepsMachine(m0, m1) && KeepsMachine(m1, m2)
    ensures KeepsMachine(m0, m2)
  {
    forall v: nat | v < VPNS && Walk(m0, ROOT, 2, v).Some? ensures Walk(m2, ROOT, 2, v) == Walk(m0, ROOT, 2, v) {
      assert Walk(m1, ROOT, 2, v) == Walk(m0, ROOT, 2, v);
    }
  }

  /** Some of these guest-machine addresses are not mapped by the machine table. */
  ghost predicate LacksRegion(m: Mem, addresses: set<nat>) {
    exists a: nat :: a in addresses && Walk(m, ROOT, 2, a / PAGE_BYTES).None?
  }

  /** What the machine table does not map now it did not map before. */
  lemma AlreadyLacked(m: Mem, m': Mem, addresses: set<nat>, a: nat)
    requires KeepsMachine(m, m') && a in addresses && a < VA_LIMIT && Walk(m', ROOT, 2, a / PAGE_BYTES).None?
    ensures LacksRegion(m, addresses)
  {
    RegionIndices(a);
    assert Walk(m, ROOT, 2, a / PAGE_BYTES).None?;
  }

  /** Machine tables are filled on the way, and shadow tables left alone. */
  ghost predicate OnlyFills(m: Mem, m': Mem, own: Ownership) {
    KeepsMachine(m, m') && SameShadow(m, m', own)
  }

  lemma ThenOnlyFills(m0: Mem, m1: Mem, m2: Mem, own: Ownership, own1: Ownership)
    requires Extends(own, own1) && OnlyFills(m0, m1, own) && OnlyFills(m1, m2, own1)
    ensures OnlyFills(m0, m2, own)
  {
    KeepsMachineTransitively(m0, m1, m2);
    ThenSameShadow(m0, m1, m2, own, own1);
  }

  /** What the second-level entry says about the region, given the table it is in. */
  lemma RegionEntry(m: Mem, own: Ownership, vpn: nat, c: nat)
    requires Forest(m, own) && ROOT in own && own[ROOT] == Node(2, Machine, Top) && vpn < VPNS
    requires IsTable(At(m, ROOT, Index(vpn, 2))) && PageOf(At(m, ROOT, Index(vpn, 2)).address) == Some(c)
    ensures var e := At(m, c, Index(vpn, 1));
            && (Walk(m, ROOT, 2, vpn).Some? <==> Has(e.perms, V))
            && (Has(e.perms, V) ==> e.address == MachineLeaf(vpn).base)
  {
    MachineWalk(m, own, vpn);
    assert EntryOK(m, own, ROOT, Index(vpn, 2));
    assert EntryOK(m, own, c, Index(vpn, 1));
  }

  /** The address of the byte of `gm` in the 2 MiB region that starts at `start`. */
  function InRegion(start: nat, gm: nat): (hm: Word) {
    Wrap(start + gm / PAGE_BYTES % ENTRIES * PAGE_BYTES + gm % PAGE_BYTES)
  }

  lemma InRegionIsOffset(gm: nat)
    requires gm < VA_LIMIT
    ensures InRegion(MachineLeaf(gm / PAGE_BYTES).base, gm) == gm + GUEST_MEMORY_OFFSET
  {
    RegionIndices(gm);
  }

  /** The second-level entry that maps the region of a page. */
  function RegionWord(vpn: nat): (w: Word)
    requires vpn < VPNS
    ensures Unpack(w) == Entry(MachineLeaf(vpn).base, V_U_RWX)
  {
    UnpackPack(Entry(MachineLeaf(vpn).base, V_U_RWX));
    Pack(Entry(MachineLeaf(vpn).base, V_U_RWX))
  }

  lemma MapRegion(m: Mem, own: Ownership, c: nat, vpn: nat, m': Mem)
    requires Forest(m, own) && ROOT in own && own[ROOT] == Node(2, Machine, Top)
    requires RAM_START / PAGE_BYTES <= vpn < VPNS && c in own && c < PAGES
    requires own[c] == Node(1, Machine, In(ROOT, Index(vpn, 2))) && !Has(At(m, c, Index(vpn, 1)).perms, V)
    requires m' == Put(m, c, Index(vpn, 1), RegionWord(vpn))
    ensures Forest(m', own)
    ensures MapsRegion(m, m', vpn / ENTRIES)
    ensures SameShadow(m, m', own)
  {
    FromIndices(vpn);
    WriteLeaf(m, own, c, Index(vpn, 1), RegionWord(vpn));
    forall v: nat | v < VPNS
      ensures Walk(m', ROOT, 2, v) == if v / ENTRIES == vpn / ENTRIES then Some(MachineLeaf(v)) else Walk(m, ROOT, 2, v)
    {
      MapRegionAt(m, own, c, vpn, m', v);
    }
    forall q: nat, v: nat | q in own && own[q].tree.Shadow? && q < PAGES && own[q].level <= 2
      ensures Walk(m', q, own[q].level, v) == Walk(m, q, own[q].level, v)
    {
      WalkInTree(m, m', own, q, v);
    }
  }

  lemma MapRegionAt(m: Mem, own: Ownership, c: nat, vpn: nat, m': Mem, v: nat)
    requires Forest(m, own) && ROOT in own && own[ROOT] == Node(2, Machine, Top)
    requires vpn < VPNS && c in own && c < PAGES && v < VPNS
    requires own[c] == Node(1, Machine, In(ROOT, Index(vpn, 2))) && !Has(At(m, c, Index(vpn, 1)).perms, V)
    requires m' == Put(m, c, Index(vpn, 1), RegionWord(vpn))
    ensures Walk(m', ROOT, 2, v) == if v / ENTRIES == vpn / ENTRIES then Some(MachineLeaf(v)) else Walk(m, ROOT, 2, v)
  {
    assert NodeOK(m, own, c);
    MachineEntry(m, own, v);
    FromIndices(v);
    FromIndices(vpn);
    var w := RegionWord(vpn);
    PutElsewhere(m, c, Index(vpn, 1), w, ROOT, Index(v, 2));
    var e := At(m, ROOT, Index(v, 2));
    if Has(e.perms, V) {
      var d := PageOf(e.address).value;
      PutElsewhere(m, c, Index(vpn, 1), w, d, Index(v, 1));
      assert EntryOK(m, own, d, Index(v, 1));
    }
  }

  lemma ThenSameWalks(m0: Mem, m1: Mem, m2: Mem, own: Ownership, own1: Ownership)
    requires Extends(own, own1) && SameWalks(m0, m1, own) && SameWalks(m1, m2, own1)
    ensures SameWalks(m0, m2, own)
  {
    forall q: nat, v: nat | q in own && q < PAGES && own[q].level <= 2
      ensures Walk(m2, q, own[q].level, v) == Walk(m0, q, own[q].level, v)
    {
      assert Walk(m1, q, own[q].level, v) == Walk(m0, q, own[q].level, v);
      assert own1[q] == own[q];
    }
  }

  /** Tables are hung below what there is, and map nothing. */
  ghost predicate OnlyHangs(m: Mem, own: Ownership, m': Mem, own': Ownership) {
    Extends(own, own') && SameWalks(m, m', own)
  }

  lemma ThenOnlyHangs(m0: Mem, own0: Ownership, m1: Mem, own1: Ownership, m2: Mem, own2: Ownership)
    requires OnlyHangs(m0, own0, m1, own1) && OnlyHangs(m1, own1, m2, own2)
    ensures OnlyHangs(m0, own0, m2, own2)
  {
    ThenSameWalks(m0, m1, m2, own0, own1);
  }

  // ---------------------------------------------------------------- shadow leaves

  /** `|=` of one permission bit. */
  function With(perms: Mask, bit: Mask): (p: Mask)
    requires bit > 0
  {
    if Has(perms, bit) then perms else (perms + bit) % 1024
  }

  /** The page is mapped there already, and the access is permitted. */
  predicate Grants(l: Option<Leaf>, hmPage: nat, access: Access) {
    l.Some? && l.value.base == hmPage && Allows(l.value.perms, access)
  }

  /** The mapping after an access: earlier permissions stay only if they were for the same host page. */
  function NewLeaf(l: Option<Leaf>, hmPage: Word, access: Access): (l': Leaf) {
    var kept := if l.Some? && l.value.base == hmPage then l.value.perms else V + U;
    Leaf(hmPage, 0, With(With(kept, BitOf(access)), R))
  }

  lemma Combinations()
    ensures !Allows(V + U, Read) && !Allows(V + U, Write) && !Allows(V + U, Execute)
    ensures Allows(V + U + R, Read) && !Allows(V + U + R, Write) && !Allows(V + U + R, Execute)
    ensures Allows(V + U + R + W, Read) && Allows(V + U + R + W, Write) && !Allows(V + U + R + W, Execute)
    ensures Allows(V + U + R + X, Read) && !Allows(V + U + R + X, Write) && Allows(V + U + R + X, Execute)
    ensures Allows(V + U + R + W + X, Read) && Allows(V + U + R + W + X, Write) && Allows(V + U + R + W + X, Execute)
    ensures With(V + U, R) == V + U + R && With(With(V + U, W), R) == V + U + R + W
    ensures With(With(V + U, X), R) == V + U + R + X
  {
  }

  lemma WithKeeps(perms: Mask, access: Access, a: Access)
    requires perms == V + U || ShadowPerms(perms)
    ensures ShadowPerms(With(With(perms, BitOf(access)), R))
    ensures Allows(With(With(perms, BitOf(access)), R), access)
    ensures Allows(perms, a) ==> Allows(With(With(perms, BitOf(access)), R), a)
  {
    Combinations();
    if perms == V + U {
    } else if perms == V + U + R {
      assert With(perms, W) == V + U + R + W && With(perms, X) == V + U + R + X;
    } else if perms == V + U + R + W {
      assert With(perms, X) == V + U + R + W + X;
    } else if perms == V + U + R + X {
      assert With(perms, W) == V + U + R + W + X;
    }
  }

  lemma NewLeafPerms(l: Option<Leaf>, hmPage: Word, access: Access)
    requires l.Some? ==> ShadowPerms(l.value.perms)
    ensures ShadowPerms(NewLeaf(l, hmPage, access).perms)
    ensures Allows(NewLeaf(l, hmPage, access).perms, access)
    ensures l.Some? && l.value.base == hmPage ==>
              forall a :: Allows(l.value.perms, a) ==> Allows(NewLeaf(l, hmPage, access).perms, a)
  {
    var kept := if l.Some? && l.value.base == hmPage then l.value.perms else V + U;
    forall a ensures Allows(kept, a) ==> Allows(NewLeaf(l, hmPage, access).perms, a) {
      WithKeeps(kept, access, a);
    }
    WithKeeps(kept, access, access);
  }

  /** The table maps one page to the given leaf and is otherwise as before. */
  ghost predicate MapsPage(m: Mem, m': Mem, root: nat, vpn: nat, leaf: Leaf)
    requires root < PAGES
  {
    forall v: nat | v < VPNS :: Walk(m', root, 2, v) == if v == vpn then Some(leaf) else Walk(m, root, 2, v)
  }

  lemma ShadowPermsMapMemory(perms: Mask)
    requires ShadowPerms(perms)
    ensures Has(perms, V) && Leafy(perms) && Has(perms, U) && Has(perms, R)
  {
  }

  lemma ThirdLevelEntry(m: Mem, own: Ownership, p: nat, i: nat)
    requires Forest(m, own) && p < PAGES && p in own && own[p].level == 0 && own[p].tree.Shadow? && i < ENTRIES
    ensures var e := At(m, p, i);
            if Has(e.perms, V) then ShadowPerms(e.perms) && Leafy(e.perms) else e == Entry(0, 0)
  {
    assert EntryOK(m, own, p, i);
  }

  /** What the third-level entry says about a page, given the table it is in. */
  lemma LeafEntry(m: Mem, own: Ownership, root: nat, vpn: nat, p: nat)
    requires Forest(m, own) && root < PAGES && p < PAGES && OnPath(own, root, vpn, 0, p) && own[p].tree.Shadow?
    ensures var e := At(m, p, Index(vpn, 0));
            && Walk(m, root, 2, vpn) == (if Has(e.perms, V) then Some(Leaf(e.address, 0, e.perms)) else None)
            && (Has(e.perms, V) ==> ShadowPerms(e.perms))
            && (!Has(e.perms, V) ==> e == Entry(0, 0))
  {
    ThirdLevelEntry(m, own, p, Index(vpn, 0));
    WalkFromPath(m, own, root, vpn, 0, p, p, 0);
  }

  lemma StoresInForest(m: Mem, own: Ownership, p: nat, i: nat, e: Entry)
    requires Forest(m, own) && p < PAGES && p in own && own[p].level == 0 && own[p].tree.Shadow? && i < ENTRIES
    requires e.address >= GUEST_HOST_START && e.address % PAGE_BYTES == 0 && ShadowPerms(e.perms)
    ensures Forest(Put(m, p, i, Pack(e)), own)
  {
    UnpackPack(e);
    assert EntryOK(m, own, p, i);
    WriteLeaf(m, own, p, i, Pack(e));
  }

  lemma StoresLeaf(m: Mem, own: Ownership, root: nat, vpn: nat, p: nat, e: Entry, m': Mem)
    requires Forest(m, own) && ROOT in own && own[ROOT] == Node(2, Machine, Top)
    requires root < PAGES && p < PAGES && OnPath(own, root, vpn, 0, p) && own[p].tree.Shadow? && vpn < VPNS
    requires e.address >= GUEST_HOST_START && e.address % PAGE_BYTES == 0 && ShadowPerms(e.perms)
    requires m' == Put(m, p, Index(vpn, 0), Pack(e))
    ensures Forest(m', own)
    ensures MapsPage(m, m', root, vpn, Leaf(e.address, 0, e.perms))
    ensures SameMachine(m, m')
  {
    StoresInForest(m, own, p, Index(vpn, 0), e);
    UnpackPack(e);
    ShadowPermsMapMemory(e.perms);
    forall v: nat | v < VPNS
      ensures Walk(m', root, 2, v) == if v == vpn then Some(Leaf(e.address, 0, e.perms)) else Walk(m, root, 2, v)
    {
      PointUpdate(m, own, root, vpn, p, Pack(e), v);
    }
    forall v: nat ensures Walk(m', ROOT, 2, v) == Walk(m, ROOT, 2, v) {
      WalkInTree(m, m', own, ROOT, v);
    }
  }

  /** Above the third level, entries of the shadow table are empty or point to a table. */
  lemma InteriorEntry(m: Mem, own: Ownership, root: nat, vpn: nat, level: nat, p: nat)
    requires Forest(m, own) && root < PAGES && p < PAGES && 0 < level <= 2
    requires OnPath(own, root, vpn, level, p) && own[p].tree.Shadow?
    ensures Has(At(m, p, Index(vpn, level)).perms, V) ==> IsTable(At(m, p, Index(vpn, level)))
    ensures Walk(m, root, 2, vpn).Some? ==> Has(At(m, p, Index(vpn, level)).perms, V)
  {
    assert EntryOK(m, own, p, Index(vpn, level));
    WalkFromPath(m, own, root, vpn, level, p, p, 0);
  }

  lemma ThenMapsPage(m0: Mem, m1: Mem, m2: Mem, own: Ownership, root: nat, vpn: nat)
    requires ROOT in own && own[ROOT].level == 2 && root in own && own[root].level == 2 && root < PAGES
    requires SameWalks(m0, m1, own) && SameMachine(m1, m2)
    ensures SameMachine(m0, m2)
    ensures forall leaf | MapsPage(m1, m2, root, vpn, leaf) :: MapsPage(m0, m2, root, vpn, leaf)
    ensures Walk(m1, root, 2, vpn) == Walk(m0, root, 2, vpn)
  {
    assert Walk(m1, root, own[root].level, vpn) == Walk(m0, root, own[root].level, vpn);
    forall v: nat ensures Walk(m2, ROOT, 2, v) == Walk(m0, ROOT, 2, v) {
      assert Walk(m1, ROOT, own[ROOT].level, v) == Walk(m0, ROOT, own[ROOT].level, v);
    }
    forall leaf | MapsPage(m1, m2, root, vpn, leaf) ensures MapsPage(m0, m2, root, vpn, leaf) {
      forall v: nat | v < VPNS
        ensures Walk(m2, root, 2, v) == if v == vpn then Some(leaf) else Walk(m0, root, 2, v)
      {
        assert Walk(m1, root, own[root].level, v) == Walk(m0, root, own[root].level, v);
      }
    }
  }

  lemma HostPage(hm: nat)
    requires hm >= GUEST_HOST_START
    ensures PageFloor(hm) >= GUEST_HOST_START && PageFloor(hm) % PAGE_BYTES == 0
  {
  }

  /** The entry that an access leaves behind, given what was there. */
  lemma LeafAfter(before: Entry, l: Option<Leaf>, hmPage: Word, access: Access)
    requires l == if Has(before.perms, V) then Some(Leaf(before.address, 0, before.perms)) else None
    requires if Has(before.perms, V) then ShadowPerms(before.perms) else before == Entry(0, 0)
    requires hmPage >= GUEST_HOST_START
    ensures var e := if before.address != hmPage then Entry(hmPage, V + U) else before;
            && (Has(e.perms, BitOf(access)) <==> Grants(l, hmPage, access))
            && Entry(hmPage, With(With(e.perms, BitOf(access)), R)) == Entry(hmPage, NewLeaf(l, hmPage, access).perms)
            && e.address == hmPage
  {
    Combinations();
  }

  /** Walks of the machine table find the same. */
  ghost predicate SameMachine(m: Mem, m': Mem) {
    forall v: nat :: Walk(m', ROOT, 2, v) == Walk(m, ROOT, 2, v)
  }

  // ---------------------------------------------------------------- pruning

  /** Nodes only go away, and only shadow tables below the given level. */
  ghost predicate Prunes(own: Ownership, own': Ownership, level: nat) {
    && Extends(own', own)
    && forall q | q in own && (own[q].tree.Machine? || own[q].level >= level) :: q in own'
  }

  ghost predicate PrunesBut(own: Ownership, own': Ownership, level: nat, but: nat) {
    && Extends(own', own)
    && forall q | q in own && q != but && (own[q].tree.Machine? || own[q].level >= level) :: q in own'
  }

  lemma ThenPrunes(own: Ownership, own1: Ownership, own2: Ownership, level: nat, child: nat)
    requires child in own && own[child].tree.Shadow? && own[child].level + 1 == level
    requires own1 == own[child := own[child].(slot := Top)]
    requires PrunesBut(own1, own2, level - 1, child) && child !in own2
    ensures Prunes(own, own2, level)
  {
  }

  lemma ThenKeepsPages(m: Mem, m1: Mem, m2: Mem, own: Ownership, own1: Ownership,
                       level: nat, table: nat, i: nat, child: nat)
    requires table in own && own[table].level == level && table < PAGES && i < ENTRIES && table != child
    requires child in own && own[child].tree.Shadow? && own[child].level + 1 == level
    requires own1 == own[child := own[child].(slot := Top)]
    requires m1 == Put(m, table, i, 0) && KeepsPages(m1, m2, own1, level - 1, child)
    ensures KeepsPages(m, m2, own, level, table) && m2[table] == m[table][i := 0]
  {
    assert own1[table] == own[table];
  }

  ghost predicate KeepsPages(m: Mem, m': Mem, own: Ownership, level: nat, but: nat) {
    forall q | q in own && q != but && q < PAGES && (own[q].tree.Machine? || own[q].level >= level) :: m'[q] == m[q]
  }

  lemma Flushed(m: Mem, m': Mem, own: Ownership, own': Ownership, root: nat)
    requires Forest(m, own) && RootsOK(own, Some(root)) && root < PAGES
    requires Forest(m', own') && Prunes(own, own', 2) && KeepsPages(m, m', own, 2, root) && Zeroed(m'[root])
    ensures RootsOK(own', Some(root))
    ensures forall q :: q in own' <==> q in own && (own[q].tree.Machine? || q == root)
    ensures forall v: nat :: Walk(m', root, 2, v) == None
    ensures SameMachine(m, m')
  {
    forall q | q in own' ensures own[q].tree.Machine? || q == root {
      if own[q].tree.Shadow? {
        EmptyRootIsAlone(m', own', root, q);
      }
    }
    forall v: nat ensures Walk(m', ROOT, 2, v) == Walk(m, ROOT, 2, v) {
      WalkInTree(m, m', own, ROOT, v);
    }
    forall v: nat ensures Walk(m', root, 2, v) == None {
      EmptyTableMapsNothing(m', root, v);
    }
  }

  lemma EmptyTableMapsNothing(m: Mem, p: nat, v: nat)
    requires p < PAGES && Zeroed(m[p])
    ensures Walk(m, p, 2, v) == None
  {
  }

  lemma NewShadowRoot(m: Mem, m': Mem, own: Ownership, c: nat)
    requires Forest(m, own) && RootsOK(own, None) && c !in own && c < PAGES && m' == m[c := ZeroPage()]
    ensures Forest(m', own[c := Node(2, Shadow, Top)])
    ensures RootsOK(own[c := Node(2, Shadow, Top)], Some(c))
    ensures forall v: nat :: Walk(m', c, 2, v) == None
    ensures SameMachine(m, m')
  {
    UnusedPage(m, own, c, ZeroPage());
    NewRoot(m', own, c);
    forall v: nat ensures Walk(m', c, 2, v) == None {
      EmptyTableMapsNothing(m', c, v);
    }
    forall v: nat ensures Walk(m', ROOT, 2, v) == Walk(m, ROOT, 2, v) {
      WalkInForest(m, m', own, ROOT, v);
    }
  }

  class AddressSpaces {
    const pool: Pool
    /** `shadow_page_table` of the guest thread. */
    var shadowRoot: Option<nat>
    /** The host's `satp`. */
    var satp: Word
    /** Guest RAM, which the guest writes as it pleases. */
    var ram: Ram
    ghost var own: Ownership
    /** Translations, successful or not, that the hart has cached since the last fence. */
    ghost var tlb: map<nat, Option<Leaf>>

    ghost function Mem(): (m: Mem)
      requires pool.pages.Length == PAGES
      reads pool.pages
    {
      pool.pages[..]
    }

    /** Everything except the agreement with the translation cache. */
    ghost predicate Owned()
      reads this, pool, pool.pages
    {
      && pool.Valid(own.Keys)
      && Forest(Mem(), own)
      && RootsOK(own, shadowRoot)
      && SatpOK(satp, shadowRoot)
    }

    ghost predicate Coherent()
      requires pool.pages.Length == PAGES
      reads this, pool.pages
    {
      CachesWalks(Mem(), satp, tlb)
    }

    ghost predicate Valid()
      reads this, pool, pool.pages
    {
      Owned() && Coherent()
    }

    /** The state in which the first guest is entered: an empty machine table, and no shadow table. */
    constructor Boot(pool: Pool, ram: Ram)
      requires pool.Valid({ROOT}) && pool.pages[ROOT] == ZeroPage()
      ensures Valid() && fresh(this)
      ensures this.pool == pool && this.ram == ram && shadowRoot == None && satp == MakeSatp(ROOT)
      ensures own == map[ROOT := Node(2, Machine, Top)]
      ensures Mem() == old(pool.pages[..])
    {
      this.pool := pool;
      this.ram := ram;
      shadowRoot := None;
      satp := MakeSatp(ROOT);
      own := map[ROOT := Node(2, Machine, Top)];
      tlb := map[];
      new;
      assert own.Keys == {ROOT};
    }

    ghost method Fence()
      modifies this`tlb
      ensures tlb == map[]
    {
      tlb := map[];
    }

    /** A zeroed page, or NULL exactly when the pool is exhausted. */
    method AllocateTable() returns (table: Option<nat>)
      requires pool.Valid(own.Keys) && Forest(Mem(), own)
      modifies pool, pool.pages
      ensures table.None? <==> Exhausted(own.Keys)
      ensures table.None? ==> pool.Valid(own.Keys) && Mem() == old(Mem())
      ensures table.Some? ==>
                && 1 <= table.value <= POOL_PAGES && table.value !in own
                && pool.Valid(own.Keys + {table.value})
                && Mem() == old(Mem())[table.value := ZeroPage()]
      ensures Forest(Mem(), own)
    {
      table := pool.AllocatePage(own.Keys);
      if table.None? {
        return;
      }
      var t := table.value;
      ghost var m := Mem();
      for i := 0 to ENTRIES
        modifies pool.pages
        invariant forall q | 0 <= q < PAGES && q != t :: pool.pages[q] == m[q]
        invariant forall j | 0 <= j < i :: pool.pages[t][j] == 0
      {
        pool.pages[t] := pool.pages[t][i := 0];
      }
      assert pool.pages[t] == ZeroPage();
      assert Mem() == m[t := ZeroPage()];
      assert t !in pool.free by {
        assert t in own.Keys + {t};
      }
      LinkedElsewhere(m, pool.freeListTop, pool.free, t, ZeroPage());
      UnusedPage(m, own, t, ZeroPage());
    }

    /** Overwrite one entry of a live table. */
    method StoreEntry(p: nat, i: nat, w: Word)
      requires pool.Valid(own.Keys) && p in own && p < PAGES && i < ENTRIES
      modifies pool.pages
      ensures pool.Valid(own.Keys) && Mem() == Put(old(Mem()), p, i, w)
    {
      LinkedElsewhere(Mem(), pool.freeListTop, pool.free, p, Mem()[p][i := w]);
      pool.pages[p] := pool.pages[p][i := w];
      assert Mem() == Put(old(Mem()), p, i, w);
    }

    /** Allocate a table and point an empty entry to it. */
    method HangTable(p: nat, i: nat) returns (child: Option<nat>)
      requires Valid() && p in own && p < PAGES && i < ENTRIES
      requires own[p].level > 0 && (own[p].tree.Machine? ==> own[p].level == 2)
      requires !Has(At(Mem(), p, i).perms, V)
      modifies this`own, pool, pool.pages
      ensures Valid()
      ensures child.None? <==> old(Exhausted(own.Keys))
      ensures child.None? ==> Mem() == old(Mem()) && own == old(own)
      ensures child.Some? ==>
                && child.value < PAGES && child.value !in old(own)
                && own == Grown(old(own), p, i, child.value)
                && At(Mem(), p, i) == Entry(PageAddress(child.value), V)
      ensures SameWalks(old(Mem()), Mem(), old(own))
    {
      child := AllocateTable();
      if child.None? {
        return;
      }
      Grow(old(Mem()), own, shadowRoot, p, i, child.value);
      own := Grown(own, p, i, child.value);
      assert own.Keys == old(own.Keys) + {child.value};
      StoreEntry(p, i, Pack(Entry(PageAddress(child.value), V)));
      GrowMapsNothing(old(Mem()), old(own), p, i, child.value, Mem());
      StillCoherent(old(Mem()), Mem(), old(own), shadowRoot, satp, tlb);
    }

    /**
     The table that entry `i` of table `p` points to, made on demand. Making it maps nothing, so
     no fence is needed yet.
     */
    method ChildTable(p: nat, i: nat) returns (child: Option<nat>)
      requires Valid() && p in own && p < PAGES && i < ENTRIES
      requires own[p].level > 0 && (own[p].tree.Machine? ==> own[p].level == 2)
      requires Has(At(Mem(), p, i).perms, V) ==> IsTable(At(Mem(), p, i))
      modifies this`own, pool, pool.pages
      ensures Valid()
      ensures Extends(old(own), own)
      ensures child.None? <==> old(!Has(At(Mem(), p, i).perms, V) && Exhausted(own.Keys))
      ensures child.None? || old(Has(At(Mem(), p, i).perms, V)) ==> Mem() == old(Mem()) && own == old(own)
      ensures child.Some? ==>
                && IsTable(At(Mem(), p, i)) && PageOf(At(Mem(), p, i).address) == child
                && child.value in own && own[child.value] == Node(old(own[p].level) - 1, old(own[p].tree), In(p, i))
      ensures SameWalks(old(Mem()), Mem(), old(own))
    {
      assert EntryOK(Mem(), own, p, i);
      var unpacked := Unpack(pool.pages[p][i]);
      if Has(unpacked.perms, V) {
        return PageOf(unpacked.address);
      }
      child := HangTable(p, i);
    }

    /** Write the second-level entry of a region that is not mapped yet. */
    method FillRegion(child: nat, lvl3: nat, lvl2: nat, ghost vpn: nat) returns (start: Word)
      requires Valid() && RAM_START / PAGE_BYTES <= vpn < VPNS && lvl3 == Index(vpn, 2) && lvl2 == Index(vpn, 1)
      requires child in own && child < PAGES && own[child] == Node(1, Machine, In(ROOT, lvl3))
      requires !Has(At(Mem(), child, lvl2).perms, V)
      modifies this`tlb, pool.pages
      ensures Valid() && tlb == map[]
      ensures start == MachineLeaf(vpn).base
      ensures MapsRegion(old(Mem()), Mem(), vpn / ENTRIES)
      ensures SameShadow(old(Mem()), Mem(), own)
    {
      FromIndices(vpn);
      start := lvl3 * 0x4000_0000 + lvl2 * 0x20_0000 + GUEST_MEMORY_OFFSET;
      assert start == MachineLeaf(vpn).base;
      StoreEntry(child, lvl2, Pack(Entry(start, V_U_RWX)));
      Fence();
      MapRegion(old(Mem()), own, child, vpn, Mem());
    }

    /**
     Make the machine table map the 2 MiB region around a guest-machine address, and give the
     host address it maps to.
     */
    method EnsureGuestMachineMapped(gm: Word) returns (r: Outcome, hm: Word)
      requires Valid()
      modifies this`own, this`tlb, pool, pool.pages
      ensures Valid() && Extends(old(own), own)
      ensures r.TooLow? <==> gm < RAM_START
      ensures r.TooHigh? <==> gm >= VA_LIMIT
      ensures r.NotChanged? <==> InRam(gm) && old(Walk(Mem(), ROOT, 2, gm / PAGE_BYTES).Some?)
      ensures r.Panic? <==> InRam(gm) && old(!Has(At(Mem(), ROOT, gm / 0x4000_0000).perms, V) && Exhausted(own.Keys))
      ensures !r.Wild?
      ensures r.Success? || r.NotChanged? ==> hm == gm + GUEST_MEMORY_OFFSET
      ensures r.Success? ==> tlb == map[] && MapsRegion(old(Mem()), Mem(), gm / 0x20_0000)
      ensures !r.Success? ==> Mem() == old(Mem()) && own == old(own) && tlb == old(tlb)
      ensures SameShadow(old(Mem()), Mem(), old(own))
    {
      hm := 0;
      if gm < RAM_START {
        return TooLow, hm;
      }
      var lvl3 := gm / 0x4000_0000;
      if lvl3 >= ENTRIES {
        return TooHigh, hm;
      }
      ghost var vpn := gm / PAGE_BYTES;
      RegionIndices(gm);
      MachineEntry(Mem(), own, vpn);
      var child := ChildTable(ROOT, lvl3);
      if child.None? {
        return Panic, hm;
      }
      ghost var m := Mem();
      r, hm := EnsureRegion(child.value, gm);
      ThenMapsRegionOrStays(old(Mem()), m, Mem(), old(own), own, gm / 0x20_0000);
    }

    /** The second level: map the region of an address in a table of the machine, unless it is mapped. */
    method EnsureRegion(child: nat, gm: Word) returns (r: Outcome, hm: Word)
      requires Valid() && InRam(gm) && child in own && child < PAGES
      requires IsTable(At(Mem(), ROOT, Index(gm / PAGE_BYTES, 2)))
      requires PageOf(At(Mem(), ROOT, Index(gm / PAGE_BYTES, 2)).address) == Some(child)
      modifies this`tlb, pool.pages
      ensures Valid() && (r.Success? || r.NotChanged?) && hm == gm + GUEST_MEMORY_OFFSET
      ensures r.NotChanged? <==> old(Walk(Mem(), ROOT, 2, gm / PAGE_BYTES)).Some?
      ensures r.NotChanged? ==> Mem() == old(Mem()) && tlb == old(tlb)
      ensures r.Success? ==> tlb == map[] && MapsRegion(old(Mem()), Mem(), gm / 0x20_0000)
      ensures SameShadow(old(Mem()), Mem(), own)
    {
      RegionIndices(gm);
      InRegionIsOffset(gm);
      RegionEntry(Mem(), own, gm / PAGE_BYTES, child);
      MachineEntry(Mem(), own, gm / PAGE_BYTES);
      var lvl2 := gm / 0x20_0000 % ENTRIES;
      var unpacked := Unpack(pool.pages[child][lvl2]);
      if Has(unpacked.perms, V) {
        hm := InRegion(unpacked.address, gm);
        return NotChanged, hm;
      }
      var start := FillRegion(child, gm / 0x4000_0000, lvl2, gm / PAGE_BYTES);
      hm := InRegion(start, gm);
      r := Success;
    }

    /** The word at a host-physical address, which may lie in the hypervisor's own pages. */
    method HostLoad(address: nat) returns (w: Word)
      requires pool.pages.Length == PAGES
      ensures address >= GUEST_HOST_START ==> w == Load(ram, address)
    {
      match PageOf(PageFloor(address)) {
        case Some(p) => w := pool.pages[p][address % PAGE_BYTES / 8];
        case None => w := Load(ram, address);
      }
    }

    /** The bytes that host instructions read at a host-physical address. */
    method HostLoadByte(address: nat) returns (b: nat)
      requires pool.pages.Length == PAGES
      ensures address >= GUEST_HOST_START ==> b == RamByte(ram, address)
    {
      var w := HostLoad(address - address % 8);
      b := ByteOf(w, address % 8);
    }

    method HostLoadHalf(address: nat) returns (h: nat)
      requires pool.pages.Length == PAGES
      ensures address >= GUEST_HOST_START ==> h == RamHalf(ram, address)
    {
      var low := HostLoadByte(address);
      var high := HostLoadByte(address + 1);
      h := low + 256 * high;
    }

    /** A store of the guest to a host-physical address, which may lie in the hypervisor's own pages. */
    method HostStore(address: Word, w: Word)
      requires pool.pages.Length == PAGES
      modifies this`ram, pool.pages
      ensures address >= GUEST_HOST_START ==> Mem() == old(Mem()) && ram == old(ram)[address := w]
    {
      match PageOf(PageFloor(address)) {
        case Some(p) => pool.pages[p] := pool.pages[p][address % PAGE_BYTES / 8 := w];
        case None => ram := ram[address := w];
      }
    }

    /** A store to guest RAM leaves everything else as it is. */
    method StoreToRam(address: Word, w: Word)
      requires Valid() && address >= GUEST_HOST_START
      modifies this`ram, pool.pages
      ensures Valid() && Mem() == old(Mem()) && ram == old(ram)[address := w]
    {
      HostStore(address, w);
    }

    /** Entry `i` of the guest's table at `table`, which the host reaches at `start`. */
    method LoadGuestEntry(ghost table: Word, start: Word, i: nat) returns (entry: Entry)
      requires pool.pages.Length == PAGES && i < ENTRIES && InRam(table) && start == table + GUEST_MEMORY_OFFSET
      ensures entry == Unpack(GuestEntry(ram, table, i))
    {
      var w := HostLoad(start + 8 * i);
      entry := Unpack(w);
    }

    /** Entry `i` of the guest's table at a guest-machine address, which is made reachable first. */
    method ReadGuestEntry(table: Word, i: nat) returns (r: Outcome, entry: Entry)
      requires Valid() && i < ENTRIES
      modifies this`own, this`tlb, pool, pool.pages
      ensures Valid() && Extends(old(own), own)
      ensures r.Success? || r.NotChanged? ==> InRam(table) && entry == Unpack(GuestEntry(ram, table, i))
      ensures r.TooLow? || r.TooHigh? ==> !InRam(table)
      ensures r.Panic? ==> Exhausted(own.Keys) && InRam(table) && old(Walk(Mem(), ROOT, 2, table / PAGE_BYTES)).None?
      ensures !r.Wild?
      ensures KeepsMachine(old(Mem()), Mem())
      ensures SameShadow(old(Mem()), Mem(), old(own))
    {
      var next;
      r, next := EnsureGuestMachineMapped(table);
      if r.Panic? {
        NotReached(old(Mem()), table);
      }
      ThenKeepsMachine(old(Mem()), old(Mem()), Mem(), old(own), table / 0x20_0000);
      entry := Entry(0, 0);
      if r.Success? || r.NotChanged? {
        entry := LoadGuestEntry(table, next, i);
      }
    }

    /**
     Walk the guest's tables for `gu`. The tables are made reachable on the way, which fills the
     machine table but neither moves anything that was mapped nor touches guest memory. No result
     stands for a panic.
     */
    method TryResolve(ppn: nat, gu: Word) returns (r: Option<Resolution>)
      requires Valid() && ppn < 0x1000_0000_0000
      modifies this`own, this`tlb, pool, pool.pages
      ensures Valid() && Extends(old(own), own)
      ensures r.Some? ==> r.value == Resolve(ram, ppn, gu)
      ensures r.None? ==> Exhausted(own.Keys) && LacksRegion(old(Mem()), TablesRead(ram, ppn, gu))
      ensures KeepsMachine(old(Mem()), Mem())
      ensures SameShadow(old(Mem()), Mem(), old(own))
    {
      PointerPerms();
      var entry := Entry(ppn * PAGE_BYTES, V);
      // Bits 12 + 9 * level upwards of the address are the component that comes next.
      var level: nat := 2;
      while true
        invariant level <= 2 && (Leafy(entry.perms) ==> level < 2)
        invariant Valid() && Extends(old(own), own)
        invariant Resolve(ram, ppn, gu) == ResolveFrom(ram, entry, level, gu)
        invariant TablesFrom(ram, entry, level, gu) <= TablesRead(ram, ppn, gu)
        invariant OnlyFills(old(Mem()), Mem(), old(own))
        decreases level
      {
        if !Has(entry.perms, V) {
          return Some(Refused);
        }
        if Leafy(entry.perms) {
          if !Has(entry.perms, U) {
            return Some(Refused);
          }
          return Some(Resolved(Wrap(entry.address + gu % LeafBytes(level + 1))));
        }
        if level == 0 {
          return Some(Refused);
        }
        ghost var m, o := Mem(), own;
        var mapped, next := ReadGuestEntry(entry.address, Index(gu / PAGE_BYTES, level));
        ThenOnlyFills(old(Mem()), m, Mem(), old(own), o);
        if mapped.Panic? {
          AlreadyLacked(old(Mem()), m, TablesRead(ram, ppn, gu), entry.address);
          return None;
        }
        if mapped.TooLow? || mapped.TooHigh? {
          return Some(Resolution.Wild);
        }
        entry := next;
        level := level - 1;
      }
    }

    /** Write the third-level entry of `gu`, unless it permits the access already. */
    method StoreLeaf(table: nat, gu: Word, hmPage: Word, access: Access) returns (r: Outcome)
      requires Valid() && shadowRoot.Some? && gu < VA_LIMIT
      requires hmPage >= GUEST_HOST_START && hmPage % PAGE_BYTES == 0
      requires table < PAGES && OnPath(own, shadowRoot.value, gu / PAGE_BYTES, 0, table) && own[table].tree.Shadow?
      modifies this`tlb, pool.pages
      ensures Valid()
      ensures r.Success? || r.NotChanged?
      ensures r.NotChanged? <==> old(Grants(Walk(Mem(), shadowRoot.value, 2, gu / PAGE_BYTES), hmPage, access))
      ensures r.NotChanged? ==> Mem() == old(Mem()) && tlb == old(tlb)
      ensures r.Success? ==>
                && tlb == map[]
                && MapsPage(old(Mem()), Mem(), shadowRoot.value, gu / PAGE_BYTES,
                            NewLeaf(old(Walk(Mem(), shadowRoot.value, 2, gu / PAGE_BYTES)), hmPage, access))
      ensures SameMachine(old(Mem()), Mem())
    {
      var i := gu / PAGE_BYTES % ENTRIES;
      ghost var before := Walk(Mem(), shadowRoot.value, 2, gu / PAGE_BYTES);
      var leaf := Unpack(pool.pages[table][i]);
      LeafEntry(Mem(), own, shadowRoot.value, gu / PAGE_BYTES, table);
      LeafAfter(leaf, before, hmPage, access);
      if leaf.address != hmPage {
        leaf := Entry(hmPage, V + U);
      }
      if Has(leaf.perms, BitOf(access)) {
        return NotChanged;
      }
      leaf := leaf.(perms := With(With(leaf.perms, BitOf(access)), R));
      NewLeafPerms(before, hmPage, access);
      StoreEntry(table, i, Pack(leaf));
      Fence();
      StoresLeaf(old(Mem()), own, shadowRoot.value, gu / PAGE_BYTES, table, leaf, Mem());
      r := Success;
    }

    /** One round of the loop of `update_shadow_pt`: the table below on the path to a page, made on demand. */
    method DescendOnce(parent: nat, vpn: nat, i: nat) returns (child: Option<nat>)
      requires Valid() && shadowRoot.Some? && 0 < i <= 2 && parent < PAGES
      requires OnPath(own, shadowRoot.value, vpn, i, parent) && own[parent].tree.Shadow?
      modifies this`own, pool, pool.pages
      ensures Valid() && Extends(old(own), own) && SameWalks(old(Mem()), Mem(), old(own))
      ensures child.None? ==> Exhausted(own.Keys)
      ensures child.Some? ==>
                && child.value < PAGES && OnPath(own, shadowRoot.value, vpn, i - 1, child.value)
                && own[child.value].tree.Shadow?
      ensures old(Walk(Mem(), shadowRoot.value, 2, vpn)).Some? ==>
                child.Some? && Mem() == old(Mem()) && own == old(own)
    {
      InteriorEntry(Mem(), own, shadowRoot.value, vpn, i, parent);
      child := ChildTable(parent, Index(vpn, i));
      OnPathExtends(old(own), own, shadowRoot.value, vpn, i, parent);
    }

    /** The third-level table for a page, with the tables on the way to it made on demand. */
    method Descend(vpn: nat) returns (table: Option<nat>)
      requires Valid() && shadowRoot.Some? && vpn < VPNS
      modifies this`own, pool, pool.pages
      ensures Valid() && Extends(old(own), own)
      ensures table.None? ==> Exhausted(own.Keys)
      ensures table.Some? ==>
                && table.value < PAGES && OnPath(own, shadowRoot.value, vpn, 0, table.value)
                && own[table.value].tree.Shadow?
      ensures SameWalks(old(Mem()), Mem(), old(own))
      ensures old(Walk(Mem(), shadowRoot.value, 2, vpn).Some?) ==>
                table.Some? && Mem() == old(Mem()) && own == old(own)
    {
      var parent: nat := shadowRoot.value;
      var i: nat := 2;
      while i > 0
        invariant i <= 2 && Valid()
        invariant parent < PAGES && OnPath(own, shadowRoot.value, vpn, i, parent) && own[parent].tree.Shadow?
        invariant OnlyHangs(old(Mem()), old(own), Mem(), own)
        invariant old(Walk(Mem(), shadowRoot.value, 2, vpn)).Some? ==> Mem() == old(Mem()) && own == old(own)
        decreases i
      {
        ghost var m, o := Mem(), own;
        var child := DescendOnce(parent, vpn, i);
        ThenOnlyHangs(old(Mem()), old(own), m, o, Mem(), own);
        if child.None? {
          return None;
        }
        parent := child.value;
        i := i - 1;
      }
      table := Some(parent);
    }

    /** Enter `gu` -> `hm` into the shadow table, with permission for the access at hand. */
    method UpdateShadow(gu: Word, hm: Word, access: Access) returns (r: Outcome)
      requires Valid() && shadowRoot.Some? && hm >= GUEST_HOST_START
      modifies this`own, this`tlb, pool, pool.pages
      ensures Valid() && Extends(old(own), own)
      ensures gu % PAGE_BYTES != hm % PAGE_BYTES ==> r.Panic?
      ensures r.TooHigh? <==> gu % PAGE_BYTES == hm % PAGE_BYTES && gu >= VA_LIMIT
      ensures r.NotChanged? <==>
                && gu % PAGE_BYTES == hm % PAGE_BYTES && gu < VA_LIMIT
                && old(Grants(Walk(Mem(), shadowRoot.value, 2, gu / PAGE_BYTES), PageFloor(hm), access))
      ensures r.Panic? && gu % PAGE_BYTES == hm % PAGE_BYTES ==>
                Exhausted(own.Keys) && old(Walk(Mem(), shadowRoot.value, 2, gu / PAGE_BYTES)).None?
      ensures !r.Wild? && !r.TooLow?
      ensures r.Success? ==>
                && tlb == map[]
                && MapsPage(old(Mem()), Mem(), shadowRoot.value, gu / PAGE_BYTES,
                            NewLeaf(old(Walk(Mem(), shadowRoot.value, 2, gu / PAGE_BYTES)), PageFloor(hm), access))
      ensures !r.Success? ==> SameWalks(old(Mem()), Mem(), old(own))
      ensures r.NotChanged? ==> Mem() == old(Mem()) && own == old(own)
      ensures SameMachine(old(Mem()), Mem())
    {
      if gu % PAGE_BYTES != hm % PAGE_BYTES {
        return Panic;
      }
      var hmPage := PageFloor(hm);
      if gu / 0x4000_0000 >= ENTRIES {
        return TooHigh;
      }
      var table := Descend(gu / PAGE_BYTES);
      if table.None? {
        return Panic;
      }
      HostPage(hm);
      ghost var m := Mem();
      r := StoreLeaf(table.value, gu, hmPage, access);
      ThenMapsPage(old(Mem()), m, Mem(), old(own), shadowRoot.value, gu / PAGE_BYTES);
    }

    /**
     `clear_pagetable`: zero a shadow table and give the tables below it back to the pool. Tables
     of its own level or above, and the machine's tables, are not touched.
     */
    method ClearTable(table: nat)
      requires pool.Valid(own.Keys) && Forest(Mem(), own) && ROOT in own && own[ROOT].tree.Machine?
      requires table in own && table < PAGES && own[table].level <= 2 && own[table].tree.Shadow?
      modifies this`own, pool, pool.pages
      decreases own[table].level, 1
      ensures pool.Valid(own.Keys) && Forest(Mem(), own)
      ensures Prunes(old(own), own, old(own[table].level)) && table in own
      ensures Zeroed(Mem()[table])
      ensures KeepsPages(old(Mem()), Mem(), old(own), old(own[table].level), table)
      ensures pool.nextUnallocatedIdx == old(pool.nextUnallocatedIdx)
    {
      ghost var level := own[table].level;
      for i := 0 to ENTRIES
        invariant pool.Valid(own.Keys) && Forest(Mem(), own)
        invariant Prunes(old(own), own, level) && table in own
        invariant forall j | 0 <= j < i :: Mem()[table][j] == 0
        invariant KeepsPages(old(Mem()), Mem(), old(own), level, table)
        invariant pool.nextUnallocatedIdx == old(pool.nextUnallocatedIdx)
      {
        ClearEntry(table, i);
      }
    }

    /** One round of the loop of `clear_pagetable`. */
    method ClearEntry(table: nat, i: nat)
      requires pool.Valid(own.Keys) && Forest(Mem(), own) && ROOT in own && own[ROOT].tree.Machine? && i < ENTRIES
      requires table in own && table < PAGES && own[table].level <= 2 && own[table].tree.Shadow?
      modifies this`own, pool, pool.pages
      decreases own[table].level, 0
      ensures pool.Valid(own.Keys) && Forest(Mem(), own)
      ensures Prunes(old(own), own, old(own[table].level)) && table in own
      ensures Mem()[table] == old(Mem())[table][i := 0]
      ensures KeepsPages(old(Mem()), Mem(), old(own), old(own[table].level), table)
      ensures pool.nextUnallocatedIdx == old(pool.nextUnallocatedIdx)
    {
      var unpacked := Unpack(pool.pages[table][i]);
      StoreEntry(table, i, 0);
      if !Has(unpacked.perms, V) || Leafy(unpacked.perms) {
        ClearLeaf(old(Mem()), own, table, i);
        return;
      }
      Detach(old(Mem()), own, table, i);
      var child := PageOf(unpacked.address).value;
      own := own[child := own[child].(slot := Top)];
      assert own.Keys == old(own.Keys);
      ghost var m, o := Mem(), own;
      DeallocTable(child);
      ThenPrunes(old(own), o, own, own[table].level, child);
      ThenKeepsPages(old(Mem()), m, Mem(), old(own), o, own[table].level, table, i, child);
    }

    /** `deallocate_pagepable`: give a detached shadow table and all tables below it back to the pool. */
    method DeallocTable(table: nat)
      requires pool.Valid(own.Keys) && Forest(Mem(), own) && ROOT in own && own[ROOT].tree.Machine?
      requires table in own && 1 <= table <= POOL_PAGES && own[table].level <= 2 && own[table].tree.Shadow?
      requires own[table].slot.Top?
      modifies this`own, pool, pool.pages
      decreases own[table].level, 2
      ensures pool.Valid(own.Keys) && Forest(Mem(), own)
      ensures table !in own && PrunesBut(old(own), own, old(own[table].level), table)
      ensures KeepsPages(old(Mem()), Mem(), old(own), old(own[table].level), table)
      ensures pool.nextUnallocatedIdx == old(pool.nextUnallocatedIdx)
    {
      ClearTable(table);
      ghost var m := Mem();
      pool.DeallocatePage(table, own.Keys);
      RemoveRoot(m, own, table, Mem()[table]);
      assert Mem() == m[table := Mem()[table]];
      own := own - {table};
      assert own.Keys == (own.Keys + {table}) - {table};
    }

    /**
     `flush_shadow_pagetable`: forget every shadow mapping. All shadow tables except the root go
     back to the pool, and nothing else moves.
     */
    method FlushShadow()
      requires Valid()
      modifies this`own, this`tlb, pool, pool.pages
      ensures Valid()
      ensures shadowRoot.None? ==> Mem() == old(Mem()) && own == old(own) && tlb == old(tlb)
      ensures shadowRoot.Some? ==>
                && tlb == map[]
                && Zeroed(Mem()[shadowRoot.value])
                && (forall v: nat :: Walk(Mem(), shadowRoot.value, 2, v) == None)
                && (forall q :: q in own <==> q in old(own) && (old(own)[q].tree.Machine? || q == shadowRoot.value))
                && (forall q | q in old(own) && q !in own :: q in pool.free)
      ensures Extends(own, old(own))
      ensures forall q | q in own && own[q].tree.Machine? && q < PAGES :: Mem()[q] == old(Mem())[q]
      ensures pool.nextUnallocatedIdx == old(pool.nextUnallocatedIdx)
      ensures forall q | q in old(pool.free) :: q in pool.free
      ensures SameMachine(old(Mem()), Mem())
    {
      if shadowRoot.None? {
        return;
      }
      ClearTable(shadowRoot.value);
      Fence();
      Flushed(old(Mem()), Mem(), old(own), own, shadowRoot.value);
      forall q | q in old(own) && q !in own ensures q in pool.free {
        assert q in old(own).Keys;
        assert q in own.Keys || q in pool.free;
      }
      forall q | q in old(pool.free) ensures q in pool.free {
        assert q in own.Keys || q in pool.free;
      }
    }

    /** An empty shadow table, if there is none yet. */
    method EnsureShadowRoot() returns (ok: bool)
      requires Valid()
      modifies this`own, this`shadowRoot, pool, pool.pages
      ensures Valid()
      ensures ok <==> old(shadowRoot.Some? || !Exhausted(own.Keys))
      ensures ok ==> shadowRoot.Some?
      ensures old(shadowRoot.Some?) || !ok ==> shadowRoot == old(shadowRoot) && Mem() == old(Mem()) && own == old(own)
      ensures old(shadowRoot.None?) && ok ==> forall v: nat :: Walk(Mem(), shadowRoot.value, 2, v) == None
      ensures Extends(old(own), own)
      ensures SameMachine(old(Mem()), Mem())
    {
      if shadowRoot.Some? {
        return true;
      }
      var table := AllocateTable();
      if table.None? {
        return false;
      }
      NewShadowRoot(old(Mem()), Mem(), own, table.value);
      shadowRoot := table;
      own := own[table.value := Node(2, Shadow, Top)];
      assert own.Keys == old(own.Keys) + {table.value};
      ok := true;
    }

    /**
     Make the host translate with the shadow table, creating an empty one if there is none yet.
     False stands for going on with a NULL table, because the pool is exhausted.
     */
    method ActivateShadow() returns (ok: bool)
      requires Valid()
      modifies this`own, this`tlb, this`shadowRoot, this`satp, pool, pool.pages
      ensures Valid()
      ensures ok <==> old(shadowRoot.Some? || !Exhausted(own.Keys))
      ensures ok ==> shadowRoot.Some? && satp == MakeSatp(shadowRoot.value) && tlb == map[]
      ensures old(shadowRoot.Some?) ==> shadowRoot == old(shadowRoot) && Mem() == old(Mem()) && own == old(own)
      ensures old(shadowRoot.None?) && ok ==> forall v: nat :: Walk(Mem(), shadowRoot.value, 2, v) == None
      ensures !ok ==> Mem() == old(Mem()) && own == old(own) && shadowRoot == old(shadowRoot) && satp == old(satp)
      ensures Extends(old(own), own)
      ensures SameMachine(old(Mem()), Mem())
    {
      ok := EnsureShadowRoot();
      if ok {
        SwitchTo(shadowRoot.value);
      }
    }

    /** Make the host translate with one of the two roots. */
    method SwitchTo(root: nat)
      requires Valid() && root < PAGES && (root == ROOT || shadowRoot == Some(root))
      modifies this`tlb, this`satp
      ensures Valid() && satp == MakeSatp(root) && tlb == map[]
    {
      satp := MakeSatp(root);
      Fence();
    }

    /** Make the host translate with the machine table. */
    method ActivateMachine()
      requires Valid()
      modifies this`tlb, this`satp
      ensures Valid() && satp == MakeSatp(ROOT) && tlb == map[]
    {
      SwitchTo(ROOT);
    }

    /** While the guest runs, the hart may cache what a walk of its current table finds. */
    ghost method CacheWalk(vpn: nat)
      requires Valid() && vpn < VPNS
      modifies this`tlb
      ensures Valid() && tlb == old(tlb)[vpn := Walk(Mem(), SatpRoot(satp).value, 2, vpn)]
    {
      tlb := tlb[vpn := Walk(Mem(), SatpRoot(satp).value, 2, vpn)];
    }
  }
}
