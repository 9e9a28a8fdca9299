/** What handling a page fault in guest RAM does to the tables, and why it gets the guest further. */
module Faults {
  import opened Words
  import opened Image
  import opened PageTableEntry
  import opened Tables
  import opened GuestTables
  import opened Paging
  import opened PrivilegeSpec
  import opened ShadowRuns
  import opened Instructions
  import Decoder
  import Devices

  /** The shadow table maps one more access of one page; the machine table only grew. */
  ghost predicate FillsPage(m: Mem, m': Mem, root: nat, vpn: nat, hmPage: Word, access: Access)
    requires root < PAGES
  {
    MapsPage(m, m', root, vpn, NewLeaf(Walk(m, root, 2, vpn), hmPage, access)) && KeepsMachine(m, m')
  }

  lemma ThenFillsPage(m0: Mem, m1: Mem, m2: Mem, own: Ownership, root: nat, vpn: nat, hmPage: Word, access: Access)
    requires root in own && own[root] == Node(2, Shadow, Top) && root < PAGES && vpn < VPNS
    requires SameShadow(m0, m1, own) && KeepsMachine(m0, m1) && SameMachine(m1, m2)
    requires MapsPage(m1, m2, root, vpn, NewLeaf(Walk(m1, root, 2, vpn), hmPage, access))
    ensures FillsPage(m0, m2, root, vpn, hmPage, access)
    ensures Walk(m1, root, 2, vpn) == Walk(m0, root, 2, vpn)
  {
    assert Walk(m1, root, own[root].level, vpn) == Walk(m0, root, own[root].level, vpn);
    forall v: nat | v < VPNS
      ensures Walk(m2, root, 2, v)
              == if v == vpn then Some(NewLeaf(Walk(m0, root, 2, vpn), hmPage, access)) else Walk(m0, root, 2, v)
    {
      assert Walk(m1, root, own[root].level, v) == Walk(m0, root, own[root].level, v);
    }
    forall v: nat | v < VPNS && Walk(m0, ROOT, 2, v).Some? ensures Walk(m2, ROOT, 2, v) == Walk(m0, ROOT, 2, v) {
      assert Walk(m1, ROOT, 2, v) == Walk(m0, ROOT, 2, v);
      assert Walk(m2, ROOT, 2, v) == Walk(m1, ROOT, 2, v);
    }
  }

  lemma SameOffset(ram: Ram, ppn: Ppn, gu: Word, gm: Word)
    requires Resolve(ram, ppn, gu) == Resolved(gm)
    ensures gu % PAGE_BYTES == (gm + GUEST_MEMORY_OFFSET) % PAGE_BYTES
    ensures Resolve(ram, ppn, PageFloor(gu)) == Resolved(PageFloor(gm))
    ensures PageFloor(gm + GUEST_MEMORY_OFFSET) == PageFloor(gm) + GUEST_MEMORY_OFFSET
  {
    SamePage(ram, ppn, gu, gm);
    OffsetIsAligned(gm);
  }

  lemma SamePage(ram: Ram, ppn: Ppn, gu: Word, gm: Word)
    requires Resolve(ram, ppn, gu) == Resolved(gm)
    ensures gm % PAGE_BYTES == gu % PAGE_BYTES
    ensures Resolve(ram, ppn, PageFloor(gu)) == Resolved(PageFloor(gm))
  {
    PointerPerms();
    assert ppn * PAGE_BYTES % PAGE_BYTES == 0;
    ResolvePageByPage(ram, Entry(ppn * PAGE_BYTES, V), 2, gu);
  }

  lemma SameOffsetOnHost(ram: Ram, ppn: Ppn, gu: Word, gm: Word, hm: Word)
    requires Resolve(ram, ppn, gu) == Resolved(gm) && hm == gm + GUEST_MEMORY_OFFSET
    ensures gu % PAGE_BYTES == hm % PAGE_BYTES
  {
    SameOffset(ram, ppn, gu, gm);
  }

  lemma OffsetIsAligned(gm: nat)
    ensures (gm + GUEST_MEMORY_OFFSET) % PAGE_BYTES == gm % PAGE_BYTES
    ensures PageFloor(gm + GUEST_MEMORY_OFFSET) == PageFloor(gm) + GUEST_MEMORY_OFFSET
  {
  }

  /**
   What handling a fault in guest RAM does. On success the faulting access is entered where the
   guest's tables and the machine's offset put it, and nothing else about the shadow table changes.
   */
  ghost predicate Handled(a: Snapshot, b: Snapshot, active: bool, address: Word, gm: Word, access: Access, r: Outcome) {
    && WellFormed(a) && WellFormed(b) && (active ==> a.shadowRoot.Some?)
    && a.shadowRoot == b.shadowRoot && a.ram == b.ram && a.ppn == b.ppn
    && (r.TooLow? <==> gm < RAM_START) && !r.Wild? && (r.Success? ==> InRam(gm))
    && KeepsMachine(a.pages, b.pages)
    && ShadowStep(a, false, b)
    && (r.Success? && active ==> AddsPage(a, b, address, PageFloor(gm + GUEST_MEMORY_OFFSET), access))
    && (r.Success? && !active ==>
          Walk(a.pages, ROOT, 2, gm / PAGE_BYTES).None? && MapsRegion(a.pages, b.pages, gm / 0x20_0000))
  }

  ghost predicate EntersPage(m: Mem, m': Mem, root: nat, address: Word, hmPage: Word, access: Access)
    requires root < PAGES
  {
    && address < VA_LIMIT
    && MapsPage(m, m', root, address / PAGE_BYTES, NewLeaf(Walk(m, root, 2, address / PAGE_BYTES), hmPage, access))
    && !Grants(Walk(m, root, 2, address / PAGE_BYTES), hmPage, access)
  }

  ghost predicate AddsPage(a: Snapshot, b: Snapshot, address: Word, hmPage: Word, access: Access)
    requires WellFormed(a) && a.shadowRoot.Some?
  {
    && address < VA_LIMIT
    && FillsPage(a.pages, b.pages, a.shadowRoot.value, address / PAGE_BYTES, hmPage, access)
    && !Grants(Walk(a.pages, a.shadowRoot.value, 2, address / PAGE_BYTES), hmPage, access)
  }

  /** The tables and guest memory are as before. */
  ghost predicate SameTables(a: Snapshot, b: Snapshot) {
    b.pages == a.pages && b.shadowRoot == a.shadowRoot && b.ram == a.ram
  }

  /** The shadow table is empty. */
  ghost predicate NoShadow(s: Snapshot)
    requires WellFormed(s)
  {
    s.shadowRoot.Some? ==> forall v: nat :: Walk(s.pages, s.shadowRoot.value, 2, v) == None
  }

  /** The tables are as before, except that an empty shadow table may have appeared. */
  ghost predicate RootReady(a: Snapshot, b: Snapshot)
    requires WellFormed(a) && WellFormed(b)
  {
    SameTables(a, b) || (a.shadowRoot.None? && NoShadow(b) && SameMachine(a.pages, b.pages) && b.ram == a.ram)
  }

  /** The shadow table is emptied, and the machine table is as before. */
  ghost predicate Emptied(a: Snapshot, b: Snapshot)
    requires WellFormed(a) && WellFormed(b)
  {
    b.shadowRoot == a.shadowRoot && NoShadow(b) && SameMachine(a.pages, b.pages) && b.ram == a.ram
  }

  /** An empty shadow table appears, or all tables stay as they are. */
  lemma RootReadyStep(a: Snapshot, b: Snapshot)
    requires WellFormed(a) && WellFormed(b) && RootReady(a, b)
    ensures ShadowStep(a, false, b) && KeepsMachine(a.pages, b.pages)
  {
    forall v: nat | v < VPNS ensures PageStep(a, false, b, v) {
    }
  }

  lemma EmptiedStep(a: Snapshot, b: Snapshot)
    requires WellFormed(a) && WellFormed(b) && Emptied(a, b)
    ensures ShadowStep(a, true, b) && KeepsMachine(a.pages, b.pages)
  {
    forall v: nat | v < VPNS ensures PageStep(a, true, b, v) {
    }
  }

  /** Nothing in the shadow table moved. */
  lemma StepSameShadow(a: Snapshot, own: Ownership, b: Snapshot)
    requires WellFormed(a) && WellFormed(b) && a.shadowRoot == b.shadowRoot && RootsOK(own, a.shadowRoot)
    requires SameShadow(a.pages, b.pages, own)
    ensures ShadowStep(a, false, b)
  {
    if a.shadowRoot.Some? {
      assert own[a.shadowRoot.value] == Node(2, Shadow, Top);
    }
    forall vpn: nat | vpn < VPNS && a.shadowRoot.Some? ensures Mapping(b, vpn) == Mapping(a, vpn) {
      assert Walk(b.pages, b.shadowRoot.value, own[a.shadowRoot.value].level, vpn)
          == Walk(a.pages, a.shadowRoot.value, own[a.shadowRoot.value].level, vpn);
    }
  }

  lemma MachineHandled(
    a: Snapshot, own: Ownership, b: Snapshot, active: bool, address: Word, gm: Word, access: Access, r: Outcome)
    requires WellFormed(a) && WellFormed(b) && a.shadowRoot == b.shadowRoot && a.ram == b.ram && a.ppn == b.ppn
    requires Forest(a.pages, own) && RootsOK(own, a.shadowRoot) && (active ==> a.shadowRoot.Some?)
    requires SameShadow(a.pages, b.pages, own)
    requires (r.TooLow? <==> gm < RAM_START) && !r.Wild? && (r.Success? ==> InRam(gm))
    requires active ==> !r.Success?
    requires if r.Success?
             then MapsRegion(a.pages, b.pages, gm / 0x20_0000) && Walk(a.pages, ROOT, 2, gm / PAGE_BYTES).None?
             else b.pages == a.pages
    ensures Handled(a, b, active, address, gm, access, r)
  {
    ThenKeepsMachine(a.pages, a.pages, b.pages, own, gm / 0x20_0000);
    StepSameShadow(a, own, b);
  }

  lemma FilledStep(a: Snapshot, m: Mem, own: Ownership, b: Snapshot,
                   address: Word, gm: Word, hmPage: Word, access: Access)
    requires WellFormed(a) && WellFormed(b) && a.shadowRoot == b.shadowRoot && a.ram == b.ram && a.ppn == b.ppn
    requires Forest(a.pages, own) && RootsOK(own, a.shadowRoot) && a.shadowRoot.Some? && address < VA_LIMIT
    requires SameShadow(a.pages, m, own) && KeepsMachine(a.pages, m) && SameMachine(m, b.pages)
    requires Resolve(a.ram, a.ppn, address) == Resolved(gm) && hmPage == PageFloor(gm + GUEST_MEMORY_OFFSET)
    requires EntersPage(m, b.pages, a.shadowRoot.value, address, hmPage, access)
    ensures ShadowStep(a, false, b) && AddsPage(a, b, address, hmPage, access)
  {
    var root, vpn := a.shadowRoot.value, address / PAGE_BYTES;
    PageNumber(address);
    ThenFillsPage(a.pages, m, b.pages, own, root, vpn, hmPage, access);
    TruthOfFault(b, address, gm);
    ShadowWalk(a.pages, own, root, vpn);
    FillIsStep(a, b, vpn, hmPage, access);
  }

  lemma TruthOfFault(s: Snapshot, address: Word, gm: Word)
    requires WellFormed(s) && address < VA_LIMIT && Resolve(s.ram, s.ppn, address) == Resolved(gm)
    ensures address / PAGE_BYTES < VPNS
    ensures Truth(s, address / PAGE_BYTES) == Some(PageFloor(gm + GUEST_MEMORY_OFFSET))
  {
    PageNumber(address);
    SameOffset(s.ram, s.ppn, address, gm);
  }

  lemma FillIsStep(a: Snapshot, b: Snapshot, vpn: nat, hmPage: Word, access: Access)
    requires WellFormed(a) && WellFormed(b) && a.shadowRoot == b.shadowRoot && a.shadowRoot.Some? && vpn < VPNS
    requires FillsPage(a.pages, b.pages, a.shadowRoot.value, vpn, hmPage, access) && Explained(b, vpn, hmPage)
    requires Mapping(a, vpn).Some? ==> ShadowPerms(Mapping(a, vpn).value.perms)
    ensures ShadowStep(a, false, b)
  {
    NewLeafPerms(Mapping(a, vpn), hmPage, access);
    forall v: nat | v < VPNS ensures PageStep(a, false, b, v) {
    }
  }

  lemma PageNumber(address: nat)
    ensures address < VA_LIMIT ==> address / PAGE_BYTES < VPNS
    ensures PageFloor(address) == address / PAGE_BYTES * PAGE_BYTES
  {
  }

  lemma UnfilledStep(a: Snapshot, m: Mem, own: Ownership, own1: Ownership, b: Snapshot)
    requires WellFormed(a) && WellFormed(b) && a.shadowRoot == b.shadowRoot && RootsOK(own, a.shadowRoot)
    requires SameShadow(a.pages, m, own) && SameWalks(m, b.pages, own1) && Extends(own, own1)
    requires KeepsMachine(a.pages, m) && SameMachine(m, b.pages)
    ensures ShadowStep(a, false, b) && KeepsMachine(a.pages, b.pages)
  {
    forall q: nat, v: nat | q in own && own[q].tree.Shadow? && q < PAGES && own[q].level <= 2
      ensures Walk(b.pages, q, own[q].level, v) == Walk(a.pages, q, own[q].level, v)
    {
      assert Walk(m, q, own[q].level, v) == Walk(a.pages, q, own[q].level, v);
      assert own1[q] == own[q];
    }
    StepSameShadow(a, own, b);
    forall v: nat | v < VPNS && Walk(a.pages, ROOT, 2, v).Some?
      ensures Walk(b.pages, ROOT, 2, v) == Walk(a.pages, ROOT, 2, v)
    {
      assert Walk(m, ROOT, 2, v) == Walk(a.pages, ROOT, 2, v);
      assert Walk(b.pages, ROOT, 2, v) == Walk(m, ROOT, 2, v);
    }
  }

  lemma FilledKeepsMachine(a: Snapshot, b: Snapshot, address: Word, hmPage: Word, access: Access)
    requires WellFormed(a) && a.shadowRoot.Some? && AddsPage(a, b, address, hmPage, access)
    ensures KeepsMachine(a.pages, b.pages)
  {
  }

  lemma ShadowHandled(a: Snapshot, own: Ownership, m: Mem, own1: Ownership, b: Snapshot,
                      address: Word, gm: Word, hmPage: Word, access: Access, r: Outcome)
    requires WellFormed(a) && WellFormed(b) && a.shadowRoot == b.shadowRoot && a.ram == b.ram && a.ppn == b.ppn
    requires hmPage == PageFloor(gm + GUEST_MEMORY_OFFSET)
    requires Forest(a.pages, own) && RootsOK(own, a.shadowRoot) && a.shadowRoot.Some? && Extends(own, own1)
    requires SameShadow(a.pages, m, own) && KeepsMachine(a.pages, m) && SameMachine(m, b.pages)
    requires Resolve(a.ram, a.ppn, address) == Resolved(gm) && RAM_START <= gm < VA_LIMIT && !r.TooLow? && !r.Wild?
    requires r.Success? ==> EntersPage(m, b.pages, a.shadowRoot.value, address, hmPage, access)
    requires !r.Success? ==> SameWalks(m, b.pages, own1)
    ensures Handled(a, b, true, address, gm, access, r)
  {
    if r.Success? {
      PageHandled(a, own, m, b, address, gm, hmPage, access);
    } else {
      NoPageHandled(a, own, m, own1, b, address, gm, access, r);
    }
  }

  lemma NoPageHandled(a: Snapshot, own: Ownership, m: Mem, own1: Ownership, b: Snapshot,
                      address: Word, gm: Word, access: Access, r: Outcome)
    requires WellFormed(a) && WellFormed(b) && a.shadowRoot == b.shadowRoot && a.ram == b.ram && a.ppn == b.ppn
    requires RootsOK(own, a.shadowRoot) && a.shadowRoot.Some? && Extends(own, own1)
    requires SameShadow(a.pages, m, own) && KeepsMachine(a.pages, m) && SameMachine(m, b.pages)
    requires RAM_START <= gm < VA_LIMIT && !r.TooLow? && !r.Wild? && !r.Success? && SameWalks(m, b.pages, own1)
    ensures Handled(a, b, true, address, gm, access, r)
  {
    UnfilledStep(a, m, own, own1, b);
  }

  lemma PageHandled(a: Snapshot, own: Ownership, m: Mem, b: Snapshot,
                    address: Word, gm: Word, hmPage: Word, access: Access)
    requires WellFormed(a) && WellFormed(b) && a.shadowRoot == b.shadowRoot && a.ram == b.ram && a.ppn == b.ppn
    requires Forest(a.pages, own) && RootsOK(own, a.shadowRoot) && a.shadowRoot.Some?
    requires SameShadow(a.pages, m, own) && KeepsMachine(a.pages, m) && SameMachine(m, b.pages)
    requires Resolve(a.ram, a.ppn, address) == Resolved(gm) && InRam(gm)
    requires hmPage == PageFloor(gm + GUEST_MEMORY_OFFSET)
    requires EntersPage(m, b.pages, a.shadowRoot.value, address, hmPage, access)
    ensures Handled(a, b, true, address, gm, access, Success)
  {
    FilledStep(a, m, own, b, address, gm, hmPage, access);
    FilledKeepsMachine(a, b, address, hmPage, access);
  }

  /** Walking the guest's tables first fills the machine table, and leaves the shadow table alone. */
  lemma ThenHandled(
    a: Snapshot, own: Ownership, m: Mem, b: Snapshot, address: Word, gm: Word, access: Access, r: Outcome)
    requires WellFormed(a) && RootsOK(own, a.shadowRoot) && a.shadowRoot.Some?
    requires KeepsMachine(a.pages, m) && SameShadow(a.pages, m, own)
    requires Handled(a.(pages := m), b, true, address, gm, access, r)
    ensures Handled(a, b, true, address, gm, access, r)
  {
    var root, c := a.shadowRoot.value, a.(pages := m);
    KeepsMachineTransitively(a.pages, m, b.pages);
    forall v: nat ensures Walk(m, root, 2, v) == Walk(a.pages, root, 2, v) {
      assert Walk(m, root, own[root].level, v) == Walk(a.pages, root, own[root].level, v);
    }
    SameWalksSameStep(a, c, b);
    if r.Success? {
      SameWalksSameAdd(a, c, b, address, PageFloor(gm + GUEST_MEMORY_OFFSET), access);
    }
  }

  lemma SameWalksSameStep(a: Snapshot, c: Snapshot, b: Snapshot)
    requires WellFormed(a) && WellFormed(c) && WellFormed(b) && a.shadowRoot == c.shadowRoot && ShadowStep(c, false, b)
    requires forall v: nat :: Mapping(c, v) == Mapping(a, v)
    ensures ShadowStep(a, false, b)
  {
    forall v: nat | v < VPNS ensures PageStep(a, false, b, v) {
      assert PageStep(c, false, b, v) && Mapping(c, v) == Mapping(a, v);
    }
  }

  lemma SameWalksSameAdd(a: Snapshot, c: Snapshot, b: Snapshot, address: Word, hmPage: Word, access: Access)
    requires WellFormed(a) && WellFormed(c) && a.shadowRoot == c.shadowRoot && a.shadowRoot.Some?
    requires forall v: nat :: Mapping(c, v) == Mapping(a, v)
    requires AddsPage(c, b, address, hmPage, access) && KeepsMachine(a.pages, b.pages)
    ensures AddsPage(a, b, address, hmPage, access)
  {
    PageNumber(address);
    var root, vpn := a.shadowRoot.value, address / PAGE_BYTES;
    assert Mapping(c, vpn) == Mapping(a, vpn);
    forall v: nat | v < VPNS
      ensures Walk(b.pages, root, 2, v)
              == if v == vpn then Some(NewLeaf(Walk(a.pages, root, 2, vpn), hmPage, access))
                 else Walk(a.pages, root, 2, v)
    {
      assert Mapping(c, v) == Mapping(a, v);
    }
  }

  // ---------------------------------------------------------------- the guest gets further

  /** The permission bits of an Sv39 entry: U is bit 4, R, W and X are bits 1, 2 and 3. */
  predicate MmuAllows(perms: Mask, access: Access) {
    && perms / 16 % 2 == 1
    && (match access
        case Read => perms / 2 % 2 == 1
        case Write => perms / 4 % 2 == 1
        case Execute => perms / 8 % 2 == 1)
  }

  /** Where a leaf takes an access of the guest; no result stands for a page fault. */
  function ThroughLeaf(l: Option<Leaf>, address: nat, access: Access): (hm: Option<nat>)
    requires l.Some? ==> l.value.level <= 2
  {
    if l.Some? && MmuAllows(l.value.perms, access) then
      Some(l.value.base + address % LeafBytes(l.value.level))
    else None
  }

  /** A table maps an address to a host address, with permission for an access of the guest. */
  ghost predicate Reaches(m: Mem, root: nat, address: nat, access: Access, hm: nat)
    requires root < PAGES
  {
    ThroughLeaf(Walk(m, root, 2, address / PAGE_BYTES), address, access) == Some(hm)
  }

  /** Where the MMU takes an access in user mode; no result stands for a page fault. */
  function UserAccess(m: Mem, root: nat, va: Word, access: Access): (hm: Option<nat>)
    requires root < PAGES
  {
    if Canonical(va) then ThroughLeaf(Walk(m, root, 2, va / PAGE_BYTES), va, access) else None
  }

  /** Wherever the MMU takes the guest, it is guest RAM. */
  lemma UserAccessIsInRam(m: Mem, own: Ownership, shadow: Option<nat>, root: nat, va: Word, access: Access)
    requires Forest(m, own) && RootsOK(own, shadow)
    requires root < PAGES && (root == ROOT || Some(root) == shadow)
    ensures var hm := UserAccess(m, root, va, access); hm.Some? ==> GUEST_HOST_START <= hm.value < TWO64
  {
    LeafIsGuestMemory(m, own, shadow, root, va / PAGE_BYTES);
  }

  /** A table permits an access, and so the MMU lets it through exactly if its address is canonical. */
  ghost predicate Permits(m: Mem, root: nat, address: Word, access: Access, hm: nat)
    requires root < PAGES
  {
    && address < VA_LIMIT && Reaches(m, root, address, access, hm)
    && UserAccess(m, root, address, access) == if Canonical(address) then Some(hm) else None
  }

  /** The MMU asks no more than that of an access that the table permits. */
  lemma GoesThroughIffCanonical(m: Mem, root: nat, address: Word, access: Access, hm: nat)
    requires root < PAGES && address < VA_LIMIT && Reaches(m, root, address, access, hm)
    ensures Permits(m, root, address, access, hm)
  {
  }

  /**
   The code maps the addresses from 2^38 up to 2^39, which are not canonical: whatever it enters for
   them, the MMU still faults.
   */
  lemma UpperHalfStillFaults(m: Mem, access: Access)
    requires At(m, ROOT, 256) == Entry(PageAddress(1), V) && At(m, 1, 0) == Entry(0x40_0500_0000, V_U_RWX)
    ensures Permits(m, ROOT, 0x40_0000_0000, access, 0x40_0500_0000)
    ensures UserAccess(m, ROOT, 0x40_0000_0000, access) == None
  {
    MachineLeafAllows(access);
    PointerPerms();
    assert Index(0x400_0000, 2) == 256 && Index(0x400_0000, 1) == 0;
    assert Walk(m, 1, 1, 0x400_0000) == Some(Leaf(0x40_0500_0000, 1, V_U_RWX));
  }

  lemma MachineLeafAllows(access: Access)
    ensures Has(V_U_RWX, U) && Allows(V_U_RWX, access)
  {
  }

  /** Where the machine table maps a guest-machine address. */
  lemma MachineReaches(m: Mem, gm: nat, access: Access)
    requires gm < VA_LIMIT && Walk(m, ROOT, 2, gm / PAGE_BYTES) == Some(MachineLeaf(gm / PAGE_BYTES))
    ensures Reaches(m, ROOT, gm, access, gm + GUEST_MEMORY_OFFSET)
  {
    MachineLeafAllows(access);
    RegionIndices(gm);
  }

  /** What the machine table maps, it permits. */
  lemma MachinePermits(m: Mem, own: Ownership, root: nat, address: Word, gm: Word, access: Access)
    requires Forest(m, own) && ROOT in own && own[ROOT] == Node(2, Machine, Top)
    requires root == ROOT && address == gm && InRam(gm) && Walk(m, ROOT, 2, gm / PAGE_BYTES).Some?
    ensures Permits(m, root, address, access, gm + GUEST_MEMORY_OFFSET)
  {
    PageNumber(gm);
    MachineWalk(m, own, gm / PAGE_BYTES);
    MachineReaches(m, gm, access);
    GoesThroughIffCanonical(m, ROOT, gm, access, gm + GUEST_MEMORY_OFFSET);
  }

  /** A leaf for the right page, with the permission, takes the access to the right byte. */
  lemma PageLeafTakes(l: Leaf, address: nat, access: Access, hm: nat)
    requires l.level == 0 && ShadowPerms(l.perms) && Allows(l.perms, access)
    requires l.base == PageFloor(hm) && address % PAGE_BYTES == hm % PAGE_BYTES
    ensures ThroughLeaf(Some(l), address, access) == Some(hm)
  {
    ShadowPermsMapMemory(l.perms);
  }

  /** A page that is mapped to the right place with the right permission faults only if it is not canonical. */
  lemma GrantReaches(a: Snapshot, own: Ownership, root: nat, address: Word, gm: Word, hmPage: Word, access: Access)
    requires WellFormed(a) && Forest(a.pages, own) && RootsOK(own, a.shadowRoot) && a.shadowRoot == Some(root)
    requires address < VA_LIMIT && gm < VA_LIMIT && Resolve(a.ram, a.ppn, address) == Resolved(gm)
    requires hmPage == PageFloor(gm + GUEST_MEMORY_OFFSET)
    requires Grants(Walk(a.pages, root, 2, address / PAGE_BYTES), hmPage, access)
    ensures Permits(a.pages, root, address, access, gm + GUEST_MEMORY_OFFSET)
  {
    ShadowWalk(a.pages, own, root, address / PAGE_BYTES);
    GrantGoesThrough(a.pages, root, Walk(a.pages, root, 2, address / PAGE_BYTES).value,
                     a.ram, a.ppn, address, gm, hmPage, access);
  }

  lemma GrantGoesThrough(m: Mem, root: nat, l: Leaf, ram: Ram, ppn: Ppn,
                         address: Word, gm: Word, hmPage: Word, access: Access)
    requires root < PAGES && address < VA_LIMIT && Walk(m, root, 2, address / PAGE_BYTES) == Some(l)
    requires l.level == 0 && ShadowPerms(l.perms) && Allows(l.perms, access) && l.base == hmPage
    requires gm < VA_LIMIT && Resolve(ram, ppn, address) == Resolved(gm)
    requires hmPage == PageFloor(gm + GUEST_MEMORY_OFFSET)
    ensures Permits(m, root, address, access, gm + GUEST_MEMORY_OFFSET)
  {
    GrantTakes(l, ram, ppn, address, gm, hmPage, access);
    GoesThroughIffCanonical(m, root, address, access, gm + GUEST_MEMORY_OFFSET);
  }

  lemma GrantTakes(l: Leaf, ram: Ram, ppn: Ppn, address: Word, gm: Word, hmPage: Word, access: Access)
    requires l.level == 0 && ShadowPerms(l.perms) && Allows(l.perms, access) && l.base == hmPage
    requires gm < VA_LIMIT && Resolve(ram, ppn, address) == Resolved(gm)
    requires hmPage == PageFloor(gm + GUEST_MEMORY_OFFSET)
    ensures ThroughLeaf(Some(l), address, access) == Some(gm + GUEST_MEMORY_OFFSET)
  {
    SameOffsetOnHost(ram, ppn, address, gm, gm + GUEST_MEMORY_OFFSET);
    PageLeafTakes(l, address, access, gm + GUEST_MEMORY_OFFSET);
  }

  lemma AlreadyPermitted(m: Mem, m': Mem, own: Ownership, root: nat, address: Word, access: Access, hm: nat)
    requires root in own && own[root] == Node(2, Shadow, Top) && root < PAGES
    requires SameShadow(m, m', own) && Permits(m', root, address, access, hm)
    ensures Permits(m, root, address, access, hm)
  {
    var vpn := address / PAGE_BYTES;
    assert Walk(m', root, own[root].level, vpn) == Walk(m, root, own[root].level, vpn);
    GoesThroughIffCanonical(m, root, address, access, hm);
  }

  /**
   After a fault in RAM has been handled, the table in use permits the access that faulted, and the
   MMU lets it through, to the place where it should go, exactly if the address is canonical.
   */
  lemma HandledFaultReaches(a: Snapshot, own: Ownership, b: Snapshot, active: bool, root: nat,
                            address: Word, gm: Word, hm: Word, access: Access)
    requires Handled(a, b, active, address, gm, access, Success) && hm == gm + GUEST_MEMORY_OFFSET
    requires Forest(a.pages, own) && RootsOK(own, a.shadowRoot) && MeansIn(active, a.ram, a.ppn, address, gm)
    requires if active then b.shadowRoot == Some(root) else root == ROOT
    ensures Permits(b.pages, root, address, access, hm)
  {
    if active {
      HandledPageReaches(a, own, b, address, gm, hm, access);
    } else {
      HandledRegionReaches(a, b, gm, access);
    }
  }

  lemma HandledRegionReaches(a: Snapshot, b: Snapshot, gm: Word, access: Access)
    requires Handled(a, b, false, gm, gm, access, Success)
    ensures Permits(b.pages, ROOT, gm, access, gm + GUEST_MEMORY_OFFSET)
  {
    PageNumber(gm);
    RegionIndices(gm);
    MachineReaches(b.pages, gm, access);
    GoesThroughIffCanonical(b.pages, ROOT, gm, access, gm + GUEST_MEMORY_OFFSET);
  }

  lemma HandledPageReaches(a: Snapshot, own: Ownership, b: Snapshot, address: Word, gm: Word, hm: Word, access: Access)
    requires WellFormed(a) && Forest(a.pages, own) && RootsOK(own, a.shadowRoot) && a.shadowRoot.Some?
    requires hm == gm + GUEST_MEMORY_OFFSET && Resolve(a.ram, a.ppn, address) == Resolved(gm)
    requires AddsPage(a, b, address, PageFloor(hm), access)
    ensures Permits(b.pages, a.shadowRoot.value, address, access, hm)
  {
    SameOffsetOnHost(a.ram, a.ppn, address, gm, hm);
    FilledReaches(a, own, b, address, hm, access);
    GoesThroughIffCanonical(b.pages, a.shadowRoot.value, address, access, hm);
  }

  lemma FilledReaches(a: Snapshot, own: Ownership, b: Snapshot, address: Word, hm: Word, access: Access)
    requires WellFormed(a) && Forest(a.pages, own) && RootsOK(own, a.shadowRoot) && a.shadowRoot.Some?
    requires address < VA_LIMIT && address % PAGE_BYTES == hm % PAGE_BYTES
    requires FillsPage(a.pages, b.pages, a.shadowRoot.value, address / PAGE_BYTES, PageFloor(hm), access)
    ensures Reaches(b.pages, a.shadowRoot.value, address, access, hm)
  {
    var l := Walk(a.pages, a.shadowRoot.value, 2, address / PAGE_BYTES);
    PageNumber(address);
    ShadowWalk(a.pages, own, a.shadowRoot.value, address / PAGE_BYTES);
    NewLeafPerms(l, PageFloor(hm), access);
    PageLeafTakes(NewLeaf(l, PageFloor(hm), access), address, access, hm);
  }

  /** Before a fault in RAM has been handled, the table in use does not permit the access. */
  lemma NotPermittedBefore(a: Snapshot, own: Ownership, b: Snapshot, active: bool, root: nat,
                           address: Word, gm: Word, hm: Word, access: Access)
    requires Handled(a, b, active, address, gm, access, Success) && hm == gm + GUEST_MEMORY_OFFSET
    requires Forest(a.pages, own) && RootsOK(own, a.shadowRoot) && MeansIn(active, a.ram, a.ppn, address, gm)
    requires if active then a.shadowRoot == Some(root) else root == ROOT
    ensures !Permits(a.pages, root, address, access, hm)
  {
    if active {
      SameOffset(a.ram, a.ppn, address, gm);
      ShadowWalk(a.pages, own, a.shadowRoot.value, address / PAGE_BYTES);
    }
  }

  /** The page that is added was not rightly mapped for the access, and is now. */
  lemma AddedPageIsRight(a: Snapshot, b: Snapshot, address: Word, hmPage: Word, access: Access)
    requires WellFormed(a) && WellFormed(b) && a.shadowRoot.Some? && b.shadowRoot == a.shadowRoot
    requires AddsPage(a, b, address, hmPage, access) && address / PAGE_BYTES < VPNS
    requires Truth(a, address / PAGE_BYTES) == Some(hmPage) && Truth(b, address / PAGE_BYTES) == Some(hmPage)
    requires var l := Mapping(a, address / PAGE_BYTES); l.Some? ==> ShadowPerms(l.value.perms)
    ensures Key(address / PAGE_BYTES, access) in Right(b) && Key(address / PAGE_BYTES, access) !in Right(a)
  {
    var vpn := address / PAGE_BYTES;
    NewLeafPerms(Mapping(a, vpn), hmPage, access);
    KeyIsInvertible(vpn, access);
    assert IsRight(b, Key(vpn, access)) && !IsRight(a, Key(vpn, access));
  }

  /**
   Each RAM fault served in user mode adds to what the shadow table rightly permits, whatever the
   table held before.
   */
  lemma ShadowFaultMakesProgress(a: Snapshot, own: Ownership, b: Snapshot, address: Word, gm: Word, access: Access)
    requires Handled(a, b, true, address, gm, access, Success)
    requires Forest(a.pages, own) && RootsOK(own, a.shadowRoot)
    requires Resolve(a.ram, a.ppn, address) == Resolved(gm)
    ensures Right(a) < Right(b)
  {
    TruthOfFault(a, address, gm);
    TruthOfFault(b, address, gm);
    ShadowWalk(a.pages, own, a.shadowRoot.value, address / PAGE_BYTES);
    AddedPageIsRight(a, b, address, PageFloor(gm + GUEST_MEMORY_OFFSET), access);
    SameRamSameTruth(a, b);
    RightIsKept(a, b);
  }

  lemma SameRamSameTruth(a: Snapshot, b: Snapshot)
    requires WellFormed(a) && WellFormed(b) && a.ram == b.ram && a.ppn == b.ppn
    ensures SameTruth(a, b)
  {
  }

  /** Pages of one 2 MiB region are mapped by the machine table together. */
  lemma RegionIsMappedTogether(m: Mem, own: Ownership, v: nat, w: nat)
    requires Forest(m, own) && ROOT in own && own[ROOT] == Node(2, Machine, Top)
    requires v < VPNS && w < VPNS && v / ENTRIES == w / ENTRIES
    ensures Walk(m, ROOT, 2, v).Some? <==> Walk(m, ROOT, 2, w).Some?
  {
    SameRegionIndices(v, w);
    MachineEntry(m, own, v);
    var e := At(m, ROOT, Index(v, 2));
    if Has(e.perms, V) {
      RegionEntry(m, own, v, PageOf(e.address).value);
      RegionEntry(m, own, w, PageOf(e.address).value);
    }
  }

  lemma SameRegionIndices(v: nat, w: nat)
    requires v / ENTRIES == w / ENTRIES
    ensures Index(v, 2) == Index(w, 2) && Index(v, 1) == Index(w, 1)
  {
    assert v / 0x40000 == v / ENTRIES / ENTRIES && w / 0x40000 == w / ENTRIES / ENTRIES;
  }

  /** Each RAM fault served on the machine table maps a further region. */
  lemma MachineFaultMakesProgress(a: Snapshot, own: Ownership, b: Snapshot, gm: Word, access: Access)
    requires Handled(a, b, false, gm, gm, access, Success)
    requires Forest(a.pages, own) && RootsOK(own, a.shadowRoot)
    ensures Regions(a.pages) < Regions(b.pages)
  {
    PageNumber(gm);
    RegionIndices(gm);
    var region := gm / 0x20_0000;
    RegionStart(region);
    RegionIsMappedTogether(a.pages, own, region * ENTRIES, gm / PAGE_BYTES);
    assert Walk(b.pages, ROOT, 2, region * ENTRIES) == Some(MachineLeaf(region * ENTRIES));
    assert region in Regions(b.pages) && region !in Regions(a.pages);
    RegionsAreKept(a.pages, b.pages);
  }

  // ---------------------------------------------------------------- faults that are not served

  /** The guest means `address` to be at `gm`. */
  predicate MeansIn(active: bool, ram: Ram, ppn: Ppn, address: Word, gm: Word) {
    if active then Resolve(ram, ppn, address) == Resolved(gm) else gm == address
  }

  /** Something that the fault needs is not mapped yet: a table of the guest, or the faulting page itself. */
  ghost predicate Short(active: bool, ram: Ram, ppn: Ppn, m: Mem, root: nat, address: Word, gm: Word)
    requires root < PAGES
  {
    || (active && LacksRegion(m, TablesRead(ram, ppn, address)))
    || (MeansIn(active, ram, ppn, address, gm) && Unmapped(active, m, root, address, gm))
  }

  /** The tables do not map a page of guest RAM. */
  predicate Unmapped(active: bool, m: Mem, root: nat, address: Word, gm: Word)
    requires root < PAGES
  {
    && InRam(gm)
    && (Walk(m, ROOT, 2, gm / PAGE_BYTES).None? || (active && Walk(m, root, 2, address / PAGE_BYTES).None?))
  }

  /**
   Why a fault was not served: the guest's tables or its devices do not have what it asks for, or
   something has to be mapped and the pool is exhausted with the pages that are live now, or the
   access was permitted already.
   */
  ghost predicate ExcusedIn(active: bool, ram: Ram, ppn: Ppn, m: Mem, root: nat, live: set<nat>,
                            access: Access, a: Decoder.MemoryAccess, host: Devices.Host, gm: Word, r: Outcome, c: Cpu)
    requires root < PAGES && InRange(a)
  {
    var means := MeansIn(active, ram, ppn, a.address, gm);
    match r
    case Panic =>
      || (Exhausted(live) && Short(active, ram, ppn, m, root, a.address, gm))
      || (active && Resolve(ram, ppn, a.address).Refused?)
    case Wild => active && Resolve(ram, ppn, a.address).Wild?
    case TooLow => means && gm < RAM_START && Emulate(access, gm, a, c, host).None?
    case TooHigh => means && gm >= RAM_START && (gm >= VA_LIMIT || (active && a.address >= VA_LIMIT))
    case NotChanged => means && InRam(gm) && Permits(m, root, a.address, access, gm + GUEST_MEMORY_OFFSET)
    case Success => false
  }

  /** What is not mapped after the guest's tables have been walked was not mapped before. */
  lemma ShortBefore(ram: Ram, ppn: Ppn, m: Mem, m': Mem, own: Ownership, root: nat, address: Word, gm: Word)
    requires root in own && own[root] == Node(2, Shadow, Top) && root < PAGES && OnlyFills(m, m', own)
    requires Short(true, ram, ppn, m', root, address, gm)
    ensures Short(true, ram, ppn, m, root, address, gm)
  {
    if LacksRegion(m', TablesRead(ram, ppn, address)) {
      var t: nat :| t in TablesRead(ram, ppn, address) && Walk(m', ROOT, 2, t / PAGE_BYTES).None?;
      AlreadyLacked(m, m', TablesRead(ram, ppn, address), t);
    } else {
      PageNumber(gm);
      AlreadyUnmapped(m, m', own, root, address / PAGE_BYTES);
    }
  }

  lemma AlreadyUnmapped(m: Mem, m': Mem, own: Ownership, root: nat, vpn: nat)
    requires root in own && own[root] == Node(2, Shadow, Top) && root < PAGES && SameShadow(m, m', own)
    ensures Walk(m', root, 2, vpn) == Walk(m, root, 2, vpn)
  {
    assert Walk(m', root, own[root].level, vpn) == Walk(m, root, own[root].level, vpn);
  }

  /** Walking the guest's tables first does not change why the fault is not served. */
  lemma ThenExcused(ram: Ram, ppn: Ppn, m: Mem, m': Mem, own: Ownership, root: nat, live: set<nat>,
                    access: Access, a: Decoder.MemoryAccess, host: Devices.Host, gm: Word, r: Outcome, c: Cpu)
    requires root in own && own[root] == Node(2, Shadow, Top) && root < PAGES && OnlyFills(m, m', own) && InRange(a)
    requires ExcusedIn(true, ram, ppn, m', root, live, access, a, host, gm, r, c)
    ensures ExcusedIn(true, ram, ppn, m, root, live, access, a, host, gm, r, c)
  {
    if r.Panic? && Short(true, ram, ppn, m', root, a.address, gm) {
      ShortBefore(ram, ppn, m, m', own, root, a.address, gm);
    }
    if r.NotChanged? {
      AlreadyPermitted(m, m', own, root, a.address, access, gm + GUEST_MEMORY_OFFSET);
    }
  }

  /** An access that a device supports is not excused, unless the pool is exhausted. */
  lemma EmulatedOrExcuse(active: bool, ram: Ram, ppn: Ppn, m: Mem, root: nat, live: set<nat>,
                         access: Access, acc: Decoder.MemoryAccess, host: Devices.Host,
                         gm: Word, gm': Word, r: Outcome, c: Cpu)
    requires root < PAGES && InRange(acc) && MeansIn(active, ram, ppn, acc.address, gm)
    requires gm < RAM_START && Emulate(access, gm, acc, c, host).Some?
    requires ExcusedIn(active, ram, ppn, m, root, live, access, acc, host, gm', r, c)
    ensures r.Panic? && Exhausted(live)
  {
  }

  /** A fault in RAM that can be handled is not excused, unless the pool is exhausted. */
  lemma HandledOrExcuse(a: Snapshot, own: Ownership, b: Snapshot, active: bool, root: nat, live: set<nat>,
                        access: Access, acc: Decoder.MemoryAccess, host: Devices.Host,
                        gm: Word, gm': Word, r: Outcome, c: Cpu)
    requires InRange(acc) && Handled(a, b, active, acc.address, gm, access, Success)
    requires Forest(a.pages, own) && RootsOK(own, a.shadowRoot) && MeansIn(active, a.ram, a.ppn, acc.address, gm)
    requires root < PAGES && if active then a.shadowRoot == Some(root) else root == ROOT
    requires ExcusedIn(active, a.ram, a.ppn, a.pages, root, live, access, acc, host, gm', r, c)
    ensures r.Panic? && Exhausted(live)
  {
    NotPermittedBefore(a, own, b, active, root, acc.address, gm, gm + GUEST_MEMORY_OFFSET, access);
    HandledIsInRange(a, b, active, acc.address, gm, access);
    PermittedOrExcuse(active, a.ram, a.ppn, a.pages, root, live, access, acc, host, gm, gm', r, c);
  }

  lemma HandledIsInRange(a: Snapshot, b: Snapshot, active: bool, address: Word, gm: Word, access: Access)
    requires Handled(a, b, active, address, gm, access, Success)
    ensures InRam(gm) && (active ==> address < VA_LIMIT)
  {
  }

  lemma PermittedOrExcuse(active: bool, ram: Ram, ppn: Ppn, m: Mem, root: nat, live: set<nat>,
                          access: Access, acc: Decoder.MemoryAccess, host: Devices.Host,
                          gm: Word, gm': Word, r: Outcome, c: Cpu)
    requires root < PAGES && InRange(acc) && MeansIn(active, ram, ppn, acc.address, gm) && InRam(gm)
    requires active ==> acc.address < VA_LIMIT
    requires !Permits(m, root, acc.address, access, gm + GUEST_MEMORY_OFFSET)
    requires ExcusedIn(active, ram, ppn, m, root, live, access, acc, host, gm', r, c)
    ensures r.Panic? && Exhausted(live)
  {
  }
}
