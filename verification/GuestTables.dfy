/**
 The guest's own page tables, which live in guest RAM: the walk that the hypervisor performs in
 software, and the walk that the privileged architecture prescribes.
 */
module GuestTables {
  import opened Words
  import opened Image
  import opened PageTableEntry
  import opened Tables

  /** Words of guest RAM by host-physical address. Anything not stored yet reads as zero. */
  type Ram = map<nat, Word>

  function Load(ram: Ram, address: nat): (w: Word) {
    if address in ram then ram[address] else 0
  }

  /** Byte `k` of a word, counted from the lowest. */
  function ByteOf(w: Word, k: nat): (b: nat)
    ensures b < 256
  {
    if k == 0 then w % 256 else if k == 1 then w / 0x100 % 256
    else if k == 2 then w / 0x1_0000 % 256 else if k == 3 then w / 0x100_0000 % 256
    else if k == 4 then w / 0x1_0000_0000 % 256 else if k == 5 then w / 0x100_0000_0000 % 256
    else if k == 6 then w / 0x1_0000_0000_0000 % 256 else w / 0x100_0000_0000_0000 % 256
  }

  /** The byte of guest RAM at a host-physical address. */
  function RamByte(ram: Ram, address: nat): (b: nat)
    ensures b < 256
  {
    ByteOf(Load(ram, address - address % 8), address % 8)
  }

  function RamHalf(ram: Ram, address: nat): (h: nat)
    ensures h < 0x1_0000
  {
    RamByte(ram, address) + 256 * RamByte(ram, address + 1)
  }

  /** Guest-machine addresses that are backed by RAM. */
  predicate InRam(gm: nat) {
    RAM_START <= gm < VA_LIMIT
  }

  /** Entry `i` of the guest's page table at guest-machine address `table`. */
  function GuestEntry(ram: Ram, table: nat, i: nat): (w: Word) {
    Load(ram, table + GUEST_MEMORY_OFFSET + 8 * i)
  }

  // ---------------------------------------------------------------- the hypervisor's walk

  /** `Wild` is a walk that would go through a pointer that was never set. */
  datatype Resolution = Resolved(gm: Word) | Refused | Wild

  /** The walk of `gu` from an entry at which the page-number component of `level` comes next. */
  function ResolveFrom(ram: Ram, e: Entry, level: nat, gu: Word): (r: Resolution)
    requires level <= 2 && (Leafy(e.perms) ==> level < 2)
    decreases level
  {
    if !Has(e.perms, V) then Refused
    else if Leafy(e.perms) then
      if Has(e.perms, U) then Resolved(Wrap(e.address + gu % LeafBytes(level + 1))) else Refused
    else if level == 0 then Refused
    else if !InRam(e.address) then Wild
    else ResolveFrom(ram, Unpack(GuestEntry(ram, e.address, Index(gu / PAGE_BYTES, level))), level - 1, gu)
  }

  /** The whole walk, from the root that the guest's `satp` names. */
  function Resolve(ram: Ram, ppn: nat, gu: Word): (r: Resolution)
    requires ppn < 0x1000_0000_0000
  {
    ResolveFrom(ram, Entry(ppn * PAGE_BYTES, V), 2, gu)
  }

  /** The guest's tables, from an entry on, that the walk of `gu` reads. */
  function TablesFrom(ram: Ram, e: Entry, level: nat, gu: Word): (tables: set<nat>)
    requires level <= 2 && (Leafy(e.perms) ==> level < 2)
    ensures forall t | t in tables :: InRam(t)
    decreases level
  {
    if !Has(e.perms, V) || Leafy(e.perms) || level == 0 || !InRam(e.address) then {}
    else
      var next := Unpack(GuestEntry(ram, e.address, Index(gu / PAGE_BYTES, level)));
      {e.address} + TablesFrom(ram, next, level - 1, gu)
  }

  function TablesRead(ram: Ram, ppn: nat, gu: Word): (tables: set<nat>)
    requires ppn < 0x1000_0000_0000
    ensures forall t | t in tables :: InRam(t)
  {
    TablesFrom(ram, Entry(ppn * PAGE_BYTES, V), 2, gu)
  }

  /** The start of the page that an address lies in. */
  function PageFloor(a: nat): (f: nat)
    ensures f <= a
  {
    a - a % PAGE_BYTES
  }

  lemma WrapKeepsOffset(a: nat)
    ensures Wrap(a) % PAGE_BYTES == a % PAGE_BYTES
  {
    assert a == a / TWO64 * TWO64 + Wrap(a);
    assert TWO64 == 0x10_0000_0000_0000 * PAGE_BYTES;
    var k := a / TWO64 * 0x10_0000_0000_0000;
    assert a == k * PAGE_BYTES + Wrap(a);
  }

  lemma LeafKeepsOffset(level: nat, gu: nat)
    requires level <= 2
    ensures gu % LeafBytes(level) % PAGE_BYTES == gu % PAGE_BYTES
    ensures PageFloor(gu) % LeafBytes(level) == gu % LeafBytes(level) - gu % PAGE_BYTES
  {
  }

  lemma WrapPage(a: nat, d: nat)
    requires d == a % PAGE_BYTES
    ensures Wrap(a) >= d && Wrap(a - d) == Wrap(a) - d
  {
    WrapKeepsOffset(a);
    var w := Wrap(a);
    assert w % PAGE_BYTES == d;
    assert a - d == a / TWO64 * TWO64 + (w - d);
  }

  /** The part of `ResolvePageByPage` about a leaf. */
  lemma LeafPageByPage(base: nat, level: nat, gu: nat)
    requires level <= 2 && base % PAGE_BYTES == 0
    ensures var gm := Wrap(base + gu % LeafBytes(level));
            && gm % PAGE_BYTES == gu % PAGE_BYTES
            && Wrap(base + PageFloor(gu) % LeafBytes(level)) == PageFloor(gm)
  {
    LeafKeepsOffset(level, gu);
    var a := base + gu % LeafBytes(level);
    assert a % PAGE_BYTES == gu % PAGE_BYTES;
    WrapKeepsOffset(a);
    WrapPage(a, gu % PAGE_BYTES);
  }

  /** Resolution works page by page: it keeps the offset and moves whole pages. */
  lemma {:induction false} ResolvePageByPage(ram: Ram, e: Entry, level: nat, gu: Word)
    requires level <= 2 && (Leafy(e.perms) ==> level < 2)
    requires e.address % PAGE_BYTES == 0
    ensures var r := ResolveFrom(ram, e, level, gu);
            var page := ResolveFrom(ram, e, level, PageFloor(gu));
            if r.Resolved? then
              && r.gm % PAGE_BYTES == gu % PAGE_BYTES
              && page == Resolved(PageFloor(r.gm))
            else page == r
    decreases level
  {
    if !Has(e.perms, V) {
    } else if Leafy(e.perms) {
      LeafPageByPage(e.address, level + 1, gu);
    } else if level > 0 && InRam(e.address) {
      SamePageNumber(gu);
      var w := GuestEntry(ram, e.address, Index(gu / PAGE_BYTES, level));
      UnpackAligned(w);
      ResolvePageByPage(ram, Unpack(w), level - 1, gu);
    }
  }

  lemma SamePageNumber(gu: nat)
    ensures PageFloor(gu) / PAGE_BYTES == gu / PAGE_BYTES
  {
  }

  lemma UnpackAligned(w: Word)
    ensures Unpack(w).address % PAGE_BYTES == 0
  {
  }

  // ---------------------------------------------------------------- the architecture's walk

  /** Sections 4.3.2 and 4.4 of the RISC-V Privileged Architecture, version 20211203. */
  datatype Sv39Result = Translated(pa: nat, level: nat) | PageFault

  function PagesPerLeaf(level: nat): (n: nat)
    requires level <= 2
    ensures n > 0
  {
    if level == 2 then 0x40000 else if level == 1 then 512 else 1
  }

  /** Bits 63 .. 39 of an Sv39 virtual address must equal bit 38. */
  predicate Canonical(va: Word) {
    va < 0x40_0000_0000 || va >= TWO64 - 0x40_0000_0000
  }

  /** Bits 63 .. 54 are reserved, and so is W without R; U, A and D are reserved in a pointer. */
  predicate ReservedEncoding(pte: Word) {
    var p := pte % 1024;
    || pte / 0x40_0000_0000_0000 != 0
    || (Has(p, W) && !Has(p, R))
    || (!Has(p, R) && !Has(p, X) && (Has(p, U) || Has(p, A) || Has(p, D)))
  }

  /** The table at guest-machine address `table`, looked up with the component of `level`. */
  function Sv39From(ram: Ram, table: nat, level: nat, va: Word): (r: Sv39Result)
    requires level <= 2
    decreases level
  {
    if !InRam(table) then PageFault else
    var pte := GuestEntry(ram, table, va / PAGE_BYTES / PagesPerLeaf(level) % ENTRIES);
    var p := pte % 1024;
    var ppn := pte / 1024 % 0x1000_0000_0000;
    if !Has(p, V) || ReservedEncoding(pte) then PageFault
    else if Has(p, R) || Has(p, X) then
      if !Has(p, U) || ppn % PagesPerLeaf(level) != 0 then PageFault
      else Translated(ppn * PAGE_BYTES + va % LeafBytes(level), level)
    else if level == 0 then PageFault
    else Sv39From(ram, ppn * PAGE_BYTES, level - 1, va)
  }

  /** A user-mode translation, leaving the check of R, W and X against the access aside. */
  function Sv39(ram: Ram, ppn: nat, va: Word): (r: Sv39Result)
    requires ppn < 0x1000_0000_0000
  {
    if !Canonical(va) then PageFault else Sv39From(ram, ppn * PAGE_BYTES, 2, va)
  }

  lemma SameIndex(vpn: nat, level: nat)
    requires level <= 2
    ensures vpn / PagesPerLeaf(level) % ENTRIES == Index(vpn, level)
  {
  }

  lemma PlainPointer(pte: Word)
    requires !ReservedEncoding(pte)
    ensures Unpack(pte).perms == pte % 1024
    ensures Unpack(pte).address == pte / 1024 % 0x1000_0000_0000 * PAGE_BYTES
    ensures Unpack(pte).address / PAGE_BYTES == pte / 1024 % 0x1000_0000_0000
    ensures Unpack(pte).address <= 0x100_0000_0000_0000
  {
    assert pte / 1024 < 0x1000_0000_0000;
  }

  lemma NoWrap(base: nat, level: nat, va: nat)
    requires level <= 2 && base <= 0x100_0000_0000_0000
    ensures Wrap(base + va % LeafBytes(level)) == base + va % LeafBytes(level)
  {
  }

  /**
   No entry that the code reads on its way has a reserved encoding, and the leaf it finds is
   aligned to its size. The code checks none of this.
   */
  predicate Regular(ram: Ram, table: nat, level: nat, va: Word)
    requires level <= 2
    decreases level
  {
    var pte := GuestEntry(ram, table, Index(va / PAGE_BYTES, level));
    var e := Unpack(pte);
    && !ReservedEncoding(pte)
    && (Has(e.perms, V) && Leafy(e.perms) ==> e.address / PAGE_BYTES % PagesPerLeaf(level) == 0)
    && (Has(e.perms, V) && !Leafy(e.perms) && level > 0 ==> Regular(ram, e.address, level - 1, va))
  }

  /** Both walks find the same leaf; the code takes it only above the third level. */
  lemma LeafAgrees(ram: Ram, table: Word, level: nat, va: Word)
    requires level <= 2 && InRam(table)
    requires var pte := GuestEntry(ram, table, Index(va / PAGE_BYTES, level));
             !ReservedEncoding(pte) && Has(Unpack(pte).perms, V) && Leafy(Unpack(pte).perms)
    ensures var e := Unpack(GuestEntry(ram, table, Index(va / PAGE_BYTES, level)));
            var pa := e.address + va % LeafBytes(level);
            && Sv39From(ram, table, level, va)
               == (if Has(e.perms, U) && e.address / PAGE_BYTES % PagesPerLeaf(level) == 0 then Translated(pa, level)
                   else PageFault)
            && ResolveFrom(ram, Entry(table, V), level, va)
               == (if level > 0 && Has(e.perms, U) then Resolved(Wrap(pa)) else Refused)
            && Wrap(pa) == pa
  {
    PointerPerms();
    SameIndex(va / PAGE_BYTES, level);
    var pte := GuestEntry(ram, table, Index(va / PAGE_BYTES, level));
    PlainPointer(pte);
    LeafyIsAnyOfRWX(Unpack(pte).perms);
    NoWrap(Unpack(pte).address, level, va);
  }

  /** The architecture's walk and the code's walk from the same table. */
  lemma {:induction false} Sv39FromAgrees(ram: Ram, table: Word, level: nat, va: Word, gm: Word)
    requires level <= 2
    ensures var isa := Sv39From(ram, table, level, va);
            var code := ResolveFrom(ram, Entry(table, V), level, va);
            && (isa.Translated? && isa.level == 0 ==> code == Refused)
            && ((isa.Translated? && isa.level >= 1 && isa.pa == gm)
                <==> (code == Resolved(gm) && Regular(ram, table, level, va)))
    decreases level
  {
    var pte := GuestEntry(ram, table, Index(va / PAGE_BYTES, level));
    SameIndex(va / PAGE_BYTES, level);
    if InRam(table) && !ReservedEncoding(pte) {
      PlainPointer(pte);
      var e := Unpack(pte);
      LeafyIsAnyOfRWX(e.perms);
      if !Has(e.perms, V) {
        assert Sv39From(ram, table, level, va) == PageFault;
      } else if Leafy(e.perms) {
        LeafAgrees(ram, table, level, va);
      } else if level > 0 {
        Sv39FromAgrees(ram, e.address, level - 1, va, gm);
        PermsDoNotMatter(ram, e, level - 1, va);
        assert Sv39From(ram, table, level, va) == Sv39From(ram, e.address, level - 1, va);
      }
    }
  }

  /** A pointer's other flags play no part in the code's walk. */
  lemma PermsDoNotMatter(ram: Ram, e: Entry, level: nat, va: Word)
    requires level <= 2 && IsTable(e)
    ensures ResolveFrom(ram, e, level, va) == ResolveFrom(ram, Entry(e.address, V), level, va)
  {
    PointerPerms();
  }

  /**
   The walk in software finds exactly the translations that Sv39 prescribes for 1 GiB and 2 MiB
   pages, provided the address is canonical and the entries are regular; a page that Sv39 maps
   with a third-level entry is refused, because the walk stops before that entry is read.
   */
  lemma SoftwareWalkIsSv39(ram: Ram, ppn: nat, gu: Word, gm: Word)
    requires ppn < 0x1000_0000_0000
    ensures (exists l | 1 <= l <= 2 :: Sv39(ram, ppn, gu) == Translated(gm, l))
            <==> (Resolve(ram, ppn, gu) == Resolved(gm) && Canonical(gu) && Regular(ram, ppn * PAGE_BYTES, 2, gu))
    ensures Sv39(ram, ppn, gu).Translated? && Sv39(ram, ppn, gu).level == 0 ==> Resolve(ram, ppn, gu) == Refused
  {
    Sv39FromAgrees(ram, ppn * PAGE_BYTES, 2, gu, gm);
    Sv39Level(ram, ppn * PAGE_BYTES, 2, gu);
  }

  /** A guest that maps page 0 with three levels of tables: the MMU translates, the code refuses. */
  lemma SmallPageIsRefused()
    ensures var pages: Ram := map[0x8500_0000 := 0x2000_0401, 0x8500_1000 := 0x2000_0801, 0x8500_2000 := 0x2000_0C13];
            && Sv39(pages, 0x8_0000, 0) == Translated(0x8000_3000, 0)
            && Resolve(pages, 0x8_0000, 0) == Refused
  {
    var pages: Ram := map[0x8500_0000 := 0x2000_0401, 0x8500_1000 := 0x2000_0801, 0x8500_2000 := 0x2000_0C13];
    assert GuestEntry(pages, 0x8000_0000, 0) == 0x2000_0401 && Unpack(0x2000_0401) == Entry(0x8000_1000, V);
    assert GuestEntry(pages, 0x8000_1000, 0) == 0x2000_0801 && Unpack(0x2000_0801) == Entry(0x8000_2000, V);
    assert GuestEntry(pages, 0x8000_2000, 0) == 0x2000_0C13 && Unpack(0x2000_0C13) == Entry(0x8000_3000, 19);
    assert Index(0, 2) == 0 && Index(0, 1) == 0 && Index(0, 0) == 0;
    PointerPerms();
    assert Sv39From(pages, 0x8000_2000, 0, 0) == Translated(0x8000_3000, 0);
    assert Sv39From(pages, 0x8000_1000, 1, 0) == Sv39From(pages, 0x8000_2000, 0, 0);
    assert Sv39From(pages, 0x8000_0000, 2, 0) == Sv39From(pages, 0x8000_1000, 1, 0);
    assert ResolveFrom(pages, Entry(0x8000_2000, V), 0, 0) == Refused;
    assert ResolveFrom(pages, Entry(0x8000_1000, V), 1, 0) == Refused;
    assert ResolveFrom(pages, Entry(0x8000_0000, V), 2, 0) == Refused;
  }

  /** A 1 GiB leaf that is not aligned to its size: the MMU faults, the code translates. */
  lemma MisalignedLeafIsTaken()
    ensures var pages: Ram := map[0x8500_0000 := 0x2000_0413];
            && Sv39(pages, 0x8_0000, 0) == PageFault
            && Resolve(pages, 0x8_0000, 0) == Resolved(0x8000_1000)
  {
    var pages: Ram := map[0x8500_0000 := 0x2000_0413];
    assert GuestEntry(pages, 0x8000_0000, 0) == 0x2000_0413 && Unpack(0x2000_0413) == Entry(0x8000_1000, 19);
    assert Index(0, 2) == 0;
    PointerPerms();
    assert ResolveFrom(pages, Entry(0x8000_1000, 19), 1, 0) == Resolved(0x8000_1000);
    assert ResolveFrom(pages, Entry(0x8000_0000, V), 2, 0) == Resolved(0x8000_1000);
  }

  /** An address whose bits from 39 up do not repeat bit 38: the MMU faults, the code translates. */
  lemma BitsAboveAreIgnored()
    ensures var pages: Ram := map[0x8500_0800 := 0x2000_0013];
            && Sv39(pages, 0x8_0000, 0x40_0000_0000) == PageFault
            && Resolve(pages, 0x8_0000, 0x40_0000_0000) == Resolved(0x8000_0000)
  {
    var pages: Ram := map[0x8500_0800 := 0x2000_0013];
    assert Index(0x40_0000_0000 / PAGE_BYTES, 2) == 256;
    assert GuestEntry(pages, 0x8000_0000, 256) == 0x2000_0013 && Unpack(0x2000_0013) == Entry(0x8000_0000, 19);
    PointerPerms();
    assert ResolveFrom(pages, Entry(0x8000_0000, 19), 1, 0x40_0000_0000) == Resolved(0x8000_0000);
    assert ResolveFrom(pages, Entry(0x8000_0000, V), 2, 0x40_0000_0000) == Resolved(0x8000_0000);
  }

  lemma Sv39Level(ram: Ram, table: nat, level: nat, va: Word)
    requires level <= 2
    ensures var r := Sv39From(ram, table, level, va); r.Translated? ==> r.level <= level
    decreases level
  {
  }
}
