/** Machine words, the option type, and the memory map of the linked image. */
module Words {

  datatype Option<+T> = None | Some(value: T)

  const TWO64: nat := 0x1_0000_0000_0000_0000

  /** A `uint64_t` or `uintptr_t`. */
  type Word = n: nat | n < TWO64

  function Wrap(n: int): (w: Word) {
    n % TWO64
  }

  /** The bit of a number that has the given weight. */
  predicate Has(n: nat, bit: nat)
    requires bit > 0
  {
    n / bit % 2 == 1
  }

  lemma WrapSum(a: int, b: int)
    ensures Wrap(Wrap(a) + b) == Wrap(a + b)
  {
    assert a == a / TWO64 * TWO64 + Wrap(a);
    assert Wrap(a) + b == (Wrap(a) + b) / TWO64 * TWO64 + Wrap(Wrap(a) + b);
    WrapIs(a + b, a / TWO64 + (Wrap(a) + b) / TWO64, Wrap(Wrap(a) + b));
  }

  lemma WrapIs(n: int, q: int, r: Word)
    requires n == q * TWO64 + r
    ensures Wrap(n) == r
  {
  }

  lemma WrapSmall(a: nat)
    requires a < TWO64
    ensures Wrap(a) == a
  {
  }
}

/** Where things live in host-physical memory. */
module Image {
  import opened Words

  const PAGE_BYTES: nat := 0x1000
  /** Words in a page, which is also the number of entries in a page table. */
  const ENTRIES: nat := 512
  const POOL_PAGES: nat := 16384
  /** The statically allocated machine root plus the page pool. */
  const PAGES: nat := POOL_PAGES + 1
  /** Guest-machine address of the first byte of guest RAM. */
  const RAM_START: nat := 0x8000_0000
  const GUEST_MEMORY_OFFSET: nat := 0x500_0000
  /** Host-physical address of the first byte of guest RAM. */
  const GUEST_HOST_START: nat := RAM_START + GUEST_MEMORY_OFFSET
  /** One past the highest address Sv39 page tables handle here. */
  const VA_LIMIT: nat := 0x80_0000_0000
  /** Number of Sv39 page numbers. */
  const VPNS: nat := 0x800_0000

  datatype RawLayout = RawLayout(root: nat, pool: nat)

  /** The image is linked at or above 0x80000000 and ends below the guest's RAM. */
  predicate LinkedBelowGuest(l: RawLayout) {
    && l.root % PAGE_BYTES == 0 && l.pool % PAGE_BYTES == 0
    && RAM_START <= l.root && l.root + PAGE_BYTES <= GUEST_HOST_START
    && RAM_START <= l.pool && l.pool + POOL_PAGES * PAGE_BYTES <= GUEST_HOST_START
    && (l.root + PAGE_BYTES <= l.pool || l.pool + POOL_PAGES * PAGE_BYTES <= l.root)
  }

  type Layout = l: RawLayout | LinkedBelowGuest(l) witness RawLayout(0x8001_0000, 0x8002_0000)

  /** Any layout the linker may choose: nothing else is known about it. */
  const LAYOUT: Layout

  /** Page 0 is the machine root table; pages 1 .. POOL_PAGES are the pool. */
  const ROOT: nat := 0

  /** The hypervisor page that a host pointer designates, if it designates the start of one. */
  function PageOf(address: nat): (p: Option<nat>)
    ensures p.Some? ==> p.value < PAGES && RAM_START <= address && address + PAGE_BYTES <= GUEST_HOST_START
  {
    if address == LAYOUT.root then Some(ROOT)
    else if LAYOUT.pool <= address < LAYOUT.pool + POOL_PAGES * PAGE_BYTES && address % PAGE_BYTES == 0 then
      Some(1 + (address - LAYOUT.pool) / PAGE_BYTES)
    else None
  }

  function PageAddress(p: nat): (address: Word)
    requires p < PAGES
    ensures PageOf(address) == Some(p)
    ensures address % PAGE_BYTES == 0
    ensures RAM_START <= address && address + PAGE_BYTES <= GUEST_HOST_START
  {
    if p == ROOT then LAYOUT.root
    else
      PoolPage(LAYOUT.pool, p - 1);
      LAYOUT.pool + (p - 1) * PAGE_BYTES
  }

  lemma PoolPage(start: nat, k: nat)
    requires start % PAGE_BYTES == 0
    ensures (start + k * PAGE_BYTES) % PAGE_BYTES == 0
    ensures (start + k * PAGE_BYTES - start) / PAGE_BYTES == k
  {
  }

  /** A host-physical address inside one of the hypervisor's table pages. */
  ghost predicate InHypervisorPage(address: nat) {
    exists p: nat :: p < PAGES && PageAddress(p) <= address < PageAddress(p) + PAGE_BYTES
  }

  lemma GuestRamIsDisjoint(address: nat)
    requires GUEST_HOST_START <= address
    ensures !InHypervisorPage(address)
  {
  }
}
