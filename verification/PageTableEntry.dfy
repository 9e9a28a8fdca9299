/** Page-table entries: the form the MMU reads and the form the code works on. */
module PageTableEntry {
  import opened Words
  import opened Image

  /** The ten low bits of an entry: V, R, W, X, U, G, A, D and two bits reserved for software. */
  type Mask = n: nat | n < 1024

  const V: Mask := 1
  const R: Mask := 2
  const W: Mask := 4
  const X: Mask := 8
  const U: Mask := 16
  const A: Mask := 64
  const D: Mask := 128
  const V_U_RWX: Mask := 31

  /** Any of R, W, X: the entry maps memory instead of naming a lower table. */
  predicate Leafy(perms: nat) {
    perms / 2 % 8 != 0
  }

  lemma PointerPerms()
    ensures Has(V, V) && !Leafy(V)
  {
  }

  lemma LeafyIsAnyOfRWX(perms: nat)
    ensures Leafy(perms) <==> Has(perms, R) || Has(perms, W) || Has(perms, X)
  {
    assert perms / 4 == perms / 2 / 2 && perms / 8 == perms / 2 / 4;
    LowBits(perms / 2);
  }

  lemma LowBits(n: nat)
    ensures n % 8 != 0 <==> n % 2 == 1 || n / 2 % 2 == 1 || n / 4 % 2 == 1
  {
    var k, r := n / 8, n % 8;
    assert n == 2 * (4 * k) + r;
    HalfOf(4 * k, r);
    HalfOf(2 * k, r / 2);
    HalfOf(k, r / 2 / 2);
    assert n / 4 == n / 2 / 2;
    assert r in {0, 1, 2, 3, 4, 5, 6, 7};
  }

  lemma HalfOf(x: nat, y: nat)
    ensures (2 * x + y) % 2 == y % 2 && (2 * x + y) / 2 == x + y / 2
  {
  }

  datatype Entry = Entry(address: Word, perms: Mask)

  function Pack(e: Entry): (w: Word) {
    e.address / PAGE_BYTES * 1024 + e.perms
  }

  /** A 64-bit shift by the page width keeps the low 52 bits of a page number. */
  const PPN_LIMIT: nat := 0x10_0000_0000_0000

  function Unpack(w: Word): (e: Entry) {
    Entry(w / 1024 % PPN_LIMIT * PAGE_BYTES, w % 1024)
  }

  /** Storing an entry and reading it back loses exactly the offset within a page. */
  lemma UnpackPack(e: Entry)
    ensures Unpack(Pack(e)) == e.(address := e.address - e.address % PAGE_BYTES)
  {
  }

  /** Unpacking and packing again returns every entry word without reserved high bits, and no other. */
  lemma PackUnpack(w: Word)
    ensures Pack(Unpack(w)) == w <==> w < 0x4000_0000_0000_0000
  {
    assert Unpack(w).address / PAGE_BYTES == w / 1024 % PPN_LIMIT;
  }
}
