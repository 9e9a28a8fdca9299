/** Iteration over a stretch of guest memory, one contiguous piece of host memory at a time. */
module GuestSlice {
  import opened Words
  import opened Image
  import opened PageTableEntry
  import opened Tables
  import opened GuestTables
  import opened Paging

  datatype HostSlice = HostSlice(address: Word, byteLength: nat)

  /** Where a table maps one byte, as far as user mode may see it. */
  function HostByte(m: Mem, root: nat, va: Word): (r: Option<Word>)
    requires root < PAGES
  {
    match Walk(m, root, 2, va / PAGE_BYTES)
    case None => None
    case Some(l) => if Has(l.perms, U) then Some(Wrap(l.base + va % LeafBytes(l.level))) else None
  }

  /** The longest piece of at most `limit` bytes that starts at `va` and lies in one leaf. */
  function Piece(m: Mem, root: nat, va: Word, limit: nat): (r: Option<HostSlice>)
    requires root < PAGES && limit > 0
    ensures r.Some? ==> 0 < r.value.byteLength <= limit
  {
    match Walk(m, root, 2, va / PAGE_BYTES)
    case None => None
    case Some(l) =>
      if !Has(l.perms, U) then None
      else
        var offset := va % LeafBytes(l.level);
        var provided := LeafBytes(l.level) - offset;
        Some(HostSlice(Wrap(l.base + offset), if limit < provided then limit else provided))
  }

  /** There is a piece exactly if its first byte is mapped, and it ends only at the limit or with its leaf. */
  lemma PieceIsLongest(m: Mem, root: nat, va: Word, limit: nat)
    requires root < PAGES && limit > 0
    ensures Piece(m, root, va, limit).Some? <==> HostByte(m, root, va).Some?
    ensures Piece(m, root, va, limit).Some? ==>
              var n, size := Piece(m, root, va, limit).value.byteLength, LeafAround(m, root, va);
              && Piece(m, root, va, limit).value.address == HostByte(m, root, va).value
              && n <= limit && va % size + n <= size && (n == limit || va % size + n == size)
  {
  }

  /** The size of the leaf that maps an address. */
  function LeafAround(m: Mem, root: nat, va: Word): (size: nat)
    requires root < PAGES && HostByte(m, root, va).Some?
    ensures size > 0
  {
    LeafBytes(Walk(m, root, 2, va / PAGE_BYTES).value.level)
  }

  /** Page numbers that agree above a leaf's level are mapped by the same leaf. */
  lemma {:induction false} SameLeaf(m: Mem, p: nat, level: nat, v: nat, w: nat)
    requires p < PAGES && level <= 2
    requires Walk(m, p, level, v).Some?
    requires forall l | Walk(m, p, level, v).value.level <= l <= level :: Index(v, l) == Index(w, l)
    ensures Walk(m, p, level, w) == Walk(m, p, level, v)
    decreases level
  {
    assert Index(v, level) == Index(w, level);
    var e := At(m, p, Index(v, level));
    if IsTable(e) {
      SameLeaf(m, PageOf(e.address).value, level - 1, v, w);
    }
  }

  lemma NextBytes(va: nat, j: nat, level: nat)
    requires level <= 2 && va % LeafBytes(level) + j < LeafBytes(level)
    ensures (va + j) / LeafBytes(level) == va / LeafBytes(level)
    ensures (va + j) % LeafBytes(level) == va % LeafBytes(level) + j
    ensures va < TWO64 ==> va + j < TWO64
  {
    var b := LeafBytes(level);
    assert va == va / b * b + va % b;
    if level == 0 {
    } else if level == 1 {
    }
  }

  /** Indices from a level up only depend on the leaf-sized block an address lies in. */
  lemma IndexOfBlock(va: nat, vb: nat, level: nat, l: nat)
    requires level <= l <= 2 && va / LeafBytes(level) == vb / LeafBytes(level)
    ensures Index(va / PAGE_BYTES, l) == Index(vb / PAGE_BYTES, l)
  {
    BlockIndex(va, level, l);
    BlockIndex(vb, level, l);
  }

  /** The component of level `l` computed from the number of a block of a level not above `l`. */
  function ComponentOfBlock(block: nat, level: nat, l: nat): nat
    requires level <= l <= 2
  {
    if l == level then block % ENTRIES
    else if l == level + 1 then block / ENTRIES % ENTRIES
    else block / 0x40000 % ENTRIES
  }

  lemma BlockIndex(va: nat, level: nat, l: nat)
    requires level <= l <= 2
    ensures Index(va / PAGE_BYTES, l) == ComponentOfBlock(va / LeafBytes(level), level, l)
  {
    if level == 1 {
      assert va / PAGE_BYTES / ENTRIES == va / 0x20_0000;
    } else if level == 2 {
      assert va / PAGE_BYTES / 0x40000 == va / 0x4000_0000;
    }
    if level == 1 && l == 2 {
      assert va / PAGE_BYTES / 0x40000 == va / 0x20_0000 / ENTRIES;
    }
  }

  /** Each byte of a piece is where the table maps the guest's byte. */
  lemma PieceBytes(m: Mem, root: nat, va: Word, limit: nat, j: nat)
    requires root < PAGES && limit > 0 && Piece(m, root, va, limit).Some?
    requires j < Piece(m, root, va, limit).value.byteLength
    ensures va + j < TWO64
    ensures HostByte(m, root, va + j) == Some(Wrap(Piece(m, root, va, limit).value.address + j))
  {
    var l := Walk(m, root, 2, va / PAGE_BYTES).value;
    NextBytes(va, j, l.level);
    forall k | l.level <= k <= 2 ensures Index(va / PAGE_BYTES, k) == Index((va + j) / PAGE_BYTES, k) {
      IndexOfBlock(va, va + j, l.level, k);
    }
    SameLeaf(m, root, 2, va / PAGE_BYTES, (va + j) / PAGE_BYTES);
    WrapSum(l.base + va % LeafBytes(l.level), j);
  }

  /** The host addresses that a sequence of pieces covers, in order. */
  function Bytes(pieces: seq<HostSlice>): (b: seq<Word>) {
    if pieces == [] then []
    else Bytes(pieces[..|pieces| - 1]) + PieceAddresses(pieces[|pieces| - 1])
  }

  function AddressIn(s: HostSlice, j: nat): (a: Word) {
    Wrap(s.address + j)
  }

  function PieceAddresses(s: HostSlice): (b: seq<Word>)
    ensures |b| == s.byteLength
    ensures forall j | 0 <= j < s.byteLength :: b[j] == AddressIn(s, j)
  {
    seq<Word>(s.byteLength, j requires 0 <= j => AddressIn(s, j))
  }

  lemma BytesAppend(pieces: seq<HostSlice>, s: HostSlice)
    ensures Bytes(pieces + [s]) == Bytes(pieces) + PieceAddresses(s)
  {
    assert (pieces + [s])[..|pieces + [s]| - 1] == pieces;
  }

  /** Where the table maps byte `k` of the guest slice that begins at `start`. */
  function SliceByte(m: Mem, root: nat, start: Word, k: nat): (r: Option<Word>)
    requires root < PAGES
  {
    HostByte(m, root, Wrap(start + k))
  }

  /** These are the host addresses of the first bytes of the guest slice. */
  ghost predicate Agrees(m: Mem, root: nat, start: Word, bytes: seq<Word>)
    requires root < PAGES
  {
    forall k | 0 <= k < |bytes| :: SliceByte(m, root, start, k) == Some(bytes[k])
  }

  lemma PieceByteAt(m: Mem, root: nat, start: Word, offset: nat, limit: nat, s: HostSlice, j: nat)
    requires root < PAGES && limit > 0 && Piece(m, root, Wrap(start + offset), limit) == Some(s) && j < s.byteLength
    ensures SliceByte(m, root, start, offset + j) == Some(AddressIn(s, j))
  {
    PieceBytes(m, root, Wrap(start + offset), limit, j);
    SameByte(m, root, start, offset, j);
  }

  lemma SameByte(m: Mem, root: nat, start: Word, offset: nat, j: nat)
    requires root < PAGES && Wrap(start + offset) + j < TWO64
    ensures SliceByte(m, root, start, offset + j) == HostByte(m, root, Wrap(start + offset) + j)
  {
    FurtherOn(start + offset, j);
    assert start + (offset + j) == start + offset + j;
  }

  lemma FurtherOn(a: nat, j: nat)
    requires Wrap(a) + j < TWO64
    ensures Wrap(a + j) == Wrap(a) + j
  {
    WrapSum(a, j);
    WrapSmall(Wrap(a) + j);
  }

  /** The next piece goes on where the bytes so far end. */
  lemma NextPiece(m: Mem, root: nat, start: Word, pieces: seq<HostSlice>, limit: nat, s: HostSlice)
    requires root < PAGES && limit > 0 && Agrees(m, root, start, Bytes(pieces))
    requires Piece(m, root, Wrap(start + |Bytes(pieces)|), limit) == Some(s)
    ensures Agrees(m, root, start, Bytes(pieces + [s]))
    ensures |Bytes(pieces + [s])| == |Bytes(pieces)| + s.byteLength
  {
    BytesAppend(pieces, s);
    var offset := |Bytes(pieces)|;
    forall k | 0 <= k < |Bytes(pieces + [s])|
      ensures SliceByte(m, root, start, k) == Some(Bytes(pieces + [s])[k])
    {
      if k >= offset {
        PieceByteAt(m, root, start, offset, limit, s, k - offset);
      }
    }
  }

  /** `GuestSliceIterator`. */
  class SliceIterator {
    const spaces: AddressSpaces
    /** The table the guest runs on: the shadow root in user mode with paging, else the machine root. */
    const root: nat
    const start: Word
    const byteLength: Word
    var offset: nat
    var host: HostSlice

    ghost predicate Valid()
      reads this, spaces.pool.pages
    {
      && root < PAGES && spaces.pool.pages.Length == PAGES
      && offset <= byteLength
      && host.byteLength <= byteLength - offset
      && (offset < byteLength ==>
            Some(host) == Piece(spaces.pool.pages[..], root, Wrap(start + offset), byteLength - offset))
      && (offset == byteLength ==> host == HostSlice(0, 0))
    }

    /** Names the slice; `Begin` resolves its first piece. */
    constructor (spaces: AddressSpaces, root: nat, start: Word, byteLength: Word)
      ensures this.spaces == spaces && this.root == root && this.start == start && this.byteLength == byteLength
      ensures offset == 0
    {
      this.spaces := spaces;
      this.root := root;
      this.start := start;
      this.byteLength := byteLength;
      offset := 0;
      host := HostSlice(0, 0);
    }

    /** The loop of `resolve_guestmem_slice`, down to an entry that maps memory or to a dead end. */
    method FindLeaf(va: Word) returns (leaf: Option<Leaf>)
      requires root < PAGES && spaces.pool.pages.Length == PAGES
      ensures leaf == Walk(spaces.pool.pages[..], root, 2, va / PAGE_BYTES)
    {
      ghost var m := spaces.pool.pages[..];
      var table: nat := root;
      var level: nat := 2;
      while true
        invariant level <= 2 && table < PAGES
        invariant Walk(m, root, 2, va / PAGE_BYTES) == Walk(m, table, level, va / PAGE_BYTES)
        decreases level
      {
        var entry := Unpack(spaces.pool.pages[table][Index(va / PAGE_BYTES, level)]);
        if !Has(entry.perms, V) {
          return None;
        }
        if Leafy(entry.perms) {
          return Some(Leaf(entry.address, level, entry.perms));
        }
        if level == 0 {
          return None;
        }
        match PageOf(entry.address) {
          case None => return None;
          case Some(p) => table := p;
        }
        level := level - 1;
      }
    }

    /** `resolve_guestmem_slice`: false stands for a panic. */
    method Resolve() returns (ok: bool)
      requires root < PAGES && spaces.pool.pages.Length == PAGES && offset <= byteLength
      modifies this`host
      ensures ok ==> Valid()
      ensures !ok <==>
              && offset < byteLength
              && Piece(spaces.pool.pages[..], root, Wrap(start + offset), byteLength - offset).None?
    {
      var va := Wrap(start + offset);
      var remaining := byteLength - offset;
      if remaining == 0 {
        host := HostSlice(0, 0);
        return true;
      }
      var leaf := FindLeaf(va);
      if leaf.None? || !Has(leaf.value.perms, U) {
        return false;
      }
      var size := LeafBytes(leaf.value.level);
      var provided := size - va % size;
      if remaining < provided {
        provided := remaining;
      }
      host := HostSlice(Wrap(leaf.value.base + va % size), provided);
      ok := true;
    }

    /** The first resolution, in `begin_iter_guestmem`. */
    method Begin() returns (ok: bool)
      requires root < PAGES && spaces.pool.pages.Length == PAGES && offset == 0
      modifies this`host
      ensures ok ==> Valid()
      ensures byteLength > 0 ==>
                (if ok then Some(host) else None) == Piece(spaces.pool.pages[..], root, start, byteLength)
      ensures byteLength == 0 ==> ok && host == HostSlice(0, 0)
    {
      WrapSmall(start);
      ok := Resolve();
    }

    /** `advance_iter_guestmem`. */
    method Advance() returns (ok: bool)
      requires Valid()
      modifies this
      ensures offset == old(offset) + old(host.byteLength)
      ensures ok ==> Valid()
      ensures !ok ==> offset < byteLength && SliceByte(spaces.pool.pages[..], root, start, offset).None?
    {
      offset := offset + host.byteLength;
      ok := Resolve();
    }

    /** `ended_iter_guestmem`, after a resolution that succeeded. */
    predicate Ended()
      reads this
    {
      host.byteLength == 0
    }

    /**
     Drive the iterator to its end. The pieces are never empty, so the iteration ends; laid end to
     end they are the host bytes of the guest's bytes, in order, with nothing missing. When a
     resolution panics instead, the byte it was at is not mapped for the guest.
     */
    method Drain() returns (ok: bool, pieces: seq<HostSlice>)
      requires root < PAGES && spaces.pool.pages.Length == PAGES && offset == 0
      modifies this
      ensures ok ==>
                && |Bytes(pieces)| == byteLength && Agrees(spaces.pool.pages[..], root, start, Bytes(pieces))
                && (forall s | s in pieces :: s.byteLength > 0)
      ensures !ok ==> exists k: nat :: k < byteLength && SliceByte(spaces.pool.pages[..], root, start, k).None?
    {
      pieces := [];
      ok := Resolve();
      while ok && !Ended()
        invariant ok ==> Valid() && |Bytes(pieces)| == offset
        invariant !ok ==> offset < byteLength && SliceByte(spaces.pool.pages[..], root, start, offset).None?
        invariant Agrees(spaces.pool.pages[..], root, start, Bytes(pieces))
        invariant forall s | s in pieces :: s.byteLength > 0
        decreases if ok then byteLength - offset else -1
      {
        NextPiece(spaces.pool.pages[..], root, start, pieces, byteLength - offset, host);
        pieces := pieces + [host];
        ok := Advance();
      }
    }
  }
}
