/**
 What the trap handler reads out of guest memory and makes of it: instruction fetch, the system
 instructions, and the emulation of one device access.
 */
module Instructions {
  import opened Words
  import opened Image
  import opened Tables
  import opened GuestTables
  import opened GuestSlice
  import opened Paging
  import opened TimerSpec
  import opened Devices
  import D = Decoder

  // ---------------------------------------------------------------- fetching

  /** `dereference_instruction`: the high half is read only if there is one. */
  function Dereference(ram: Ram, a: nat): (p: nat)
    ensures InstructionLength(p) == InstructionLength(RamHalf(ram, a))
  {
    var low := RamHalf(ram, a);
    if D.IsCompressed(low) then low
    else
      LowHalf(low, RamHalf(ram, a + 2));
      low + 0x1_0000 * RamHalf(ram, a + 2)
  }

  /**
   The instruction at `pc`, as the trap handlers read it through the table the guest runs on. No
   result stands for a panic: the page is not mapped for the guest, or the instruction crosses
   into another one.
   */
  function Fetch(m: Mem, root: nat, ram: Ram, pc: Word): (p: Option<nat>)
    requires root < PAGES
  {
    match Piece(m, root, pc, 4)
    case None => None
    case Some(s) =>
      if s.byteLength < 2 || s.byteLength < InstructionLength(RamHalf(ram, s.address)) then None
      else Some(Dereference(ram, s.address))
  }

  lemma LowHalf(low: nat, high: nat)
    requires low < 0x1_0000
    ensures (low + 0x1_0000 * high) % 4 == low % 4
  {
    assert low + 0x1_0000 * high == low + 4 * (0x4000 * high);
  }

  function InstructionLength(p: nat): (n: nat) {
    if D.IsCompressed(p) then 2 else 4
  }

  /** The length of the instruction at `pc`, which the two low bits of its first byte tell. */
  function LengthAt(m: Mem, root: nat, ram: Ram, pc: Word): (n: nat)
    requires root < PAGES && HostByte(m, root, pc).Some?
  {
    if RamByte(ram, HostByte(m, root, pc).value) % 4 == 3 then 4 else 2
  }

  /** The handlers can fetch an instruction exactly if all of its bytes lie in one mapped leaf. */
  lemma FetchNeedsOneLeaf(m: Mem, root: nat, ram: Ram, pc: Word)
    requires root < PAGES
    ensures Fetch(m, root, ram, pc).Some? <==>
              && HostByte(m, root, pc).Some?
              && pc % LeafAround(m, root, pc) + LengthAt(m, root, ram, pc) <= LeafAround(m, root, pc)
    ensures Fetch(m, root, ram, pc).Some? ==>
              InstructionLength(Fetch(m, root, ram, pc).value) == LengthAt(m, root, ram, pc)
  {
    PieceIsLongest(m, root, pc, 4);
    if HostByte(m, root, pc).Some? {
      LowestByte(RamByte(ram, HostByte(m, root, pc).value), RamByte(ram, HostByte(m, root, pc).value + 1));
    }
  }

  lemma LowestByte(b0: nat, b1: nat)
    ensures (b0 + 256 * b1) % 4 == b0 % 4
  {
    assert b0 + 256 * b1 == b0 + 4 * (64 * b1);
  }

  /** Where byte `k` of the instruction at `pc` is. */
  function FetchedByte(m: Mem, root: nat, ram: Ram, pc: Word, k: nat): (b: Option<nat>)
    requires root < PAGES && pc + k < TWO64
  {
    match HostByte(m, root, pc + k)
    case None => None
    case Some(a) => Some(RamByte(ram, a))
  }

  /** Four bytes, the lowest first. */
  function FromBytes(b0: nat, b1: nat, b2: nat, b3: nat): (p: nat) {
    b0 + 256 * b1 + 0x1_0000 * (b2 + 256 * b3)
  }

  lemma BytesOfWord(b0: nat, b1: nat, b2: nat, b3: nat)
    requires b0 < 256 && b1 < 256 && b2 < 256 && b3 < 256
    ensures var p := FromBytes(b0, b1, b2, b3);
            && p < TWO64 && ByteOf(p, 0) == b0 && ByteOf(p, 1) == b1 && ByteOf(p, 2) == b2 && ByteOf(p, 3) == b3
  {
    var p := FromBytes(b0, b1, b2, b3);
    assert p / 0x1_0000 == b2 + 256 * b3;
    assert p / 0x100_0000 == b3;
  }

  /** The bytes that were read, with zeros for the high half of a compressed instruction. */
  lemma DereferencedBytes(ram: Ram, a: nat)
    ensures var p := Dereference(ram, a);
            && p < TWO64 && ByteOf(p, 0) == RamByte(ram, a) && ByteOf(p, 1) == RamByte(ram, a + 1)
            && (!D.IsCompressed(p) ==> ByteOf(p, 2) == RamByte(ram, a + 2) && ByteOf(p, 3) == RamByte(ram, a + 3))
  {
    var b0, b1, b2, b3 := RamByte(ram, a), RamByte(ram, a + 1), RamByte(ram, a + 2), RamByte(ram, a + 3);
    BytesOfWord(b0, b1, 0, 0);
    BytesOfWord(b0, b1, b2, b3);
    assert Dereference(ram, a) in {FromBytes(b0, b1, 0, 0), FromBytes(b0, b1, b2, b3)};
  }

  /** Every piece that a table of this hypervisor yields lies in guest RAM. */
  lemma PieceIsGuestMemory(m: Mem, own: Ownership, shadow: Option<nat>, root: nat, va: Word, limit: nat)
    requires Forest(m, own) && RootsOK(own, shadow) && root < PAGES && (root == ROOT || Some(root) == shadow)
    requires limit > 0 && Piece(m, root, va, limit).Some?
    ensures var s := Piece(m, root, va, limit).value;
            s.address >= GUEST_HOST_START && s.address + s.byteLength <= TWO64
  {
    LeafIsGuestMemory(m, own, shadow, root, va / PAGE_BYTES);
    PieceInside(m, root, va, limit);
  }

  lemma PieceInside(m: Mem, root: nat, va: Word, limit: nat)
    requires root < PAGES && limit > 0 && Piece(m, root, va, limit).Some?
    requires var l := Walk(m, root, 2, va / PAGE_BYTES).value;
             GUEST_HOST_START <= l.base && l.base + LeafBytes(l.level) <= TWO64
    ensures var s := Piece(m, root, va, limit).value;
            s.address >= GUEST_HOST_START && s.address + s.byteLength <= TWO64
  {
    var l := Walk(m, root, 2, va / PAGE_BYTES).value;
    InsideLeaf(l.base, LeafBytes(l.level), va);
  }

  /** Every leaf of either table maps to guest RAM, above the hypervisor's image. */
  lemma LeafIsGuestMemory(m: Mem, own: Ownership, shadow: Option<nat>, root: nat, vpn: nat)
    requires Forest(m, own) && RootsOK(own, shadow)
    requires root < PAGES && (root == ROOT || Some(root) == shadow)
    ensures var r := Walk(m, root, 2, vpn);
            r.Some? ==> && GUEST_HOST_START <= r.value.base && r.value.base + LeafBytes(r.value.level) <= TWO64
  {
    if root == ROOT {
      MachineLeafFits(m, own, vpn);
    } else {
      ShadowLeafFits(m, own, root, vpn);
    }
  }

  lemma InsideLeaf(base: Word, size: nat, va: nat)
    requires size > 0 && base + size <= TWO64
    ensures Wrap(base + va % size) == base + va % size
  {
    WrapSmall(base + va % size);
  }

  lemma ShadowLeafFits(m: Mem, own: Ownership, root: nat, vpn: nat)
    requires Forest(m, own) && RootsOK(own, Some(root)) && root < PAGES
    ensures var r := Walk(m, root, 2, vpn);
            r.Some? ==> && GUEST_HOST_START <= r.value.base && r.value.base + LeafBytes(r.value.level) <= TWO64
  {
    ShadowWalk(m, own, root, vpn);
    var r := Walk(m, root, 2, vpn);
    if r.Some? {
      LastPage(r.value.base);
    }
  }

  lemma LastPage(base: Word)
    requires base % PAGE_BYTES == 0
    ensures base + PAGE_BYTES <= TWO64
  {
    assert TWO64 == 0x10_0000_0000_0000 * PAGE_BYTES;
    assert base / PAGE_BYTES < 0x10_0000_0000_0000;
  }

  lemma MachineLeafFits(m: Mem, own: Ownership, vpn: nat)
    requires Forest(m, own) && ROOT in own && own[ROOT] == Node(2, Machine, Top)
    ensures var r := Walk(m, ROOT, 2, vpn);
            r.Some? ==> && GUEST_HOST_START <= r.value.base && r.value.base + LeafBytes(r.value.level) <= TWO64
  {
    WalkModulo(m, ROOT, vpn);
    MachineWalk(m, own, vpn % VPNS);
  }

  /** The architecture uses 27 bits of the page number, and so does every walk here. */
  lemma WalkModulo(m: Mem, root: nat, vpn: nat)
    requires root < PAGES
    ensures Walk(m, root, 2, vpn) == Walk(m, root, 2, vpn % VPNS)
  {
    forall l: nat | l <= 2 ensures Index(vpn, l) == Index(vpn % VPNS, l) {
      IndexModulo(vpn, l);
    }
    SameIndices(m, root, 2, vpn, vpn % VPNS);
  }

  lemma {:induction false} SameIndices(m: Mem, p: nat, level: nat, v: nat, w: nat)
    requires p < PAGES && level <= 2 && forall l: nat | l <= level :: Index(v, l) == Index(w, l)
    ensures Walk(m, p, level, v) == Walk(m, p, level, w)
    decreases level
  {
    assert Index(v, level) == Index(w, level);
    var e := At(m, p, Index(v, level));
    if IsTable(e) && level > 0 && PageOf(e.address).Some? {
      SameIndices(m, PageOf(e.address).value, level - 1, v, w);
    }
  }

  lemma IndexModulo(vpn: nat, l: nat)
    requires l <= 2
    ensures Index(vpn, l) == Index(vpn % VPNS, l)
  {
    Components(vpn / VPNS, vpn % VPNS);
    assert vpn == vpn / VPNS * VPNS + vpn % VPNS;
  }

  lemma Components(q: nat, r: nat)
    ensures (q * VPNS + r) % ENTRIES == r % ENTRIES
    ensures (q * VPNS + r) / ENTRIES % ENTRIES == r / ENTRIES % ENTRIES
    ensures (q * VPNS + r) / 0x4_0000 % ENTRIES == r / 0x4_0000 % ENTRIES
  {
    LowComponent(q * 0x4_0000, r);
    LowComponent(q * ENTRIES, r / ENTRIES);
    LowComponent(q, r / 0x4_0000);
    HighComponents(q * ENTRIES, r);
  }

  lemma LowComponent(x: nat, y: nat)
    ensures (ENTRIES * x + y) % ENTRIES == y % ENTRIES && (ENTRIES * x + y) / ENTRIES == x + y / ENTRIES
  {
  }

  lemma HighComponents(x: nat, y: nat)
    ensures (0x4_0000 * x + y) / 0x4_0000 == x + y / 0x4_0000
  {
  }

  lemma FetchedBytes(m: Mem, root: nat, ram: Ram, pc: Word, k: nat)
    requires root < PAGES && Fetch(m, root, ram, pc).Some? && k < InstructionLength(Fetch(m, root, ram, pc).value)
    requires var s := Piece(m, root, pc, 4).value; s.address + s.byteLength <= TWO64
    ensures Fetch(m, root, ram, pc).value < TWO64 && pc + k < TWO64
    ensures FetchedByte(m, root, ram, pc, k) == Some(ByteOf(Fetch(m, root, ram, pc).value, k))
    ensures HostByte(m, root, pc + k) == Some(Piece(m, root, pc, 4).value.address + k)
  {
    var s := Piece(m, root, pc, 4).value;
    DereferencedByte(ram, s.address, k);
    assert k < s.byteLength;
    PieceBytes(m, root, pc, 4, k);
    NoWrapInside(s.address, s.byteLength, k);
  }

  lemma NoWrapInside(address: nat, length: nat, k: nat)
    requires address + length <= TWO64 && k < length
    ensures Wrap(address + k) == address + k
  {
    WrapSmall(address + k);
  }

  lemma DereferencedByte(ram: Ram, a: nat, k: nat)
    requires k < InstructionLength(Dereference(ram, a))
    ensures Dereference(ram, a) < TWO64 && ByteOf(Dereference(ram, a), k) == RamByte(ram, a + k)
  {
    DereferencedBytes(ram, a);
    assert k == 0 || k == 1 || k == 2 || k == 3;
  }

  /** The handlers fetch the guest's own bytes: each where the current table maps it, in guest RAM. */
  lemma FetchIsGuestMemory(m: Mem, own: Ownership, shadow: Option<nat>, root: nat, ram: Ram, pc: Word, k: nat)
    requires Forest(m, own) && RootsOK(own, shadow) && root < PAGES && (root == ROOT || Some(root) == shadow)
    requires Fetch(m, root, ram, pc).Some? && k < InstructionLength(Fetch(m, root, ram, pc).value)
    ensures Fetch(m, root, ram, pc).value < TWO64 && pc + k < TWO64
    ensures FetchedByte(m, root, ram, pc, k) == Some(ByteOf(Fetch(m, root, ram, pc).value, k))
    ensures HostByte(m, root, pc + k).value >= GUEST_HOST_START
  {
    PieceIsGuestMemory(m, own, shadow, root, pc, 4);
    FetchedBytes(m, root, ram, pc, k);
  }

  // ---------------------------------------------------------------- system instructions

  /** What an instruction that the guest may not execute itself asks for. `Other` stands for a panic. */
  datatype System =
    | SfenceVma
    | MretInstruction
    | Wfi
    | CsrReadWrite(csr: nat, rd: nat, rs1: nat)
    | CsrReadSet(csr: nat, rd: nat, rs1: nat)
    | Other

  function DecodeSystem(p: nat): (s: System)
    ensures s.CsrReadWrite? || s.CsrReadSet? ==> s.rd < 32 && s.rs1 < 32
  {
    var u := D.Unpack(p);
    if u.opcode != 0x73 then Other
    else if u.funct3 == 0 then
      if u.funct7 == 9 && u.rd == 0 then SfenceVma
      else if u.funct7 == 24 && u.rs2 == 2 && u.rs1 == 0 && u.rd == 0 then MretInstruction
      else if u.funct7 == 8 && u.rs2 == 5 && u.rs1 == 0 && u.rd == 0 then Wfi
      else Other
    else if u.funct3 == 1 then CsrReadWrite(u.funct7 * 32 + u.rs2, u.rd, u.rs1)
    else if u.funct3 == 2 then CsrReadSet(u.funct7 * 32 + u.rs2, u.rd, u.rs1)
    else Other
  }

  /** The encoding of CSRRW (funct3 1) and CSRRS (funct3 2): the CSR is the immediate of the I format. */
  function EncodeCsr(csr: nat, rs1: nat, funct3: nat, rd: nat): (p: nat) {
    D.Word32(0x73, rd, funct3, rs1, csr % 32, csr / 32)
  }

  /** The privileged instructions of the architecture, and the CSR instructions, are recognised as such. */
  lemma SystemInstructionsDecode(csr: nat, rs1: nat, rs2: nat, rd: nat)
    requires csr < 4096 && rs1 < 32 && rs2 < 32 && rd < 32
    ensures DecodeSystem(EncodeCsr(csr, rs1, 1, rd)) == CsrReadWrite(csr, rd, rs1)
    ensures DecodeSystem(EncodeCsr(csr, rs1, 2, rd)) == CsrReadSet(csr, rd, rs1)
    ensures DecodeSystem(D.Word32(0x73, 0, 0, rs1, rs2, 9)) == SfenceVma
    ensures DecodeSystem(0x3020_0073) == MretInstruction && DecodeSystem(0x1050_0073) == Wfi
  {
    D.UnpackWord32(0x73, rd, 1, rs1, csr % 32, csr / 32);
    D.UnpackWord32(0x73, rd, 2, rs1, csr % 32, csr / 32);
    D.UnpackWord32(0x73, 0, 0, rs1, rs2, 9);
    D.UnpackWord32(0x73, 0, 0, 0, 2, 24);
    D.UnpackWord32(0x73, 0, 0, 0, 5, 8);
  }

  /** No other word is taken for a system instruction. */
  lemma OnlySystemInstructionsDecode(p: nat)
    requires p < 0x1_0000_0000
    ensures match DecodeSystem(p)
            case SfenceVma =>
              exists rs1, rs2 :: 0 <= rs1 < 32 && 0 <= rs2 < 32 && p == D.Word32(0x73, 0, 0, rs1, rs2, 9)
            case MretInstruction => p == 0x3020_0073
            case Wfi => p == 0x1050_0073
            case CsrReadWrite(csr, rd, rs1) => csr < 4096 && p == EncodeCsr(csr, rs1, 1, rd)
            case CsrReadSet(csr, rd, rs1) => csr < 4096 && p == EncodeCsr(csr, rs1, 2, rd)
            case Other => true
  {
    var u := D.Unpack(p);
    D.RepackWord32(p);
    D.TwelveBits(u.funct7, u.rs2);
    if DecodeSystem(p).SfenceVma? {
      assert p == D.Word32(0x73, 0, 0, u.rs1, u.rs2, 9);
    }
  }

  /** The start of the word that an address lies in. */
  function WordFloor(a: nat): (f: nat)
    ensures f <= a
  {
    a - a % 8
  }

  lemma WordFloorInRam(a: nat)
    requires a >= GUEST_HOST_START
    ensures WordFloor(a) >= GUEST_HOST_START
  {
  }

  // ---------------------------------------------------------------- bitwise or

  /** The bitwise or of the low `bits` bits of two numbers. */
  function OrBits(a: nat, b: nat, bits: nat): (r: nat)
    ensures r < Pow2(bits)
  {
    if bits == 0 then 0
    else 2 * OrBits(a / 2, b / 2, bits - 1) + (if a % 2 == 1 || b % 2 == 1 then 1 else 0)
  }

  function Pow2(n: nat): (p: nat)
    ensures p > 0
  {
    if n == 0 then 1 else 2 * Pow2(n - 1)
  }

  function Or(a: Word, b: Word): (r: Word) {
    SixtyFour();
    OrBits(a, b, 64)
  }

  lemma {:induction false} Pow2Sum(a: nat, b: nat)
    ensures Pow2(a + b) == Pow2(a) * Pow2(b)
  {
    if a > 0 {
      Pow2Sum(a - 1, b);
      assert Pow2(a) * Pow2(b) == 2 * (Pow2(a - 1) * Pow2(b));
    }
  }

  lemma SixtyFour()
    ensures Pow2(64) == TWO64
  {
    assert Pow2(8) == 256;
    Pow2Sum(8, 8);
    Pow2Sum(16, 16);
    Pow2Sum(32, 32);
  }

  predicate BitAt(a: nat, k: nat) {
    Has(a, Pow2(k))
  }

  lemma HalfBit(a: nat, k: nat)
    requires k > 0
    ensures BitAt(a, k) == BitAt(a / 2, k - 1)
  {
    DivTwice(a, Pow2(k - 1));
  }

  lemma DivTwice(a: nat, d: nat)
    requires d > 0
    ensures a / (2 * d) == a / 2 / d
  {
    var q, r := a / 2 / d, a / 2 % d;
    assert a == 2 * (q * d + r) + a % 2;
    assert a == q * (2 * d) + (2 * r + a % 2) && 2 * r + a % 2 < 2 * d;
    QuotientIs(a, 2 * d, q, 2 * r + a % 2);
  }

  lemma QuotientIs(a: nat, d: nat, q: nat, r: nat)
    requires d > 0 && r < d && a == q * d + r
    ensures a / d == q
  {
    var e := a / d - q;
    assert e * d == r - a % d;
    if e > 0 {
    } else if e < 0 {
    }
  }

  /** Each bit of the result is set exactly if it is set in one of the two. */
  lemma {:induction false} OrSetsBits(a: nat, b: nat, bits: nat, k: nat)
    requires k < bits
    ensures BitAt(OrBits(a, b, bits), k) <==> BitAt(a, k) || BitAt(b, k)
  {
    var r := OrBits(a, b, bits);
    if k > 0 {
      HalfBit(a, k);
      HalfBit(b, k);
      HalfBit(r, k);
      assert r / 2 == OrBits(a / 2, b / 2, bits - 1);
      OrSetsBits(a / 2, b / 2, bits - 1, k - 1);
    }
  }

  /** All bits of `b` are set in `a` as well, up to the given number of bits. */
  ghost predicate Covers(a: nat, b: nat, bits: nat) {
    forall k: nat | k < bits :: BitAt(b, k) ==> BitAt(a, k)
  }

  /** Setting bits changes nothing exactly if they are all set already. */
  lemma {:induction false} OrAbsorbs(a: nat, b: nat, bits: nat)
    requires a < Pow2(bits)
    ensures OrBits(a, b, bits) == a <==> Covers(a, b, bits)
  {
    if bits == 0 {
    } else {
      OrAbsorbs(a / 2, b / 2, bits - 1);
      CoversHalf(a, b, bits);
      assert a == 2 * (a / 2) + a % 2;
    }
  }

  lemma CoversHalf(a: nat, b: nat, bits: nat)
    requires bits > 0
    ensures Covers(a, b, bits) <==> (b % 2 == 1 ==> a % 2 == 1) && Covers(a / 2, b / 2, bits - 1)
  {
    assert BitAt(a, 0) == (a % 2 == 1) && BitAt(b, 0) == (b % 2 == 1);
    if Covers(a, b, bits) {
      forall k: nat | k < bits - 1 && BitAt(b / 2, k) ensures BitAt(a / 2, k) {
        HalfBit(a, k + 1);
        HalfBit(b, k + 1);
      }
    }
    if (b % 2 == 1 ==> a % 2 == 1) && Covers(a / 2, b / 2, bits - 1) {
      forall k: nat | k < bits && BitAt(b, k) ensures BitAt(a, k) {
        if k > 0 {
          HalfBit(a, k);
          HalfBit(b, k);
        }
      }
    }
  }

  // ---------------------------------------------------------------- device emulation

  /** An access that was decoded, with a register, a width and a length that exist. */
  predicate InRange(a: D.MemoryAccess) {
    a.MemoryAccess? && a.reg < 32 && a.width in {1, 2, 4, 8} && a.length in {2, 4}
  }

  /** The access that a faulting instruction makes; `p` is what was fetched for loads and stores. */
  function FaultAccess(access: Access, p: nat, regs: D.Registers, pc: Word): (a: D.MemoryAccess) {
    match access
    case Read => D.ParseSource(p, regs)
    case Write => D.ParseDestination(p, regs)
    case Execute => D.MemoryAccess(pc, 4, 0, 4, false)
  }

  /** The access that faulted at `pc`. No result stands for a panic: it cannot be fetched, or is not supported. */
  function Faulting(m: Mem, root: nat, ram: Ram, pc: Word, access: Access, regs: D.Registers)
    : (a: Option<D.MemoryAccess>)
    requires root < PAGES
    ensures a.Some? ==> InRange(a.value)
  {
    var fetched := if access.Execute? then Some(0) else Fetch(m, root, ram, pc);
    match fetched
    case None => None
    case Some(p) =>
      SourceInRange(p, regs);
      DestinationInRange(p, regs);
      var parsed := FaultAccess(access, p, regs, pc);
      if parsed.Unsupported? then None else Some(parsed)
  }

  lemma SourceInRange(p: nat, regs: D.Registers)
    ensures var a := D.ParseSource(p, regs);
            a.MemoryAccess? ==> InRange(a) && a.length == InstructionLength(p)
  {
  }

  lemma DestinationInRange(p: nat, regs: D.Registers)
    ensures var a := D.ParseDestination(p, regs);
            a.MemoryAccess? ==> InRange(a) && a.length == InstructionLength(p)
  {
  }

  function SetReg(regs: D.Registers, i: nat, value: Word): (r: D.Registers)
    requires i < 32
    ensures forall j: nat | j < 32 :: D.Reg(r, j) == if j == i && i > 0 then value else D.Reg(regs, j)
  {
    if i == 0 then regs else regs[i - 1 := value]
  }

  /** What emulating an instruction may change of a guest: its registers, its pc and its timer. */
  datatype Cpu = Cpu(regs: D.Registers, pc: Word, timer: GuestTimer)

  /** No result stands for a device, a width or an access that is not supported. */
  function Emulate(access: Access, gm: Word, a: D.MemoryAccess, c: Cpu, host: Host): (e: Option<Cpu>)
    requires InRange(a)
  {
    match access
    case Read =>
      (match LoadDevice(gm, a.width, c.timer, host)
       case None => None
       case Some(v) =>
         Some(Cpu(SetReg(c.regs, a.reg, D.ResetUpperBits(v, a.width, a.signed)), Wrap(c.pc + a.length), c.timer)))
    case Write =>
      if StoreSupported(gm, a.width) then
        Some(Cpu(c.regs, Wrap(c.pc + a.length), AfterStore(gm, D.Reg(c.regs, a.reg), c.timer)))
      else None
    case Execute => None
  }

  /** The device registers that can be loaded, by width: two of the CLINT, one of the PLIC, three of the UART. */
  predicate CanBeLoaded(gm: Word, width: nat) {
    || (width == 8 && gm in {0x0200_4000, 0x0200_BFF8})
    || (width == 4 && gm == 0x0C00_2000)
    || (width == 1 && gm in {0x1000_0000, 0x1000_0001, 0x1000_0005})
  }

  /** The device registers that can be stored to. */
  predicate CanBeStored(gm: Word, width: nat) {
    || (width == 8 && gm == 0x0200_4000)
    || (width == 4 && gm in {0x0C00_0028, 0x0C00_2000, 0x0C20_0000})
    || (width == 1 && gm in {0x1000_0000, 0x1000_0001})
  }

  /** What an emulated load leaves in its register, address by address. */
  lemma DeviceLoads(a: D.MemoryAccess, gm: Word, c: Cpu, host: Host)
    requires InRange(a)
    ensures Emulate(Read, gm, a, c, host).Some? <==> CanBeLoaded(gm, a.width)
    ensures Emulate(Read, gm, a, c, host).Some? ==>
              var d := Emulate(Read, gm, a, c, host).value;
              && d.pc == Wrap(c.pc + a.length) && d.timer == c.timer && OnlyRegister(c.regs, d.regs, a.reg)
              && (a.reg > 0 ==> HoldsDevice(D.Reg(d.regs, a.reg), gm, a.signed, c.timer, host))
  {
    DeviceValue(gm, a.width, a.signed, c.timer, host);
  }

  lemma DeviceValue(gm: Word, width: nat, signed: bool, g: GuestTimer, host: Host)
    ensures var v := LoadDevice(gm, width, g, host);
            && (v.Some? <==> CanBeLoaded(gm, width))
            && (v.Some? ==> HoldsDevice(D.ResetUpperBits(v.value, width, signed), gm, signed, g, host))
  {
    if width == 8 {
      ClintValue(gm, signed, g, host);
    } else if width == 4 {
      assert D.ResetUpperBits(0, 4, signed) == 0;
    } else if width == 1 {
      UartValue(gm, signed, g, host);
    }
  }

  lemma ClintValue(gm: Word, signed: bool, g: GuestTimer, host: Host)
    ensures var v := LoadDevice(gm, 8, g, host);
            && (v.Some? <==> CanBeLoaded(gm, 8))
            && (v.Some? ==> HoldsDevice(D.ResetUpperBits(v.value, 8, signed), gm, signed, g, host))
  {
    DueAndVirtual(0, g.adjustment, host.now);
    WholeWord(g.deadline, signed);
    WholeWord(VirtualTime(g, host.now), signed);
  }

  lemma WholeWord(v: Word, signed: bool)
    ensures D.ResetUpperBits(v, 8, signed) == v
  {
  }

  lemma UartValue(gm: Word, signed: bool, g: GuestTimer, host: Host)
    ensures var v := LoadDevice(gm, 1, g, host);
            && (v.Some? <==> CanBeLoaded(gm, 1))
            && (v.Some? ==> HoldsDevice(D.ResetUpperBits(v.value, 1, signed), gm, signed, g, host))
  {
    ByteExtended(host.uartRbr, signed);
    ByteExtended(0x60 + host.uartLsr % 2, signed);
    ByteExtended(0, signed);
  }

  lemma ByteExtended(v: Byte, signed: bool)
    ensures D.ResetUpperBits(v, 1, signed) == v + (if signed && v >= 0x80 then TWO64 - 0x100 else 0)
  {
  }

  /**
   `value` is what the guest should see at a device register: its own deadline, its own clock, a
   character of the UART, or whether there is one.
   */
  predicate HoldsDevice(value: Word, gm: Word, signed: bool, g: GuestTimer, host: Host) {
    && (gm == 0x0200_4000 ==> value == g.deadline)
    && (gm == 0x0200_BFF8 ==> (value + g.adjustment) % TWO64 == host.now)
    && (gm == 0x1000_0000 ==> value == host.uartRbr + (if signed && host.uartRbr >= 0x80 then TWO64 - 0x100 else 0))
    && (gm == 0x1000_0005 ==> value == 0x60 + host.uartLsr % 2)
    && (gm == 0x1000_0001 || gm == 0x0C00_2000 ==> value == 0)
  }

  /** A store to the deadline sets it; any other store to a device changes nothing that the guest sees. */
  lemma DeviceStores(a: D.MemoryAccess, gm: Word, c: Cpu, host: Host)
    requires InRange(a)
    ensures Emulate(Write, gm, a, c, host).Some? <==> CanBeStored(gm, a.width)
    ensures Emulate(Write, gm, a, c, host).Some? ==>
              var d := Emulate(Write, gm, a, c, host).value;
              && d.pc == Wrap(c.pc + a.length) && d.regs == c.regs
              && (gm == 0x0200_4000 ==>
                    d.timer == c.timer.(scheduled := true, deadline := D.Reg(c.regs, a.reg)))
              && (gm != 0x0200_4000 ==> d.timer == c.timer)
  {
  }

  /**
   Emulating an encoded load from a device does what the ISA says: the destination register gets
   the value that the device holds, extended as the ISA asks, unless that is the sign of a C.LWSP;
   no other register changes; and the pc moves past the instruction.
   */
  lemma LoadEmulationIsIsa(i: D.Instruction, gm: Word, c: Cpu, host: Host, v: Word)
    requires D.Encodable(i) && D.IsLoad(i) && LoadDevice(gm, D.Meaning(i, c.regs).width, c.timer, host) == Some(v)
    requires !(i.CLoadSp? && !i.wide && v % 0x1_0000_0000 >= 0x8000_0000)
    ensures var isa := D.Meaning(i, c.regs);
            && InRange(D.ParseSource(D.Encode(i), c.regs)) && InRange(isa)
            && Emulate(Read, gm, D.ParseSource(D.Encode(i), c.regs), c, host)
                == Some(Cpu(SetReg(c.regs, isa.reg, D.ResetUpperBits(v, isa.width, isa.signed)),
                            Wrap(c.pc + isa.length), c.timer))
  {
    D.LoadedValueIsIsa(i, c.regs, v);
    D.DecodingUndoesEncoding(i, c.regs);
  }

  /** Emulating a store does what the ISA says: only the guest's deadline can change, to the stored register. */
  lemma StoreEmulationIsIsa(i: D.Instruction, gm: Word, c: Cpu, host: Host)
    requires D.Encodable(i) && !D.IsLoad(i)
    ensures var isa := D.Meaning(i, c.regs);
            && InRange(D.ParseDestination(D.Encode(i), c.regs)) && InRange(isa)
            && Emulate(Write, gm, D.ParseDestination(D.Encode(i), c.regs), c, host)
               == if !StoreSupported(gm, isa.width) then None
                  else Some(Cpu(c.regs, Wrap(c.pc + isa.length),
                                 if gm == CLINT_MTIMECMP
                                 then c.timer.(deadline := D.Reg(c.regs, isa.reg), scheduled := true)
                                 else c.timer))
  {
    D.DecodingUndoesEncoding(i, c.regs);
  }

  /** What an emulated access does to the guest's timer. */
  function EmulatedAction(access: Access, gm: Word, a: D.MemoryAccess, regs: D.Registers): (t: Action)
    requires InRange(a)
  {
    if access.Write? && gm == CLINT_MTIMECMP then StoreDeadline(D.Reg(regs, a.reg)) else Nothing
  }

  predicate OnlyRegister(r: D.Registers, s: D.Registers, i: nat) {
    forall j: nat | j < 32 && j != i :: D.Reg(s, j) == D.Reg(r, j)
  }

  /** At most one register differs. */
  ghost predicate OneRegister(r: D.Registers, s: D.Registers) {
    exists i: nat :: OnlyRegister(r, s, i)
  }

  lemma SetRegIsOne(regs: D.Registers, i: nat, value: Word)
    requires i < 32
    ensures OneRegister(regs, SetReg(regs, i, value)) && OneRegister(regs, regs)
  {
    assert OnlyRegister(regs, SetReg(regs, i, value), i);
    assert OnlyRegister(regs, regs, i);
  }

  /** An emulated access changes one register at most, and sets the guest's deadline or nothing. */
  lemma EmulationIsLocal(access: Access, gm: Word, a: D.MemoryAccess, c: Cpu, host: Host, clock: Clock)
    requires InRange(a) && Emulate(access, gm, a, c, host).Some? && clock.guest == c.timer
    ensures var d := Emulate(access, gm, a, c, host).value;
            && OneRegister(c.regs, d.regs)
            && d.timer == Handle(clock, EmulatedAction(access, gm, a, c.regs)).guest
  {
    if access.Read? {
      SetRegIsOne(c.regs, a.reg, D.ResetUpperBits(LoadDevice(gm, a.width, c.timer, host).value, a.width, a.signed));
    } else {
      SetRegIsOne(c.regs, 0, 0);
    }
  }
}
