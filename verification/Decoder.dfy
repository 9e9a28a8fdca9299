/**
 Decoding of the loads and stores that the hypervisor emulates for its virtual devices, and the
 encodings of the RISC-V Unprivileged ISA, version 20191213, sections 2.6, 5.3 and 16.3.
 */
module Decoder {
  import opened Words

  /** `x_plus_one`: register 0 is not stored. */
  type Registers = r: seq<Word> | |r| == 31 witness seq<Word>(31, _ => 0)

  function Reg(regs: Registers, i: nat): (v: Word)
    requires i < 32
  {
    if i == 0 then 0 else regs[i - 1]
  }

  /** `EXTRACT_BITS`, with the position and the number of bits given as powers of two. */
  function Field(n: nat, position: nat, size: nat): (f: nat)
    requires position > 0 && size > 0
    ensures f < size
  {
    n / position % size
  }

  /** `EXTEND_SIGN` from 12 bits. */
  function ExtendSign12(n: nat): int {
    if n / 2048 % 2 == 1 then n - 4096 else n
  }

  // ---------------------------------------------------------------- instruction formats

  datatype Unpacked = Unpacked(opcode: nat, rd: nat, funct3: nat, rs1: nat, rs2: nat, funct7: nat)
  datatype UnpackedCompressed = UnpackedCompressed(opcode: nat, rs2: nat, rs1: nat, funct4: nat)

  function Unpack(p: nat): (u: Unpacked)
    ensures u.opcode < 128 && u.rd < 32 && u.funct3 < 8 && u.rs1 < 32 && u.rs2 < 32 && u.funct7 < 128
  {
    Unpacked(Field(p, 1, 128), Field(p, 128, 32), Field(p, 0x1000, 8), Field(p, 0x8000, 32),
             Field(p, 0x10_0000, 32), Field(p, 0x200_0000, 128))
  }

  function UnpackCompressed(p: nat): (u: UnpackedCompressed)
    ensures u.opcode < 4 && u.rs2 < 32 && u.rs1 < 32 && u.funct4 < 16
  {
    UnpackedCompressed(Field(p, 1, 4), Field(p, 4, 32), Field(p, 128, 32), Field(p, 0x1000, 16))
  }

  predicate IsCompressed(p: nat) {
    p % 4 != 3
  }

  // ---------------------------------------------------------------- what the code decodes

  /** What an emulated access is. `Unsupported` stands for a panic. */
  datatype MemoryAccess = MemoryAccess(address: Word, width: nat, reg: nat, length: nat, signed: bool) | Unsupported

  /** The offset of C.LW and C.SW, put together from the fields it is scattered over. */
  function WordOffset(u: UnpackedCompressed): nat {
    u.funct4 % 2 * 32 + u.rs1 / 16 * 16 + u.rs1 / 8 % 2 * 8 + u.rs2 / 16 * 4 + u.rs2 / 8 % 2 * 64
  }

  /** The offset of C.LD and C.SD. */
  function DoubleOffset(u: UnpackedCompressed): nat {
    u.funct4 % 2 * 32 + u.rs1 / 16 * 16 + u.rs1 / 8 % 2 * 8 + u.rs2 / 16 * 128 + u.rs2 / 8 % 2 * 64
  }

  function WordStackOffset(unordered: nat): nat {
    unordered / 4 * 4 + unordered % 4 * 64
  }

  function DoubleStackOffset(unordered: nat): nat {
    unordered / 8 * 8 + unordered % 8 * 64
  }

  /** `parse_source_address` on the instruction word `p`, whose high half is zero if it is compressed. */
  function ParseSource(p: nat, regs: Registers): (a: MemoryAccess) {
    if IsCompressed(p) then CompressedSource(UnpackCompressed(p), regs) else PlainSource(Unpack(p), regs)
  }

  function PlainSource(u: Unpacked, regs: Registers): (a: MemoryAccess)
    requires u.rs1 < 32
  {
    if u.opcode != 3 || u.funct3 == 7 then Unsupported
    else
      var address := Wrap(Reg(regs, u.rs1) + ExtendSign12(u.funct7 * 32 + u.rs2));
      MemoryAccess(address, LoadWidth(u.funct3), u.rd, 4, u.funct3 < 3)
  }

  function CompressedSource(u: UnpackedCompressed, regs: Registers): (a: MemoryAccess) {
    var funct3 := u.funct4 / 2;
    if u.opcode == 0 && funct3 == 2 then
      MemoryAccess(Wrap(Reg(regs, 8 + u.rs1 % 8) + WordOffset(u)), 4, 8 + u.rs2 % 8, 2, true)
    else if u.opcode == 0 && funct3 == 3 then
      MemoryAccess(Wrap(Reg(regs, 8 + u.rs1 % 8) + DoubleOffset(u)), 8, 8 + u.rs2 % 8, 2, false)
    else if u.opcode == 2 && funct3 == 2 then
      MemoryAccess(Wrap(Reg(regs, 2) + WordStackOffset(u.rs2 + u.funct4 % 2 * 32)), 4, u.rs1, 2, false)
    else if u.opcode == 2 && funct3 == 3 then
      MemoryAccess(Wrap(Reg(regs, 2) + DoubleStackOffset(u.rs2 + u.funct4 % 2 * 32)), 8, u.rs1, 2, false)
    else Unsupported
  }

  /** `funct3` 0 .. 3 load 1, 2, 4 and 8 bytes; 4 .. 6 are the unsigned forms of the first three. */
  function LoadWidth(funct3: nat): nat {
    if funct3 % 4 == 0 then 1 else if funct3 % 4 == 1 then 2 else if funct3 % 4 == 2 then 4 else 8
  }

  /** `parse_destination_address`. */
  function ParseDestination(p: nat, regs: Registers): (a: MemoryAccess) {
    if IsCompressed(p) then CompressedDestination(UnpackCompressed(p), regs) else PlainDestination(Unpack(p), regs)
  }

  function PlainDestination(u: Unpacked, regs: Registers): (a: MemoryAccess)
    requires u.rs1 < 32
  {
    if u.opcode != 0x23 || u.funct3 > 3 then Unsupported
    else
      var address := Wrap(Reg(regs, u.rs1) + ExtendSign12(u.funct7 * 32 + u.rd));
      MemoryAccess(address, LoadWidth(u.funct3), u.rs2, 4, false)
  }

  function CompressedDestination(u: UnpackedCompressed, regs: Registers): (a: MemoryAccess) {
    var funct3 := u.funct4 / 2;
    if u.opcode == 0 && funct3 == 6 then
      MemoryAccess(Wrap(Reg(regs, 8 + u.rs1 % 8) + WordOffset(u)), 4, 8 + u.rs2 % 8, 2, false)
    else if u.opcode == 0 && funct3 == 7 then
      MemoryAccess(Wrap(Reg(regs, 8 + u.rs1 % 8) + DoubleOffset(u)), 8, 8 + u.rs2 % 8, 2, false)
    else if u.opcode == 2 && funct3 == 6 then
      MemoryAccess(Wrap(Reg(regs, 2) + WordStackOffset(u.rs1 + u.funct4 % 2 * 32)), 4, u.rs2, 2, false)
    else if u.opcode == 2 && funct3 == 7 then
      MemoryAccess(Wrap(Reg(regs, 2) + DoubleStackOffset(u.rs1 + u.funct4 % 2 * 32)), 8, u.rs2, 2, false)
    else Unsupported
  }

  // ---------------------------------------------------------------- what the ISA encodes

  /** `wide` selects the 8-byte form; compressed registers are numbered 0 .. 7 and mean x8 .. x15. */
  datatype Instruction =
    | Load(funct3: nat, rd: nat, rs1: nat, offset: int)
    | Store(funct3: nat, rs2: nat, rs1: nat, offset: int)
    | CLoad(wide: bool, rd: nat, rs1: nat, uimm: nat)
    | CStore(wide: bool, rs2: nat, rs1: nat, uimm: nat)
    | CLoadSp(wide: bool, rd: nat, uimm: nat)
    | CStoreSp(wide: bool, rs2: nat, uimm: nat)

  predicate Encodable(i: Instruction) {
    match i
    case Load(f, rd, rs1, offset) => f < 7 && rd < 32 && rs1 < 32 && -2048 <= offset < 2048
    case Store(f, rs2, rs1, offset) => f < 4 && rs2 < 32 && rs1 < 32 && -2048 <= offset < 2048
    case CLoad(wide, rd, rs1, uimm) => rd < 8 && rs1 < 8 && uimm % Bytes(wide) == 0 && uimm < 32 * Bytes(wide)
    case CStore(wide, rs2, rs1, uimm) => rs2 < 8 && rs1 < 8 && uimm % Bytes(wide) == 0 && uimm < 32 * Bytes(wide)
    case CLoadSp(wide, rd, uimm) => 0 < rd < 32 && uimm % Bytes(wide) == 0 && uimm < 64 * Bytes(wide)
    case CStoreSp(wide, rs2, uimm) => rs2 < 32 && uimm % Bytes(wide) == 0 && uimm < 64 * Bytes(wide)
  }

  function Bytes(wide: bool): (n: nat)
    ensures n > 0
  {
    if wide then 8 else 4
  }

  /** An instruction of the base formats from its fields, lowest first. */
  function Word32(opcode: nat, rd: nat, funct3: nat, rs1: nat, rs2: nat, funct7: nat): nat {
    opcode + 128 * (rd + 32 * (funct3 + 8 * (rs1 + 32 * (rs2 + 32 * funct7))))
  }

  /** A compressed instruction from its opcode, bits 6 .. 2, bits 11 .. 7 and bits 15 .. 12. */
  function Word16(opcode: nat, low: nat, mid: nat, high: nat): nat {
    opcode + 4 * (low + 32 * (mid + 32 * high))
  }

  /** Bits 6 and 5 of C.LW and C.SW hold uimm[2|6], those of C.LD and C.SD hold uimm[7:6]. */
  function LowImmediate(wide: bool, uimm: nat): nat {
    if wide then Field(uimm, 64, 4) else Field(uimm, 4, 2) * 2 + Field(uimm, 64, 2)
  }

  /** Bits 6 .. 2 of C.LWSP hold uimm[4:2|7:6], those of C.LDSP hold uimm[4:3|8:6]. */
  function LoadStackImmediate(wide: bool, uimm: nat): nat {
    if wide then Field(uimm, 8, 4) * 8 + Field(uimm, 64, 8) else Field(uimm, 4, 8) * 4 + Field(uimm, 64, 4)
  }

  /** Bits 15 .. 12 of a compressed instruction: `funct3`, and uimm[5]. */
  function HighBits(uimm: nat, funct3: nat): (funct4: nat) {
    Field(uimm, 32, 2) + 2 * funct3
  }

  function Encode(i: Instruction): (p: nat)
    requires Encodable(i)
  {
    match i
    case Load(f, rd, rs1, offset) =>
      var imm := offset % 4096;
      Word32(3, rd, f, rs1, imm % 32, imm / 32)
    case Store(f, rs2, rs1, offset) =>
      var imm := offset % 4096;
      Word32(0x23, imm % 32, f, rs1, rs2, imm / 32)
    case CLoad(wide, rd, rs1, uimm) =>
      Word16(0, rd + 8 * LowImmediate(wide, uimm), rs1 + 8 * Field(uimm, 8, 4),
             HighBits(uimm, if wide then 3 else 2))
    case CStore(wide, rs2, rs1, uimm) =>
      Word16(0, rs2 + 8 * LowImmediate(wide, uimm), rs1 + 8 * Field(uimm, 8, 4),
             HighBits(uimm, if wide then 7 else 6))
    case CLoadSp(wide, rd, uimm) =>
      Word16(2, LoadStackImmediate(wide, uimm), rd, HighBits(uimm, if wide then 3 else 2))
    case CStoreSp(wide, rs2, uimm) =>
      // Bits 12 .. 7 of C.SWSP hold uimm[5:2|7:6], those of C.SDSP hold uimm[5:3|8:6].
      Word16(2, rs2, LoadStackImmediate(wide, uimm), HighBits(uimm, if wide then 7 else 6))
  }

  /** LB, LH, LW, LD, LBU, LHU, LWU have funct3 0 .. 6, and SB, SH, SW, SD have 0 .. 3. */
  function IsaWidth(funct3: nat): (width: nat) {
    match funct3
    case 0 => 1
    case 1 => 2
    case 2 => 4
    case 3 => 8
    case 4 => 1
    case 5 => 2
    case _ => 4
  }

  /** The access an instruction makes, as the ISA describes it. Stores have no extension. */
  function Meaning(i: Instruction, regs: Registers): (a: MemoryAccess)
    requires Encodable(i)
    ensures a.MemoryAccess?
  {
    match i
    case Load(f, rd, rs1, offset) =>
      MemoryAccess(Wrap(Reg(regs, rs1) + offset), IsaWidth(f), rd, 4, f < 3)
    case Store(f, rs2, rs1, offset) =>
      MemoryAccess(Wrap(Reg(regs, rs1) + offset), IsaWidth(f), rs2, 4, false)
    case CLoad(wide, rd, rs1, uimm) =>
      MemoryAccess(Wrap(Reg(regs, 8 + rs1) + uimm), Bytes(wide), 8 + rd, 2, !wide)
    case CStore(wide, rs2, rs1, uimm) =>
      MemoryAccess(Wrap(Reg(regs, 8 + rs1) + uimm), Bytes(wide), 8 + rs2, 2, false)
    case CLoadSp(wide, rd, uimm) =>
      MemoryAccess(Wrap(Reg(regs, 2) + uimm), Bytes(wide), rd, 2, !wide)
    case CStoreSp(wide, rs2, uimm) =>
      MemoryAccess(Wrap(Reg(regs, 2) + uimm), Bytes(wide), rs2, 2, false)
  }

  predicate IsLoad(i: Instruction) {
    i.Load? || i.CLoad? || i.CLoadSp?
  }

  // ---------------------------------------------------------------- decoding undoes encoding

  lemma UnpackWord32(opcode: nat, rd: nat, funct3: nat, rs1: nat, rs2: nat, funct7: nat)
    requires opcode < 128 && rd < 32 && funct3 < 8 && rs1 < 32 && rs2 < 32 && funct7 < 128
    ensures Unpack(Word32(opcode, rd, funct3, rs1, rs2, funct7)) == Unpacked(opcode, rd, funct3, rs1, rs2, funct7)
  {
    var p5 := rs2 + 32 * funct7;
    var p4 := rs1 + 32 * p5;
    var p3 := funct3 + 8 * p4;
    var p2 := rd + 32 * p3;
    var p := opcode + 128 * p2;
    Positions(p);
    assert p % 128 == opcode && p / 128 == p2;
    assert p2 % 32 == rd && p2 / 32 == p3;
    assert p3 % 8 == funct3 && p3 / 8 == p4;
    assert p4 % 32 == rs1 && p4 / 32 == p5;
    assert p5 % 32 == rs2 && p5 / 32 == funct7;
  }

  lemma Positions(p: nat)
    ensures p / 0x1000 == p / 128 / 32
    ensures p / 0x8000 == p / 128 / 32 / 8
    ensures p / 0x10_0000 == p / 128 / 32 / 8 / 32
    ensures p / 0x200_0000 == p / 128 / 32 / 8 / 32 / 32
  {
  }

  lemma UnpackWord16(opcode: nat, low: nat, mid: nat, high: nat)
    requires opcode < 4 && low < 32 && mid < 32 && high < 16
    ensures UnpackCompressed(Word16(opcode, low, mid, high)) == UnpackedCompressed(opcode, low, mid, high)
  {
    var p2 := mid + 32 * high;
    var p1 := low + 32 * p2;
    var p := opcode + 4 * p1;
    assert p / 128 == p / 4 / 32;
    assert p / 0x1000 == p / 4 / 32 / 32;
    assert p % 4 == opcode && p / 4 == p1;
    assert p1 % 32 == low && p1 / 32 == p2;
    assert p2 % 32 == mid && p2 / 32 == high;
  }

  lemma LowBits32(opcode: nat, rd: nat, funct3: nat, rs1: nat, rs2: nat, funct7: nat)
    requires opcode % 4 == 3
    ensures !IsCompressed(Word32(opcode, rd, funct3, rs1, rs2, funct7))
  {
  }

  lemma LowBits16(opcode: nat, low: nat, mid: nat, high: nat)
    requires opcode < 3
    ensures IsCompressed(Word16(opcode, low, mid, high))
  {
  }

  lemma SignedImmediate(offset: int)
    requires -2048 <= offset < 2048
    ensures var imm := offset % 4096;
            && imm % 32 < 32 && imm / 32 < 128
            && ExtendSign12(imm / 32 * 32 + imm % 32) == offset
  {
    var imm := offset % 4096;
    assert imm == if offset < 0 then offset + 4096 else offset;
  }

  /** A three-bit register below a two-bit immediate, as in bits 6 .. 2 and 11 .. 7. */
  lemma RegisterAndImmediate(reg: nat, imm: nat)
    requires reg < 8 && imm < 4
    ensures var f := reg + 8 * imm;
            f < 32 && f % 8 == reg && f / 8 % 2 == imm % 2 && f / 16 == imm / 2
  {
  }

  lemma BitAndFunct3(bit: nat, high: nat)
    requires bit < 2 && high < 8
    ensures var f := bit + 2 * high;
            f < 16 && f % 2 == bit && f / 2 == high
  {
  }

  /** What the decoders make of the immediate of the other forms. */
  function OffsetOf(wide: bool, u: UnpackedCompressed): (offset: nat) {
    if wide then DoubleOffset(u) else WordOffset(u)
  }

  /** The fields of an encoded C.LW, C.LD, C.SW or C.SD. */
  function BasedFields(wide: bool, reg: nat, base: nat, uimm: nat, funct3: nat): (u: UnpackedCompressed) {
    UnpackedCompressed(0, reg + 8 * LowImmediate(wide, uimm), base + 8 * Field(uimm, 8, 4), HighBits(uimm, funct3))
  }

  /** The scattered immediates of C.LW, C.SW, C.LD and C.SD are gathered in the right order. */
  lemma CompressedOffset(wide: bool, uimm: nat, reg1: nat, reg2: nat, high: nat)
    requires uimm % Bytes(wide) == 0 && uimm < 32 * Bytes(wide) && reg1 < 8 && reg2 < 8 && high < 8
    ensures var u := BasedFields(wide, reg1, reg2, uimm, high);
            && u.rs2 < 32 && u.rs1 < 32 && u.funct4 < 16 && u.funct4 / 2 == high
            && u.rs2 % 8 == reg1 && u.rs1 % 8 == reg2 && OffsetOf(wide, u) == uimm
  {
    RegisterAndImmediate(reg1, LowImmediate(wide, uimm));
    RegisterAndImmediate(reg2, Field(uimm, 8, 4));
    BitAndFunct3(Field(uimm, 32, 2), high);
    TwoBits(Field(uimm, 8, 4));
    if wide {
      TwoBits(LowImmediate(wide, uimm));
      DoubleImmediate(uimm);
    } else {
      TwoBitsOf(Field(uimm, 4, 2), Field(uimm, 64, 2));
      WordImmediate(uimm);
    }
  }

  lemma TwoBits(n: nat)
    requires n < 4
    ensures n / 2 * 2 + n % 2 == n && n / 2 < 2
  {
  }

  lemma TwoBitsOf(high: nat, low: nat)
    requires high < 2 && low < 2
    ensures (high * 2 + low) / 2 == high && (high * 2 + low) % 2 == low
  {
  }

  lemma DoubleImmediate(uimm: nat)
    requires uimm % 8 == 0 && uimm < 256
    ensures uimm == uimm / 32 % 2 * 32 + uimm / 8 % 4 * 8 + uimm / 64 % 4 * 64
  {
  }

  lemma WordImmediate(uimm: nat)
    requires uimm % 4 == 0 && uimm < 128
    ensures uimm == uimm / 32 % 2 * 32 + uimm / 8 % 4 * 8 + uimm / 4 % 2 * 4 + uimm / 64 % 2 * 64
  {
    var k := uimm / 4;
    assert uimm / 8 == k / 2 && uimm / 32 == k / 8 && uimm / 64 == k / 16;
    assert k == k % 2 + k / 2 % 4 * 2 + k / 8 % 2 * 8 + k / 16 * 16;
  }

  /** What the decoders make of the immediate of a stack-relative form. */
  function StackOffsetOf(wide: bool, low: nat, funct4: nat): (offset: nat) {
    if wide then DoubleStackOffset(low + funct4 % 2 * 32) else WordStackOffset(low + funct4 % 2 * 32)
  }

  /** The scattered immediates of the stack-relative forms are gathered in the right order. */
  lemma StackOffset(wide: bool, uimm: nat, funct3: nat)
    requires uimm % Bytes(wide) == 0 && uimm < 64 * Bytes(wide) && funct3 < 8
    ensures LoadStackImmediate(wide, uimm) < 32
    ensures HighBits(uimm, funct3) < 16 && HighBits(uimm, funct3) / 2 == funct3
    ensures StackOffsetOf(wide, LoadStackImmediate(wide, uimm), HighBits(uimm, funct3)) == uimm
  {
    BitAndFunct3(Field(uimm, 32, 2), funct3);
    if wide {
      GatherDouble(Field(uimm, 8, 4), Field(uimm, 32, 2), Field(uimm, 64, 8));
      DoubleStackImmediate(uimm);
    } else {
      GatherWord(Field(uimm, 4, 8), Field(uimm, 32, 2), Field(uimm, 64, 4));
      WordStackImmediate(uimm);
    }
  }

  lemma GatherDouble(a: nat, b: nat, c: nat)
    requires a < 4 && b < 2 && c < 8
    ensures DoubleStackOffset(a * 8 + c + b * 32) == a * 8 + b * 32 + c * 64
  {
    assert a * 8 + c + b * 32 == (a + b * 4) * 8 + c;
  }

  lemma GatherWord(a: nat, b: nat, c: nat)
    requires a < 8 && b < 2 && c < 4
    ensures WordStackOffset(a * 4 + c + b * 32) == a * 4 + b * 32 + c * 64
  {
    assert a * 4 + c + b * 32 == (a + b * 8) * 4 + c;
  }

  lemma DoubleStackImmediate(uimm: nat)
    requires uimm % 8 == 0 && uimm < 512
    ensures uimm == uimm / 8 % 4 * 8 + uimm / 32 % 2 * 32 + uimm / 64 % 8 * 64
  {
    var k := uimm / 8;
    assert uimm / 32 == k / 4 && uimm / 64 == k / 8;
    assert k == k % 4 + k / 4 % 2 * 4 + k / 8 * 8;
  }

  lemma WordStackImmediate(uimm: nat)
    requires uimm % 4 == 0 && uimm < 256
    ensures uimm == uimm / 4 % 8 * 4 + uimm / 32 % 2 * 32 + uimm / 64 % 4 * 64
  {
    var k := uimm / 4;
    assert uimm / 32 == k / 8 && uimm / 64 == k / 16;
    assert k == k % 8 + k / 8 % 2 * 8 + k / 16 * 16;
  }

  /** The decoders ignore the extension that C.LWSP asks for, and get everything else right. */
  function AsDecoded(i: Instruction, regs: Registers): (a: MemoryAccess)
    requires Encodable(i)
  {
    match Meaning(i, regs)
    case MemoryAccess(address, width, reg, length, signed) =>
      MemoryAccess(address, width, reg, length, signed && !i.CLoadSp?)
  }

  lemma WidthIsIsa(funct3: nat)
    requires funct3 < 7
    ensures LoadWidth(funct3) == IsaWidth(funct3)
  {
  }

  lemma LoadDecodes(funct3: nat, rd: nat, rs1: nat, offset: int, regs: Registers)
    requires Encodable(Load(funct3, rd, rs1, offset))
    ensures ParseSource(Encode(Load(funct3, rd, rs1, offset)), regs) == Meaning(Load(funct3, rd, rs1, offset), regs)
  {
    var imm := offset % 4096;
    WidthIsIsa(funct3);
    SignedImmediate(offset);
    UnpackWord32(3, rd, funct3, rs1, imm % 32, imm / 32);
    LowBits32(3, rd, funct3, rs1, imm % 32, imm / 32);
    var u := Unpacked(3, rd, funct3, rs1, imm % 32, imm / 32);
    assert PlainSource(u, regs) == MemoryAccess(Wrap(Reg(regs, rs1) + offset), LoadWidth(funct3), rd, 4, funct3 < 3);
    assert Encode(Load(funct3, rd, rs1, offset)) == Word32(3, rd, funct3, rs1, imm % 32, imm / 32);
  }

  lemma StoreDecodes(funct3: nat, rs2: nat, rs1: nat, offset: int, regs: Registers)
    requires Encodable(Store(funct3, rs2, rs1, offset))
    ensures ParseDestination(Encode(Store(funct3, rs2, rs1, offset)), regs)
            == Meaning(Store(funct3, rs2, rs1, offset), regs)
  {
    var imm := offset % 4096;
    WidthIsIsa(funct3);
    SignedImmediate(offset);
    UnpackWord32(0x23, imm % 32, funct3, rs1, rs2, imm / 32);
    LowBits32(0x23, imm % 32, funct3, rs1, rs2, imm / 32);
    var u := Unpacked(0x23, imm % 32, funct3, rs1, rs2, imm / 32);
    assert PlainDestination(u, regs) == MemoryAccess(Wrap(Reg(regs, rs1) + offset), LoadWidth(funct3), rs2, 4, false);
    assert Encode(Store(funct3, rs2, rs1, offset)) == Word32(0x23, imm % 32, funct3, rs1, rs2, imm / 32);
  }

  lemma BasedSource(p: nat, wide: bool, reg: nat, base: nat, u: UnpackedCompressed, uimm: nat, regs: Registers)
    requires u.opcode == 0 && u.rs2 < 32 && u.rs1 < 32 && u.funct4 < 16 && p == Word16(0, u.rs2, u.rs1, u.funct4)
    requires u.funct4 / 2 == (if wide then 3 else 2)
    requires u.rs2 % 8 == reg && u.rs1 % 8 == base && OffsetOf(wide, u) == uimm
    ensures ParseSource(p, regs) == MemoryAccess(Wrap(Reg(regs, 8 + base) + uimm), Bytes(wide), 8 + reg, 2, !wide)
  {
    UnpackWord16(0, u.rs2, u.rs1, u.funct4);
    LowBits16(0, u.rs2, u.rs1, u.funct4);
    assert ParseSource(p, regs) == CompressedSource(u, regs);
  }

  lemma BasedDestination(p: nat, wide: bool, reg: nat, base: nat, u: UnpackedCompressed, uimm: nat, regs: Registers)
    requires u.opcode == 0 && u.rs2 < 32 && u.rs1 < 32 && u.funct4 < 16 && p == Word16(0, u.rs2, u.rs1, u.funct4)
    requires u.funct4 / 2 == (if wide then 7 else 6)
    requires u.rs2 % 8 == reg && u.rs1 % 8 == base && OffsetOf(wide, u) == uimm
    ensures ParseDestination(p, regs) == MemoryAccess(Wrap(Reg(regs, 8 + base) + uimm), Bytes(wide), 8 + reg, 2, false)
  {
    UnpackWord16(0, u.rs2, u.rs1, u.funct4);
    LowBits16(0, u.rs2, u.rs1, u.funct4);
    assert ParseDestination(p, regs) == CompressedDestination(u, regs);
  }

  lemma BasedMeaning(wide: bool, reg: nat, base: nat, uimm: nat, regs: Registers)
    requires Encodable(CLoad(wide, reg, base, uimm))
    ensures Meaning(CLoad(wide, reg, base, uimm), regs)
            == MemoryAccess(Wrap(Reg(regs, 8 + base) + uimm), Bytes(wide), 8 + reg, 2, !wide)
    ensures Meaning(CStore(wide, reg, base, uimm), regs)
            == MemoryAccess(Wrap(Reg(regs, 8 + base) + uimm), Bytes(wide), 8 + reg, 2, false)
  {
  }

  lemma CompressedLoadDecodes(wide: bool, rd: nat, rs1: nat, uimm: nat, regs: Registers)
    requires Encodable(CLoad(wide, rd, rs1, uimm))
    ensures ParseSource(Encode(CLoad(wide, rd, rs1, uimm)), regs) == Meaning(CLoad(wide, rd, rs1, uimm), regs)
  {
    var high := if wide then 3 else 2;
    CompressedOffset(wide, uimm, rd, rs1, high);
    BasedMeaning(wide, rd, rs1, uimm, regs);
    BasedSource(Encode(CLoad(wide, rd, rs1, uimm)), wide, rd, rs1, BasedFields(wide, rd, rs1, uimm, high), uimm, regs);
  }

  lemma CompressedStoreDecodes(wide: bool, rs2: nat, rs1: nat, uimm: nat, regs: Registers)
    requires Encodable(CStore(wide, rs2, rs1, uimm))
    ensures ParseDestination(Encode(CStore(wide, rs2, rs1, uimm)), regs) == Meaning(CStore(wide, rs2, rs1, uimm), regs)
  {
    var high := if wide then 7 else 6;
    CompressedOffset(wide, uimm, rs2, rs1, high);
    BasedMeaning(wide, rs2, rs1, uimm, regs);
    BasedDestination(Encode(CStore(wide, rs2, rs1, uimm)), wide, rs2, rs1,
                     BasedFields(wide, rs2, rs1, uimm, high), uimm, regs);
  }

  /** The part of `StackLoadDecodes` that does not depend on how the immediate is scattered. */
  lemma StackSource(p: nat, wide: bool, reg: nat, immediate: nat, funct4: nat, uimm: nat, regs: Registers)
    requires p == Word16(2, immediate, reg, funct4)
    requires reg < 32 && immediate < 32 && funct4 < 16 && funct4 / 2 == (if wide then 3 else 2)
    requires StackOffsetOf(wide, immediate, funct4) == uimm
    ensures ParseSource(p, regs) == MemoryAccess(Wrap(Reg(regs, 2) + uimm), Bytes(wide), reg, 2, false)
  {
    UnpackWord16(2, immediate, reg, funct4);
    LowBits16(2, immediate, reg, funct4);
    assert ParseSource(p, regs) == CompressedSource(UnpackedCompressed(2, immediate, reg, funct4), regs);
  }

  lemma StackDestination(p: nat, wide: bool, reg: nat, immediate: nat, funct4: nat, uimm: nat, regs: Registers)
    requires p == Word16(2, reg, immediate, funct4)
    requires reg < 32 && immediate < 32 && funct4 < 16 && funct4 / 2 == (if wide then 7 else 6)
    requires StackOffsetOf(wide, immediate, funct4) == uimm
    ensures ParseDestination(p, regs) == MemoryAccess(Wrap(Reg(regs, 2) + uimm), Bytes(wide), reg, 2, false)
  {
    UnpackWord16(2, reg, immediate, funct4);
    LowBits16(2, reg, immediate, funct4);
    assert ParseDestination(p, regs) == CompressedDestination(UnpackedCompressed(2, reg, immediate, funct4), regs);
  }

  lemma StackMeaning(wide: bool, reg: nat, uimm: nat, regs: Registers)
    requires Encodable(CStoreSp(wide, reg, uimm))
    ensures Meaning(CStoreSp(wide, reg, uimm), regs)
            == MemoryAccess(Wrap(Reg(regs, 2) + uimm), Bytes(wide), reg, 2, false)
    ensures reg > 0 ==>
              AsDecoded(CLoadSp(wide, reg, uimm), regs)
              == MemoryAccess(Wrap(Reg(regs, 2) + uimm), Bytes(wide), reg, 2, false)
  {
  }

  lemma StackLoadDecodes(wide: bool, rd: nat, uimm: nat, regs: Registers)
    requires Encodable(CLoadSp(wide, rd, uimm))
    ensures ParseSource(Encode(CLoadSp(wide, rd, uimm)), regs) == AsDecoded(CLoadSp(wide, rd, uimm), regs)
  {
    var high := if wide then 3 else 2;
    StackOffset(wide, uimm, high);
    StackMeaning(wide, rd, uimm, regs);
    StackSource(Encode(CLoadSp(wide, rd, uimm)), wide, rd,
                LoadStackImmediate(wide, uimm), HighBits(uimm, high), uimm, regs);
  }

  lemma StackStoreDecodes(wide: bool, rs2: nat, uimm: nat, regs: Registers)
    requires Encodable(CStoreSp(wide, rs2, uimm))
    ensures ParseDestination(Encode(CStoreSp(wide, rs2, uimm)), regs) == Meaning(CStoreSp(wide, rs2, uimm), regs)
  {
    var high := if wide then 7 else 6;
    StackOffset(wide, uimm, high);
    StackMeaning(wide, rs2, uimm, regs);
    StackDestination(Encode(CStoreSp(wide, rs2, uimm)), wide, rs2,
                     LoadStackImmediate(wide, uimm), HighBits(uimm, high), uimm, regs);
  }

  /** No instruction is taken for a load and for a store. */
  lemma LoadOrStore(p: nat, regs: Registers)
    ensures ParseSource(p, regs).Unsupported? || ParseDestination(p, regs).Unsupported?
  {
  }

  /** Decoding undoes encoding: address, width, register, length and extension of every load and store. */
  lemma DecodingUndoesEncoding(i: Instruction, regs: Registers)
    requires Encodable(i)
    ensures (if IsLoad(i) then ParseSource(Encode(i), regs) else ParseDestination(Encode(i), regs))
            == AsDecoded(i, regs)
  {
    match i
    case Load(f, rd, rs1, offset) => LoadDecodes(f, rd, rs1, offset, regs);
    case Store(f, rs2, rs1, offset) => StoreDecodes(f, rs2, rs1, offset, regs);
    case CLoad(wide, rd, rs1, uimm) => CompressedLoadDecodes(wide, rd, rs1, uimm, regs);
    case CStore(wide, rs2, rs1, uimm) => CompressedStoreDecodes(wide, rs2, rs1, uimm, regs);
    case CLoadSp(wide, rd, uimm) => StackLoadDecodes(wide, rd, uimm, regs);
    case CStoreSp(wide, rs2, uimm) => StackStoreDecodes(wide, rs2, uimm, regs);
  }

  // ---------------------------------------------------------------- nothing else is decoded

  /** A word that a fetch can yield: the high half is zero if the instruction is compressed. */
  predicate Fetched(p: nat) {
    p < (if IsCompressed(p) then 0x1_0000 else 0x1_0000_0000)
  }

  /** C.LWSP and C.LDSP into register 0 are reserved, and decoded all the same. */
  predicate ReservedLoad(p: nat) {
    var u := UnpackCompressed(p);
    IsCompressed(p) && u.opcode == 2 && u.funct4 / 2 in {2, 3} && u.rs1 == 0
  }

  lemma FieldsOf(p: nat)
    ensures Unpack(p) == Unpacked(p % 128, p / 128 % 32, p / 128 / 32 % 8, p / 128 / 32 / 8 % 32,
                                  p / 128 / 32 / 8 / 32 % 32, p / 128 / 32 / 8 / 32 / 32 % 128)
  {
    Positions(p);
  }

  lemma SplitUp(p: nat, p2: nat, p3: nat, p4: nat, p5: nat, p6: nat)
    requires p2 == p / 128 && p3 == p2 / 32 && p4 == p3 / 8 && p5 == p4 / 32 && p6 == p5 / 32
    ensures p == p % 128 + 128 * (p2 % 32 + 32 * (p3 % 8 + 8 * (p4 % 32 + 32 * (p5 % 32 + 32 * p6))))
  {
  }

  lemma RepackWord32(p: nat)
    requires p < 0x1_0000_0000
    ensures var u := Unpack(p); p == Word32(u.opcode, u.rd, u.funct3, u.rs1, u.rs2, u.funct7)
  {
    FieldsOf(p);
    var p6 := p / 128 / 32 / 8 / 32 / 32;
    SplitUp(p, p / 128, p / 128 / 32, p / 128 / 32 / 8, p / 128 / 32 / 8 / 32, p6);
    assert p6 < 128 && p6 % 128 == p6;
  }

  lemma RepackWord16(p: nat)
    requires p < 0x1_0000
    ensures var u := UnpackCompressed(p); p == Word16(u.opcode, u.rs2, u.rs1, u.funct4)
  {
    assert p / 128 == p / 4 / 32 && p / 0x1000 == p / 4 / 32 / 32;
  }

  lemma ImmediateOfSign(x: nat)
    requires x < 4096
    ensures -2048 <= ExtendSign12(x) < 2048 && ExtendSign12(x) % 4096 == x
  {
  }

  lemma TwelveBits(high: nat, low: nat)
    requires high < 128 && low < 32
    ensures var x := high * 32 + low; x < 4096 && x % 32 == low && x / 32 == high
  {
  }

  lemma PlainIsEncoded(p: nat, regs: Registers) returns (i: Instruction)
    requires p < 0x1_0000_0000
    requires PlainSource(Unpack(p), regs).MemoryAccess? || PlainDestination(Unpack(p), regs).MemoryAccess?
    ensures Encodable(i) && Encode(i) == p && (i.Load? <==> PlainSource(Unpack(p), regs).MemoryAccess?)
  {
    var u := Unpack(p);
    RepackWord32(p);
    if u.opcode == 3 {
      TwelveBits(u.funct7, u.rs2);
      ImmediateOfSign(u.funct7 * 32 + u.rs2);
      i := Load(u.funct3, u.rd, u.rs1, ExtendSign12(u.funct7 * 32 + u.rs2));
    } else {
      TwelveBits(u.funct7, u.rd);
      ImmediateOfSign(u.funct7 * 32 + u.rd);
      i := Store(u.funct3, u.rs2, u.rs1, ExtendSign12(u.funct7 * 32 + u.rd));
    }
  }

  /** Scattering an offset that was gathered gives the fields it was gathered from. */
  lemma ScatterBased(wide: bool, u: UnpackedCompressed)
    requires u.rs2 < 32 && u.rs1 < 32 && u.funct4 < 16
    ensures var uimm := OffsetOf(wide, u);
            && uimm % Bytes(wide) == 0 && uimm < 32 * Bytes(wide)
            && LowImmediate(wide, uimm) == u.rs2 / 8
            && Field(uimm, 8, 4) == u.rs1 / 8 && Field(uimm, 32, 2) == u.funct4 % 2
  {
    var b5, i1, i0, l1, l0 := u.funct4 % 2, u.rs1 / 16, u.rs1 / 8 % 2, u.rs2 / 16, u.rs2 / 8 % 2;
    assert u.rs1 / 8 == i1 * 2 + i0 && u.rs2 / 8 == l1 * 2 + l0;
    if wide {
      ScatterDouble(b5, i1 * 2 + i0, l1 * 2 + l0);
    } else {
      ScatterWord(b5, i1 * 2 + i0, l1, l0);
    }
  }

  lemma ScatterDouble(b5: nat, mid: nat, low: nat)
    requires b5 < 2 && mid < 4 && low < 4
    ensures var uimm := b5 * 32 + mid * 8 + low * 64;
            uimm % 8 == 0 && uimm < 256 && uimm / 64 % 4 == low && uimm / 8 % 4 == mid && uimm / 32 % 2 == b5
  {
    var k := b5 * 4 + mid + low * 8;
    assert b5 * 32 + mid * 8 + low * 64 == 8 * k;
    assert 8 * k / 8 == k && 8 * k / 32 == k / 4 && 8 * k / 64 == k / 8;
  }

  lemma ScatterWord(b5: nat, mid: nat, l1: nat, l0: nat)
    requires b5 < 2 && mid < 4 && l1 < 2 && l0 < 2
    ensures var uimm := b5 * 32 + mid * 8 + l1 * 4 + l0 * 64;
            && uimm % 4 == 0 && uimm < 128 && uimm / 4 % 2 == l1 && uimm / 64 % 2 == l0
            && uimm / 8 % 4 == mid && uimm / 32 % 2 == b5
  {
    var k := b5 * 8 + mid * 2 + l1 + l0 * 16;
    assert b5 * 32 + mid * 8 + l1 * 4 + l0 * 64 == 4 * k;
    assert 4 * k / 4 == k && 4 * k / 8 == k / 2 && 4 * k / 32 == k / 8 && 4 * k / 64 == k / 16;
  }

  lemma ScatterStack(wide: bool, low: nat, funct4: nat)
    requires low < 32 && funct4 < 16
    ensures var uimm := StackOffsetOf(wide, low, funct4);
            && uimm % Bytes(wide) == 0 && uimm < 64 * Bytes(wide)
            && LoadStackImmediate(wide, uimm) == low && Field(uimm, 32, 2) == funct4 % 2
  {
    if wide {
      ScatterStackDouble(low / 8, low % 8, funct4 % 2);
    } else {
      ScatterStackWord(low / 4, low % 4, funct4 % 2);
    }
  }

  lemma ScatterStackDouble(a: nat, c: nat, b: nat)
    requires a < 4 && c < 8 && b < 2
    ensures var uimm := DoubleStackOffset(a * 8 + c + b * 32);
            && uimm % 8 == 0 && uimm < 512
            && uimm / 8 % 4 == a && uimm / 64 % 8 == c && uimm / 32 % 2 == b
  {
    GatherDouble(a, b, c);
    var k := a + b * 4 + c * 8;
    assert a * 8 + b * 32 + c * 64 == 8 * k;
    assert 8 * k / 8 == k && 8 * k / 32 == k / 4 && 8 * k / 64 == k / 8;
  }

  lemma ScatterStackWord(a: nat, c: nat, b: nat)
    requires a < 8 && c < 4 && b < 2
    ensures var uimm := WordStackOffset(a * 4 + c + b * 32);
            && uimm % 4 == 0 && uimm < 256
            && uimm / 4 % 8 == a && uimm / 64 % 4 == c && uimm / 32 % 2 == b
  {
    GatherWord(a, b, c);
    var k := a + b * 8 + c * 16;
    assert a * 4 + b * 32 + c * 64 == 4 * k;
    assert 4 * k / 4 == k && 4 * k / 32 == k / 8 && 4 * k / 64 == k / 16;
  }

  lemma EightTimes(f: nat)
    ensures f == f % 8 + 8 * (f / 8)
  {
  }

  lemma BasedIsEncoded(p: nat, wide: bool, u: UnpackedCompressed, funct3: nat)
    requires p == Word16(0, u.rs2, u.rs1, u.funct4) && u == UnpackCompressed(p)
    requires u.opcode == 0 && u.funct4 / 2 == funct3
    ensures Encodable(CLoad(wide, u.rs2 % 8, u.rs1 % 8, OffsetOf(wide, u)))
    ensures p == Word16(0, u.rs2 % 8 + 8 * LowImmediate(wide, OffsetOf(wide, u)),
                        u.rs1 % 8 + 8 * Field(OffsetOf(wide, u), 8, 4),
                        HighBits(OffsetOf(wide, u), funct3))
  {
    ScatterBased(wide, u);
    EightTimes(u.rs2);
    EightTimes(u.rs1);
    assert HighBits(OffsetOf(wide, u), funct3) == u.funct4;
  }

  lemma CompressedSourceIsEncoded(p: nat, regs: Registers) returns (i: Instruction)
    requires p < 0x1_0000 && !ReservedLoad(p) && IsCompressed(p)
    requires CompressedSource(UnpackCompressed(p), regs).MemoryAccess?
    ensures Encodable(i) && IsLoad(i) && Encode(i) == p
  {
    var u := UnpackCompressed(p);
    RepackWord16(p);
    var wide := u.funct4 / 2 == 3;
    var funct3 := if wide then 3 else 2;
    if u.opcode == 0 {
      BasedIsEncoded(p, wide, u, funct3);
      i := CLoad(wide, u.rs2 % 8, u.rs1 % 8, OffsetOf(wide, u));
    } else {
      ScatterStack(wide, u.rs2, u.funct4);
      i := CLoadSp(wide, u.rs1, StackOffsetOf(wide, u.rs2, u.funct4));
      assert HighBits(i.uimm, funct3) == u.funct4;
    }
  }

  lemma CompressedDestinationIsEncoded(p: nat, regs: Registers) returns (i: Instruction)
    requires p < 0x1_0000 && IsCompressed(p) && CompressedDestination(UnpackCompressed(p), regs).MemoryAccess?
    ensures Encodable(i) && !IsLoad(i) && Encode(i) == p
  {
    var u := UnpackCompressed(p);
    RepackWord16(p);
    var wide := u.funct4 / 2 == 7;
    var funct3 := if wide then 7 else 6;
    if u.opcode == 0 {
      BasedIsEncoded(p, wide, u, funct3);
      i := CStore(wide, u.rs2 % 8, u.rs1 % 8, OffsetOf(wide, u));
    } else {
      ScatterStack(wide, u.rs1, u.funct4);
      i := CStoreSp(wide, u.rs2, StackOffsetOf(wide, u.rs1, u.funct4));
      assert HighBits(i.uimm, funct3) == u.funct4;
    }
  }

  predicate Encodes(i: Instruction, p: nat) {
    Encodable(i) && Encode(i) == p
  }

  /**
   The decoders take exactly the encodings of the supported loads and stores, and two reserved
   ones: everything else is a panic.
   */
  lemma OnlyEncodingsDecode(p: nat, regs: Registers)
    requires Fetched(p)
    ensures ParseSource(p, regs).MemoryAccess? <==> ReservedLoad(p) || exists i :: Encodes(i, p) && IsLoad(i)
    ensures ParseDestination(p, regs).MemoryAccess? <==> exists i :: Encodes(i, p) && !IsLoad(i)
  {
    forall i | Encodes(i, p)
      ensures if IsLoad(i) then ParseSource(p, regs).MemoryAccess? else ParseDestination(p, regs).MemoryAccess?
    {
      DecodingUndoesEncoding(i, regs);
    }
    if ParseSource(p, regs).MemoryAccess? && !ReservedLoad(p) {
      var i := LoadIsEncoded(p, regs);
      assert Encodes(i, p);
    }
    if ParseDestination(p, regs).MemoryAccess? {
      var i := StoreIsEncoded(p, regs);
      assert Encodes(i, p);
    }
  }

  lemma LoadIsEncoded(p: nat, regs: Registers) returns (i: Instruction)
    requires Fetched(p) && ParseSource(p, regs).MemoryAccess? && !ReservedLoad(p)
    ensures Encodable(i) && IsLoad(i) && Encode(i) == p
  {
    if IsCompressed(p) {
      i := CompressedSourceIsEncoded(p, regs);
    } else {
      i := PlainIsEncoded(p, regs);
    }
  }

  lemma StoreIsEncoded(p: nat, regs: Registers) returns (i: Instruction)
    requires Fetched(p) && ParseDestination(p, regs).MemoryAccess?
    ensures Encodable(i) && !IsLoad(i) && Encode(i) == p
  {
    if IsCompressed(p) {
      i := CompressedDestinationIsEncoded(p, regs);
    } else {
      i := PlainIsEncoded(p, regs);
    }
  }

  // ---------------------------------------------------------------- extension of loaded values

  function Modulus(width: nat): (n: nat)
    ensures n > 0
  {
    if width == 1 then 0x100 else if width == 2 then 0x1_0000 else if width == 4 then 0x1_0000_0000 else TWO64
  }

  /** `reset_upper_bits`: extend the low `width` bytes of a register to the whole register. */
  function ResetUpperBits(v: Word, width: nat, signed: bool): (r: Word) {
    var m := Modulus(width);
    var low := v % m;
    if width in {1, 2, 4} && signed && low >= m / 2 then Wrap(low - m) else low
  }

  /** The extension keeps the loaded bytes, and reads as the signed or unsigned number they stand for. */
  lemma ExtensionIsExact(v: Word, width: nat, signed: bool)
    requires width in {1, 2, 4, 8}
    ensures ResetUpperBits(v, width, signed) % Modulus(width) == v % Modulus(width)
    ensures !signed ==> ResetUpperBits(v, width, signed) < Modulus(width)
    ensures signed && width < 8 ==>
              if v % Modulus(width) < Modulus(width) / 2 then ResetUpperBits(v, width, signed) < Modulus(width) / 2
              else ResetUpperBits(v, width, signed) >= TWO64 - Modulus(width) / 2
  {
    var m := Modulus(width);
    var low := v % m;
    if width < 8 && signed && low >= m / 2 {
      NegativeValue(width, low);
    } else {
      SmallRemainder(low, m);
    }
  }

  lemma SmallRemainder(n: nat, m: nat)
    requires n < m
    ensures n % m == n
  {
  }

  lemma NegativeValue(width: nat, low: nat)
    requires width in {1, 2, 4} && low < Modulus(width)
    ensures Wrap(low - Modulus(width)) == low - Modulus(width) + TWO64
    ensures (low - Modulus(width) + TWO64) % Modulus(width) == low
  {
    if width == 1 {
      assert low - 0x100 + TWO64 == 0x100 * 0xFF_FFFF_FFFF_FFFF + low;
    } else if width == 2 {
      assert low - 0x1_0000 + TWO64 == 0x1_0000 * 0xFFFF_FFFF_FFFF + low;
    } else {
      assert low - 0x1_0000_0000 + TWO64 == 0x1_0000_0000 * 0xFFFF_FFFF + low;
    }
  }

  /** C.LWSP x5, 0(sp) of a word with its top bit set. */
  lemma StackLoadLosesSign(regs: Registers)
    ensures Encode(CLoadSp(false, 5, 0)) == 0x4282 && Meaning(CLoadSp(false, 5, 0), regs).signed
    ensures ParseSource(0x4282, regs).MemoryAccess? && !ParseSource(0x4282, regs).signed
    ensures ResetUpperBits(0x8000_0000, 4, false) == 0x8000_0000
    ensures ResetUpperBits(0x8000_0000, 4, true) == 0xFFFF_FFFF_8000_0000
  {
    assert IsCompressed(0x4282) && UnpackCompressed(0x4282) == UnpackedCompressed(2, 0, 5, 4);
  }

  /**
   The register that an emulated load leaves behind is the one the ISA prescribes, except that
   C.LWSP of a word with its top bit set is extended with zeros. For C.LWSP the ISA asks for the
   sign, which the decoder does not report.
   */
  lemma LoadedValueIsIsa(i: Instruction, regs: Registers, v: Word)
    requires Encodable(i) && IsLoad(i)
    ensures var code, isa := ParseSource(Encode(i), regs), Meaning(i, regs);
            && code.MemoryAccess?
            && (ResetUpperBits(v, code.width, code.signed) == ResetUpperBits(v, isa.width, isa.signed)
                <==> !(i.CLoadSp? && !i.wide && v % 0x1_0000_0000 >= 0x8000_0000))
  {
    DecodingUndoesEncoding(i, regs);
  }
}
