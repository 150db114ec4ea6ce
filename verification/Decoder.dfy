/**
 The emulator's reading of an instruction word (decode_operand in src/cpu/inst.c), and its
 agreement with the encodings of Isa: Decode is the inverse of Encode on every legal
 instruction, and the words it accepts are exactly the encodings, plus the srai words
 with bit 25 set.
 */
module Decoder {
  import opened Words
  import opened Isa

  datatype Type = TYPE_I | TYPE_U | TYPE_S | TYPE_J | TYPE_B | TYPE_R | TYPE_N

  // BITS(i, hi, lo) for the fields of the R layout.

  function OpcodeOf(w: Word): nat { w % 0x80 }
  function RdOf(w: Word): nat { w / 0x80 % 0x20 }
  function F3Of(w: Word): nat { w / 0x1000 % 8 }
  function Rs1Of(w: Word): nat { w / 0x8000 % 0x20 }
  function Rs2Of(w: Word): nat { w / 0x10_0000 % 0x20 }
  function F7Of(w: Word): nat { w / 0x200_0000 }

  /** SEXT(x, len) cut to 32 bits, with n == 2^len. */
  function Sext(x: nat, n: nat): Word
    requires x < n <= TWO_32
  {
    if x < n / 2 then x else x + TWO_32 - n
  }

  /** The result of SEXT shifted left, cut to 32 bits; k is the power of two shifted by. */
  function SextShl(x: nat, n: nat, k: nat): Word
    requires x < n <= TWO_32
  {
    Sext(x, n) * k % TWO_32
  }

  /** immI, immU, immS, immJ and immB. The fields or-ed together do not overlap. */
  function Immediate(ty: Type, w: Word): Word {
    match ty
    case TYPE_I => Sext(w / 0x10_0000, 0x1000)
    case TYPE_U => SextShl(w / 0x1000, 0x10_0000, 0x1000)
    case TYPE_S => ShiftedSign(w / 0x200_0000, 0x80, 0x20, w / 0x80 % 0x20)
    case TYPE_J => ShiftedSign(w / 0x8000_0000, 2, 0x10_0000,
      w / 0x10_0000 % 2 * 0x800 + w / 0x20_0000 % 0x400 * 2 + w / 0x1000 % 0x100 * 0x1000)
    case TYPE_B => ShiftedSign(w / 0x8000_0000, 2, 0x1000,
      w / 0x100 % 0x10 * 2 + w / 0x200_0000 % 0x40 * 0x20 + w / 0x80 % 2 * 0x800)
    case _ => 0
  }

  /** (SEXT(x, len) << s) | low, where low fits below the shift. */
  function ShiftedSign(x: nat, n: nat, k: nat, low: nat): (r: Word)
    requires (n == 2 && (k == 0x10_0000 || k == 0x1000)) || (n == 0x80 && k == 0x20)
    requires x < n && low < k
    ensures r == (if x < n / 2 then x * k + low else x * k + low + TWO_32 - n * k)
  {
    SextShl(x, n, k) + low
  }

  // ---------------------------------------------------------------------------
  // The same reading, off the fields. Ranges below ties the two together.

  function FieldsOf(w: Word): (f: Fields)
    ensures FieldsFit(f)
  {
    Fields(F7Of(w), Rs2Of(w), Rs1Of(w), F3Of(w), RdOf(w), OpcodeOf(w))
  }

  /** The upper 20 bits of the word. */
  function Upper(f: Fields): nat {
    f.f3 + 8 * (f.rs1 + 0x20 * (f.rs2 + 0x20 * f.f7))
  }

  /** Immediate, read off the fields instead of the word. */
  function ImmediateOf(ty: Type, f: Fields): Word
    requires FieldsFit(f)
  {
    match ty
    case TYPE_I => Sext(f.rs2 + 0x20 * f.f7, 0x1000)
    case TYPE_S => ShiftedSign(f.f7, 0x80, 0x20, f.rd)
    case TYPE_J => ShiftedSign(f.f7 / 0x40, 2, 0x10_0000,
      f.rs2 % 2 * 0x800 + (f.rs2 / 2 + 0x10 * (f.f7 % 0x40)) * 2 + (f.f3 + 8 * f.rs1) * 0x1000)
    case TYPE_B => ShiftedSign(f.f7 / 0x40, 2, 0x1000, f.rd / 2 * 2 + f.f7 % 0x40 * 0x20 + f.rd % 2 * 0x800)
    case _ => 0
  }

  // ---------------------------------------------------------------------------
  // Which instruction a word is, by opcode, funct3 and funct7.

  function DecodeAlu(f3: nat, f7: nat): Option<Alu> {
    if f7 == 0 then
      (match f3
       case 0 => Some(ADD) case 1 => Some(SLL) case 2 => Some(SLT) case 3 => Some(SLTU)
       case 4 => Some(XOR) case 5 => Some(SRL) case 6 => Some(OR) case 7 => Some(AND)
       case _ => None)
    else if f7 == 0x20 && f3 == 0 then Some(SUB)
    else if f7 == 0x20 && f3 == 5 then Some(SRA)
    else None
  }

  function DecodeCond(f3: nat): Option<Cond> {
    match f3
    case 0 => Some(BEQ) case 1 => Some(BNE) case 4 => Some(BLT)
    case 5 => Some(BGE) case 6 => Some(BLTU) case 7 => Some(BGEU)
    case _ => None
  }

  function DecodeWidth(f3: nat): Option<Width> {
    match f3
    case 0 => Some(B) case 1 => Some(H) case 2 => Some(W) case 4 => Some(BU) case 5 => Some(HU)
    case _ => None
  }

  function DecodeImmOp(f: Fields): Option<Instr>
    requires FieldsFit(f)
  {
    match f.f3
    case 1 => if f.f7 == 0 then Some(ShiftImm(SLL, f.rd, f.rs1, f.rs2)) else None
    case 5 =>
      if f.f7 == 0 then Some(ShiftImm(SRL, f.rd, f.rs1, f.rs2))
      else if f.f7 / 2 == 0x10 then Some(ShiftImm(SRA, f.rd, f.rs1, f.rs2))
      else None
    case f3 =>
      var op := DecodeAlu(f3, 0);
      if op.Some? then Some(OpImm(op.value, f.rd, f.rs1, Signed(ImmediateOf(TYPE_I, f)))) else None
  }

  function DecodeFields(f: Fields): Option<Instr>
    requires FieldsFit(f)
  {
    match f.opcode
    case 0x37 => Some(Lui(f.rd, Upper(f)))
    case 0x17 => Some(Auipc(f.rd, Upper(f)))
    case 0x6f => Some(Jal(f.rd, Signed(ImmediateOf(TYPE_J, f))))
    case 0x67 => if f.f3 == 0 then Some(Jalr(f.rd, f.rs1, Signed(ImmediateOf(TYPE_I, f)))) else None
    case 0x63 =>
      var c := DecodeCond(f.f3);
      if c.Some? then Some(Branch(c.value, f.rs1, f.rs2, Signed(ImmediateOf(TYPE_B, f)))) else None
    case 0x03 =>
      var width := DecodeWidth(f.f3);
      if width.Some? then Some(Load(width.value, f.rd, f.rs1, Signed(ImmediateOf(TYPE_I, f)))) else None
    case 0x23 =>
      var width := DecodeWidth(f.f3);
      if width.Some? && f.f3 < 4
      then Some(Store(width.value, f.rs1, f.rs2, Signed(ImmediateOf(TYPE_S, f)))) else None
    case 0x13 => DecodeImmOp(f)
    case 0x33 =>
      var op := DecodeAlu(f.f3, f.f7);
      if op.Some? then Some(Op(op.value, f.rd, f.rs1, f.rs2)) else None
    case 0x73 => if f == Fields(0, 1, 0, 0, 0, 0x73) then Some(Ebreak) else None
    case _ => None
  }

  /** The instruction the emulator runs for a word; None is the inv pattern. */
  function Decode(w: Word): Option<Instr> {
    DecodeFields(FieldsOf(w))
  }

  // ---------------------------------------------------------------------------
  // Packing and unpacking the fields.

  lemma Unpack(f: Fields)
    requires FieldsFit(f)
    ensures FieldsOf(Pack(f)) == f
  {
    var t5 := f.rs2 + 0x20 * f.f7;
    var t4 := f.rs1 + 0x20 * t5;
    var t3 := f.f3 + 8 * t4;
    var t2 := f.rd + 0x20 * t3;
    var w := Pack(f);
    assert w == f.opcode + 0x80 * t2;
    assert w / 0x80 == t2;
    assert w / 0x1000 == t2 / 0x20 == t3;
    assert w / 0x8000 == t3 / 8 == t4;
    assert w / 0x10_0000 == t4 / 0x20 == t5;
    assert w / 0x200_0000 == t5 / 0x20 == f.f7;
  }

  lemma Repack(w: Word)
    ensures FieldsFit(FieldsOf(w)) && Pack(FieldsOf(w)) == w
  {
    assert w / 0x1000 == w / 0x80 / 0x20;
    assert w / 0x8000 == w / 0x1000 / 8;
    assert w / 0x10_0000 == w / 0x8000 / 0x20;
    assert w / 0x200_0000 == w / 0x10_0000 / 0x20;
  }

  /** Every bit range the immediates use, in terms of the fields. */
  lemma Ranges(w: Word)
    ensures var f := FieldsOf(w);
      && w / 0x10_0000 == f.rs2 + 0x20 * f.f7
      && w / 0x1000 == Upper(f)
      && w / 0x8000_0000 == f.f7 / 0x40
      && w / 0x10_0000 % 2 == f.rs2 % 2
      && w / 0x20_0000 % 0x400 == f.rs2 / 2 + 0x10 * (f.f7 % 0x40)
      && w / 0x1000 % 0x100 == f.f3 + 8 * f.rs1
      && w / 0x100 % 0x10 == f.rd / 2
      && w / 0x200_0000 % 0x40 == f.f7 % 0x40
      && w / 0x80 % 2 == f.rd % 2
  {
    RangesHigh(w);
    RangesMiddle(w);
    RangeRd(w);
  }

  lemma RangesHigh(w: Word)
    ensures var f := FieldsOf(w);
      && w / 0x10_0000 == f.rs2 + 0x20 * f.f7
      && w / 0x8000_0000 == f.f7 / 0x40
      && w / 0x10_0000 % 2 == f.rs2 % 2
      && w / 0x20_0000 % 0x400 == f.rs2 / 2 + 0x10 * (f.f7 % 0x40)
      && w / 0x200_0000 % 0x40 == f.f7 % 0x40
  {
    var f, t5 := FieldsOf(w), w / 0x10_0000;
    assert w / 0x200_0000 == t5 / 0x20 && w / 0x8000_0000 == w / 0x200_0000 / 0x40;
    assert w / 0x20_0000 == t5 / 2;
    RangeJ(f.rs2, f.f7);
  }

  lemma RangesMiddle(w: Word)
    ensures var f := FieldsOf(w);
      w / 0x1000 == Upper(f) && w / 0x1000 % 0x100 == f.f3 + 8 * f.rs1
  {
    var f, t3 := FieldsOf(w), w / 0x1000;
    assert w / 0x8000 == t3 / 8 && w / 0x10_0000 == t3 / 8 / 0x20 && w / 0x200_0000 == t3 / 8 / 0x20 / 0x20;
    assert t3 == f.f3 + 8 * (t3 / 8);
  }

  lemma RangeJ(rs2: nat, f7: nat)
    requires rs2 < 0x20 && f7 < 0x80
    ensures (rs2 + 0x20 * f7) / 2 % 0x400 == rs2 / 2 + 0x10 * (f7 % 0x40)
    ensures (rs2 + 0x20 * f7) % 2 == rs2 % 2
  {
  }

  lemma RangeRd(w: Word)
    ensures w / 0x100 % 0x10 == w / 0x80 % 0x20 / 2
    ensures w / 0x80 % 2 == w / 0x80 % 0x20 % 2
  {
    assert w / 0x100 == w / 0x80 / 2;
  }

  // ---------------------------------------------------------------------------
  // Immediates survive encoding.

  lemma ImmediateFromFields(ty: Type, w: Word)
    requires ty.TYPE_I? || ty.TYPE_S? || ty.TYPE_J? || ty.TYPE_B?
    ensures Immediate(ty, w) == ImmediateOf(ty, FieldsOf(w))
  {
    Ranges(w);
  }

  lemma RoundTripI(imm: int, rs1: nat, f3: nat, rd: nat, opcode: nat)
    requires Imm12(imm) && FieldsFit(TypeI(imm, rs1, f3, rd, opcode))
    ensures ImmediateOf(TYPE_I, TypeI(imm, rs1, f3, rd, opcode)) == ToWord(imm)
  {
  }

  lemma RoundTripS(imm: int, rs2: nat, rs1: nat, f3: nat, opcode: nat)
    requires Imm12(imm) && FieldsFit(TypeS(imm, rs2, rs1, f3, opcode))
    ensures ImmediateOf(TYPE_S, TypeS(imm, rs2, rs1, f3, opcode)) == ToWord(imm)
  {
  }

  lemma RoundTripB(imm: int, rs2: nat, rs1: nat, f3: nat, opcode: nat)
    requires -0x1000 <= imm < 0x1000 && imm % 2 == 0 && FieldsFit(TypeB(imm, rs2, rs1, f3, opcode))
    ensures ImmediateOf(TYPE_B, TypeB(imm, rs2, rs1, f3, opcode)) == ToWord(imm)
  {
    var b12, b10, b4, b11 := PiecesB(imm, rs2, rs1, f3, opcode);
    Split64(b12, b10);
    Split2(b4, b11);
    GatherB(b12, b10, b4, b11, imm);
  }

  /** The four pieces of a branch offset, and what they weigh. */
  lemma PiecesB(imm: int, rs2: nat, rs1: nat, f3: nat, opcode: nat) returns (b12: nat, b10: nat, b4: nat, b11: nat)
    requires imm % 2 == 0
    ensures TypeB(imm, rs2, rs1, f3, opcode) == BranchFields(b12, b10, b4, b11, rs2, rs1, f3, opcode)
    ensures b12 < 2 && b10 < 0x40 && b4 < 0x10 && b11 < 2
    ensures imm % 0x2000 == b12 * 0x1000 + b11 * 0x800 + b10 * 0x20 + b4 * 2
  {
    var i := imm % 0x2000;
    b12, b10, b4, b11 := i / 0x1000, i / 0x20 % 0x40, i / 2 % 0x10, i / 0x800 % 2;
    assert i / 0x20 == i / 2 / 0x10;
    assert i / 0x800 == i / 0x20 / 0x40;
    assert i / 0x1000 == i / 0x800 / 2;
  }

  lemma GatherB(b12: nat, b10: nat, b4: nat, b11: nat, imm: int)
    requires b12 < 2 && b10 < 0x40 && b4 < 0x10 && b11 < 2 && -0x1000 <= imm < 0x1000
    requires imm % 0x2000 == b12 * 0x1000 + b11 * 0x800 + b10 * 0x20 + b4 * 2
    ensures ShiftedSign(b12, 2, 0x1000, b4 * 2 + b10 * 0x20 + b11 * 0x800) == ToWord(imm)
  {
    assert imm % 0x2000 == if imm < 0 then imm + 0x2000 else imm;
  }

  lemma Split2(hi: nat, lo: nat)
    requires lo < 2
    ensures (hi * 2 + lo) / 2 == hi && (hi * 2 + lo) % 2 == lo
  {
  }

  lemma Split32(hi: nat, lo: nat)
    requires lo < 0x20
    ensures (hi * 0x20 + lo) / 0x20 == hi && (hi * 0x20 + lo) % 0x20 == lo
  {
  }

  lemma Split64(hi: nat, lo: nat)
    requires lo < 0x40
    ensures (hi * 0x40 + lo) / 0x40 == hi && (hi * 0x40 + lo) % 0x40 == lo
  {
  }

  lemma RoundTripU(u: nat, rd: nat, opcode: nat)
    requires u < 0x10_0000
    ensures var f := TypeU(u, rd, opcode);
      u == Upper(f)
  {
    assert u / 0x2000 == u / 0x100 / 0x20;
    assert u / 0x100 == u / 8 / 0x20;
  }

  lemma RoundTripJ(imm: int, rd: nat, opcode: nat)
    requires -0x10_0000 <= imm < 0x10_0000 && imm % 2 == 0 && FieldsFit(TypeJ(imm, rd, opcode))
    ensures ImmediateOf(TYPE_J, TypeJ(imm, rd, opcode)) == ToWord(imm)
  {
    var b20, b10, b11, b19 := PiecesJ(imm, rd, opcode);
    UpperFields(b20, b10, b11, b19, rd, opcode);
    GatherJ(b20, b10, b11, b19, imm);
  }

  /** The four pieces of a jump offset, and what they weigh. */
  lemma PiecesJ(imm: int, rd: nat, opcode: nat) returns (b20: nat, b10: nat, b11: nat, b19: nat)
    requires imm % 2 == 0
    ensures TypeJ(imm, rd, opcode) == JumpFields(b20, b10, b11, b19, rd, opcode)
    ensures b20 < 2 && b10 < 0x400 && b11 < 2 && b19 < 0x100
    ensures imm % 0x20_0000 == b20 * 0x10_0000 + b19 * 0x1000 + b11 * 0x800 + b10 * 2
  {
    var i := imm % 0x20_0000;
    b20, b10, b11, b19 := i / 0x10_0000, i / 2 % 0x400, i / 0x800 % 2, i / 0x1000 % 0x100;
    assert i / 0x800 == i / 2 / 0x400;
    assert i / 0x1000 == i / 0x800 / 2;
    assert i / 0x10_0000 == i / 0x1000 / 0x100;
  }

  lemma GatherJ(b20: nat, b10: nat, b11: nat, b19: nat, imm: int)
    requires b20 < 2 && b10 < 0x400 && b11 < 2 && b19 < 0x100 && -0x10_0000 <= imm < 0x10_0000
    requires imm % 0x20_0000 == b20 * 0x10_0000 + b19 * 0x1000 + b11 * 0x800 + b10 * 2
    ensures ShiftedSign(b20, 2, 0x10_0000, b11 * 0x800 + b10 * 2 + b19 * 0x1000) == ToWord(imm)
  {
  }

  lemma UpperFields(b20: nat, b10: nat, b11: nat, b19: nat, rd: nat, opcode: nat)
    requires b20 < 2 && b10 < 0x400 && b11 < 2 && b19 < 0x100
    ensures var f := JumpFields(b20, b10, b11, b19, rd, opcode);
      && f.f7 / 0x40 == b20 && f.rs2 % 2 == b11
      && f.rs2 / 2 + 0x10 * (f.f7 % 0x40) == b10 && f.f3 + 8 * f.rs1 == b19
  {
    var u := b20 * 0x8_0000 + b10 * 0x200 + b11 * 0x100 + b19;
    var top := b20 * 0x400 + b10;
    assert u / 0x200 == top && u / 0x100 == 2 * top + b11;
    assert u / 0x2000 == top / 0x10;
    Split64(b20, b10 / 0x10);
    LowByte(u, b19);
    LowBits(top, b11);
  }

  lemma LowByte(u: nat, low: nat)
    requires u % 0x100 == low
    ensures u % 8 + 8 * (u / 8 % 0x20) == low
  {
  }

  lemma LowBits(top: nat, bit: nat)
    requires bit < 2
    ensures (2 * top + bit) % 0x20 / 2 == top % 0x10 && (2 * top + bit) % 0x20 % 2 == bit
  {
  }

  // ---------------------------------------------------------------------------
  // Decode against Encode.

  lemma SignedToWord(d: int)
    requires -0x8000_0000 <= d < 0x8000_0000
    ensures Signed(ToWord(d)) == d
  {
  }

  lemma DecodeEncodeUpper(i: Instr)
    requires Legal(i) && (i.Lui? || i.Auipc?)
    ensures DecodeFields(EncodeFields(i)) == Some(i)
  {
    RoundTripU(i.u, i.rd, if i.Lui? then 0x37 else 0x17);
  }

  lemma DecodeEncodeJal(i: Instr)
    requires Legal(i) && i.Jal?
    ensures DecodeFields(EncodeFields(i)) == Some(i)
  {
    RoundTripJ(i.imm, i.rd, 0x6f);
  }

  lemma DecodeEncodeJalr(i: Instr)
    requires Legal(i) && i.Jalr?
    ensures DecodeFields(EncodeFields(i)) == Some(i)
  {
    RoundTripI(i.imm, i.rs1, 0, i.rd, 0x67);
  }

  lemma DecodeEncodeBranch(i: Instr)
    requires Legal(i) && i.Branch?
    ensures DecodeFields(EncodeFields(i)) == Some(i)
  {
    var f := TypeB(i.imm, i.rs2, i.rs1, CondF3(i.cond), 0x63);
    RoundTripB(i.imm, i.rs2, i.rs1, CondF3(i.cond), 0x63);
    SignedToWord(i.imm);
    CondRoundTrip(i.cond);
    BranchDecodes(f, i);
  }

  lemma CondRoundTrip(c: Cond)
    ensures DecodeCond(CondF3(c)) == Some(c)
  {
  }

  lemma BranchDecodes(f: Fields, i: Instr)
    requires FieldsFit(f) && i.Branch? && f.opcode == 0x63 && f.rs1 == i.rs1 && f.rs2 == i.rs2
    requires DecodeCond(f.f3) == Some(i.cond) && Signed(ImmediateOf(TYPE_B, f)) == i.imm
    ensures DecodeFields(f) == Some(i)
  {
  }

  lemma DecodeEncodeLoad(i: Instr)
    requires Legal(i) && i.Load?
    ensures DecodeFields(EncodeFields(i)) == Some(i)
  {
    RoundTripI(i.imm, i.rs1, WidthF3(i.width), i.rd, 0x03);
  }

  lemma DecodeEncodeStore(i: Instr)
    requires Legal(i) && i.Store?
    ensures DecodeFields(EncodeFields(i)) == Some(i)
  {
    RoundTripS(i.imm, i.rs2, i.rs1, WidthF3(i.width), 0x23);
  }

  lemma DecodeEncodeOpImm(i: Instr)
    requires Legal(i) && i.OpImm?
    ensures DecodeFields(EncodeFields(i)) == Some(i)
  {
    RoundTripI(i.imm, i.rs1, AluF3(i.op), i.rd, 0x13);
  }

  lemma DecodeEncodeRegister(i: Instr)
    requires Legal(i) && (i.ShiftImm? || i.Op? || i.Ebreak?)
    ensures DecodeFields(EncodeFields(i)) == Some(i)
  {
  }

  lemma DecodeEncodeFields(i: Instr)
    requires Legal(i)
    ensures DecodeFields(EncodeFields(i)) == Some(i)
  {
    match i {
      case Lui(_, _) => DecodeEncodeUpper(i);
      case Auipc(_, _) => DecodeEncodeUpper(i);
      case Jal(_, _) => DecodeEncodeJal(i);
      case Jalr(_, _, _) => DecodeEncodeJalr(i);
      case Branch(_, _, _, _) => DecodeEncodeBranch(i);
      case Load(_, _, _, _) => DecodeEncodeLoad(i);
      case Store(_, _, _, _) => DecodeEncodeStore(i);
      case OpImm(_, _, _, _) => DecodeEncodeOpImm(i);
      case _ => DecodeEncodeRegister(i);
    }
  }

  /** Every legal instruction survives encoding and decoding. */
  lemma DecodeEncode(i: Instr)
    requires Legal(i)
    ensures Decode(Encode(i)) == Some(i)
  {
    Unpack(EncodeFields(i));
    DecodeEncodeFields(i);
  }

  // ---------------------------------------------------------------------------
  // Encode against Decode: every accepted word is an encoding.

  lemma InverseI(f: Fields)
    requires FieldsFit(f)
    ensures var imm := Signed(ImmediateOf(TYPE_I, f));
      Imm12(imm) && TypeI(imm, f.rs1, f.f3, f.rd, f.opcode) == f
  {
    assert Signed(ImmediateOf(TYPE_I, f)) % 0x1000 == f.rs2 + 0x20 * f.f7;
  }

  lemma InverseS(f: Fields)
    requires FieldsFit(f)
    ensures var imm := Signed(ImmediateOf(TYPE_S, f));
      Imm12(imm) && TypeS(imm, f.rs2, f.rs1, f.f3, f.opcode) == f
  {
    SignedMod(f.f7, f.rd);
    Split32(f.f7, f.rd);
  }

  lemma SignedMod(f7: nat, rd: nat)
    requires f7 < 0x80 && rd < 0x20
    ensures Imm12(Signed(ShiftedSign(f7, 0x80, 0x20, rd)))
    ensures Signed(ShiftedSign(f7, 0x80, 0x20, rd)) % 0x1000 == f7 * 0x20 + rd
  {
  }

  lemma InverseB(f: Fields)
    requires FieldsFit(f)
    ensures var imm := Signed(ImmediateOf(TYPE_B, f));
      -0x1000 <= imm < 0x1000 && imm % 2 == 0 && TypeB(imm, f.rs2, f.rs1, f.f3, f.opcode) == f
  {
    var imm := Signed(ImmediateOf(TYPE_B, f));
    SignedModB(f.f7 / 0x40, f.f7 % 0x40, f.rd / 2, f.rd % 2);
    var b12, b10, b4, b11 := PiecesB(imm, f.rs2, f.rs1, f.f3, f.opcode);
    UniqueB(b12, b10, b4, b11, f.f7 / 0x40, f.f7 % 0x40, f.rd / 2, f.rd % 2);
  }

  lemma SignedModB(b12: nat, b10: nat, b4: nat, b11: nat)
    requires b12 < 2 && b10 < 0x40 && b4 < 0x10 && b11 < 2
    ensures var imm := Signed(ShiftedSign(b12, 2, 0x1000, b4 * 2 + b10 * 0x20 + b11 * 0x800));
      && -0x1000 <= imm < 0x1000 && imm % 2 == 0
      && imm % 0x2000 == b12 * 0x1000 + b11 * 0x800 + b10 * 0x20 + b4 * 2
  {
  }

  lemma UniqueB(a: nat, b: nat, c: nat, d: nat, a': nat, b': nat, c': nat, d': nat)
    requires b < 0x40 && c < 0x10 && d < 2 && b' < 0x40 && c' < 0x10 && d' < 2
    requires a * 0x1000 + d * 0x800 + b * 0x20 + c * 2 == a' * 0x1000 + d' * 0x800 + b' * 0x20 + c' * 2
    ensures a == a' && b == b' && c == c' && d == d'
  {
  }

  lemma InverseU(f: Fields)
    requires FieldsFit(f)
    ensures Upper(f) < 0x10_0000 && TypeU(Upper(f), f.rd, f.opcode) == f
  {
    var u := Upper(f);
    assert u / 8 == f.rs1 + 0x20 * (f.rs2 + 0x20 * f.f7);
    assert u / 0x100 == f.rs2 + 0x20 * f.f7;
    assert u / 0x2000 == f.f7;
  }

  lemma InverseJ(f: Fields)
    requires FieldsFit(f)
    ensures var imm := Signed(ImmediateOf(TYPE_J, f));
      -0x10_0000 <= imm < 0x10_0000 && imm % 2 == 0 && TypeJ(imm, f.rd, f.opcode) == f
  {
    var imm := Signed(ImmediateOf(TYPE_J, f));
    SignedModJ(f.f7 / 0x40, f.rs2 / 2 + 0x10 * (f.f7 % 0x40), f.rs2 % 2, f.f3 + 8 * f.rs1);
    var b20, b10, b11, b19 := PiecesJ(imm, f.rd, f.opcode);
    UniqueJ(b20, b10, b11, b19, f.f7 / 0x40, f.rs2 / 2 + 0x10 * (f.f7 % 0x40), f.rs2 % 2, f.f3 + 8 * f.rs1);
    UpperPieces(f);
    InverseU(f);
  }

  lemma UniqueJ(a: nat, b: nat, c: nat, d: nat, a': nat, b': nat, c': nat, d': nat)
    requires b < 0x400 && c < 2 && d < 0x100 && b' < 0x400 && c' < 2 && d' < 0x100
    requires a * 0x10_0000 + d * 0x1000 + c * 0x800 + b * 2 == a' * 0x10_0000 + d' * 0x1000 + c' * 0x800 + b' * 2
    ensures a == a' && b == b' && c == c' && d == d'
  {
  }

  lemma UpperPieces(f: Fields)
    requires FieldsFit(f)
    ensures f.f7 / 0x40 * 0x8_0000 + (f.rs2 / 2 + 0x10 * (f.f7 % 0x40)) * 0x200 + f.rs2 % 2 * 0x100 + (f.f3 + 8 * f.rs1)
      == Upper(f)
  {
  }

  lemma SignedModJ(hi: nat, mid: nat, bit: nat, low: nat)
    requires hi < 2 && mid < 0x400 && bit < 2 && low < 0x100
    ensures var imm := Signed(ShiftedSign(hi, 2, 0x10_0000, bit * 0x800 + mid * 2 + low * 0x1000));
      && -0x10_0000 <= imm < 0x10_0000 && imm % 2 == 0
      && imm % 0x20_0000 == hi * 0x10_0000 + low * 0x1000 + bit * 0x800 + mid * 2
  {
    var l := bit * 0x800 + mid * 2 + low * 0x1000;
    var imm := Signed(ShiftedSign(hi, 2, 0x10_0000, l));
    assert imm == l - hi * 0x10_0000;
    assert imm == 2 * (bit * 0x400 + mid + low * 0x800 - hi * 0x8_0000);
    assert hi == 1 ==> (imm + 0x20_0000) % 0x20_0000 == imm % 0x20_0000;
  }

  /** The fields of the words the emulator takes for srai although section 2.4 requires bit 25 to be clear. */
  predicate SloppyFields(f: Fields) {
    f.opcode == 0x13 && f.f3 == 5 && f.f7 == 0x21
  }

  function Tidy(f: Fields): Fields {
    if SloppyFields(f) then f.(f7 := 0x20) else f
  }

  lemma EncodeDecodeUpper(f: Fields)
    requires FieldsFit(f) && (f.opcode == 0x37 || f.opcode == 0x17) && DecodeFields(f).Some?
    ensures Legal(DecodeFields(f).value) && EncodeFields(DecodeFields(f).value) == Tidy(f)
  {
    InverseU(f);
  }

  lemma EncodeDecodeJal(f: Fields)
    requires FieldsFit(f) && f.opcode == 0x6f && DecodeFields(f).Some?
    ensures Legal(DecodeFields(f).value) && EncodeFields(DecodeFields(f).value) == Tidy(f)
  {
    InverseJ(f);
  }

  lemma EncodeDecodeI(f: Fields)
    requires FieldsFit(f) && (f.opcode == 0x67 || f.opcode == 0x03) && DecodeFields(f).Some?
    ensures Legal(DecodeFields(f).value) && EncodeFields(DecodeFields(f).value) == Tidy(f)
  {
    InverseI(f);
  }

  lemma EncodeDecodeBranch(f: Fields)
    requires FieldsFit(f) && f.opcode == 0x63 && DecodeFields(f).Some?
    ensures Legal(DecodeFields(f).value) && EncodeFields(DecodeFields(f).value) == Tidy(f)
  {
    InverseB(f);
  }

  lemma EncodeDecodeStore(f: Fields)
    requires FieldsFit(f) && f.opcode == 0x23 && DecodeFields(f).Some?
    ensures Legal(DecodeFields(f).value) && EncodeFields(DecodeFields(f).value) == Tidy(f)
  {
    InverseS(f);
  }

  lemma EncodeDecodeOpImm(f: Fields)
    requires FieldsFit(f) && f.opcode == 0x13 && DecodeFields(f).Some?
    ensures Legal(DecodeFields(f).value) && EncodeFields(DecodeFields(f).value) == Tidy(f)
  {
    InverseI(f);
  }

  lemma EncodeDecodeRegister(f: Fields)
    requires FieldsFit(f) && (f.opcode == 0x33 || f.opcode == 0x73) && DecodeFields(f).Some?
    ensures Legal(DecodeFields(f).value) && EncodeFields(DecodeFields(f).value) == Tidy(f)
  {
  }

  lemma EncodeDecodeFields(f: Fields)
    requires FieldsFit(f) && DecodeFields(f).Some?
    ensures Legal(DecodeFields(f).value) && EncodeFields(DecodeFields(f).value) == Tidy(f)
  {
    match f.opcode {
      case 0x37 => EncodeDecodeUpper(f);
      case 0x17 => EncodeDecodeUpper(f);
      case 0x6f => EncodeDecodeJal(f);
      case 0x67 => EncodeDecodeI(f);
      case 0x03 => EncodeDecodeI(f);
      case 0x63 => EncodeDecodeBranch(f);
      case 0x23 => EncodeDecodeStore(f);
      case 0x13 => EncodeDecodeOpImm(f);
      case 0x33 => EncodeDecodeRegister(f);
      case 0x73 => EncodeDecodeRegister(f);
      case _ =>
    }
  }

  /** The word with srai's bit 25 cleared, and every other word as it is. */
  function TidyWord(w: Word): Word {
    if SloppyFields(FieldsOf(w)) then Pack(Tidy(FieldsOf(w))) else w
  }

  lemma TidyWordClearsBit25(w: Word)
    ensures TidyWord(w) == if SloppyFields(FieldsOf(w)) then w - 0x200_0000 else w
  {
    Repack(w);
  }

  /**
   Exactly which words run as instruction i: its encoding and, where that is an srai, the
   encoding with bit 25 set.
   */
  lemma DecodeIff(w: Word, i: Instr)
    requires Legal(i)
    ensures Decode(w) == Some(i) <==> TidyWord(w) == Encode(i)
  {
    Repack(w);
    if Decode(w) == Some(i) {
      EncodeDecodeFields(FieldsOf(w));
    }
    if TidyWord(w) == Encode(i) {
      Unpack(Tidy(FieldsOf(w)));
      DecodeEncode(i);
      TidyDecodesAlike(FieldsOf(w));
    }
  }

  /** srai x1, x2, 3, and the word with bit 25 set that runs as the same. */
  lemma SraiWithBit25()
    ensures Encode(ShiftImm(SRA, 1, 2, 3)) == 0x4031_5093
    ensures Decode(0x4231_5093) == Some(ShiftImm(SRA, 1, 2, 3))
  {
    assert FieldsOf(0x4231_5093) == Fields(0x21, 3, 2, 5, 1, 0x13);
  }

  lemma TidyDecodesAlike(f: Fields)
    requires FieldsFit(f)
    ensures DecodeFields(Tidy(f)) == DecodeFields(f)
  {
  }
}
