/**
 The encodings of sections 2.2 to 2.6 of the RISC-V Unprivileged ISA as sums: for every
 instruction the word with all operands zero, and what each operand adds to it.
 */
module Encodings {
  import opened Words
  import opened Isa
  import opened Decoder

  function OpWord(op: Alu): Word {
    match op
    case ADD => 0x0000_0033
    case SUB => 0x4000_0033
    case SLL => 0x0000_1033
    case SLT => 0x0000_2033
    case SLTU => 0x0000_3033
    case XOR => 0x0000_4033
    case SRL => 0x0000_5033
    case SRA => 0x4000_5033
    case OR => 0x0000_6033
    case AND => 0x0000_7033
  }

  lemma OpEncoding(op: Alu, rd: nat, rs1: nat, rs2: nat)
    requires rd < 32 && rs1 < 32 && rs2 < 32
    ensures Encode(Op(op, rd, rs1, rs2)) == OpWord(op) + rd * 0x80 + rs1 * 0x8000 + rs2 * 0x10_0000
  {
  }

  function ShiftWord(op: Alu): Word {
    match op
    case SLL => 0x0000_1013
    case SRL => 0x0000_5013
    case _ => 0x4000_5013
  }

  lemma ShiftEncoding(op: Alu, rd: nat, rs1: nat, shamt: nat)
    requires Legal(ShiftImm(op, rd, rs1, shamt))
    ensures Encode(ShiftImm(op, rd, rs1, shamt)) == ShiftWord(op) + rd * 0x80 + rs1 * 0x8000 + shamt * 0x10_0000
  {
  }

  /** A 12-bit immediate as the bits that are stored. */
  function Low12(imm: int): nat
    requires -0x800 <= imm < 0x800
  {
    if imm < 0 then imm + 0x1000 else imm
  }

  lemma Low12Is(imm: int)
    requires -0x800 <= imm < 0x800
    ensures imm % 0x1000 == Low12(imm)
  {
  }

  function OpImmWord(op: Alu): Word {
    match op
    case ADD => 0x0000_0013
    case SLT => 0x0000_2013
    case SLTU => 0x0000_3013
    case XOR => 0x0000_4013
    case OR => 0x0000_6013
    case _ => 0x0000_7013
  }

  function LoadWord(w: Width): Word {
    match w
    case B => 0x0000_0003
    case H => 0x0000_1003
    case W => 0x0000_2003
    case BU => 0x0000_4003
    case HU => 0x0000_5003
  }

  lemma ImmediatePacked(imm: int, rs1: nat, f3: nat, rd: nat, opcode: nat)
    requires -0x800 <= imm < 0x800 && rs1 < 32 && f3 < 8 && rd < 32 && opcode < 0x80
    ensures Pack(TypeI(imm, rs1, f3, rd, opcode))
      == opcode + rd * 0x80 + f3 * 0x1000 + rs1 * 0x8000 + Low12(imm) * 0x10_0000
  {
    Low12Is(imm);
  }

  lemma OpImmEncoding(op: Alu, rd: nat, rs1: nat, imm: int)
    requires Legal(OpImm(op, rd, rs1, imm))
    ensures Encode(OpImm(op, rd, rs1, imm)) == OpImmWord(op) + rd * 0x80 + rs1 * 0x8000 + Low12(imm) * 0x10_0000
  {
    ImmediatePacked(imm, rs1, AluF3(op), rd, 0x13);
  }

  lemma LoadEncoding(w: Width, rd: nat, rs1: nat, imm: int)
    requires Legal(Load(w, rd, rs1, imm))
    ensures Encode(Load(w, rd, rs1, imm)) == LoadWord(w) + rd * 0x80 + rs1 * 0x8000 + Low12(imm) * 0x10_0000
  {
    ImmediatePacked(imm, rs1, WidthF3(w), rd, 0x03);
  }

  lemma JalrEncoding(rd: nat, rs1: nat, imm: int)
    requires Legal(Jalr(rd, rs1, imm))
    ensures Encode(Jalr(rd, rs1, imm)) == 0x67 + rd * 0x80 + rs1 * 0x8000 + Low12(imm) * 0x10_0000
  {
    ImmediatePacked(imm, rs1, 0, rd, 0x67);
  }

  function StoreWord(w: Width): Word {
    match w
    case B => 0x0000_0023
    case H => 0x0000_1023
    case _ => 0x0000_2023
  }

  lemma StoreEncoding(w: Width, rs1: nat, rs2: nat, imm: int)
    requires Legal(Store(w, rs1, rs2, imm))
    ensures Encode(Store(w, rs1, rs2, imm)) == StoreWord(w) + rs1 * 0x8000 + rs2 * 0x10_0000
      + Low12(imm) % 0x20 * 0x80 + Low12(imm) / 0x20 * 0x200_0000
  {
    Low12Is(imm);
  }

  lemma UpperEncoding(rd: nat, u: nat)
    requires rd < 32 && u < 0x10_0000
    ensures Encode(Lui(rd, u)) == 0x37 + rd * 0x80 + u * 0x1000 && Encode(Auipc(rd, u)) == 0x17 + rd * 0x80 + u * 0x1000
  {
    UpperPacked(u, rd, 0x37);
    UpperPacked(u, rd, 0x17);
  }

  lemma UpperPacked(u: nat, rd: nat, opcode: nat)
    requires rd < 32 && u < 0x10_0000 && opcode < 0x80
    ensures Pack(TypeU(u, rd, opcode)) == opcode + rd * 0x80 + u * 0x1000
  {
    RoundTripU(u, rd, opcode);
  }

  function BranchWord(c: Cond): Word {
    match c
    case BEQ => 0x0000_0063
    case BNE => 0x0000_1063
    case BLT => 0x0000_4063
    case BGE => 0x0000_5063
    case BLTU => 0x0000_6063
    case BGEU => 0x0000_7063
  }

  /** A branch offset as its four fields: bits 12, 10 to 5, 4 to 1, and 11. */
  lemma BranchEncoding(c: Cond, rs1: nat, rs2: nat, imm: int)
    requires Legal(Branch(c, rs1, rs2, imm))
    ensures var i := if imm < 0 then imm + 0x2000 else imm;
      Encode(Branch(c, rs1, rs2, imm)) == BranchWord(c) + rs1 * 0x8000 + rs2 * 0x10_0000
        + i / 0x1000 * 0x8000_0000 + i / 0x20 % 0x40 * 0x200_0000 + i / 2 % 0x10 * 0x100 + i / 0x800 % 2 * 0x80
  {
    assert imm % 0x2000 == if imm < 0 then imm + 0x2000 else imm;
  }

  /** A jump offset as its four fields: bits 20, 10 to 1, 11, and 19 to 12. */
  lemma JalEncoding(rd: nat, imm: int)
    requires Legal(Jal(rd, imm))
    ensures var i := if imm < 0 then imm + 0x20_0000 else imm;
      Encode(Jal(rd, imm)) == 0x6f + rd * 0x80
        + i / 0x10_0000 * 0x8000_0000 + i / 2 % 0x400 * 0x20_0000
        + i / 0x800 % 2 * 0x10_0000 + i / 0x1000 % 0x100 * 0x1000
  {
    var i := if imm < 0 then imm + 0x20_0000 else imm;
    assert imm % 0x20_0000 == i;
    var b20, b10, b11, b19 := i / 0x10_0000, i / 2 % 0x400, i / 0x800 % 2, i / 0x1000 % 0x100;
    JumpPacked(b20, b10, b11, b19, rd);
  }

  lemma JumpPacked(b20: nat, b10: nat, b11: nat, b19: nat, rd: nat)
    requires b20 < 2 && b10 < 0x400 && b11 < 2 && b19 < 0x100 && rd < 32
    ensures Pack(JumpFields(b20, b10, b11, b19, rd, 0x6f))
      == 0x6f + rd * 0x80 + b20 * 0x8000_0000 + b10 * 0x20_0000 + b11 * 0x10_0000 + b19 * 0x1000
  {
    UpperPacked(b20 * 0x8_0000 + b10 * 0x200 + b11 * 0x100 + b19, rd, 0x6f);
  }

  lemma EbreakEncoding()
    ensures Encode(Ebreak) == 0x0010_0073
  {
  }
}
