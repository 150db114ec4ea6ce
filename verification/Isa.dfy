/**
 RV32I as sections 2.2 to 2.6 of the RISC-V Unprivileged ISA give it: the instructions,
 their encodings, and what each does to the machine (StandardStep). Step is the same with
 the emulator's jumps, which keep bit 0 of jalr's target and never trap on a misaligned
 one; StepIsStandardIff says exactly when that makes no difference.
 */
module Isa {
  import opened Words
  import opened Memory
  import opened Paging

  type Regs = r: seq<Word> | |r| == 32 witness seq(32, _ => 0)
  type Csrs = c: seq<Word> | |c| == 2048 witness seq(2048, _ => 0)

  datatype Emu = Running | Stopped | Ended | Aborted | Quit

  /** CPU_state, pmem, nemu_state and g_nr_guest_inst. */
  datatype State = State(
    gpr: Regs, pc: Word, csrs: Csrs, intr: bool, mem: Mem,
    emu: Emu, haltPc: Word, haltRet: Word, count: nat)

  const SATP: nat := 0x180
  const MSTATUS: nat := 0x300
  const MTVEC: nat := 0x305
  const MEPC: nat := 0x341
  const MCAUSE: nat := 0x342

  datatype Alu = ADD | SUB | SLL | SLT | SLTU | XOR | SRL | SRA | OR | AND
  datatype Cond = BEQ | BNE | BLT | BGE | BLTU | BGEU
  datatype Width = B | H | W | BU | HU

  /** Immediates are the signed numbers an assembler accepts; u is the 20-bit upper immediate. */
  datatype Instr =
    | Lui(rd: nat, u: nat)
    | Auipc(rd: nat, u: nat)
    | Jal(rd: nat, imm: int)
    | Jalr(rd: nat, rs1: nat, imm: int)
    | Branch(cond: Cond, rs1: nat, rs2: nat, imm: int)
    | Load(width: Width, rd: nat, rs1: nat, imm: int)
    | Store(width: Width, rs1: nat, rs2: nat, imm: int)
    | OpImm(op: Alu, rd: nat, rs1: nat, imm: int)
    | ShiftImm(op: Alu, rd: nat, rs1: nat, shamt: nat)
    | Op(op: Alu, rd: nat, rs1: nat, rs2: nat)
    | Ebreak

  predicate Reg(r: nat) {
    r < 32
  }

  predicate Imm12(imm: int) {
    -0x800 <= imm < 0x800
  }

  predicate Legal(i: Instr) {
    match i
    case Lui(rd, u) => Reg(rd) && u < 0x10_0000
    case Auipc(rd, u) => Reg(rd) && u < 0x10_0000
    case Jal(rd, imm) => Reg(rd) && imm % 2 == 0 && -0x10_0000 <= imm < 0x10_0000
    case Jalr(rd, rs1, imm) => Reg(rd) && Reg(rs1) && Imm12(imm)
    case Branch(_, rs1, rs2, imm) => Reg(rs1) && Reg(rs2) && imm % 2 == 0 && -0x1000 <= imm < 0x1000
    case Load(_, rd, rs1, imm) => Reg(rd) && Reg(rs1) && Imm12(imm)
    case Store(width, rs1, rs2, imm) => !width.BU? && !width.HU? && Reg(rs1) && Reg(rs2) && Imm12(imm)
    case OpImm(op, rd, rs1, imm) => op in {ADD, SLT, SLTU, XOR, OR, AND} && Reg(rd) && Reg(rs1) && Imm12(imm)
    case ShiftImm(op, rd, rs1, shamt) => op in {SLL, SRL, SRA} && Reg(rd) && Reg(rs1) && shamt < 32
    case Op(_, rd, rs1, rs2) => Reg(rd) && Reg(rs1) && Reg(rs2)
    case Ebreak => true
  }

  // ---------------------------------------------------------------------------
  // Encodings.

  /** The six fields of the R layout; every other layout only reinterprets them. */
  datatype Fields = Fields(f7: nat, rs2: nat, rs1: nat, f3: nat, rd: nat, opcode: nat)

  predicate FieldsFit(f: Fields) {
    f.f7 < 0x80 && Reg(f.rs2) && Reg(f.rs1) && f.f3 < 8 && Reg(f.rd) && f.opcode < 0x80
  }

  function Pack(f: Fields): Word
    requires FieldsFit(f)
  {
    f.opcode + 0x80 * (f.rd + 0x20 * (f.f3 + 8 * (f.rs1 + 0x20 * (f.rs2 + 0x20 * f.f7))))
  }

  function TypeI(imm: int, rs1: nat, f3: nat, rd: nat, opcode: nat): (f: Fields)
    requires Imm12(imm)
    ensures Reg(rs1) && f3 < 8 && Reg(rd) && opcode < 0x80 ==> FieldsFit(f)
  {
    var i := imm % 0x1000;
    Fields(i / 0x20, i % 0x20, rs1, f3, rd, opcode)
  }

  function TypeS(imm: int, rs2: nat, rs1: nat, f3: nat, opcode: nat): (f: Fields)
    requires Imm12(imm)
    ensures Reg(rs2) && Reg(rs1) && f3 < 8 && opcode < 0x80 ==> FieldsFit(f)
  {
    var i := imm % 0x1000;
    Fields(i / 0x20, rs2, rs1, f3, i % 0x20, opcode)
  }

  /** imm[12|10:5] in funct7, imm[4:1|11] in rd. */
  function TypeB(imm: int, rs2: nat, rs1: nat, f3: nat, opcode: nat): (f: Fields)
    ensures Reg(rs2) && Reg(rs1) && f3 < 8 && opcode < 0x80 ==> FieldsFit(f)
  {
    var i := imm % 0x2000;
    BranchFields(i / 0x1000, i / 0x20 % 0x40, i / 2 % 0x10, i / 0x800 % 2, rs2, rs1, f3, opcode)
  }

  function BranchFields(b12: nat, b10: nat, b4: nat, b11: nat, rs2: nat, rs1: nat, f3: nat, opcode: nat): Fields {
    Fields(b12 * 0x40 + b10, rs2, rs1, f3, b4 * 2 + b11, opcode)
  }

  function TypeU(u: nat, rd: nat, opcode: nat): (f: Fields)
    ensures u < 0x10_0000 && Reg(rd) && opcode < 0x80 ==> FieldsFit(f)
  {
    Fields(u / 0x2000, u / 0x100 % 0x20, u / 8 % 0x20, u % 8, rd, opcode)
  }

  /** imm[20|10:1|11|19:12] in the upper 20 bits. */
  function TypeJ(imm: int, rd: nat, opcode: nat): (f: Fields)
    ensures Reg(rd) && opcode < 0x80 ==> FieldsFit(f)
  {
    var i := imm % 0x20_0000;
    JumpFields(i / 0x10_0000, i / 2 % 0x400, i / 0x800 % 2, i / 0x1000 % 0x100, rd, opcode)
  }

  function JumpFields(b20: nat, b10: nat, b11: nat, b19: nat, rd: nat, opcode: nat): Fields {
    TypeU(b20 * 0x8_0000 + b10 * 0x200 + b11 * 0x100 + b19, rd, opcode)
  }

  function AluF3(op: Alu): nat {
    match op
    case ADD => 0 case SUB => 0 case SLL => 1 case SLT => 2 case SLTU => 3
    case XOR => 4 case SRL => 5 case SRA => 5 case OR => 6 case AND => 7
  }

  function AluF7(op: Alu): nat {
    if op.SUB? || op.SRA? then 0x20 else 0
  }

  function CondF3(c: Cond): nat {
    match c
    case BEQ => 0 case BNE => 1 case BLT => 4 case BGE => 5 case BLTU => 6 case BGEU => 7
  }

  function WidthF3(w: Width): nat {
    match w
    case B => 0 case H => 1 case W => 2 case BU => 4 case HU => 5
  }

  function EncodeFields(i: Instr): (f: Fields)
    requires Legal(i)
    ensures FieldsFit(f)
  {
    match i
    case Lui(rd, u) => TypeU(u, rd, 0x37)
    case Auipc(rd, u) => TypeU(u, rd, 0x17)
    case Jal(rd, imm) => TypeJ(imm, rd, 0x6f)
    case Jalr(rd, rs1, imm) => TypeI(imm, rs1, 0, rd, 0x67)
    case Branch(c, rs1, rs2, imm) => TypeB(imm, rs2, rs1, CondF3(c), 0x63)
    case Load(w, rd, rs1, imm) => TypeI(imm, rs1, WidthF3(w), rd, 0x03)
    case Store(w, rs1, rs2, imm) => TypeS(imm, rs2, rs1, WidthF3(w), 0x23)
    case OpImm(op, rd, rs1, imm) => TypeI(imm, rs1, AluF3(op), rd, 0x13)
    case ShiftImm(op, rd, rs1, shamt) => Fields(AluF7(op), shamt, rs1, AluF3(op), rd, 0x13)
    case Op(op, rd, rs1, rs2) => Fields(AluF7(op), rs2, rs1, AluF3(op), rd, 0x33)
    case Ebreak => Fields(0, 1, 0, 0, 0, 0x73)
  }

  function Encode(i: Instr): Word
    requires Legal(i)
  {
    Pack(EncodeFields(i))
  }

  // ---------------------------------------------------------------------------
  // Effects.

  function Compute(op: Alu, a: Word, b: Word): Word {
    match op
    case ADD => Add(a, b)
    case SUB => Sub(a, b)
    case SLL => Shl(a, b % 0x20)
    case SLT => Truth(Signed(a) < Signed(b))
    case SLTU => Truth(a < b)
    case XOR => Xor(a, b)
    case SRL => Shr(a, b % 0x20)
    case SRA => Sra(a, b % 0x20)
    case OR => Or(a, b)
    case AND => And(a, b)
  }

  predicate Holds(c: Cond, a: Word, b: Word) {
    match c
    case BEQ => a == b
    case BNE => a != b
    case BLT => Signed(a) < Signed(b)
    case BGE => Signed(a) >= Signed(b)
    case BLTU => a < b
    case BGEU => a >= b
  }

  function Size(w: Width): nat {
    match w
    case B => 1 case BU => 1 case H => 2 case HU => 2 case W => 4
  }

  /** The loaded bytes as a register value: signed loads extend the sign. */
  function Extend(w: Width, v: Word): Word {
    match w
    case B => if 0x80 <= v < 0x100 then v + TWO_32 - 0x100 else v
    case H => if 0x8000 <= v < 0x1_0000 then v + TWO_32 - 0x1_0000 else v
    case _ => v
  }

  /** Register 0 reads as zero and cannot be written. */
  function Get(r: Regs, i: nat): Word
    requires Reg(i)
  {
    if i == 0 then 0 else r[i]
  }

  function Set(r: Regs, i: nat, v: Word): Regs
    requires Reg(i)
  {
    if i == 0 then r else r[i := v]
  }

  function WriteBack(s: State, rd: nat, v: Word): State
    requires Reg(rd)
  {
    s.(gpr := Set(s.gpr, rd, v), pc := Add(s.pc, 4))
  }

  /** An instruction that neither jumps nor branches. */
  predicate Straight(i: Instr) {
    !i.Jal? && !i.Jalr? && !i.Branch?
  }

  /**
   What such an instruction does; None where a data access leaves pmem or misses in the page
   tables. ebreak hands over to the environment, which here ends the program.
   */
  function Effect(s: State, i: Instr): Option<State>
    requires Legal(i) && Straight(i)
  {
    match i
    case Lui(rd, u) => Some(WriteBack(s, rd, u * 0x1000))
    case Auipc(rd, u) => Some(WriteBack(s, rd, Add(s.pc, u * 0x1000)))
    case Load(w, rd, rs1, imm) => (
      match VirtRead(s.csrs[SATP], s.mem, Offset(Get(s.gpr, rs1), imm), Size(w))
      case None => None
      case Some(v) => Some(WriteBack(s, rd, Extend(w, v))))
    case Store(w, rs1, rs2, imm) => (
      match VirtWrite(s.csrs[SATP], s.mem, Offset(Get(s.gpr, rs1), imm), Size(w), Get(s.gpr, rs2))
      case None => None
      case Some(m) => Some(s.(mem := m, pc := Add(s.pc, 4))))
    case OpImm(op, rd, rs1, imm) => Some(WriteBack(s, rd, Compute(op, Get(s.gpr, rs1), ToWord(imm))))
    case ShiftImm(op, rd, rs1, shamt) => Some(WriteBack(s, rd, Compute(op, Get(s.gpr, rs1), shamt)))
    case Op(op, rd, rs1, rs2) => Some(WriteBack(s, rd, Compute(op, Get(s.gpr, rs1), Get(s.gpr, rs2))))
    case Ebreak => Some(s.(pc := Add(s.pc, 4), emu := Ended, haltPc := s.pc, haltRet := Get(s.gpr, 10)))
  }

  /** A step, an instruction-address-misaligned exception, or an access outside pmem. */
  datatype Outcome = Done(s: State) | Misaligned(target: Word) | NoAccess

  function OutcomeOf(r: Option<State>): Outcome {
    match r
    case Some(t) => Done(t)
    case None => NoAccess
  }

  /** s, going on at t, which has to be aligned to four bytes. */
  function Landing(s: State, t: Word): Outcome {
    if t % 4 == 0 then Done(s.(pc := t)) else Misaligned(t)
  }

  /** One instruction by the standard: jalr clears bit 0, and a misaligned target is an exception. */
  function StandardStep(s: State, i: Instr): Outcome
    requires Legal(i)
  {
    match i
    case Jal(rd, imm) => Landing(WriteBack(s, rd, Add(s.pc, 4)), Offset(s.pc, imm))
    case Jalr(rd, rs1, imm) =>
      var t := Offset(Get(s.gpr, rs1), imm);
      Landing(WriteBack(s, rd, Add(s.pc, 4)), t - t % 2)
    case Branch(c, rs1, rs2, imm) =>
      if Holds(c, Get(s.gpr, rs1), Get(s.gpr, rs2)) then Landing(s, Offset(s.pc, imm))
      else Done(s.(pc := Add(s.pc, 4)))
    case _ => OutcomeOf(Effect(s, i))
  }

  /** One instruction of the emulator. */
  function Step(s: State, i: Instr): Option<State>
    requires Legal(i)
  {
    match i
    case Jal(rd, imm) => Some(WriteBack(s, rd, Add(s.pc, 4)).(pc := Offset(s.pc, imm)))
    case Jalr(rd, rs1, imm) => Some(WriteBack(s, rd, Add(s.pc, 4)).(pc := Offset(Get(s.gpr, rs1), imm)))
    case Branch(c, rs1, rs2, imm) =>
      Some(s.(pc := if Holds(c, Get(s.gpr, rs1), Get(s.gpr, rs2)) then Offset(s.pc, imm) else Add(s.pc, 4)))
    case _ => Effect(s, i)
  }

  /** The instruction goes on at pc + 4, or jumps to an aligned address. */
  predicate StaysAligned(s: State, i: Instr)
    requires Legal(i)
  {
    match i
    case Jal(_, imm) => Offset(s.pc, imm) % 4 == 0
    case Jalr(_, rs1, imm) => Offset(Get(s.gpr, rs1), imm) % 4 == 0
    case Branch(c, rs1, rs2, imm) => Holds(c, Get(s.gpr, rs1), Get(s.gpr, rs2)) ==> Offset(s.pc, imm) % 4 == 0
    case _ => true
  }

  /** The emulator follows the standard exactly on the steps that stay aligned. */
  lemma StepIsStandardIff(s: State, i: Instr)
    requires Legal(i)
    ensures StandardStep(s, i) == OutcomeOf(Step(s, i)) <==> StaysAligned(s, i)
  {
    if i.Jalr? { Evened(Offset(Get(s.gpr, i.rs1), i.imm)); }
  }

  lemma Evened(t: Word)
    ensures (t - t % 2) % 4 == 0 && t - t % 2 == t <==> t % 4 == 0
  {
    if t % 4 == 0 { assert t == 2 * (2 * (t / 4)); }
  }

  /** A machine without paging, with the given memory, about to run at pc. */
  function Fresh(pc: Word, mem: Mem, r1: Word): State {
    State(seq(32, i => if i == 1 then r1 else 0), pc, seq(2048, _ => 0), false, mem, Running, 0, 0, 0)
  }

  /** jalr x0, 0(x1) with an odd, and with a half-word, address in x1. */
  lemma JalrDeparts(mem: Mem)
    ensures var s, i := Fresh(MBASE, mem, MBASE + 1), Jalr(0, 1, 0);
      Step(s, i) == Some(s.(pc := MBASE + 1)) && StandardStep(s, i) == Done(s)
    ensures var s, i := Fresh(MBASE, mem, MBASE + 2), Jalr(0, 1, 0);
      Step(s, i) == Some(s.(pc := MBASE + 2)) && StandardStep(s, i) == Misaligned(MBASE + 2)
  {
  }
}
