/**
 What every instruction does, written out once more in terms of integers, bytes and
 literal numbers: nothing here mentions the functions by which Isa and the emulator share
 their comparisons, access widths, operands and displacements.
 */
module Instructions {
  import opened Words
  import opened Memory
  import opened Paging
  import opened Isa
  import opened Decoder
  import opened Machine
  import opened Arithmetic

  /** The value of a register: register 0 is always zero. */
  function X(s: State, i: nat): Word
    requires i < 32
  {
    if i == 0 then 0 else s.gpr[i]
  }

  /** A word as a signed integer. */
  function AsInt(w: Word): int {
    if w < 0x8000_0000 then w else w - 0x1_0000_0000
  }

  /** t is s with v in register rd, unless that is register 0, going on at pc. */
  predicate Becomes(s: State, t: State, rd: nat, v: Word, pc: Word)
    requires rd < 32
  {
    t == s.(gpr := if rd == 0 then s.gpr else s.gpr[rd := v], pc := pc)
  }

  // ---------------------------------------------------------------------------
  // Registers.

  lemma OpMeaning(s: State, op: Alu, rd: nat, rs1: nat, rs2: nat) returns (v: Word, pc: Word)
    requires rd < 32 && rs1 < 32 && rs2 < 32
    ensures Step(s, Op(op, rd, rs1, rs2)).Some? && Becomes(s, Step(s, Op(op, rd, rs1, rs2)).value, rd, v, pc)
    ensures ComputeMeans(op, X(s, rs1), X(s, rs2), v) && Wraps(pc, s.pc + 4)
  {
    v, pc := Compute(op, X(s, rs1), X(s, rs2)), Add(s.pc, 4);
    ComputeMeaning(op, X(s, rs1), X(s, rs2));
  }

  lemma OpImmMeaning(s: State, op: Alu, rd: nat, rs1: nat, imm: int) returns (v: Word, pc: Word)
    requires Legal(OpImm(op, rd, rs1, imm))
    ensures var t := Step(s, OpImm(op, rd, rs1, imm)); t.Some? && Becomes(s, t.value, rd, v, pc)
    ensures ComputeMeans(op, X(s, rs1), if imm < 0 then imm + 0x1_0000_0000 else imm, v) && Wraps(pc, s.pc + 4)
  {
    var b: Word := if imm < 0 then imm + 0x1_0000_0000 else imm;
    v, pc := Compute(op, X(s, rs1), b), Add(s.pc, 4);
    ComputeMeaning(op, X(s, rs1), b);
  }

  lemma ShiftImmMeaning(s: State, op: Alu, rd: nat, rs1: nat, shamt: nat) returns (v: Word, pc: Word)
    requires Legal(ShiftImm(op, rd, rs1, shamt))
    ensures var t := Step(s, ShiftImm(op, rd, rs1, shamt)); t.Some? && Becomes(s, t.value, rd, v, pc)
    ensures ComputeMeans(op, X(s, rs1), shamt, v) && Wraps(pc, s.pc + 4)
  {
    v, pc := Compute(op, X(s, rs1), shamt), Add(s.pc, 4);
    ComputeMeaning(op, X(s, rs1), shamt);
  }

  lemma UpperMeaning(s: State, rd: nat, u: nat) returns (v: Word, pc: Word)
    requires rd < 32 && u < 0x10_0000
    ensures var t := Step(s, Lui(rd, u)); t.Some? && Becomes(s, t.value, rd, u * 0x1000, pc)
    ensures var t := Step(s, Auipc(rd, u)); t.Some? && Becomes(s, t.value, rd, v, pc)
    ensures Wraps(v, s.pc + u * 0x1000) && Wraps(pc, s.pc + 4)
  {
    v, pc := Add(s.pc, u * 0x1000), Add(s.pc, 4);
  }

  // ---------------------------------------------------------------------------
  // Jumps and branches.

  lemma JumpMeaning(s: State, rd: nat, rs1: nat, imm: int) returns (link: Word, direct: Word, indirect: Word)
    requires rd < 32 && rs1 < 32
    ensures Legal(Jal(rd, imm)) ==>
      var t := Step(s, Jal(rd, imm)); t.Some? && Becomes(s, t.value, rd, link, direct) && Wraps(direct, s.pc + imm)
    ensures Legal(Jalr(rd, rs1, imm)) ==>
      var t := Step(s, Jalr(rd, rs1, imm));
      t.Some? && Becomes(s, t.value, rd, link, indirect) && Wraps(indirect, X(s, rs1) + imm)
    ensures Wraps(link, s.pc + 4)
  {
    link := Add(s.pc, 4);
    direct := if Legal(Jal(rd, imm)) then Offset(s.pc, imm) else 0;
    indirect := if Legal(Jalr(rd, rs1, imm)) then Offset(X(s, rs1), imm) else 0;
  }

  /** When each branch is taken. */
  predicate Taken(c: Cond, a: Word, b: Word) {
    match c
    case BEQ => a == b
    case BNE => a != b
    case BLT => AsInt(a) < AsInt(b)
    case BGE => !(AsInt(a) < AsInt(b))
    case BLTU => a < b
    case BGEU => !(a < b)
  }

  /** A branch only moves the pc: by imm if it is taken, by four if not. */
  lemma BranchMeaning(s: State, c: Cond, rs1: nat, rs2: nat, imm: int) returns (pc: Word)
    requires Legal(Branch(c, rs1, rs2, imm))
    ensures Step(s, Branch(c, rs1, rs2, imm)) == Some(s.(pc := pc))
    ensures Wraps(pc, s.pc + if Taken(c, X(s, rs1), X(s, rs2)) then imm else 4)
  {
    pc := Step(s, Branch(c, rs1, rs2, imm)).value.pc;
  }

  /** The same of a whole cycle, condition by condition. */
  lemma BranchCycle(s: State, c: Cond, rs1: nat, rs2: nat, imm: int) returns (pc: Word)
    requires Legal(Branch(c, rs1, rs2, imm))
    requires VirtRead(s.csrs[SATP], s.mem, s.pc, 4) == Some(Encode(Branch(c, rs1, rs2, imm)))
    ensures Cycle(s) == Some(s.(pc := pc))
    ensures c == BEQ ==> Wraps(pc, s.pc + if X(s, rs1) == X(s, rs2) then imm else 4)
    ensures c == BNE ==> Wraps(pc, s.pc + if X(s, rs1) != X(s, rs2) then imm else 4)
    ensures c == BLT ==> Wraps(pc, s.pc + if AsInt(X(s, rs1)) < AsInt(X(s, rs2)) then imm else 4)
    ensures c == BGE ==> Wraps(pc, s.pc + if AsInt(X(s, rs1)) >= AsInt(X(s, rs2)) then imm else 4)
    ensures c == BLTU ==> Wraps(pc, s.pc + if X(s, rs1) < X(s, rs2) then imm else 4)
    ensures c == BGEU ==> Wraps(pc, s.pc + if X(s, rs1) >= X(s, rs2) then imm else 4)
  {
    pc := BranchMeaning(s, c, rs1, rs2, imm);
    RunsAs(s, Branch(c, rs1, rs2, imm));
  }

  lemma EbreakMeaning(s: State) returns (pc: Word)
    ensures Step(s, Ebreak) == Some(s.(pc := pc, emu := Ended, haltPc := s.pc, haltRet := s.gpr[10]))
    ensures Wraps(pc, s.pc + 4)
  {
    pc := Add(s.pc, 4);
  }

  /** A word that is no instruction: the program is aborted there, with minus one as its result. */
  lemma InvalidMeaning(s: State, w: Word) returns (pc: Word)
    requires VirtRead(s.csrs[0x180], s.mem, s.pc, 4) == Some(w) && Decode(w).None?
    ensures Wraps(pc, s.pc + 4)
    ensures Cycle(s) ==
      if VirtRead(s.csrs[0x180], s.mem, pc, 4).Some?
      then Some(s.(pc := pc, emu := Aborted, haltPc := s.pc, haltRet := 0xffff_ffff)) else None
  {
    pc := Add(s.pc, 4);
    assert AbortedAt(s) == s.(pc := pc, emu := Aborted, haltPc := s.pc, haltRet := 0xffff_ffff);
    assert Cycle(s) == Invalid(s);
  }

  // ---------------------------------------------------------------------------
  // Loads and stores.

  /** The bytes an access takes. */
  function Count(w: Width): nat {
    match w
    case B => 1
    case BU => 1
    case H => 2
    case HU => 2
    case W => 4
  }

  /** The n bytes from pa on are in pmem. */
  predicate AllInPmem(pa: Word, n: nat) {
    0x8000_0000 <= pa && pa + n <= 0x8004_0000
  }

  function Loaded(m: Mem, w: Width, pa: Word): Word
    requires AllInPmem(pa, Count(w))
  {
    match w
    case BU => At(m, pa)
    case B => if At(m, pa) < 0x80 then At(m, pa) else At(m, pa) + 0xffff_ff00
    case HU => At(m, pa) + 0x100 * At(m, pa + 1)
    case H =>
      var v := At(m, pa) + 0x100 * At(m, pa + 1);
      if v < 0x8000 then v else v + 0xffff_0000
    case W => At(m, pa) + 0x100 * At(m, pa + 1) + 0x1_0000 * At(m, pa + 2) + 0x100_0000 * At(m, pa + 3)
  }

  /** A load takes exactly 1, 2 or 4 bytes, the lowest first, and extends them. */
  lemma LoadMeaning(s: State, w: Width, rd: nat, rs1: nat, imm: int, va: Word, pa: Word) returns (pc: Word)
    requires Legal(Load(w, rd, rs1, imm)) && Wraps(va, X(s, rs1) + imm)
    requires Translate(s.csrs[0x180], s.mem, va) == Mapped(pa)
    requires AllInPmem(pa, Count(w))
    ensures var t := Step(s, Load(w, rd, rs1, imm)); t.Some? && Becomes(s, t.value, rd, Loaded(s.mem, w, pa), pc)
    ensures Wraps(pc, s.pc + 4)
  {
    assert SATP == 0x180 && va == Offset(X(s, rs1), imm);
    pc := Add(s.pc, 4);
    LoadedIsExtended(s.mem, w, pa);
  }

  lemma LoadedIsExtended(m: Mem, w: Width, pa: Word)
    requires AllInPmem(pa, Count(w))
    ensures Fits(pa, Size(w)) && Extend(w, PhysRead(m, pa, Size(w))) == Loaded(m, w, pa)
  {
  }

  /** If they are not all in pmem, it does not complete. */
  lemma LoadOutside(s: State, w: Width, rd: nat, rs1: nat, imm: int, va: Word, pa: Word)
    requires Legal(Load(w, rd, rs1, imm)) && Wraps(va, X(s, rs1) + imm)
    requires Translate(s.csrs[0x180], s.mem, va) == Mapped(pa)
    requires !AllInPmem(pa, Count(w))
    ensures Step(s, Load(w, rd, rs1, imm)) == None
  {
    assert SATP == 0x180 && va == Offset(X(s, rs1), imm);
  }

  /** Byte k of a word, the lowest first. */
  function Part(v: Word, k: nat): nat {
    match k
    case 0 => v % 0x100
    case 1 => v / 0x100 % 0x100
    case 2 => v / 0x1_0000 % 0x100
    case _ => v / 0x100_0000
  }

  /** A store changes exactly 1, 2 or 4 bytes, to those of rs2, and nothing but the pc besides. */
  lemma StoreMeaning(s: State, w: Width, rs1: nat, rs2: nat, imm: int, va: Word, pa: Word, x: nat) returns (pc: Word)
    requires Legal(Store(w, rs1, rs2, imm)) && Wraps(va, X(s, rs1) + imm)
    requires Translate(s.csrs[0x180], s.mem, va) == Mapped(pa)
    requires AllInPmem(pa, Count(w)) && 0x8000_0000 <= x < 0x8004_0000
    ensures var t := Step(s, Store(w, rs1, rs2, imm)); t.Some? && t.value == s.(mem := t.value.mem, pc := pc)
    ensures At(Step(s, Store(w, rs1, rs2, imm)).value.mem, x) ==
      if pa <= x < pa + Count(w) then Part(X(s, rs2), x - pa) else At(s.mem, x)
    ensures Wraps(pc, s.pc + 4)
  {
    assert SATP == 0x180 && va == Offset(X(s, rs1), imm);
    pc := Add(s.pc, 4);
    WriteAt(s.mem, pa, Count(w), X(s, rs2), x);
    if pa <= x < pa + Count(w) { PartIsByte(X(s, rs2), x - pa); }
  }

  lemma PartIsByte(v: Word, k: nat)
    requires k < 4
    ensures ByteOf(v, k) == Part(v, k)
  {
  }
}
