/**
 The emulator's own state and its instruction cycle: pmem and its accessors
 (src/memory/memory.c), decode_operand, decode_exec and isa_exec_once (src/cpu/inst.c),
 exec_once (src/cpu/cpu-exec.c), set_nemu_state and invalid_inst (src/host.c).
 */
module Machine {
  import opened Words
  import opened Memory
  import opened Paging
  import opened Isa
  import opened Decoder
  import opened Dispatch

  // ---------------------------------------------------------------------------
  // What one cycle does, by the instruction set.

  /** The instruction a row runs, from the fields decode_operand extracts. */
  function InstrOf(n: Name, f: Fields): Instr
    requires n != INV && FieldsFit(f)
  {
    match n
    case LUI => Lui(f.rd, Upper(f))
    case AUIPC => Auipc(f.rd, Upper(f))
    case JAL => Jal(f.rd, Signed(ImmediateOf(TYPE_J, f)))
    case JALR => Jalr(f.rd, f.rs1, Signed(ImmediateOf(TYPE_I, f)))
    case BRANCH(c) => Branch(c, f.rs1, f.rs2, Signed(ImmediateOf(TYPE_B, f)))
    case LOAD(width) => Load(width, f.rd, f.rs1, Signed(ImmediateOf(TYPE_I, f)))
    case STORE(width) => Store(width, f.rs1, f.rs2, Signed(ImmediateOf(TYPE_S, f)))
    case OPIMM(op) => OpImm(op, f.rd, f.rs1, Signed(ImmediateOf(TYPE_I, f)))
    case SHIFTIMM(op) => ShiftImm(op, f.rd, f.rs1, f.rs2)
    case OP(op) => Op(op, f.rd, f.rs1, f.rs2)
    case EBREAK => Ebreak
  }

  lemma DecodeByRow(w: Word)
    requires NameFor(w) != INV
    ensures Decode(w) == Some(InstrOf(NameFor(w), FieldsOf(w))) && Legal(InstrOf(NameFor(w), FieldsOf(w)))
  {
    LegalDecode(w);
  }

  lemma LegalDecode(w: Word)
    requires Decode(w).Some?
    ensures Legal(Decode(w).value)
  {
    EncodeDecodeFields(FieldsOf(w));
  }

  /** invalid_inst: it reads two words for its message, which can itself miss, and aborts. */
  function Invalid(s: State): Option<State> {
    var satp := s.csrs[SATP];
    if VirtRead(satp, s.mem, s.pc, 4).Some? && VirtRead(satp, s.mem, Add(s.pc, 4), 4).Some?
    then Some(AbortedAt(s))
    else None
  }

  function AbortedAt(s: State): State {
    s.(pc := Add(s.pc, 4), emu := Aborted, haltPc := s.pc, haltRet := TWO_32 - 1)
  }

  function Obey(s: State, w: Word): Option<State> {
    match Decode(w)
    case Some(i) => LegalDecode(w); Step(s, i)
    case None => Invalid(s)
  }

  /** Fetch, decode, execute. None: the program stops inside the emulator, or leaves pmem. */
  function Cycle(s: State): Option<State> {
    match VirtRead(s.csrs[SATP], s.mem, s.pc, 4)
    case Some(w) => Obey(s, w)
    case None => None
  }

  /** The cycle on an encoded instruction is that instruction. */
  lemma RunsAs(s: State, i: Instr)
    requires Legal(i) && VirtRead(s.csrs[SATP], s.mem, s.pc, 4) == Some(Encode(i))
    ensures Cycle(s) == Step(s, i)
  {
    DecodeEncode(i);
  }

  /** For every encoded instruction, the emulator's cycle is the standard's step exactly if that stays aligned. */
  lemma CycleIsStandardIff(s: State, i: Instr)
    requires Legal(i) && VirtRead(s.csrs[SATP], s.mem, s.pc, 4) == Some(Encode(i))
    ensures StandardStep(s, i) == OutcomeOf(Cycle(s)) <==> StaysAligned(s, i)
  {
    DecodeEncode(i);
    StepIsStandardIff(s, i);
  }

  // ---------------------------------------------------------------------------
  // The operand types of the rows, and the immediates as words.

  function TypeOf(n: Name): Type {
    match n
    case LUI => TYPE_U
    case AUIPC => TYPE_U
    case JAL => TYPE_J
    case JALR => TYPE_I
    case BRANCH(_) => TYPE_B
    case LOAD(_) => TYPE_I
    case STORE(_) => TYPE_S
    case OPIMM(_) => TYPE_I
    case SHIFTIMM(_) => TYPE_I
    case OP(_) => TYPE_R
    case EBREAK => TYPE_N
    case INV => TYPE_N
  }

  predicate SetsSrc1(ty: Type) {
    ty in {TYPE_I, TYPE_S, TYPE_B, TYPE_R}
  }

  predicate SetsSrc2(ty: Type) {
    ty in {TYPE_S, TYPE_B, TYPE_R}
  }

  lemma WordOfSigned(a: Word, x: Word)
    ensures ToWord(Signed(x)) == x && Offset(a, Signed(x)) == Add(a, x) == Add(x, a)
  {
  }

  lemma UpperImmediate(w: Word)
    ensures Immediate(TYPE_U, w) == Upper(FieldsOf(w)) * 0x1000
  {
    Ranges(w);
    var x := w / 0x1000;
    assert x * 0x1000 < TWO_32;
    if x >= 0x8_0000 {
      assert Sext(x, 0x10_0000) * 0x1000 == x * 0x1000 + 0xfff * TWO_32 + (TWO_32 - 0x10_0000 * 0x1000);
    }
  }

  lemma ShiftAmount(w: Word)
    ensures Immediate(TYPE_I, w) % 0x20 == Rs2Of(w)
  {
  }

  /** Writing any register and then resetting register 0 is the instruction set's register write. */
  lemma ZeroReset(r: Regs, dest: nat, v: Word)
    requires dest < 32 && r[0] == 0
    ensures r[dest := v][0 := 0] == Set(r, dest, v) && r[0 := 0] == r
  {
  }

  class Cpu {
    const gpr: array<Word>
    const csrs: array<Word>
    const pmem: array<Byte>
    var pc: Word
    var intr: bool
    var emu: Emu
    var haltPc: Word
    var haltRet: Word
    var count: nat

    ghost predicate Valid()
      reads this
    {
      gpr.Length == 32 && csrs.Length == 2048 && pmem.Length == MSIZE && gpr != csrs
    }

    ghost function Abs(): State
      requires Valid()
      reads this, gpr, csrs, pmem
    {
      State(gpr[..], pc, csrs[..], intr, pmem[..], emu, haltPc, haltRet, count)
    }

    /** host_write through guest_to_host. */
    method PmemWrite(a: Word, len: nat, d: Word)
      requires Valid() && Fits(a, len)
      modifies pmem
      ensures pmem[..] == PhysWrite(old(pmem[..]), a, len, d)
    {
      var i := Sub(a, MBASE);
      pmem[i] := ByteOf(d, 0);
      if len != 1 {
        pmem[i + 1] := ByteOf(d, 1);
        if len != 2 {
          pmem[i + 2] := ByteOf(d, 2);
          pmem[i + 3] := ByteOf(d, 3);
        }
      }
    }

    /** vaddr_write; ok == false where the source panics, goes to a device or overruns pmem. */
    method VaddrWrite(va: Word, len: nat, d: Word) returns (ok: bool)
      requires Valid() && Len(len)
      modifies pmem
      ensures ok <==> VirtWrite(csrs[SATP], old(pmem[..]), va, len, d).Some?
      ensures ok ==> pmem[..] == VirtWrite(csrs[SATP], old(pmem[..]), va, len, d).value
      ensures !ok ==> pmem[..] == old(pmem[..])
    {
      var t := Translate(csrs[SATP], pmem[..], va);
      ok := t.Mapped? && Fits(t.pa, len);
      if ok {
        PmemWrite(t.pa, len, d);
      }
    }

    /** decode_operand. Operands a type does not set keep the zeros decode_exec gave them. */
    method DecodeOperand(i: Word, ty: Type)
      returns (dest: nat, zimm: nat, csr: nat, src1: Word, src2: Word, imm: Word)
      requires Valid()
      ensures dest == RdOf(i) && zimm == Rs1Of(i) && csr == F7Of(i) * 0x20 + Rs2Of(i)
      ensures src1 == if SetsSrc1(ty) then gpr[Rs1Of(i)] else 0
      ensures src2 == if SetsSrc2(ty) then gpr[Rs2Of(i)] else 0
      ensures imm == Immediate(ty, i)
    {
      src1, src2, imm := 0, 0, 0;
      csr := i / 0x10_0000;
      dest := RdOf(i);
      zimm := Rs1Of(i);
      assert i / 0x200_0000 == csr / 0x20;
      match ty {
        case TYPE_I => src1 := gpr[Rs1Of(i)]; imm := Immediate(TYPE_I, i);
        case TYPE_U => imm := Immediate(TYPE_U, i);
        case TYPE_S => src1 := gpr[Rs1Of(i)]; src2 := gpr[Rs2Of(i)]; imm := Immediate(TYPE_S, i);
        case TYPE_J => imm := Immediate(TYPE_J, i);
        case TYPE_B => src1 := gpr[Rs1Of(i)]; src2 := gpr[Rs2Of(i)]; imm := Immediate(TYPE_B, i);
        case TYPE_R => src1 := gpr[Rs1Of(i)]; src2 := gpr[Rs2Of(i)];
        case TYPE_N =>
      }
    }

    /** The state as decode_exec will leave it once it has reset register 0. */
    ghost function Settled(next: Word): State
      requires Valid()
      reads this, gpr, csrs, pmem
    {
      Abs().(gpr := gpr[..][0 := 0], pc := next)
    }

    /** The rows that only compute a register. */
    method ExecAlu(n: Name, i: Word, snpc: Word)
      requires Valid() && gpr[0] == 0 && snpc == Add(pc, 4)
      requires n == NameFor(i) && (n.LUI? || n.AUIPC? || n.OP? || n.OPIMM? || n.SHIFTIMM?)
      modifies gpr
      ensures Obey(old(Abs()), i) == Some(Settled(snpc))
    {
      DecodeByRow(i);
      var dest, _, _, src1, src2, imm := DecodeOperand(i, TypeOf(n));
      var v :=
        if n.LUI? then imm
        else if n.AUIPC? then Add(pc, imm)
        else if n.OP? then Compute(n.op, src1, src2)
        else if n.OPIMM? then Compute(n.op, src1, imm)
        else Compute(n.op, src1, imm % 0x20);
      ImmediateFromFields(TYPE_I, i);
      WordOfSigned(src1, Immediate(TYPE_I, i));
      UpperImmediate(i);
      ShiftAmount(i);
      ZeroReset(gpr[..], dest, v);
      gpr[dest] := v;
      assert gpr[..] == old(gpr[..])[dest := v];
    }

    /** Jumps and branches. jalr reads its base before it writes the link. */
    method ExecJump(n: Name, i: Word, snpc: Word) returns (dnpc: Word)
      requires Valid() && gpr[0] == 0 && snpc == Add(pc, 4)
      requires n == NameFor(i) && (n.JAL? || n.JALR? || n.BRANCH?)
      modifies gpr
      ensures Obey(old(Abs()), i) == Some(Settled(dnpc))
    {
      DecodeByRow(i);
      dnpc := snpc;
      var dest, _, _, src1, src2, imm := DecodeOperand(i, TypeOf(n));
      ImmediateFromFields(TypeOf(n), i);
      WordOfSigned(pc, imm);
      WordOfSigned(src1, imm);
      ZeroReset(gpr[..], dest, snpc);
      match n {
        case JAL =>
          dnpc := Add(pc, imm);
          gpr[dest] := snpc;
          assert gpr[..] == old(gpr[..])[dest := snpc];
        case JALR =>
          dnpc := Add(imm, src1);
          gpr[dest] := snpc;
          assert gpr[..] == old(gpr[..])[dest := snpc];
        case BRANCH(c) =>
          if Holds(c, src1, src2) { dnpc := Add(pc, imm); }
      }
    }

    /** Loads through the page walk. */
    method ExecLoad(n: Name, i: Word, snpc: Word) returns (ok: bool)
      requires Valid() && gpr[0] == 0 && snpc == Add(pc, 4) && n == NameFor(i) && n.LOAD?
      modifies gpr
      ensures Obey(old(Abs()), i) == if ok then Some(Settled(snpc)) else None
    {
      DecodeByRow(i);
      var dest, _, _, src1, src2, imm := DecodeOperand(i, TYPE_I);
      ImmediateFromFields(TYPE_I, i);
      WordOfSigned(src1, imm);
      var v := VirtRead(csrs[SATP], pmem[..], Add(src1, imm), Size(n.width));
      ok := v.Some?;
      if ok {
        ZeroReset(gpr[..], dest, Extend(n.width, v.value));
        gpr[dest] := Extend(n.width, v.value);
        assert gpr[..] == old(gpr[..])[dest := Extend(n.width, v.value)];
      }
    }

    /** Stores through the page walk. */
    method ExecStore(n: Name, i: Word, snpc: Word) returns (ok: bool)
      requires Valid() && gpr[0] == 0 && snpc == Add(pc, 4) && n == NameFor(i) && n.STORE?
      modifies pmem
      ensures Obey(old(Abs()), i) == if ok then Some(Settled(snpc)) else None
    {
      DecodeByRow(i);
      var dest, _, _, src1, src2, imm := DecodeOperand(i, TYPE_S);
      ImmediateFromFields(TYPE_S, i);
      WordOfSigned(src1, imm);
      ZeroReset(gpr[..], 0, 0);
      ok := VaddrWrite(Add(src1, imm), Size(n.width), src2);
    }

    method SetNemuState(state: Emu, at: Word, ret: Word)
      modifies this
      ensures emu == state && haltPc == at && haltRet == ret
      ensures pc == old(pc) && intr == old(intr) && count == old(count)
    {
      emu, haltPc, haltRet := state, at, ret;
    }

    /** ebreak, and the last row. */
    method ExecSystem(n: Name, i: Word, snpc: Word) returns (ok: bool)
      requires Valid() && gpr[0] == 0 && snpc == Add(pc, 4)
      requires n == NameFor(i) && (n == EBREAK || n == INV)
      modifies this
      ensures Obey(old(Abs()), i) == if ok then Some(Settled(snpc)) else None
    {
      ok := true;
      ZeroReset(gpr[..], 0, 0);
      if n == EBREAK {
        DecodeByRow(i);
        SetNemuState(Ended, pc, gpr[10]);
      } else {
        LegalNames(i);
        var first, second := VirtRead(csrs[SATP], pmem[..], pc, 4), VirtRead(csrs[SATP], pmem[..], Add(pc, 4), 4);
        ok := first.Some? && second.Some?;
        if ok { SetNemuState(Aborted, pc, TWO_32 - 1); }
      }
    }

    method DecodeExec(i: Word, snpc: Word) returns (ok: bool, dnpc: Word)
      requires Valid() && gpr[0] == 0 && snpc == Add(pc, 4)
      modifies this, gpr, pmem
      ensures Obey(old(Abs()), i) == if ok then Some(Abs().(pc := dnpc)) else None
      ensures ok ==> gpr[0] == 0
    {
      ok, dnpc := true, snpc;
      var n := FirstMatch(i);
      LegalNames(i);
      match n {
        case JAL => dnpc := ExecJump(n, i, snpc);
        case JALR => dnpc := ExecJump(n, i, snpc);
        case BRANCH(_) => dnpc := ExecJump(n, i, snpc);
        case LOAD(_) => ok := ExecLoad(n, i, snpc);
        case STORE(_) => ok := ExecStore(n, i, snpc);
        case EBREAK => ok := ExecSystem(n, i, snpc);
        case INV => ok := ExecSystem(n, i, snpc);
        case _ => ExecAlu(n, i, snpc);
      }
      gpr[0] := 0;
    }

    /** exec_once with isa_exec_once: one whole cycle is the instruction set's cycle. */
    method ExecOnce() returns (ok: bool)
      requires Valid() && gpr[0] == 0
      modifies this, gpr, pmem
      ensures Cycle(old(Abs())) == if ok then Some(Abs()) else None
      ensures ok ==> gpr[0] == 0
    {
      var word := VirtRead(csrs[SATP], pmem[..], pc, 4);
      if word.None? { return false; }
      var snpc, dnpc := Add(pc, 4), 0;
      ok, dnpc := DecodeExec(word.value, snpc);
      pc := dnpc;
    }
  }
}
