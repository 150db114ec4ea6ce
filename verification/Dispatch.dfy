/**
 The INSTPAT table of src/cpu/inst.c: 39 pattern strings tried in order. Every row but
 the last stands for exactly one instruction of Isa, so the rows are disjoint and their
 order does not matter; the last row catches what is left.
 */
module Dispatch {
  import opened Words
  import opened Pattern
  import opened Isa
  import opened Decoder

  datatype Name =
    | LUI | AUIPC | JAL | JALR | BRANCH(cond: Cond) | LOAD(width: Width) | STORE(width: Width)
    | OPIMM(op: Alu) | SHIFTIMM(op: Alu) | OP(op: Alu) | EBREAK | INV

  const ROWS: nat := 39

  /** The rows in the order of the source. */
  function NameAt(i: nat): Name {
    match i
    case 0 => LUI case 1 => AUIPC case 2 => OP(ADD) case 3 => OP(SUB) case 4 => OP(AND) case 5 => OP(XOR)
    case 6 => OP(OR) case 7 => OP(SLTU) case 8 => OP(SLT) case 9 => OP(SRL) case 10 => OP(SRA)
    case 11 => OP(SLL) case 12 => JAL case 13 => JALR case 14 => OPIMM(ADD) case 15 => OPIMM(AND)
    case 16 => OPIMM(OR) case 17 => OPIMM(XOR) case 18 => OPIMM(SLTU) case 19 => OPIMM(SLT) case 20 => LOAD(W)
    case 21 => LOAD(BU) case 22 => LOAD(HU) case 23 => LOAD(H) case 24 => LOAD(B) case 25 => SHIFTIMM(SLL)
    case 26 => SHIFTIMM(SRL) case 27 => SHIFTIMM(SRA) case 28 => STORE(B) case 29 => STORE(H)
    case 30 => STORE(W) case 31 => BRANCH(BEQ) case 32 => BRANCH(BNE) case 33 => BRANCH(BLT)
    case 34 => BRANCH(BGE) case 35 => BRANCH(BLTU) case 36 => BRANCH(BGEU) case 37 => EBREAK
    case _ => INV
  }

  function Position(n: Name): nat {
    match n
    case LUI => 0 case AUIPC => 1 case OP(ADD) => 2 case OP(SUB) => 3 case OP(AND) => 4 case OP(XOR) => 5
    case OP(OR) => 6 case OP(SLTU) => 7 case OP(SLT) => 8 case OP(SRL) => 9 case OP(SRA) => 10
    case OP(SLL) => 11 case JAL => 12 case JALR => 13 case OPIMM(ADD) => 14 case OPIMM(AND) => 15
    case OPIMM(OR) => 16 case OPIMM(XOR) => 17 case OPIMM(SLTU) => 18 case OPIMM(SLT) => 19 case LOAD(W) => 20
    case LOAD(BU) => 21 case LOAD(HU) => 22 case LOAD(H) => 23 case LOAD(B) => 24 case SHIFTIMM(SLL) => 25
    case SHIFTIMM(SRL) => 26 case SHIFTIMM(SRA) => 27 case STORE(B) => 28 case STORE(H) => 29
    case STORE(W) => 30 case BRANCH(BEQ) => 31 case BRANCH(BNE) => 32 case BRANCH(BLT) => 33
    case BRANCH(BGE) => 34 case BRANCH(BLTU) => 35 case BRANCH(BGEU) => 36 case EBREAK => 37
    case _ => 38
  }

  const ANY5 := "?????"
  const ANY7 := "???????"

  /** The seven groups of a pattern string. */
  datatype Row = Row(f7: string, rs2: string, rs1: string, f3: string, rd: string, op: string, low: string)

  function Text(r: Row): string {
    r.f7 + " " + r.rs2 + " " + r.rs1 + " " + r.f3 + " " + r.rd + " " + r.op + " " + r.low
  }

  function Open(f7: string, f3: string, op: string): Row {
    Row(f7, ANY5, ANY5, f3, ANY5, op, "11")
  }

  /** The pattern of each row, as inst.c spells it. */
  function RowOf(n: Name): Row {
    match n
    case LUI => Open(ANY7, "???", "01101")
    case AUIPC => Open(ANY7, "???", "00101")
    case JAL => Open(ANY7, "???", "11011")
    case JALR => Open(ANY7, "000", "11001")
    case BRANCH(BEQ) => Open(ANY7, "000", "11000")
    case BRANCH(BNE) => Open(ANY7, "001", "11000")
    case BRANCH(BLT) => Open(ANY7, "100", "11000")
    case BRANCH(BGE) => Open(ANY7, "101", "11000")
    case BRANCH(BLTU) => Open(ANY7, "110", "11000")
    case BRANCH(BGEU) => Open(ANY7, "111", "11000")
    case LOAD(W) => Open(ANY7, "010", "00000")
    case LOAD(BU) => Open(ANY7, "100", "00000")
    case LOAD(HU) => Open(ANY7, "101", "00000")
    case LOAD(H) => Open(ANY7, "001", "00000")
    case LOAD(B) => Open(ANY7, "000", "00000")
    case STORE(B) => Open(ANY7, "000", "01000")
    case STORE(H) => Open(ANY7, "001", "01000")
    case STORE(W) => Open(ANY7, "010", "01000")
    case OPIMM(ADD) => Open(ANY7, "000", "00100")
    case OPIMM(AND) => Open(ANY7, "111", "00100")
    case OPIMM(OR) => Open(ANY7, "110", "00100")
    case OPIMM(XOR) => Open(ANY7, "100", "00100")
    case OPIMM(SLTU) => Open(ANY7, "011", "00100")
    case OPIMM(SLT) => Open(ANY7, "010", "00100")
    case SHIFTIMM(SLL) => Open("0000000", "001", "00100")
    case SHIFTIMM(SRL) => Open("0000000", "101", "00100")
    case SHIFTIMM(SRA) => Open("010000?", "101", "00100")
    case OP(ADD) => Open("0000000", "000", "01100")
    case OP(SUB) => Open("0100000", "000", "01100")
    case OP(AND) => Open("0000000", "111", "01100")
    case OP(XOR) => Open("0000000", "100", "01100")
    case OP(OR) => Open("0000000", "110", "01100")
    case OP(SLTU) => Open("0000000", "011", "01100")
    case OP(SLT) => Open("0000000", "010", "01100")
    case OP(SRL) => Open("0000000", "101", "01100")
    case OP(SRA) => Open("0100000", "101", "01100")
    case OP(SLL) => Open("0000000", "001", "01100")
    case EBREAK => Row("0000000", "00001", "00000", "000", "00000", "11100", "11")
    case _ => Row(ANY7, ANY5, ANY5, "???", ANY5, ANY5, "??")
  }

  function PatternOf(n: Name): string {
    Text(RowOf(n))
  }

  predicate Listed(n: Name) {
    match n
    case STORE(w) => !w.BU? && !w.HU?
    case OPIMM(op) => op in {ADD, SLT, SLTU, XOR, OR, AND}
    case SHIFTIMM(op) => op in {SLL, SRL, SRA}
    case _ => true
  }

  function NameOf(i: Instr): Name {
    match i
    case Lui(_, _) => LUI
    case Auipc(_, _) => AUIPC
    case Jal(_, _) => JAL
    case Jalr(_, _, _) => JALR
    case Branch(c, _, _, _) => BRANCH(c)
    case Load(w, _, _, _) => LOAD(w)
    case Store(w, _, _, _) => STORE(w)
    case OpImm(op, _, _, _) => OPIMM(op)
    case ShiftImm(op, _, _, _) => SHIFTIMM(op)
    case Op(op, _, _, _) => OP(op)
    case Ebreak => EBREAK
  }

  /** The row for a word, by the meaning of the word. */
  function NameFor(w: Word): Name {
    match Decode(w)
    case Some(i) => NameOf(i)
    case None => INV
  }

  // ---------------------------------------------------------------------------
  // Matching a concatenation of patterns.

  lemma {:induction false} MatchesAppend(p: string, q: string, w: nat)
    ensures Matches(p + q, w) <==> Matches(q, w) && Matches(p, Shr(w, Bits(q)))
  {
    if q == "" {
      assert p + q == p;
    } else {
      var r, c := q[..|q| - 1], q[|q| - 1];
      assert q == r + [c] && p + q == (p + r) + [c];
      BitsInit(q);
      MatchesSnoc(p + r, c, w);
      MatchesSnoc(r, c, w);
      MatchesAppend(p, r, if c == ' ' then w else w / 2);
    }
  }

  /** A group without spaces, by its characters. */
  predicate MatchAt(p: string, i: nat, x: nat)
    requires i <= |p|
  {
    i == 0 || (CharMatches(p[i - 1], x % 2 == 1) && MatchAt(p, i - 1, x / 2))
  }

  predicate Group(p: string, n: nat) {
    |p| == n && forall i :: 0 <= i < |p| ==> p[i] in {'0', '1', '?'}
  }

  lemma {:induction false} MatchesGroup(p: string, n: nat, x: nat)
    requires Group(p, n)
    ensures Bits(p) == n && (Matches(p, x) <==> MatchAt(p, n, x))
  {
    if p == "" {
    } else {
      var q, c := p[..n - 1], p[n - 1];
      assert p == q + [c];
      BitsInit(p);
      MatchesSnoc(q, c, x);
      MatchesGroup(q, n - 1, x / 2);
      MatchAtPrefix(p, q, n - 1, x / 2);
    }
  }

  lemma {:induction false} MatchAtPrefix(p: string, q: string, i: nat, x: nat)
    requires i <= |q| && q <= p
    ensures MatchAt(p, i, x) <==> MatchAt(q, i, x)
  {
    if i == 0 {
    } else {
      MatchAtPrefix(p, q, i - 1, x / 2);
    }
  }

  /** The number a group of '0' and '1' spells. */
  function Value(p: string, i: nat): nat
    requires i <= |p|
  {
    if i == 0 then 0 else 2 * Value(p, i - 1) + (if p[i - 1] == '1' then 1 else 0)
  }

  /** The low i bits of x. */
  function Low(x: nat, i: nat): nat {
    if i == 0 then 0 else 2 * Low(x / 2, i - 1) + x % 2
  }

  lemma {:induction false} FixedGroup(p: string, i: nat, x: nat)
    requires i <= |p| && forall k :: 0 <= k < i ==> p[k] in {'0', '1'}
    ensures MatchAt(p, i, x) <==> Low(x, i) == Value(p, i)
  {
    if i == 0 {
    } else {
      FixedGroup(p, i - 1, x / 2);
    }
  }

  lemma LowThree(x: nat)
    ensures Low(x, 3) == x % 8
  {
    LowPair(x, 1);
    LowPair(x / 4, 0);
    assert Low(x / 4, 1) == 2 * Low(x / 4 / 2, 0) + x / 4 % 2;
    ModEight(x);
  }

  lemma LowFive(x: nat)
    ensures Low(x, 5) == x % 0x20
  {
    LowPair(x, 3);
    LowThree(x / 4);
    ModThirtyTwo(x);
  }

  lemma LowSeven(x: nat)
    ensures Low(x, 7) == x % 0x80
  {
    LowPair(x, 5);
    LowFive(x / 4);
    ModHundredTwentyEight(x);
  }

  lemma ModEight(x: nat)
    ensures x % 8 == 4 * (x / 4 % 2) + x % 4
  {
    assert x == 8 * (x / 4 / 2) + 4 * (x / 4 % 2) + x % 4;
  }

  lemma ModThirtyTwo(x: nat)
    ensures x % 0x20 == 4 * (x / 4 % 8) + x % 4
  {
    assert x == 0x20 * (x / 4 / 8) + 4 * (x / 4 % 8) + x % 4;
  }

  lemma ModHundredTwentyEight(x: nat)
    ensures x % 0x80 == 4 * (x / 4 % 0x20) + x % 4
  {
    assert x == 0x80 * (x / 4 / 0x20) + 4 * (x / 4 % 0x20) + x % 4;
  }

  lemma LowPair(x: nat, i: nat)
    ensures Low(x, i + 2) == 4 * Low(x / 4, i) + x % 4
  {
    assert Low(x, i + 2) == 2 * Low(x / 2, i + 1) + x % 2;
    assert Low(x / 2, i + 1) == 2 * Low(x / 2 / 2, i) + x / 2 % 2;
  }

  lemma WildGroup(p: string, i: nat, x: nat)
    requires i <= |p| && forall k :: 0 <= k < i ==> p[k] == '?'
    ensures MatchAt(p, i, x)
  {
    if i != 0 { WildGroup(p, i - 1, x / 2); }
  }

  // ---------------------------------------------------------------------------
  // A whole row.

  lemma AppendGroup(p: string, g: string, n: nat, w: nat)
    requires Group(g, n)
    ensures Matches(p + " " + g, w) <==> MatchAt(g, n, w) && Matches(p, Shr(w, n))
  {
    MatchesGroup(g, n, w);
    MatchesAppend(p + " ", g, w);
    MatchesSnoc(p, ' ', Shr(w, n));
  }

  lemma ShrPair(w: nat, n: nat)
    ensures Shr(w, n + 2) == Shr(w / 4, n)
  {
    assert Shr(w, n + 2) == Shr(w / 2, n + 1) == Shr(w / 2 / 2, n);
  }

  lemma ShrConstants(w: nat)
    ensures Shr(w, 2) == w / 4 && Shr(w, 3) == w / 8 && Shr(w, 5) == w / 0x20
  {
    ShrPair(w, 0);
    ShrPair(w, 1);
    ShrPair(w, 3);
    ShrPair(w / 4, 1);
  }

  predicate WellFormed(r: Row) {
    Group(r.f7, 7) && Group(r.rs2, 5) && Group(r.rs1, 5) && Group(r.f3, 3)
    && Group(r.rd, 5) && Group(r.op, 5) && Group(r.low, 2)
  }

  predicate RowMatches(r: Row, w: Word)
    requires WellFormed(r)
  {
    MatchAt(r.low, 2, w) && MatchAt(r.op, 5, w / 4) && MatchAt(r.rd, 5, w / 0x80) && MatchAt(r.f3, 3, w / 0x1000)
    && MatchAt(r.rs1, 5, w / 0x8000) && MatchAt(r.rs2, 5, w / 0x10_0000) && MatchAt(r.f7, 7, w / 0x200_0000)
  }

  lemma TextMatches(r: Row, w: Word)
    requires WellFormed(r)
    ensures Matches(Text(r), w) <==> RowMatches(r, w)
  {
    var t1 := r.f7 + " " + r.rs2;
    var t2 := t1 + " " + r.rs1;
    var t3 := t2 + " " + r.f3;
    var t4 := t3 + " " + r.rd;
    var t5 := t4 + " " + r.op;
    StepGroup(t5, r.low, 2, w, w / 4);
    StepGroup(t4, r.op, 5, w / 4, w / 0x80);
    StepGroup(t3, r.rd, 5, w / 0x80, w / 0x1000);
    StepGroup(t2, r.f3, 3, w / 0x1000, w / 0x8000);
    StepGroup(t1, r.rs1, 5, w / 0x8000, w / 0x10_0000);
    StepGroup(r.f7, r.rs2, 5, w / 0x10_0000, w / 0x200_0000);
    MatchesGroup(r.f7, 7, w / 0x200_0000);
  }

  lemma StepGroup(p: string, g: string, n: nat, w: nat, rest: nat)
    requires Group(g, n)
    requires (n == 2 && rest == w / 4) || (n == 3 && rest == w / 8) || (n == 5 && rest == w / 0x20)
    ensures Matches(p + " " + g, w) <==> MatchAt(g, n, w) && Matches(p, rest)
  {
    AppendGroup(p, g, n, w);
    ShrConstants(w);
  }

  // ---------------------------------------------------------------------------
  // The groups the table uses, as numbers.

  predicate Fixed(g: string, n: nat, v: nat) {
    |g| == n && (forall k :: 0 <= k < n ==> g[k] in {'0', '1'}) && Value(g, n) == v
  }

  lemma F3Values()
    ensures Fixed("000", 3, 0) && Fixed("001", 3, 1) && Fixed("010", 3, 2) && Fixed("011", 3, 3)
    ensures Fixed("100", 3, 4) && Fixed("101", 3, 5) && Fixed("110", 3, 6) && Fixed("111", 3, 7)
  {
  }

  lemma OpValues()
    ensures Fixed("01101", 5, 0x0d) && Fixed("00101", 5, 0x05) && Fixed("11011", 5, 0x1b) && Fixed("11001", 5, 0x19)
    ensures Fixed("11000", 5, 0x18) && Fixed("00000", 5, 0) && Fixed("01000", 5, 8) && Fixed("00100", 5, 4)
    ensures Fixed("01100", 5, 0x0c) && Fixed("11100", 5, 0x1c) && Fixed("00001", 5, 1)
  {
  }

  lemma F7Values()
    ensures Fixed("0000000", 7, 0) && Fixed("0100000", 7, 0x20)
  {
  }

  // ---------------------------------------------------------------------------
  // What each row accepts, in terms of opcode, funct3 and funct7.

  /** The fields that select a row. */
  predicate Selects(n: Name, f: Fields) {
    match n
    case LUI => f.opcode == 0x37
    case AUIPC => f.opcode == 0x17
    case JAL => f.opcode == 0x6f
    case JALR => f.opcode == 0x67 && f.f3 == 0
    case BRANCH(c) => f.opcode == 0x63 && f.f3 == CondF3(c)
    case LOAD(w) => f.opcode == 0x03 && f.f3 == WidthF3(w)
    case STORE(w) => f.opcode == 0x23 && f.f3 == WidthF3(w)
    case OPIMM(op) => f.opcode == 0x13 && f.f3 == AluF3(op)
    case SHIFTIMM(op) =>
      f.opcode == 0x13 && f.f3 == AluF3(op) && (if op.SRA? then f.f7 / 2 == 0x10 else f.f7 == 0)
    case OP(op) => f.opcode == 0x33 && f.f3 == AluF3(op) && f.f7 == AluF7(op)
    case EBREAK => f == Fields(0, 1, 0, 0, 0, 0x73)
    case INV => true
  }

  lemma SelectedDecodes(n: Name, f: Fields)
    requires Listed(n) && n != INV && FieldsFit(f) && Selects(n, f)
    ensures DecodeFields(f).Some? && NameOf(DecodeFields(f).value) == n
  {
  }

  lemma DecodedSelects(f: Fields)
    requires FieldsFit(f) && DecodeFields(f).Some?
    ensures Selects(NameOf(DecodeFields(f).value), f)
  {
  }

  lemma SelectsIsDecode(n: Name, f: Fields)
    requires Listed(n) && n != INV && FieldsFit(f)
    ensures Selects(n, f) <==> DecodeFields(f).Some? && NameOf(DecodeFields(f).value) == n
  {
    if Selects(n, f) { SelectedDecodes(n, f); }
    if DecodeFields(f).Some? { DecodedSelects(f); }
  }

  lemma FixedMatch(g: string, n: nat, v: nat, x: nat)
    requires Fixed(g, n, v) && (n == 3 || n == 5 || n == 7)
    ensures Group(g, n)
    ensures MatchAt(g, n, x) <==> x % (if n == 3 then 8 else if n == 5 then 0x20 else 0x80) == v
  {
    FixedGroup(g, n, x);
    LowThree(x);
    LowFive(x);
    LowSeven(x);
  }

  /** The opcode, split as the pattern splits it. */
  lemma OpcodeSplit(w: Word, v: nat)
    requires v < 0x20
    ensures w / 4 % 0x20 == v && w % 4 == 3 <==> OpcodeOf(w) == 4 * v + 3
  {
    ModHundredTwentyEight(w);
  }

  lemma LowGroup(w: Word)
    ensures Group("11", 2) && (MatchAt("11", 2, w) <==> w % 4 == 3)
  {
    assert Fixed("11", 2, 3);
    FixedGroup("11", 2, w);
    LowPair(w, 0);
  }

  /** A row with wildcards for registers. */
  lemma OpenRow(f7: string, f3: string, op: string, v: nat, w: Word)
    requires Group(f7, 7) && Group(f3, 3) && Fixed(op, 5, v)
    ensures Matches(Text(Open(f7, f3, op)), w)
      <==> OpcodeOf(w) == 4 * v + 3 && MatchAt(f3, 3, w / 0x1000) && MatchAt(f7, 7, w / 0x200_0000)
  {
    FixedMatch(op, 5, v, w / 4);
    WildGroup(ANY5, 5, w / 0x80);
    WildGroup(ANY5, 5, w / 0x8000);
    WildGroup(ANY5, 5, w / 0x10_0000);
    LowGroup(w);
    TextMatches(Open(f7, f3, op), w);
    FixedBelow(op, 5);
    OpcodeSplit(w, v);
  }

  lemma FixedBelow(g: string, n: nat)
    requires |g| == n == 5
    ensures Value(g, n) < 0x20
  {
    assert Value(g, 1) < 2;
    assert Value(g, 2) < 4;
    assert Value(g, 3) < 8;
    assert Value(g, 4) < 16;
  }

  lemma AnyRow(op: string, v: nat, w: Word)
    requires Fixed(op, 5, v)
    ensures Matches(Text(Open(ANY7, "???", op)), w) <==> OpcodeOf(w) == 4 * v + 3
  {
    WildGroup("???", 3, w / 0x1000);
    WildGroup(ANY7, 7, w / 0x200_0000);
    OpenRow(ANY7, "???", op, v, w);
  }

  lemma F3Row(f3: string, op: string, v3: nat, v: nat, w: Word)
    requires Fixed(f3, 3, v3) && Fixed(op, 5, v)
    ensures Matches(Text(Open(ANY7, f3, op)), w) <==> OpcodeOf(w) == 4 * v + 3 && F3Of(w) == v3
  {
    FixedMatch(f3, 3, v3, w / 0x1000);
    WildGroup(ANY7, 7, w / 0x200_0000);
    OpenRow(ANY7, f3, op, v, w);
  }

  lemma F7Row(f7: string, f3: string, op: string, v7: nat, v3: nat, v: nat, w: Word)
    requires Fixed(f7, 7, v7) && Fixed(f3, 3, v3) && Fixed(op, 5, v)
    ensures Matches(Text(Open(f7, f3, op)), w) <==> OpcodeOf(w) == 4 * v + 3 && F3Of(w) == v3 && F7Of(w) == v7
  {
    FixedMatch(f3, 3, v3, w / 0x1000);
    FixedMatch(f7, 7, v7, w / 0x200_0000);
    OpenRow(f7, f3, op, v, w);
  }

  lemma BranchRows(c: Cond, w: Word)
    ensures Matches(PatternOf(BRANCH(c)), w) <==> Selects(BRANCH(c), FieldsOf(w))
  {
    F3Values();
    OpValues();
    F3Row(RowOf(BRANCH(c)).f3, "11000", CondF3(c), 0x18, w);
  }

  lemma MemoryRows(width: Width, w: Word)
    ensures Matches(PatternOf(LOAD(width)), w) <==> Selects(LOAD(width), FieldsOf(w))
    ensures Listed(STORE(width)) ==> (Matches(PatternOf(STORE(width)), w) <==> Selects(STORE(width), FieldsOf(w)))
  {
    F3Values();
    OpValues();
    F3Row(RowOf(LOAD(width)).f3, "00000", WidthF3(width), 0, w);
    if Listed(STORE(width)) {
      F3Row(RowOf(STORE(width)).f3, "01000", WidthF3(width), 8, w);
    }
  }

  lemma OpRows(op: Alu, w: Word)
    ensures Matches(PatternOf(OP(op)), w) <==> Selects(OP(op), FieldsOf(w))
  {
    F3Values();
    F7Values();
    OpValues();
    F7Row(RowOf(OP(op)).f7, RowOf(OP(op)).f3, "01100", AluF7(op), AluF3(op), 0x0c, w);
  }

  lemma OpImmRows(op: Alu, w: Word)
    requires Listed(OPIMM(op))
    ensures Matches(PatternOf(OPIMM(op)), w) <==> Selects(OPIMM(op), FieldsOf(w))
  {
    F3Values();
    OpValues();
    F3Row(RowOf(OPIMM(op)).f3, "00100", AluF3(op), 4, w);
  }

  lemma ShiftRows(op: Alu, w: Word)
    requires Listed(SHIFTIMM(op))
    ensures Matches(PatternOf(SHIFTIMM(op)), w) <==> Selects(SHIFTIMM(op), FieldsOf(w))
  {
    F3Values();
    F7Values();
    OpValues();
    if op.SRA? {
      var x := w / 0x200_0000;
      FixedMatch("101", 3, 5, w / 0x1000);
      OpenRow("010000?", "101", "00100", 4, w);
      assert MatchAt("010000?", 7, x) == MatchAt("010000?", 6, x / 2);
      MatchAtPrefix("010000?", "010000", 6, x / 2);
      assert Value("010000", 6) == 0x10;
      FixedGroup("010000", 6, x / 2);
      LowSix(x / 2);
    } else {
      F7Row("0000000", RowOf(SHIFTIMM(op)).f3, "00100", 0, AluF3(op), 4, w);
    }
  }

  lemma LowSix(x: nat)
    requires x < 0x40
    ensures Low(x, 6) == x
  {
    var y, z := x / 4, x / 4 / 4;
    LowPair(x, 4);
    LowPair(y, 2);
    LowPair(z, 0);
    LowDigits(x, y, z);
  }

  lemma LowDigits(x: nat, y: nat, z: nat)
    requires x < 0x40 && y == x / 4 && z == y / 4
    ensures 4 * (4 * (z % 4) + y % 4) + x % 4 == x
  {
  }

  lemma EbreakValues(r: Row)
    requires r == RowOf(EBREAK)
    ensures Fixed(r.f7, 7, 0) && Fixed(r.rs2, 5, 1) && Fixed(r.rs1, 5, 0) && Fixed(r.f3, 3, 0)
    ensures Fixed(r.rd, 5, 0) && Fixed(r.op, 5, 0x1c) && r.low == "11"
  {
  }

  lemma EbreakGroups(r: Row, w: Word)
    requires r == RowOf(EBREAK)
    ensures WellFormed(r)
    ensures RowMatches(r, w) <==> FieldsOf(w) == Fields(0, 1, 0, 0, 0, 0x73)
  {
    EbreakValues(r);
    FixedMatch(r.f7, 7, 0, w / 0x200_0000);
    FixedMatch(r.rs2, 5, 1, w / 0x10_0000);
    FixedMatch(r.rs1, 5, 0, w / 0x8000);
    FixedMatch(r.f3, 3, 0, w / 0x1000);
    FixedMatch(r.rd, 5, 0, w / 0x80);
    FixedMatch(r.op, 5, 0x1c, w / 4);
    LowGroup(w);
    OpcodeSplit(w, 0x1c);
  }

  lemma EbreakRow(w: Word)
    ensures Matches(PatternOf(EBREAK), w) <==> Selects(EBREAK, FieldsOf(w))
  {
    EbreakGroups(RowOf(EBREAK), w);
    TextMatches(RowOf(EBREAK), w);
  }

  /** Every row but the last accepts exactly the words that decode to its instruction. */
  lemma RowMeaning(n: Name, w: Word)
    requires Listed(n) && n != INV
    ensures Matches(PatternOf(n), w) <==> NameFor(w) == n
  {
    match n {
      case LUI => OpValues(); AnyRow("01101", 0x0d, w);
      case AUIPC => OpValues(); AnyRow("00101", 0x05, w);
      case JAL => OpValues(); AnyRow("11011", 0x1b, w);
      case JALR => F3Values(); OpValues(); F3Row("000", "11001", 0, 0x19, w);
      case BRANCH(c) => BranchRows(c, w);
      case LOAD(width) => MemoryRows(width, w);
      case STORE(width) => MemoryRows(width, w);
      case OPIMM(op) => OpImmRows(op, w);
      case SHIFTIMM(op) => ShiftRows(op, w);
      case OP(op) => OpRows(op, w);
      case EBREAK => EbreakRow(w);
    }
    SelectsIsDecode(n, FieldsOf(w));
    LegalNames(w);
  }

  lemma LegalNames(w: Word)
    ensures Listed(NameFor(w))
    ensures Decode(w).Some? ==> NameFor(w) != INV
  {
    if Decode(w).Some? { EncodeDecodeFields(FieldsOf(w)); }
  }

  /** The last row accepts everything. */
  lemma InvMatchesAll(w: Word)
    ensures Matches(PatternOf(INV), w)
  {
    var r := RowOf(INV);
    WildGroup(ANY7, 7, w / 0x200_0000);
    WildGroup(ANY5, 5, w / 0x10_0000);
    WildGroup(ANY5, 5, w / 0x8000);
    WildGroup("???", 3, w / 0x1000);
    WildGroup(ANY5, 5, w / 0x80);
    WildGroup(ANY5, 5, w / 4);
    WildGroup("??", 2, w);
    TextMatches(r, w);
  }

  /** No word matches two rows, the last aside: among those rows the order is irrelevant. */
  lemma RowsDisjoint(a: Name, b: Name, w: Word)
    requires Listed(a) && Listed(b) && a != INV && b != INV && a != b
    ensures !(Matches(PatternOf(a), w) && Matches(PatternOf(b), w))
  {
    RowMeaning(a, w);
    RowMeaning(b, w);
  }

  /** The encoding of an instruction selects that instruction's row. */
  lemma EncodingSelectsRow(i: Instr, n: Name)
    requires Legal(i) && Listed(n) && n != INV
    ensures Matches(PatternOf(n), Encode(i)) <==> n == NameOf(i)
  {
    RowMeaning(n, Encode(i));
    DecodeEncode(i);
  }

  lemma PatternLength(n: Name)
    ensures |PatternOf(n)| == 38 && WellSpelled(PatternOf(n))
  {
    var r := RowOf(n);
    GroupsOf(n);
    forall i | 0 <= i < |Text(r)| ensures Text(r)[i] in {' ', '0', '1', '?'} {
    }
  }

  lemma GroupsOf(n: Name)
    ensures WellFormed(RowOf(n))
  {
    match n {
      case OP(op) => OpGroups(op);
      case OPIMM(op) => ImmGroups(op);
      case SHIFTIMM(op) => ShiftGroups(op);
      case BRANCH(c) => BranchGroups(c);
      case LOAD(w) => LoadGroups(w);
      case STORE(w) => StoreGroups(w);
      case _ =>
    }
  }

  lemma OpGroups(op: Alu)
    ensures WellFormed(RowOf(OP(op)))
  {
  }

  lemma ImmGroups(op: Alu)
    ensures WellFormed(RowOf(OPIMM(op)))
  {
  }

  lemma ShiftGroups(op: Alu)
    ensures WellFormed(RowOf(SHIFTIMM(op)))
  {
  }

  lemma BranchGroups(c: Cond)
    ensures WellFormed(RowOf(BRANCH(c)))
  {
  }

  lemma LoadGroups(w: Width)
    ensures WellFormed(RowOf(LOAD(w)))
  {
  }

  lemma StoreGroups(w: Width)
    ensures WellFormed(RowOf(STORE(w)))
  {
  }

  /** Every name a word can have is in the table, once, and nothing else is. */
  lemma Table(n: Name, i: nat)
    requires Listed(n) && i < ROWS
    ensures Position(n) < ROWS && NameAt(Position(n)) == n
    ensures Listed(NameAt(i)) && Position(NameAt(i)) == i
  {
  }

  /** One INSTPAT test. */
  method Try(n: Name, w: Word) returns (hit: bool)
    requires Listed(n)
    ensures hit <==> n == INV || NameFor(w) == n
  {
    PatternLength(n);
    var ok, key, mask, shift := PatternDecode(PatternOf(n));
    if n == INV { InvMatchesAll(w); } else { RowMeaning(n, w); }
    hit := FastMatches(w, key, mask, shift);
  }

  /** The chain of INSTPAT tests: the first row whose compiled pattern accepts the word. */
  method FirstMatch(w: Word) returns (n: Name)
    ensures n == NameFor(w)
  {
    LegalNames(w);
    n := INV;
    var i := 0;
    while i < ROWS
      invariant 0 <= i <= ROWS
      invariant i <= Position(NameFor(w)) < ROWS
    {
      Table(NameFor(w), i);
      n := NameAt(i);
      var hit := Try(n, w);
      if hit {
        return;
      }
      i := i + 1;
    }
  }
}
