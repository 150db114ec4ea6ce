/**
 What particular texts mean, with the characters written out: operators, parentheses,
 prefixes, numbers and registers. ShownText is the main result; nothing in it mentions how
 the tokenizer spells an operator or how the parser ranks it.
 */
module Texts {
  import opened Words
  import opened Memory
  import opened Isa
  import opened Lexer
  import opened Grammar
  import opened Parsing
  import opened Evaluator
  import opened Printer
  import opened Levels

  function Sign(op: Symbol): string {
    match op
    case PLUS => "+"
    case MINUS => "-"
    case STAR => "*"
    case SLASH => "/"
    case EQEQ => "=="
    case NOTEQ => "!="
    case ANDAND => "&&"
    case OROR => "||"
    case _ => ""
  }

  /** A tree as a text without spaces. */
  function Show(t: Tree): string {
    match t
    case Num(Dec(text)) => text
    case Num(Hex(text)) => text
    case Zero(twice) => if twice then "$$0" else "$0"
    case Reg(name) => "$" + name
    case Neg(u) => "-" + Show(u)
    case Deref(u) => "*" + Show(u)
    case Group(u) => "(" + Show(u) + ")"
    case Bin(op, l, r) => Show(l) + Sign(op) + Show(r)
    case _ => ""
  }

  /** The numbers and names in the tree are tokens the rules produce. */
  predicate ProperLeaves(t: Tree) {
    match t
    case Num(token) => Proper(token)
    case Reg(name) => Proper(Name(name))
    case Neg(u) => ProperLeaves(u)
    case Deref(u) => ProperLeaves(u)
    case Group(u) => ProperLeaves(u)
    case Bin(_, l, r) => ProperLeaves(l) && ProperLeaves(r)
    case _ => true
  }

  // ---------------------------------------------------------------------------
  // The tokens of such a text.

  function Concat(ts: seq<Token>): string {
    if ts == [] then "" else TextOf(ts[0]) + Concat(ts[1..])
  }

  lemma Associate(a: string, b: string, c: string)
    ensures a + (b + c) == a + b + c
  {
  }

  lemma {:induction false} ConcatAppend(a: seq<Token>, b: seq<Token>)
    ensures Concat(a + b) == Concat(a) + Concat(b)
  {
    if a == [] {
      assert a + b == b && Concat(a) == "" && "" + Concat(b) == Concat(b);
    } else {
      ConcatAppend(a[1..], b);
      assert (a + b)[0] == a[0] && (a + b)[1..] == a[1..] + b;
      Associate(TextOf(a[0]), Concat(a[1..]), Concat(b));
    }
  }

  lemma ConcatOne(t: Token)
    ensures Concat([t]) == TextOf(t)
  {
    assert [t][1..] == [] && Concat([]) == "" && TextOf(t) + "" == TextOf(t);
  }

  lemma Literals(op: Symbol)
    ensures TextOf(Sym(LPAR)) == "(" && TextOf(Sym(RPAR)) == ")" && TextOf(Sym(DOLLAR)) == "$"
    ensures TextOf(Sym(MINUS)) == "-" && TextOf(Sym(STAR)) == "*"
    ensures LevelOf(op) > 0 ==> TextOf(Sym(op)) == Sign(op)
    ensures Proper(Sym(op))
  {
  }

  predicate NoWordPairs(ts: seq<Token>) {
    forall i :: 0 < i < |ts| ==> !(IsWordToken(ts[i - 1]) && IsWordToken(ts[i]))
  }

  /** The tokens ts can be written as text, without a space. */
  predicate Written(ts: seq<Token>, text: string) {
    AllProper(ts) && NoWordPairs(ts) && Concat(ts) == text
  }

  lemma WrittenOne(t: Token)
    requires Proper(t)
    ensures Written([t], TextOf(t))
  {
    ConcatOne(t);
  }

  lemma WrittenBefore(op: Symbol, b: seq<Token>, tb: string)
    requires Written(b, tb)
    ensures Written([Sym(op)] + b, TextOf(Sym(op)) + tb)
  {
    Literals(op);
    ConcatAppend([Sym(op)], b);
    ConcatOne(Sym(op));
  }

  lemma WrittenAfter(a: seq<Token>, ta: string, op: Symbol)
    requires Written(a, ta)
    ensures Written(a + [Sym(op)], ta + TextOf(Sym(op)))
  {
    Literals(op);
    ConcatAppend(a, [Sym(op)]);
    ConcatOne(Sym(op));
  }

  lemma WrittenBetween(a: seq<Token>, ta: string, op: Symbol, b: seq<Token>, tb: string)
    requires Written(a, ta) && Written(b, tb)
    ensures Written(a + [Sym(op)] + b, ta + TextOf(Sym(op)) + tb)
  {
    WrittenAfter(a, ta, op);
    WrittenAppend(a + [Sym(op)], ta + TextOf(Sym(op)), b, tb);
  }

  lemma WrittenAppend(a: seq<Token>, ta: string, b: seq<Token>, tb: string)
    requires Written(a, ta) && Written(b, tb) && a != [] && !IsWordToken(a[|a| - 1])
    ensures Written(a + b, ta + tb)
  {
    ConcatAppend(a, b);
    ProperAppend(a, b);
    PairsAppend(a, b);
  }

  lemma PairsAppend(a: seq<Token>, b: seq<Token>)
    requires NoWordPairs(a) && NoWordPairs(b) && a != [] && !IsWordToken(a[|a| - 1])
    ensures NoWordPairs(a + b)
  {
    var n := |a|;
    forall i | 0 < i < |a + b| ensures !(IsWordToken((a + b)[i - 1]) && IsWordToken((a + b)[i])) {
      if i > n { assert (a + b)[i - 1] == b[i - 1 - n] && (a + b)[i] == b[i - n]; }
    }
  }

  lemma {:induction false} ShowWritten(t: Tree, p: nat)
    requires Whole(t) && InGrammar(t, p) && 1 <= p <= 6 && ProperLeaves(t)
    ensures Written(Yield(t), Show(t))
  {
    match t {
      case Num(token) => WrittenOne(token);
      case Zero(twice) => ZeroWritten(twice);
      case Reg(name) => RegWritten(name);
      case Neg(u) =>
        ShowWritten(u, 6);
        WrittenBefore(MINUS, Yield(u), Show(u));
        Literals(MINUS);
      case Deref(u) =>
        ShowWritten(u, 6);
        WrittenBefore(STAR, Yield(u), Show(u));
        Literals(STAR);
      case Group(u) =>
        ShowWritten(u, 1);
        WrittenBefore(LPAR, Yield(u), Show(u));
        WrittenAfter([Sym(LPAR)] + Yield(u), TextOf(Sym(LPAR)) + Show(u), RPAR);
        Literals(PLUS);
      case Bin(op, l, r) =>
        LevelsAgree(t, p);
        BinLevels(op, l, r, p);
        Narrower(l, r, op, p);
        ShowWritten(l, LevelOf(op));
        ShowWritten(r, LevelOf(op) + 1);
        WrittenBetween(Yield(l), Show(l), op, Yield(r), Show(r));
        Literals(op);
    }
  }

  /** The operands of an operator are derived at its own level and the next. */
  lemma Narrower(l: Tree, r: Tree, op: Symbol, p: nat)
    requires 1 <= p <= 6 && Level(Bin(op, l, r), p)
    ensures 1 <= LevelOf(op) <= 5 && InGrammar(l, LevelOf(op)) && InGrammar(r, LevelOf(op) + 1)
  {
    BinLevels(op, l, r, p);
    LevelsAgree(l, LevelOf(op));
    LevelsAgree(r, LevelOf(op) + 1);
  }

  lemma RegWritten(name: string)
    requires Proper(Name(name))
    ensures Written([Sym(DOLLAR), Name(name)], "$" + name)
  {
    WrittenOne(Name(name));
    WrittenBefore(DOLLAR, [Name(name)], name);
    Literals(DOLLAR);
    assert [Sym(DOLLAR)] + [Name(name)] == [Sym(DOLLAR), Name(name)];
  }

  lemma ZeroWritten(twice: bool)
    ensures Written(Yield(Zero(twice)), if twice then "$$0" else "$0")
  {
    Literals(DOLLAR);
    assert Proper(Dec("0"));
    WrittenOne(Dec("0"));
    WrittenBefore(DOLLAR, [Dec("0")], "0");
    WrittenBefore(DOLLAR, [Sym(DOLLAR)] + [Dec("0")], "$" + "0");
    assert [Sym(DOLLAR)] + ([Sym(DOLLAR)] + [Dec("0")]) == [Sym(DOLLAR), Sym(DOLLAR)] + [Dec("0")];
  }

  // ---------------------------------------------------------------------------
  // Its value.

  function Zeros(n: nat): (z: seq<nat>)
    ensures |z| == n && forall i :: 0 <= i < n ==> z[i] == 0
  {
    seq(n, _ => 0)
  }

  lemma {:induction false} TightRender(ts: seq<Token>)
    ensures Render(ts, Zeros(|ts| + 1)) == Concat(ts)
  {
    assert Blanks(0) == "";
    if ts != [] {
      TightRender(ts[1..]);
      assert Zeros(|ts| + 1)[1..] == Zeros(|ts[1..]| + 1);
    }
  }

  lemma WrittenPrints(ts: seq<Token>, text: string)
    requires Written(ts, text)
    ensures Prints(text, ts, Zeros(|ts| + 1))
  {
    TightRender(ts);
  }

  /** Every tree of the layered grammar, written without spaces, is evaluated as that tree. */
  lemma ShownText(s: State, t: Tree)
    requires Whole(t) && OrLevel(t) && ProperLeaves(t)
    ensures ExprValue(s, Show(t)) == Eval(s, t)
  {
    LevelsAgree(t, 1);
    ShowWritten(t, 1);
    WrittenPrints(Yield(t), Show(t));
    LexRender(Show(t), Yield(t), Zeros(|Yield(t)| + 1));
    assert Yield(t) + [] == Yield(t);
    BuildIff(Yield(t), 1, t, []);
  }

  // ---------------------------------------------------------------------------
  // Numbers and binary operators.

  /** a in decimal. */
  function D(a: Word): string {
    Digits(a, 10)
  }

  /** The tree of that number. */
  function N(a: Word): Tree {
    Num(Dec(D(a)))
  }

  lemma NumberTree(s: State, a: Word)
    ensures Show(N(a)) == D(a) && Whole(N(a)) && UnaryLevel(N(a)) && ProperLeaves(N(a)) && Eval(s, N(a)) == Ok(a)
  {
    NumberRoundTrip(a, false);
  }

  lemma BinaryTree(s: State, op: Symbol, l: Tree, r: Tree)
    requires LevelOf(op) > 0 && UnaryLevel(l) && UnaryLevel(r)
    requires Whole(l) && Whole(r) && ProperLeaves(l) && ProperLeaves(r)
    ensures var t := Bin(op, l, r);
      && Whole(t) && ProperLeaves(t) && Level(t, LevelOf(op)) && OrLevel(t) && Show(t) == Show(l) + Sign(op) + Show(r)
      && Eval(s, t) == Then(Eval(s, l), op, Eval(s, r))
  {
    UnaryAnywhere(l, LevelOf(op));
    UnaryAnywhere(r, LevelOf(op) + 1);
    BinLevels(op, l, r, LevelOf(op));
    BinLevels(op, l, r, 1);
  }

  lemma UnaryAnywhere(t: Tree, p: nat)
    requires UnaryLevel(t) && 1 <= p <= 6
    ensures Level(t, p)
  {
    UnaryAtEveryLevel(t, p);
  }

  /** An operator on two outcomes, the left one first. */
  function Then(x: Value, op: Symbol, y: Value): Value {
    if x.Err? then x else if y.Err? then y else Apply(op, x.w, y.w)
  }

  lemma TwoOperands(s: State, a: Word, op: Symbol, b: Word)
    requires LevelOf(op) > 0
    ensures ExprValue(s, D(a) + Sign(op) + D(b)) == Apply(op, a, b)
  {
    NumberTree(s, a);
    NumberTree(s, b);
    BinaryTree(s, op, N(a), N(b));
    ShownText(s, Bin(op, N(a), N(b)));
  }

  lemma SumText(s: State, a: Word, b: Word)
    ensures ExprValue(s, D(a) + "+" + D(b)) == Ok(Add(a, b))
  {
    TwoOperands(s, a, PLUS, b);
    assert Sign(PLUS) == "+";
  }

  lemma DifferenceText(s: State, a: Word, b: Word)
    ensures ExprValue(s, D(a) + "-" + D(b)) == Ok(Sub(a, b))
  {
    TwoOperands(s, a, MINUS, b);
    assert Sign(MINUS) == "-";
  }

  lemma ProductText(s: State, a: Word, b: Word)
    ensures ExprValue(s, D(a) + "*" + D(b)) == Ok(Mul(a, b))
  {
    TwoOperands(s, a, STAR, b);
    assert Sign(STAR) == "*";
  }

  lemma DivisionText(s: State, a: Word, b: Word)
    ensures ExprValue(s, D(a) + "/" + D(b)) == if b == 0 then Err(DivByZero) else Ok(a / b)
  {
    TwoOperands(s, a, SLASH, b);
    assert Sign(SLASH) == "/";
  }

  lemma EqualText(s: State, a: Word, b: Word)
    ensures ExprValue(s, D(a) + "==" + D(b)) == Ok(if a == b then 1 else 0)
  {
    TwoOperands(s, a, EQEQ, b);
    assert Sign(EQEQ) == "==";
  }

  lemma UnequalText(s: State, a: Word, b: Word)
    ensures ExprValue(s, D(a) + "!=" + D(b)) == Ok(if a != b then 1 else 0)
  {
    TwoOperands(s, a, NOTEQ, b);
    assert Sign(NOTEQ) == "!=";
  }

  lemma BothText(s: State, a: Word, b: Word)
    ensures ExprValue(s, D(a) + "&&" + D(b)) == Ok(if a != 0 && b != 0 then 1 else 0)
  {
    TwoOperands(s, a, ANDAND, b);
    assert Sign(ANDAND) == "&&";
  }

  lemma EitherText(s: State, a: Word, b: Word)
    ensures ExprValue(s, D(a) + "||" + D(b)) == Ok(if a != 0 || b != 0 then 1 else 0)
  {
    TwoOperands(s, a, OROR, b);
    assert Sign(OROR) == "||";
  }

  /** x is applied before y wherever they stand. */
  predicate BindsTighter(x: Symbol, y: Symbol) {
    || (x in {STAR, SLASH} && y in {PLUS, MINUS, EQEQ, NOTEQ, ANDAND, OROR})
    || (x in {PLUS, MINUS} && y in {EQEQ, NOTEQ, ANDAND, OROR})
    || (x in {EQEQ, NOTEQ} && y in {ANDAND, OROR})
    || (x == ANDAND && y == OROR)
  }

  lemma TighterIsDeeper(x: Symbol, y: Symbol)
    requires LevelOf(x) > 0 && LevelOf(y) > 0
    ensures BindsTighter(x, y) <==> LevelOf(x) > LevelOf(y)
  {
  }

  /** A tree at least as deep as level q is one of every level out to p. */
  lemma Outward(t: Tree, q: nat, p: nat)
    requires 1 <= p <= q <= 6 && Level(t, q)
    ensures Level(t, p)
  {
    LevelsAgree(t, q);
    Weaken(t, q, p);
    LevelsAgree(t, p);
  }

  /** Two operators in a row: the one that binds tighter applies first, of equals the left one. */
  lemma ThreeOperands(s: State, a: Word, op: Symbol, b: Word, op2: Symbol, c: Word)
    requires LevelOf(op) > 0 && LevelOf(op2) > 0
    ensures ExprValue(s, D(a) + Sign(op) + D(b) + Sign(op2) + D(c)) ==
      if BindsTighter(op2, op) then Then(Ok(a), op, Apply(op2, b, c)) else Then(Apply(op, a, b), op2, Ok(c))
  {
    NumberTree(s, a);
    NumberTree(s, b);
    NumberTree(s, c);
    TighterIsDeeper(op2, op);
    if BindsTighter(op2, op) {
      RightFirst(s, N(a), op, N(b), op2, N(c));
    } else {
      LeftFirst(s, N(a), op, N(b), op2, N(c));
    }
  }

  /** An operand that is not a binary operator, as it stands in a text. */
  predicate Simple(t: Tree) {
    Whole(t) && UnaryLevel(t) && ProperLeaves(t)
  }

  lemma RightFirst(s: State, a: Tree, op: Symbol, b: Tree, op2: Symbol, c: Tree)
    requires Simple(a) && Simple(b) && Simple(c) && 0 < LevelOf(op) < LevelOf(op2)
    ensures ExprValue(s, Show(a) + Sign(op) + Show(b) + Sign(op2) + Show(c))
      == Then(Eval(s, a), op, Then(Eval(s, b), op2, Eval(s, c)))
  {
    var r := Bin(op2, b, c);
    BinaryTree(s, op2, b, c);
    UnaryAnywhere(a, LevelOf(op));
    Outward(r, LevelOf(op2), LevelOf(op) + 1);
    BinLevels(op, a, r, 1);
    ShownText(s, Bin(op, a, r));
    FiveParts(Show(a), Sign(op), Show(b), Sign(op2), Show(c));
  }

  lemma FiveParts(a: string, b: string, c: string, d: string, e: string)
    ensures a + b + c + d + e == a + b + (c + d + e)
  {
  }

  lemma LeftFirst(s: State, a: Tree, op: Symbol, b: Tree, op2: Symbol, c: Tree)
    requires Simple(a) && Simple(b) && Simple(c) && LevelOf(op) >= LevelOf(op2) > 0
    ensures ExprValue(s, Show(a) + Sign(op) + Show(b) + Sign(op2) + Show(c))
      == Then(Then(Eval(s, a), op, Eval(s, b)), op2, Eval(s, c))
  {
    var l := Bin(op, a, b);
    BinaryTree(s, op, a, b);
    UnaryAnywhere(c, LevelOf(op2) + 1);
    Outward(l, LevelOf(op), LevelOf(op2));
    BinLevels(op2, l, c, 1);
    ShownText(s, Bin(op2, l, c));
  }

  /** Parentheses come first, on either side. */
  lemma Parentheses(s: State, a: Word, op: Symbol, b: Word, op2: Symbol, c: Word)
    requires LevelOf(op) > 0 && LevelOf(op2) > 0
    ensures ExprValue(s, "(" + (D(a) + Sign(op) + D(b)) + ")" + Sign(op2) + D(c)) == Then(Apply(op, a, b), op2, Ok(c))
    ensures ExprValue(s, D(a) + Sign(op) + ("(" + (D(b) + Sign(op2) + D(c)) + ")")) == Then(Ok(a), op, Apply(op2, b, c))
  {
    NumberTree(s, a);
    NumberTree(s, b);
    NumberTree(s, c);
    BinaryTree(s, op, N(a), N(b));
    BinaryTree(s, op2, N(b), N(c));
    GroupFirst(s, Bin(op, N(a), N(b)), op2, N(c));
    GroupSecond(s, N(a), op, Bin(op2, N(b), N(c)));
  }

  lemma GroupFirst(s: State, t: Tree, op: Symbol, c: Tree)
    requires Whole(t) && OrLevel(t) && ProperLeaves(t) && Simple(c) && LevelOf(op) > 0
    ensures ExprValue(s, "(" + Show(t) + ")" + Sign(op) + Show(c)) == Then(Eval(s, t), op, Eval(s, c))
  {
    BinaryTree(s, op, Group(t), c);
    ShownText(s, Bin(op, Group(t), c));
  }

  lemma GroupSecond(s: State, a: Tree, op: Symbol, t: Tree)
    requires Whole(t) && OrLevel(t) && ProperLeaves(t) && Simple(a) && LevelOf(op) > 0
    ensures ExprValue(s, Show(a) + Sign(op) + ("(" + Show(t) + ")")) == Then(Eval(s, a), op, Eval(s, t))
  {
    BinaryTree(s, op, a, Group(t));
    ShownText(s, Bin(op, a, Group(t)));
  }

  // ---------------------------------------------------------------------------
  // Prefixes, hexadecimal numbers and registers.

  lemma NegativeText(s: State, a: Word)
    ensures ExprValue(s, "-" + D(a)) == Ok(if a == 0 then 0 else 0x1_0000_0000 - a)
  {
    NumberTree(s, a);
    UnaryAnywhere(Neg(N(a)), 1);
    ShownText(s, Neg(N(a)));
  }

  /** A dereference reads four bytes, the lowest first; outside pmem there is no value. */
  lemma DereferenceText(s: State, a: Word)
    ensures ExprValue(s, "*" + D(a)) ==
      if 0x8000_0000 <= a <= 0x8003_fffc
      then Ok(At(s.mem, a) + 0x100 * At(s.mem, a + 1) + 0x1_0000 * At(s.mem, a + 2) + 0x100_0000 * At(s.mem, a + 3))
      else Err(Died)
  {
    NumberTree(s, a);
    UnaryAnywhere(Deref(N(a)), 1);
    ShownText(s, Deref(N(a)));
    DereferenceMeaning(s, a);
  }

  lemma DereferenceMeaning(s: State, a: Word)
    ensures Dereference(s, a) ==
      if 0x8000_0000 <= a <= 0x8003_fffc
      then Ok(At(s.mem, a) + 0x100 * At(s.mem, a + 1) + 0x1_0000 * At(s.mem, a + 2) + 0x100_0000 * At(s.mem, a + 3))
      else Err(Died)
  {
  }

  lemma HexText(s: State, a: Word)
    ensures ExprValue(s, "0x" + Digits(a, 16)) == Ok(a)
  {
    NumberRoundTrip(a, true);
    UnaryAnywhere(Num(NumberToken(a, true)), 1);
    ShownText(s, Num(NumberToken(a, true)));
  }

  /** Capital digits count as the small ones. */
  lemma CapitalText(s: State)
    ensures ExprValue(s, "0xAF") == Ok(175) && ExprValue(s, "0xaf") == Ok(175)
  {
    CapitalNumber(s, "0xAF");
    CapitalNumber(s, "0xaf");
  }

  lemma CapitalNumber(s: State, text: string)
    requires text == "0xAF" || text == "0xaf"
    ensures ExprValue(s, text) == Ok(175)
  {
    var t := Num(Hex(text));
    assert text[..2] == "0x" && |text[2..]| == 2 && text[2..][..1][..0] == "";
    assert Fold(text[2..][..1], 16) == 10;
    assert Fold(text[2..], 16) == 175;
    UnaryAnywhere(t, 1);
    ShownText(s, t);
  }

  /** The value of each digit, by its character code. */
  lemma DigitCodes(c: char)
    ensures 48 <= c as int <= 57 ==> DigitOf(c) == c as int - 48
    ensures 65 <= c as int <= 70 ==> DigitOf(c) == c as int - 55
    ensures 97 <= c as int <= 102 ==> DigitOf(c) == c as int - 87
  {
  }

  /** The characters of words, by their codes: letters, digits and the underscore. */
  lemma CharacterCodes(c: char)
    ensures IsDigit(c) <==> 48 <= c as int <= 57
    ensures IsAlpha(c) <==> 65 <= c as int <= 90 || 97 <= c as int <= 122 || c as int == 95
    ensures IsHex(c) <==> 48 <= c as int <= 57 || 65 <= c as int <= 70 || 97 <= c as int <= 102
    ensures IsWord(c) <==> IsDigit(c) || IsAlpha(c)
  {
  }

  lemma RegisterText(s: State, i: nat)
    requires 0 < i < 32
    ensures ExprValue(s, "$" + RegName(i)) == Ok(s.gpr[i])
  {
    NameRoundTrip(s, i);
    UnaryAnywhere(Reg(RegName(i)), 1);
    ShownText(s, Reg(RegName(i)));
  }

  // The names, from the calling convention.

  lemma SpecialNames()
    ensures RegName(0) == "$0" && RegName(1) == "ra" && RegName(2) == "sp" && RegName(3) == "gp" && RegName(4) == "tp"
  {
  }

  lemma TemporaryNames()
    ensures RegName(5) == "t0" && RegName(6) == "t1" && RegName(7) == "t2"
    ensures RegName(28) == "t3" && RegName(29) == "t4" && RegName(30) == "t5" && RegName(31) == "t6"
  {
  }

  lemma ArgumentNames()
    ensures RegName(10) == "a0" && RegName(11) == "a1" && RegName(12) == "a2" && RegName(13) == "a3"
    ensures RegName(14) == "a4" && RegName(15) == "a5" && RegName(16) == "a6" && RegName(17) == "a7"
  {
  }

  lemma SavedNames()
    ensures RegName(8) == "s0" && RegName(9) == "s1" && RegName(18) == "s2" && RegName(19) == "s3"
    ensures RegName(20) == "s4" && RegName(21) == "s5" && RegName(22) == "s6" && RegName(23) == "s7"
    ensures RegName(24) == "s8" && RegName(25) == "s9" && RegName(26) == "s10" && RegName(27) == "s11"
  {
  }

  lemma PcAndZeroText(s: State)
    ensures ExprValue(s, "$" + "pc") == Ok(s.pc) && ExprValue(s, "$0") == Ok(s.gpr[0])
    ensures ExprValue(s, "$$0") == Ok(s.gpr[0])
  {
    assert Proper(Name("pc"));
    UnaryAnywhere(Reg("pc"), 1);
    ShownText(s, Reg("pc"));
    UnaryAnywhere(Zero(false), 1);
    ShownText(s, Zero(false));
    UnaryAnywhere(Zero(true), 1);
    ShownText(s, Zero(true));
  }

  /** Spaces around the parts make no difference. */
  lemma SpacedText(s: State, a: Word, op: Symbol, b: Word)
    requires LevelOf(op) > 0
    ensures ExprValue(s, " " + (D(a) + (" " + (Sign(op) + (" " + (D(b) + "")))))) == Apply(op, a, b)
  {
    NumberTree(s, a);
    NumberTree(s, b);
    BinaryTree(s, op, N(a), N(b));
    Literals(op);
    var x, y, z, gaps := Dec(D(a)), Sym(op), Dec(D(b)), [1, 1, 1, 0];
    var ts := [x, y, z];
    assert Yield(Bin(op, N(a), N(b))) == ts;
    SpacedRender(x, y, z);
    LexRender(Render(ts, gaps), ts, gaps);
    LevelsAgree(Bin(op, N(a), N(b)), 1);
    assert ts + [] == ts;
    BuildIff(ts, 1, Bin(op, N(a), N(b)), []);
  }

  lemma SpacedRender(x: Token, y: Token, z: Token)
    ensures Render([x, y, z], [1, 1, 1, 0]) == " " + (TextOf(x) + (" " + (TextOf(y) + (" " + (TextOf(z) + "")))))
  {
    assert Blanks(1) == " " && Blanks(0) == "";
    assert [x, y, z][1..] == [y, z] && [y, z][1..] == [z] && [z][1..] == [];
    assert [1, 1, 1, 0][1..] == [1, 1, 0] && [1, 1, 0][1..] == [1, 0] && [1, 0][1..] == [0];
    assert Render([], [0]) == "";
    assert Render([z], [1, 0]) == " " + (TextOf(z) + "");
    assert Render([y, z], [1, 1, 0]) == " " + (TextOf(y) + Render([z], [1, 0]));
  }

  // ---------------------------------------------------------------------------
  // Every text.

  /** expr succeeds with w exactly if the text spells a tree of the layered grammar that has the value w. */
  lemma ExprIsLayered(s: State, e: string, w: Word)
    ensures ExprValue(s, e) == Ok(w) <==>
      exists t :: Lex(e) == Scan(Yield(t), None) && Whole(t) && OrLevel(t) && Eval(s, t) == Ok(w)
  {
    ExprSucceedsIff(s, e, w);
    forall t ensures IsExpression(e, t) <==> Lex(e) == Scan(Yield(t), None) && Whole(t) && OrLevel(t) {
      LevelsAgree(t, 1);
    }
  }
}
