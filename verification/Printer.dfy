/**
 The way back: abstract expressions, printed with only the parentheses that priority and
 left associativity require, and with any spacing that keeps words apart. RoundTrip is the
 main result: expr gives every printed expression exactly its value.
 */
module Printer {
  import opened Words
  import opened Isa
  import opened Lexer
  import opened Grammar
  import opened Parsing
  import opened Evaluator

  // ---------------------------------------------------------------------------
  // Text and tokens.

  function TextOf(t: Token): string {
    match t
    case Sym(sym) => Spelling(sym)
    case Name(text) => text
    case Hex(text) => text
    case Dec(text) => text
  }

  predicate IsWordToken(t: Token) {
    !t.Sym?
  }

  function RuleOf(t: Token): Rule {
    match t
    case Sym(sym) => Literal(sym)
    case Name(_) => NameRule
    case Hex(_) => HexRule
    case Dec(_) => DecRule
  }

  /** A token the rules can produce. */
  predicate Spelled(t: Token) {
    Spells(RuleOf(t), TextOf(t))
  }

  /** Such a token, short enough to be stored. */
  predicate Proper(t: Token) {
    Spelled(t) && |TextOf(t)| <= MAX_TOKEN
  }

  function Blanks(n: nat): (s: string)
    ensures |s| == n && All(s, c => c == ' ')
  {
    seq(n, _ => ' ')
  }

  /** gaps[i] spaces before token i, and gaps[|ts|] at the end. */
  function Render(ts: seq<Token>, gaps: seq<nat>): string
    requires |gaps| == |ts| + 1
  {
    if ts == [] then Blanks(gaps[0]) else Blanks(gaps[0]) + (TextOf(ts[0]) + Render(ts[1..], gaps[1..]))
  }

  /** Neighbouring words have a space between them. */
  predicate Apart(ts: seq<Token>, gaps: seq<nat>)
    requires |gaps| == |ts| + 1
  {
    forall i :: 0 < i < |ts| && IsWordToken(ts[i - 1]) && IsWordToken(ts[i]) ==> gaps[i] > 0
  }

  /** What follows does not continue a word. */
  predicate Breaks(s: string) {
    s == "" || !IsWord(s[0])
  }

  lemma SpellingStarts(s: Symbol)
    ensures !IsWord(Spelling(s)[0]) && Spelling(s)[0] != ' '
  {
  }

  lemma WordAlone(t: Token, rest: string)
    requires Spelled(t) && IsWordToken(t) && Breaks(rest)
    ensures var s := TextOf(t) + rest;
      && TextOf(t) != "" && Span(s, IsWord) == |TextOf(t)| && s[..|TextOf(t)|] == TextOf(t) && s[0] == TextOf(t)[0]
      && (|TextOf(t)| >= 2 ==> s[2..|TextOf(t)|] == TextOf(t)[2..] && s[..2] == TextOf(t)[..2])
  {
    var s := TextOf(t) + rest;
    assert s[..|TextOf(t)|] == TextOf(t);
    SpelledWord(RuleOf(t), TextOf(t));
    WholeRun(s, |TextOf(t)|);
  }

  lemma OnlyOwnWordRule(t: Token, rest: string, r: Rule)
    requires Spelled(t) && IsWordToken(t) && Breaks(rest)
    ensures Recognise(r, TextOf(t) + rest) == if r == RuleOf(t) then |TextOf(t)| else 0
  {
    WordAlone(t, rest);
    if r.Literal? {
      SpellingStarts(r.sym);
    } else if t.Hex? {
      assert TextOf(t)[..2][1] == 'x';
    } else if t.Dec? && |TextOf(t)| >= 3 {
      assert IsDigit(TextOf(t)[1]);
    }
  }

  lemma OnlyOwnSymbolRule(sym: Symbol, rest: string, r: Rule)
    ensures Recognise(r, Spelling(sym) + rest) == if r == Literal(sym) then |Spelling(sym)| else 0
  {
    SpellingStarts(sym);
    assert (Spelling(sym) + rest)[0] == Spelling(sym)[0];
  }

  /** No rule but its own matches where a proper token starts. */
  lemma OnlyOwnRule(t: Token, rest: string, r: Rule)
    requires Spelled(t) && (IsWordToken(t) ==> Breaks(rest))
    ensures Recognise(r, TextOf(t) + rest) == if r == RuleOf(t) then |TextOf(t)| else 0
  {
    if t.Sym? { OnlyOwnSymbolRule(t.sym, rest, r); } else { OnlyOwnWordRule(t, rest, r); }
  }

  function RuleIndex(r: Rule): (i: nat)
    ensures i < RULES && RuleAt(i) == r
    ensures forall j :: 0 <= j < i ==> RuleAt(j) != r
  {
    match r
    case Spaces => 0
    case Literal(PLUS) => 1
    case Literal(EQEQ) => 2
    case Literal(ANDAND) => 3
    case Literal(OROR) => 4
    case Literal(NOTEQ) => 5
    case Literal(MINUS) => 6
    case Literal(STAR) => 7
    case Literal(SLASH) => 8
    case Literal(LPAR) => 9
    case Literal(RPAR) => 10
    case Literal(DOLLAR) => 11
    case NameRule => 12
    case HexRule => 13
    case DecRule => 14
  }

  lemma FirstIsOwn(t: Token, rest: string)
    requires Spelled(t) && (IsWordToken(t) ==> Breaks(rest))
    ensures FirstRule(TextOf(t) + rest, 0) == RuleIndex(RuleOf(t))
    ensures Recognise(RuleOf(t), TextOf(t) + rest) == |TextOf(t)| > 0
  {
    var s := TextOf(t) + rest;
    var i := RuleIndex(RuleOf(t));
    forall j | 0 <= j <= i ensures Recognise(RuleAt(j), s) == if j == i then |TextOf(t)| else 0 {
      OnlyOwnRule(t, rest, RuleAt(j));
    }
    TextStarts(t);
    FirstRuleIs(s, 0, i);
  }

  /** LexStep for a token rule, with the two parts of the text named. */
  lemma LexTo(s: string, i: nat, text: string, rest: string)
    requires s != "" && i == FirstRule(s, 0) < RULES && |text| == Recognise(RuleAt(i), s) <= MAX_TOKEN
    requires !RuleAt(i).Spaces? && text == s[..|text|] && rest == s[|text|..]
    ensures Lex(s) == Scan([Lexer.MakeToken(RuleAt(i), text)] + Lex(rest).tokens, Lex(rest).error)
  {
    LexStep(s, i, |text|);
  }

  lemma LexToken(t: Token, rest: string)
    requires Proper(t) && (IsWordToken(t) ==> Breaks(rest))
    ensures Lex(TextOf(t) + rest) == Scan([t] + Lex(rest).tokens, Lex(rest).error)
  {
    var s := TextOf(t) + rest;
    FirstIsOwn(t, rest);
    assert s[..|TextOf(t)|] == TextOf(t) && s[|TextOf(t)|..] == rest;
    LexTo(s, RuleIndex(RuleOf(t)), TextOf(t), rest);
    assert Lexer.MakeToken(RuleOf(t), TextOf(t)) == t;
  }

  lemma LexBlanks(n: nat, s: string)
    requires s == "" || s[0] != ' '
    ensures Lex(Blanks(n) + s) == Lex(s)
  {
    if n == 0 {
      assert Blanks(n) + s == s;
    } else {
      var all := Blanks(n) + s;
      SameRun(all, c => c == ' ', n);
      assert Recognise(Spaces, all) == n;
      FirstRuleIs(all, 0, 0);
      assert all[n..] == s;
    }
  }

  lemma LexOnlyBlanks(n: nat)
    ensures Lex(Blanks(n)) == Scan([], None)
  {
    LexBlanks(n, "");
    assert Blanks(n) + "" == Blanks(n);
  }

  lemma LexPrinted(s: string, n: nat, t: Token, tail: string)
    requires Proper(t) && (IsWordToken(t) ==> Breaks(tail)) && s == Blanks(n) + (TextOf(t) + tail)
    ensures Lex(s) == Scan([t] + Lex(tail).tokens, Lex(tail).error)
  {
    TextStarts(t);
    LexBlanks(n, TextOf(t) + tail);
    LexToken(t, tail);
  }

  lemma Joined(all: Scan, rest: Scan, ts: seq<Token>)
    requires ts != [] && all == Scan([ts[0]] + rest.tokens, rest.error) && rest == Scan(ts[1..], None)
    ensures all == Scan(ts, None)
  {
    assert ts == [ts[0]] + ts[1..];
  }

  lemma RenderBreaks(ts: seq<Token>, gaps: seq<nat>)
    requires |gaps| == |ts| + 1 && (forall i :: 0 <= i < |ts| ==> Proper(ts[i]))
    ensures ts == [] || !IsWordToken(ts[0]) || gaps[0] > 0 ==> Breaks(Render(ts, gaps))
  {
    if ts != [] && !IsWordToken(ts[0]) { SpellingStarts(ts[0].sym); }
  }

  lemma TextStarts(t: Token)
    requires Spelled(t)
    ensures TextOf(t) != "" && TextOf(t)[0] != ' '
  {
    if t.Sym? { SpellingStarts(t.sym); } else { SpelledWord(RuleOf(t), TextOf(t)); }
  }

  /** ts is printed as s with these gaps. */
  predicate Prints(s: string, ts: seq<Token>, gaps: seq<nat>) {
    && |gaps| == |ts| + 1 && (forall i :: 0 <= i < |ts| ==> Proper(ts[i]))
    && Apart(ts, gaps) && s == Render(ts, gaps)
  }

  lemma TailPrints(s: string, ts: seq<Token>, gaps: seq<nat>) returns (tail: string)
    requires Prints(s, ts, gaps) && ts != []
    ensures Prints(tail, ts[1..], gaps[1..]) && s == Blanks(gaps[0]) + (TextOf(ts[0]) + tail)
    ensures Proper(ts[0]) && (IsWordToken(ts[0]) ==> Breaks(tail))
  {
    tail := Render(ts[1..], gaps[1..]);
    assert forall i :: 0 <= i < |ts[1..]| ==> ts[1..][i] == ts[i + 1];
    RenderBreaks(ts[1..], gaps[1..]);
    assert |ts| > 1 && IsWordToken(ts[0]) && IsWordToken(ts[1]) ==> gaps[1] > 0;
  }

  /** Printed tokens are read back, whatever the spacing. */
  lemma {:induction false} LexRender(s: string, ts: seq<Token>, gaps: seq<nat>)
    requires Prints(s, ts, gaps)
    ensures Lex(s) == Scan(ts, None)
    decreases |ts|
  {
    if ts == [] {
      LexOnlyBlanks(gaps[0]);
    } else {
      var tail := TailPrints(s, ts, gaps);
      LexRender(tail, ts[1..], gaps[1..]);
      LexPrinted(s, gaps[0], ts[0], tail);
      Joined(Lex(s), Lex(tail), ts);
    }
  }

  lemma BlanksAdd(n: nat, m: nat, tail: string)
    ensures Blanks(n) + (Blanks(m) + tail) == Blanks(n + m) + tail
    ensures Blanks(n) + Blanks(m) == Blanks(n + m)
  {
  }

  lemma MoreBlanks(s: string, n: nat, ts: seq<Token>, gaps: seq<nat>)
    requires Prints(s, ts, gaps)
    ensures Prints(Blanks(n) + s, ts, [n + gaps[0]] + gaps[1..])
  {
    var wider := [n + gaps[0]] + gaps[1..];
    assert wider[1..] == gaps[1..];
    BlanksAdd(n, gaps[0], if ts == [] then "" else TextOf(ts[0]) + Render(ts[1..], gaps[1..]));
  }

  lemma WordShows(s: string, ts: seq<Token>, gaps: seq<nat>)
    requires Prints(s, ts, gaps) && ts != [] && IsWordToken(ts[0]) && gaps[0] == 0
    ensures !Breaks(s)
  {
    SpelledWord(RuleOf(ts[0]), TextOf(ts[0]));
    assert s[0] == TextOf(ts[0])[0];
  }

  lemma MoreToken(t: Token, s: string, ts: seq<Token>, gaps: seq<nat>)
    requires Prints(s, ts, gaps) && Proper(t) && (IsWordToken(t) ==> Breaks(s))
    ensures Prints(TextOf(t) + s, [t] + ts, [0] + gaps)
  {
    assert ([t] + ts)[1..] == ts && ([0] + gaps)[1..] == gaps;
    assert Blanks(0) + (TextOf(t) + s) == TextOf(t) + s;
    if ts != [] && IsWordToken(ts[0]) && gaps[0] == 0 {
      WordShows(s, ts, gaps);
    }
  }

  /** The token a rule records is proper, and words end where they end. */
  lemma RecordedToken(s: string, r: Rule, n: nat)
    requires !r.Spaces? && n == Recognise(r, s) && 0 < n <= MAX_TOKEN
    ensures var t := Lexer.MakeToken(r, s[..n]);
      TextOf(t) == s[..n] && Proper(t) && (IsWordToken(t) ==> Breaks(s[n..]))
  {
    RecogniseIsLongest(r, s, 0);
  }

  lemma RecordedBlanks(s: string, n: nat)
    requires n == Recognise(Spaces, s)
    ensures s == Blanks(n) + s[n..]
  {
  }

  /** Some rule matches at the head of s, and the token it makes is short enough. */
  predicate Begins(s: string) {
    var i := FirstRule(s, 0);
    i < RULES && (RuleAt(i).Spaces? || Recognise(RuleAt(i), s) <= MAX_TOKEN)
  }

  /** Such a text begins with spaces that are dropped, or with a token. */
  lemma LexHead(s: string) returns (n: nat, t: Option<Token>)
    requires s != "" && Begins(s)
    ensures 0 < n <= |s|
    ensures t.None? ==> s == Blanks(n) + s[n..] && Lex(s) == Lex(s[n..])
    ensures t.Some? ==> s == TextOf(t.value) + s[n..] && Proper(t.value) && (IsWordToken(t.value) ==> Breaks(s[n..]))
    ensures t.Some? ==> Lex(s) == Scan([t.value] + Lex(s[n..]).tokens, Lex(s[n..]).error)
  {
    var i := FirstRule(s, 0);
    n := Recognise(RuleAt(i), s);
    if RuleAt(i).Spaces? {
      t := None;
      BlankHead(s, i, n);
    } else {
      t := Some(Lexer.MakeToken(RuleAt(i), s[..n]));
      TokenHead(s, i, s[..n], s[n..]);
      LexTo(s, i, s[..n], s[n..]);
    }
  }

  lemma BlankHead(s: string, i: nat, n: nat)
    requires s != "" && i == FirstRule(s, 0) < RULES && n == Recognise(RuleAt(i), s) && RuleAt(i).Spaces?
    ensures s == Blanks(n) + s[n..] && Lex(s) == Lex(s[n..])
  {
    LexStep(s, i, n);
    RecordedBlanks(s, n);
  }

  lemma TokenHead(s: string, i: nat, text: string, rest: string)
    requires s != "" && i == FirstRule(s, 0) < RULES && |text| == Recognise(RuleAt(i), s) <= MAX_TOKEN
    requires !RuleAt(i).Spaces? && text == s[..|text|] && rest == s[|text|..]
    ensures var t := Lexer.MakeToken(RuleAt(i), text);
      s == TextOf(t) + rest && Proper(t) && (IsWordToken(t) ==> Breaks(rest))
  {
    RecordedToken(s, RuleAt(i), |text|);
  }

  /** A text that scans without error is a rendering of its tokens. */
  lemma {:induction false} LexSound(s: string, scan: Scan) returns (gaps: seq<nat>)
    requires scan == Lex(s) && scan.error == None
    ensures Prints(s, scan.tokens, gaps)
    decreases |s|
  {
    if s == "" {
      gaps := [0];
    } else {
      var n, t := LexHead(s);
      var rest := Lex(s[n..]);
      var after := LexSound(s[n..], rest);
      if t.None? {
        MoreBlanks(s[n..], n, rest.tokens, after);
        gaps := [n + after[0]] + after[1..];
      } else {
        MoreToken(t.value, s[n..], rest.tokens, after);
        gaps := [0] + after;
      }
    }
  }

  /** Exactly which texts scan to which tokens. */
  lemma LexIff(s: string, ts: seq<Token>)
    ensures Lex(s) == Scan(ts, None) <==> exists gaps :: Prints(s, ts, gaps)
  {
    if Lex(s) == Scan(ts, None) {
      var gaps := LexSound(s, Lex(s));
    }
    forall gaps | Prints(s, ts, gaps) ensures Lex(s) == Scan(ts, None) {
      LexRender(s, ts, gaps);
    }
  }

  // ---------------------------------------------------------------------------
  // Abstract expressions.

  datatype Ast =
    | Const(w: Word, hex: bool)
    | ProgramCounter
    | Gpr(i: nat)
    | Negate(a: Ast)
    | Fetch(a: Ast)
    | Binary(op: Symbol, l: Ast, r: Ast)

  predicate Sensible(a: Ast) {
    match a
    case Gpr(i) => i < 32
    case Negate(b) => Sensible(b)
    case Fetch(b) => Sensible(b)
    case Binary(op, l, r) => Priority(op) > 0 && Sensible(l) && Sensible(r)
    case _ => true
  }

  /** The value of an abstract expression, operands left to right. */
  function Denote(s: State, a: Ast): Value
    requires Sensible(a)
  {
    match a
    case Const(w, _) => Ok(w)
    case ProgramCounter => Ok(s.pc)
    case Gpr(i) => Ok(s.gpr[i])
    case Negate(b) =>
      var v := Denote(s, b);
      if v.Ok? then Ok(Sub(0, v.w)) else v
    case Fetch(b) =>
      var v := Denote(s, b);
      if v.Ok? then Dereference(s, v.w) else v
    case Binary(op, l, r) =>
      var x := Denote(s, l);
      if x.Err? then x
      else
        var y := Denote(s, r);
        if y.Err? then y else Apply(op, x.w, y.w)
  }

  function DigitChar(d: nat): char
    requires d < 16
  {
    if d < 10 then '0' + d as char else 'a' + (d - 10) as char
  }

  function Digits(n: nat, base: nat): (t: string)
    requires 2 <= base <= 16
    ensures t != ""
  {
    if n < base then [DigitChar(n)] else Digits(n / base, base) + [DigitChar(n % base)]
  }

  function NumberToken(w: Word, hex: bool): Token {
    if hex then Hex("0x" + Digits(w, 16)) else Dec(Digits(w, 10))
  }

  /**
   The tree of an abstract expression where operators of priority above p are expected: a
   group only where the grammar would not derive the bare operator.
   */
  function Bracket(a: Ast, p: nat): Tree
    requires Sensible(a)
  {
    match a
    case Const(w, hex) => Num(NumberToken(w, hex))
    case ProgramCounter => Reg("pc")
    case Gpr(i) => if i == 0 then Zero(false) else Reg(RegName(i))
    case Negate(b) => Neg(Bracket(b, 6))
    case Fetch(b) => Deref(Bracket(b, 6))
    case Binary(op, l, r) =>
      var bare := Bin(op, Bracket(l, Priority(op) - 1), Bracket(r, Priority(op)));
      if Priority(op) > p then bare else Group(bare)
  }

  // ---------------------------------------------------------------------------
  // Numbers and names survive printing.

  lemma DigitRoundTrip(d: nat)
    requires d < 16
    ensures DigitOf(DigitChar(d)) == d && IsHex(DigitChar(d)) && (d < 10 ==> IsDigit(DigitChar(d)))
  {
  }

  lemma FoldSnoc(t: string, c: char, base: nat)
    ensures Fold(t + [c], base) == Fold(t, base) * base + DigitOf(c)
  {
    assert (t + [c])[..|t|] == t;
  }

  lemma {:induction false} FoldDecimal(n: nat)
    ensures Fold(Digits(n, 10), 10) == n
    decreases n
  {
    if n < 10 {
      DigitRoundTrip(n);
      FoldSnoc("", DigitChar(n), 10);
    } else {
      FoldDecimal(n / 10);
      DigitRoundTrip(n % 10);
      FoldSnoc(Digits(n / 10, 10), DigitChar(n % 10), 10);
    }
  }

  lemma {:induction false} FoldHexadecimal(n: nat)
    ensures Fold(Digits(n, 16), 16) == n
    decreases n
  {
    if n < 16 {
      DigitRoundTrip(n);
      FoldSnoc("", DigitChar(n), 16);
    } else {
      FoldHexadecimal(n / 16);
      DigitRoundTrip(n % 16);
      FoldSnoc(Digits(n / 16, 16), DigitChar(n % 16), 16);
    }
  }

  lemma {:induction false} DigitsAreDigits(n: nat, base: nat)
    requires 2 <= base <= 16
    ensures All(Digits(n, base), IsHex) && (base <= 10 ==> All(Digits(n, base), IsDigit))
    decreases n
  {
    if n < base {
    } else {
      DigitsAreDigits(n / base, base);
    }
  }

  function Pow8(k: nat): nat {
    if k == 0 then 1 else 8 * Pow8(k - 1)
  }

  lemma {:induction false} DigitsShort(n: nat, base: nat, k: nat)
    requires 8 <= base <= 16 && n < 8 * Pow8(k)
    ensures |Digits(n, base)| <= k + 1
    decreases n
  {
    if n < base {
    } else {
      assert n / base <= n / 8;
      if k != 0 { DigitsShort(n / base, base, k - 1); }
    }
  }

  lemma WordIsShort(w: Word)
    ensures |Digits(w, 10)| <= 11 && |Digits(w, 16)| <= 11
  {
    assert Pow8(5) == 0x8000;
    assert 8 * Pow8(10) == 0x2_0000_0000;
    DigitsShort(w, 10, 10);
    DigitsShort(w, 16, 10);
  }

  lemma DecimalRoundTrip(w: Word)
    ensures Number(NumberToken(w, false)) == w && Proper(NumberToken(w, false))
  {
    WordIsShort(w);
    DigitsAreDigits(w, 10);
    FoldDecimal(w);
  }

  lemma HexadecimalRoundTrip(w: Word)
    ensures Number(NumberToken(w, true)) == w && Proper(NumberToken(w, true))
  {
    WordIsShort(w);
    DigitsAreDigits(w, 16);
    FoldHexadecimal(w);
    assert ("0x" + Digits(w, 16))[2..] == Digits(w, 16);
    assert ("0x" + Digits(w, 16))[..2] == "0x";
  }

  lemma NumberRoundTrip(w: Word, hex: bool)
    ensures Number(NumberToken(w, hex)) == w && Proper(NumberToken(w, hex))
  {
    if hex { HexadecimalRoundTrip(w); } else { DecimalRoundTrip(w); }
  }

  /** The register a name belongs to, from its letters. */
  function NameIndex(name: string): nat {
    if |name| < 2 then 0
    else if name[0] == '$' then 0
    else if name[0] == 'r' then 1
    else if name[0] == 'g' then 3
    else if name[0] == 'a' then 10 + DigitOf(name[1])
    else if name[0] == 't' then
      (if name[1] == 'p' then 4 else if DigitOf(name[1]) <= 2 then 5 + DigitOf(name[1]) else 25 + DigitOf(name[1]))
    else if name[1] == 'p' then 2
    else if |name| == 3 then 26 + DigitOf(name[2])
    else if DigitOf(name[1]) <= 1 then 8 + DigitOf(name[1])
    else 16 + DigitOf(name[1])
  }

  lemma NamesDistinct(i: nat)
    requires i < 32
    ensures NameIndex(RegName(i)) == i && 2 <= |RegName(i)| <= 3 && RegName(i) != "pc"
    ensures i != 0 ==> Spells(NameRule, RegName(i))
  {
  }

  lemma NameRoundTrip(s: State, i: nat)
    requires i < 32
    ensures RegIndex(RegName(i), 0) == i && RegValue(s, RegName(i)) == Some(s.gpr[i])
    ensures Proper(Name(RegName(i))) <==> i != 0
  {
    NamesDistinct(i);
    var r := RegIndex(RegName(i), 0);
    if r < 32 { NamesDistinct(r); }
  }

  // ---------------------------------------------------------------------------
  // The tree of an abstract expression.

  lemma {:induction false} BracketSound(s: State, a: Ast, p: nat)
    requires Sensible(a)
    ensures Whole(Bracket(a, p)) && InGrammar(Bracket(a, p), p) && Eval(s, Bracket(a, p)) == Denote(s, a)
  {
    match a {
      case Const(w, hex) => NumberRoundTrip(w, hex);
      case ProgramCounter =>
      case Gpr(i) => if i != 0 { NameRoundTrip(s, i); }
      case Negate(b) => BracketSound(s, b, 6);
      case Fetch(b) => BracketSound(s, b, 6);
      case Binary(op, l, r) =>
        BracketSound(s, l, Priority(op) - 1);
        BracketSound(s, r, Priority(op));
        var bare := Bin(op, Bracket(l, Priority(op) - 1), Bracket(r, Priority(op)));
        if Priority(op) <= p { Weaken(bare, Priority(op) - 1, 1); }
    }
  }

  // Groups do not matter to the value, only to how the rest is read.

  /** t without its groups. */
  function Strip(t: Tree): Tree {
    match t
    case Neg(u) => Neg(Strip(u))
    case Deref(u) => Deref(Strip(u))
    case Group(u) => Strip(u)
    case Bin(op, l, r) => Bin(op, Strip(l), Strip(r))
    case _ => t
  }

  lemma {:induction false} StripKeepsValue(s: State, t: Tree)
    requires Whole(t)
    ensures Eval(s, Strip(t)) == Eval(s, t)
  {
    match t {
      case Neg(u) => StripKeepsValue(s, u);
      case Deref(u) => StripKeepsValue(s, u);
      case Group(u) => StripKeepsValue(s, u);
      case Bin(_, l, r) =>
        StripKeepsValue(s, l);
        StripKeepsValue(s, r);
      case _ =>
    }
  }

  /** The tree of an abstract expression without any group; it need not be derivable. */
  function Bare(a: Ast): Tree
    requires Sensible(a)
  {
    match a
    case Const(w, hex) => Num(NumberToken(w, hex))
    case ProgramCounter => Reg("pc")
    case Gpr(i) => if i == 0 then Zero(false) else Reg(RegName(i))
    case Negate(b) => Neg(Bare(b))
    case Fetch(b) => Deref(Bare(b))
    case Binary(op, l, r) => Bin(op, Bare(l), Bare(r))
  }

  lemma {:induction false} StripBracket(a: Ast, p: nat)
    requires Sensible(a)
    ensures Strip(Bracket(a, p)) == Bare(a)
  {
    match a {
      case Negate(b) => StripBracket(b, 6);
      case Fetch(b) => StripBracket(b, 6);
      case Binary(op, l, r) =>
        StripBracket(l, Priority(op) - 1);
        StripBracket(r, Priority(op));
      case _ =>
    }
  }

  /** At another level an expression is the same, or has one group more or less. */
  lemma OneGroup(a: Ast, p: nat)
    requires Sensible(a)
    ensures Bracket(a, p) == if Bracket(a, p).Group? then Group(Bracket(a, 1)) else Bracket(a, 1)
    ensures !Bracket(a, 1).Group?
  {
  }

  /**
   Bracket puts the fewest parentheses: every derivable tree that groups the same operators
   in the same way has at least as many tokens, and is the same tree if it has as many.
   */
  lemma {:induction false} FewestParentheses(a: Ast, t: Tree, p: nat)
    requires Sensible(a) && Whole(t) && InGrammar(t, p) && Strip(t) == Bare(a)
    ensures |Yield(Bracket(a, p))| <= |Yield(t)|
    ensures |Yield(Bracket(a, p))| == |Yield(t)| ==> t == Bracket(a, p)
  {
    match t {
      case Neg(u) => FewestParentheses(a.a, u, 6);
      case Deref(u) => FewestParentheses(a.a, u, 6);
      case Group(u) =>
        FewestParentheses(a, u, 1);
        OneGroup(a, p);
      case Bin(op, l, r) =>
        FewestParentheses(a.l, l, Priority(op) - 1);
        FewestParentheses(a.r, r, Priority(op));
      case _ =>
    }
  }

  /** So without one of its parentheses a text is another expression, or none. */
  lemma GroupsAreNeeded(a: Ast, e: string, t: Tree)
    requires Sensible(a) && |Lex(e).tokens| < |Yield(Bracket(a, 1))| && IsExpression(e, t)
    ensures Strip(t) != Bare(a)
  {
    if Strip(t) == Bare(a) { FewestParentheses(a, t, 1); }
  }

  predicate AllProper(ts: seq<Token>) {
    forall i :: 0 <= i < |ts| ==> Proper(ts[i])
  }

  lemma ProperAppend(a: seq<Token>, b: seq<Token>)
    requires AllProper(a) && AllProper(b)
    ensures AllProper(a + b)
  {
  }

  lemma LeafProper(s: State, a: Ast, p: nat)
    requires Sensible(a) && (a.Const? || a.ProgramCounter? || a.Gpr?)
    ensures AllProper(Yield(Bracket(a, p)))
  {
    match a {
      case Const(w, hex) => NumberRoundTrip(w, hex);
      case ProgramCounter => assert Proper(Name("pc"));
      case Gpr(i) =>
        if i != 0 { NameRoundTrip(s, i); } else { assert Proper(Dec("0")); }
    }
  }

  lemma {:induction false} BracketProper(s: State, a: Ast, p: nat)
    requires Sensible(a)
    ensures AllProper(Yield(Bracket(a, p)))
  {
    match a {
      case Negate(b) => BracketProper(s, b, 6);
      case Fetch(b) => BracketProper(s, b, 6);
      case Binary(op, l, r) =>
        BracketProper(s, l, Priority(op) - 1);
        BracketProper(s, r, Priority(op));
        ProperAppend(Yield(Bracket(l, Priority(op) - 1)), [Sym(op)]);
        ProperAppend(Yield(Bracket(l, Priority(op) - 1)) + [Sym(op)], Yield(Bracket(r, Priority(op))));
      case _ => LeafProper(s, a, p);
    }
  }

  /**
   The round trip: print an abstract expression with the parentheses it needs and any
   spacing that keeps words apart, and expr returns its value, or the error of its
   evaluation (division by zero among them) and no other.
   */
  lemma RoundTrip(s: State, a: Ast, text: string, gaps: seq<nat>)
    requires Sensible(a) && Prints(text, Yield(Bracket(a, 1)), gaps)
    ensures ExprValue(s, text) == Denote(s, a)
  {
    var t := Bracket(a, 1);
    BracketSound(s, a, 1);
    LexRender(text, Yield(t), gaps);
    assert Yield(t) + [] == Yield(t);
    BuildIff(Yield(t), 1, t, []);
  }

  /** Such texts exist: one space around every token will do. */
  lemma Printable(s: State, a: Ast) returns (text: string, gaps: seq<nat>)
    requires Sensible(a)
    ensures Prints(text, Yield(Bracket(a, 1)), gaps)
  {
    BracketProper(s, a, 1);
    gaps := seq(|Yield(Bracket(a, 1))| + 1, _ => 1);
    text := Render(Yield(Bracket(a, 1)), gaps);
  }

  // ---------------------------------------------------------------------------
  // Exactly when expr succeeds, and what it reports when it does not.

  /** e spells the whole tree t. */
  predicate IsExpression(e: string, t: Tree) {
    Lex(e) == Scan(Yield(t), None) && Whole(t) && InGrammar(t, 1)
  }

  lemma ExprSucceedsIff(s: State, e: string, w: Word)
    ensures ExprValue(s, e) == Ok(w) <==> exists t :: IsExpression(e, t) && Eval(s, t) == Ok(w)
  {
    var ts := Lex(e).tokens;
    var (t, rest) := BuildExp(ts, 1);
    BuildIff(ts, 1, t, rest);
    if ExprValue(s, e) == Ok(w) {
      OnlyWholeTreesHaveValues(s, t, 1);
      assert Yield(t) + [] == Yield(t);
      assert IsExpression(e, t);
    }
    forall u | IsExpression(e, u) && Eval(s, u) == Ok(w) ensures ExprValue(s, e) == Ok(w) {
      assert Yield(u) + [] == Yield(u);
      BuildIff(ts, 1, u, []);
    }
  }
}
