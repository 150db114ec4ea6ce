/**
 Which error code each kind of wrong text gets, with the characters written out.
 */
module ErrorTexts {
  import opened Words
  import opened Isa
  import opened Lexer
  import opened Grammar
  import opened Parsing
  import opened Evaluator
  import opened Printer
  import opened Failures
  import opened Levels
  import opened Texts

  /** Tokens written without spaces, read as t up to rest, give the error e. */
  lemma FailText(s: State, ts: seq<Token>, text: string, t: Tree, rest: seq<Token>, e: Error)
    requires Written(ts, text) && FailsWith(s, ts, t, rest, e)
    ensures ExprValue(s, text) == Err(e)
  {
    WrittenPrints(ts, text);
    assert PrintedAs(text, ts);
    ExprFailsIff(s, text, e);
  }

  lemma EmptyText(s: State)
    ensures ExprValue(s, "") == Err(InvalidExp)
  {
    assert Yield(Bad(InvalidExp)) + [] == [];
    FailText(s, [], "", Bad(InvalidExp), [], InvalidExp);
  }

  // ---------------------------------------------------------------------------
  // A missing operand.

  lemma OperatorAlone(s: State, op: Symbol)
    requires op in {PLUS, SLASH, EQEQ, NOTEQ, ANDAND, OROR}
    ensures ExprValue(s, Sign(op)) == Err(InvalidExp)
  {
    Literals(op);
    WrittenOne(Sym(op));
    assert [Sym(op)] == Yield(Bad(InvalidExp)) + [Sym(op)];
    FailText(s, [Sym(op)], Sign(op), Bad(InvalidExp), [Sym(op)], InvalidExp);
  }

  lemma PrefixAloneText(s: State)
    ensures ExprValue(s, "-") == Err(InvalidExp) && ExprValue(s, "*") == Err(InvalidExp)
  {
    Literals(PLUS);
    WrittenOne(Sym(MINUS));
    WrittenOne(Sym(STAR));
    assert [Sym(MINUS)] == Yield(Neg(Bad(InvalidExp))) + [];
    assert [Sym(STAR)] == Yield(Deref(Bad(InvalidExp))) + [];
    FailText(s, [Sym(MINUS)], "-", Neg(Bad(InvalidExp)), [], InvalidExp);
    FailText(s, [Sym(STAR)], "*", Deref(Bad(InvalidExp)), [], InvalidExp);
  }

  lemma RightOperandMissing(s: State, a: Word, op: Symbol)
    requires LevelOf(op) > 0
    ensures ExprValue(s, D(a) + Sign(op)) == Err(InvalidExp)
  {
    NumberTree(s, a);
    Literals(op);
    var n := Dec(D(a));
    WrittenOne(n);
    WrittenAfter([n], D(a), op);
    var t := Bin(op, N(a), Bad(InvalidExp));
    assert [n] + [Sym(op)] == Yield(t) + [];
    Derived(op, N(a), Bad(InvalidExp));
    assert Stuck(Bad(InvalidExp), []) && Stuck(t, []);
    assert Eval(s, Bad(InvalidExp)) == Err(InvalidExp) && Eval(s, t) == Err(InvalidExp);
    FailText(s, [n] + [Sym(op)], D(a) + Sign(op), t, [], InvalidExp);
  }

  lemma Derived(op: Symbol, l: Tree, r: Tree)
    requires LevelOf(op) > 0 && Whole(l) && UnaryLevel(l) && UnaryLevel(r)
    ensures InGrammar(Bin(op, l, r), 1)
  {
    UnaryAnywhere(l, LevelOf(op));
    UnaryAnywhere(r, LevelOf(op) + 1);
    BinLevels(op, l, r, 1);
    LevelsAgree(Bin(op, l, r), 1);
  }

  // ---------------------------------------------------------------------------
  // Parentheses.

  lemma OpenAlone(s: State)
    ensures ExprValue(s, "(") == Err(InvalidExp) && ExprValue(s, ")") == Err(InvalidExp)
  {
    Literals(PLUS);
    WrittenOne(Sym(LPAR));
    WrittenOne(Sym(RPAR));
    assert [Sym(LPAR)] == Yield(Inside(Bad(InvalidExp))) + [];
    assert [Sym(RPAR)] == Yield(Bad(InvalidExp)) + [Sym(RPAR)];
    FailText(s, [Sym(LPAR)], "(", Inside(Bad(InvalidExp)), [], InvalidExp);
    FailText(s, [Sym(RPAR)], ")", Bad(InvalidExp), [Sym(RPAR)], InvalidExp);
  }

  lemma NotClosed(s: State, a: Word)
    ensures ExprValue(s, "(" + D(a)) == Err(InvalidExp)
  {
    NumberTree(s, a);
    Literals(PLUS);
    var n := Dec(D(a));
    WrittenOne(n);
    WrittenBefore(LPAR, [n], D(a));
    UnaryAnywhere(N(a), 1);
    LevelsAgree(N(a), 1);
    assert [Sym(LPAR)] + [n] == Yield(Unclosed(N(a), InvalidExp)) + [];
    FailText(s, [Sym(LPAR)] + [n], "(" + D(a), Unclosed(N(a), InvalidExp), [], InvalidExp);
  }

  /** Something else stands where the parenthesis should be closed. */
  lemma WronglyClosed(s: State, a: Word)
    ensures ExprValue(s, "(" + D(a) + "(") == Err(NotBnf)
  {
    NumberTree(s, a);
    Literals(PLUS);
    var n := Dec(D(a));
    WrittenOne(n);
    WrittenBefore(LPAR, [n], D(a));
    WrittenAfter([Sym(LPAR)] + [n], "(" + D(a), LPAR);
    UnaryAnywhere(N(a), 1);
    LevelsAgree(N(a), 1);
    var ts := [Sym(LPAR)] + [n] + [Sym(LPAR)];
    assert ts == Yield(Unclosed(N(a), NotBnf)) + [Sym(LPAR)];
    FailText(s, ts, "(" + D(a) + "(", Unclosed(N(a), NotBnf), [Sym(LPAR)], NotBnf);
  }

  /** Text is left over behind a whole expression. */
  lemma LeftOver(s: State, a: Word)
    ensures ExprValue(s, D(a) + ")") == Err(NotBnf)
  {
    NumberTree(s, a);
    Literals(PLUS);
    var n := Dec(D(a));
    WrittenOne(n);
    WrittenAfter([n], D(a), RPAR);
    UnaryAnywhere(N(a), 1);
    LevelsAgree(N(a), 1);
    assert [n] + [Sym(RPAR)] == Yield(N(a)) + [Sym(RPAR)];
    FailText(s, [n] + [Sym(RPAR)], D(a) + ")", N(a), [Sym(RPAR)], NotBnf);
  }

  // ---------------------------------------------------------------------------
  // Names and registers.

  lemma NameAlone(s: State, name: string)
    requires Proper(Name(name))
    ensures ExprValue(s, name) == Err(InvalidExp)
  {
    WrittenOne(Name(name));
    assert [Name(name)] == Yield(Bad(InvalidExp)) + [Name(name)];
    FailText(s, [Name(name)], name, Bad(InvalidExp), [Name(name)], InvalidExp);
  }

  lemma DollarAlone(s: State)
    ensures ExprValue(s, "$") == Err(InvalidExp) && ExprValue(s, "$" + "$") == Err(InvalidExp)
  {
    Literals(PLUS);
    WrittenOne(Sym(DOLLAR));
    WrittenBefore(DOLLAR, [Sym(DOLLAR)], "$");
    var two := [Sym(DOLLAR)] + [Sym(DOLLAR)];
    assert [Sym(DOLLAR)] == Yield(Bad(InvalidExp)) + [Sym(DOLLAR)] && two == Yield(Bad(InvalidExp)) + two;
    FailText(s, [Sym(DOLLAR)], "$", Bad(InvalidExp), [Sym(DOLLAR)], InvalidExp);
    FailText(s, two, "$" + "$", Bad(InvalidExp), two, InvalidExp);
  }

  lemma UnknownRegister(s: State, name: string)
    requires Proper(Name(name)) && name != "pc" && forall i :: 0 <= i < 32 ==> RegName(i) != name
    ensures ExprValue(s, "$" + name) == Err(InvalidReg)
  {
    RegWritten(name);
    var ts := [Sym(DOLLAR), Name(name)];
    assert ts == Yield(Bad(InvalidReg)) + ts;
    assert RegIndex(name, 0) == 32 && OperandError(ts) == Some(InvalidReg);
    FailText(s, ts, "$" + name, Bad(InvalidReg), ts, InvalidReg);
  }

  /** Of the numbers only a single 0 names a register. */
  lemma NumberIsNoRegister(s: State, a: Word)
    requires D(a) != "0"
    ensures ExprValue(s, "$" + D(a)) == Err(InvalidReg)
  {
    NumberTree(s, a);
    Literals(DOLLAR);
    WrittenOne(Dec(D(a)));
    WrittenBefore(DOLLAR, [Dec(D(a))], D(a));
    var ts := [Sym(DOLLAR)] + [Dec(D(a))];
    assert ts == Yield(Bad(InvalidReg)) + ts;
    FailText(s, ts, "$" + D(a), Bad(InvalidReg), ts, InvalidReg);
  }

  // ---------------------------------------------------------------------------
  // The scanner.

  /** A word of digits is a token if it has at most 30 characters. */
  lemma ShortNumber(text: string)
    requires 0 < |text| <= 30 && All(text, IsDigit)
    ensures Lex(text) == Scan([Dec(text)], None)
  {
    assert |text| <= MAX_TOKEN;
    WrittenOne(Dec(text));
    WrittenPrints([Dec(text)], text);
    LexRender(text, [Dec(text)], Zeros(2));
  }

  /** A longer one is refused. */
  lemma LongNumber(s: State, text: string)
    requires |text| > 30 && All(text, IsDigit)
    ensures ExprValue(s, text) == Err(TokenInflow)
  {
    assert |text| > MAX_TOKEN;
    assert text[..|text|] == text;
    assert Denotes(DecRule, text, |text|);
    OffendsIff(text, TokenInflow);
  }

  /** A character of no rule is refused. */
  lemma StrangeCharacter(s: State, c: char)
    requires !IsWord(c) && c !in {' ', '+', '-', '*', '/', '(', ')', '$'}
    ensures ExprValue(s, [c]) == Err(TokenInvalid)
  {
    forall r, k ensures !Denotes(r, [c], k) { NothingDenotes(r, c, k); }
    OffendsIff([c], TokenInvalid);
  }

  lemma NothingDenotes(r: Rule, c: char, k: nat)
    requires !IsWord(c) && c !in {' ', '+', '-', '*', '/', '(', ')', '$'}
    ensures !Denotes(r, [c], k)
  {
    if Denotes(r, [c], k) {
      var t := [c][..k];
      if IsWordRule(r) { SpelledWord(r, t); }
      assert t != [] && t == [c] by { SpellingIsNotEmpty(r, t); }
      assert t[0] == c;
      if r.Literal? { OneCharacter(r.sym); }
    }
  }

  lemma SpellingIsNotEmpty(r: Rule, t: string)
    requires Spells(r, t)
    ensures t != ""
  {
    if IsWordRule(r) { SpelledWord(r, t); }
  }

  lemma OneCharacter(op: Symbol)
    ensures |Spelling(op)| == 1 ==> Spelling(op)[0] in {'+', '-', '*', '/', '(', ')', '$'}
  {
  }
}
