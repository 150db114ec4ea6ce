/**
 The one-pass evaluator of src/monitor/idb/expr.c: make_token, get_leftblock, parse_exp and
 expr, which compute values while they parse and never build a tree. Each method is proved
 to do what building the tree first and evaluating it afterwards does, errors included.
 */
module Evaluator {
  import opened Words
  import opened Memory
  import opened Isa
  import opened Machine
  import opened Lexer
  import opened Grammar
  import opened Parsing

  const MAX_TOKENS: nat := 256

  /** expr, as lexing, then parsing, then evaluating. */
  function ExprValue(s: State, e: string): Value {
    if Lex(e).error.Some? then Err(Lex(e).error.value) else EvalTokens(s, Lex(e).tokens)
  }

  function EvalTokens(s: State, ts: seq<Token>): Value {
    var (t, rest) := BuildExp(ts, 1);
    var v := Eval(s, t);
    if v.Ok? && rest != [] then Err(NotBnf) else v
  }

  /** The first error is final: what follows a failed left operand does not matter. */
  lemma {:induction false} ErrorsAreFinal(s: State, l: Tree, ts: seq<Token>, p: nat)
    requires Eval(s, l).Err?
    ensures Eval(s, BuildMore(l, ts, p).0) == Eval(s, l)
    decreases |ts|
  {
    if !Whole(l) || NextPriority(ts) <= p {
    } else {
      var (r, rest) := BuildExp(ts[1..], Priority(ts[0].sym));
      ErrorsAreFinal(s, Bin(ts[0].sym, l, r), rest, p);
    }
  }

  lemma OperandValuesAreWhole(s: State, ts: seq<Token>)
    requires Eval(s, BuildOperand(ts).0).Ok?
    ensures Whole(BuildOperand(ts).0)
  {
    OperandSound(ts);
    OnlyWholeTreesHaveValues(s, BuildOperand(ts).0, 6);
  }

  lemma ExpValuesAreWhole(s: State, ts: seq<Token>, p: nat)
    requires p <= 6 && Eval(s, BuildExp(ts, p).0).Ok?
    ensures Whole(BuildExp(ts, p).0)
  {
    ExpSound(ts, p);
    OnlyWholeTreesHaveValues(s, BuildExp(ts, p).0, p);
  }

  class Parser {
    const tokens: array<Token>
    var nr_token: nat

    ghost predicate Valid()
      reads this
    {
      tokens.Length == MAX_TOKENS && nr_token <= MAX_TOKENS
    }

    /** The tokens from position k on. */
    ghost function Live(k: nat): seq<Token>
      requires Valid() && k <= nr_token
      reads this, tokens
    {
      tokens[k..nr_token]
    }

    /** What a parsing routine reports, against the tree it should have parsed. */
    ghost predicate Reports(s: State, built: (Tree, seq<Token>), res: Word, error: Option<Error>, endpos: nat)
      reads this
    {
      match Eval(s, built.0)
      case Ok(w) => error == None && res == w && endpos + |built.1| == nr_token
      case Err(e) => error == Some(e) && res == 0
    }

    /** The inner loop of make_token: the first rule that matches here. */
    method FindRule(s: string) returns (i: nat, n: nat)
      ensures i == FirstRule(s, 0) && (i < RULES ==> n == Recognise(RuleAt(i), s))
    {
      i, n := 0, 0;
      while i < RULES
        invariant 0 <= i <= RULES && FirstRule(s, 0) == FirstRule(s, i)
      {
        n := Recognise(RuleAt(i), s);
        if n > 0 { return; }
        i := i + 1;
      }
    }

    method Record(t: Token)
      requires Valid() && nr_token < MAX_TOKENS
      modifies this, tokens
      ensures Valid() && nr_token == old(nr_token) + 1
      ensures tokens[..nr_token] == old(tokens[..nr_token]) + [t]
    {
      tokens[nr_token] := t;
      nr_token := nr_token + 1;
    }

    /** One round of make_token's loop; scan is what is still to come. */
    method ScanOne(s: string, ghost scan: Scan) returns (n: nat, error: Option<Error>, ghost rest: Scan)
      requires Valid() && s != "" && scan == Lex(s) && nr_token + |scan.tokens| <= MAX_TOKENS
      modifies this, tokens
      ensures Valid() && n <= |s|
      ensures error.Some? ==> scan == Scan([], error) && tokens[..nr_token] == old(tokens[..nr_token])
      ensures error.None? ==> n > 0 && rest == Lex(s[n..]) && rest.error == scan.error
      ensures error.None? ==> tokens[..nr_token] + rest.tokens == old(tokens[..nr_token]) + scan.tokens
    {
      var i;
      i, n := FindRule(s);
      if i == RULES { return 0, Some(TokenInvalid), scan; }
      LexStep(s, i, n);
      if !RuleAt(i).Spaces? {
        if n > MAX_TOKEN { return n, Some(TokenInflow), scan; }
        MoveOne(tokens[..nr_token], scan.tokens, Lexer.MakeToken(RuleAt(i), s[..n]));
        Record(Lexer.MakeToken(RuleAt(i), s[..n]));
      }
      return n, None, Lex(s[n..]);
    }

    /** make_token. The array is not bounds-checked, so the text must not hold more tokens than it. */
    method MakeToken(e: string) returns (error: Option<Error>)
      requires Valid() && |Lex(e).tokens| <= 256
      modifies this, tokens
      ensures Valid() && error == Lex(e).error
      ensures nr_token == |Lex(e).tokens| && tokens[..nr_token] == Lex(e).tokens
    {
      var position := 0;
      nr_token := 0;
      ghost var all, todo, rest := Lex(e), e, Lex(e);
      while position < |e|
        invariant Valid() && 0 <= position <= |e| && todo == e[position..] && rest == Lex(todo)
        invariant all.error == rest.error && all.tokens == tokens[..nr_token] + rest.tokens
        decreases |e| - position
      {
        var n;
        n, error, rest := ScanOne(e[position..], rest);
        if error.Some? { return; }
        todo := todo[n..];
        position := position + n;
      }
      return None;
    }

    /** parse_reg. */
    method ParseReg(cpu: Cpu, name: string) returns (res: Word, success: bool)
      requires cpu.Valid()
      ensures success <==> RegValue(cpu.Abs(), name).Some?
      ensures res == if success then RegValue(cpu.Abs(), name).value else 0
    {
      if name == "pc" { return cpu.pc, true; }
      var i := 0;
      while i < 32
        invariant 0 <= i <= 32 && RegIndex(name, 0) == RegIndex(name, i)
      {
        if RegName(i) == name { return cpu.gpr[i], true; }
        i := i + 1;
      }
      return 0, false;
    }

    /** get_leftblock after a dollar sign at begin. */
    method GetRegister(cpu: Cpu, begin: nat) returns (res: Word, error: Option<Error>, endpos: nat)
      requires Valid() && cpu.Valid() && begin < nr_token && tokens[begin] == Sym(DOLLAR)
      ensures Reports(cpu.Abs(), BuildOperand(Live(begin)), res, error, endpos)
    {
      res, endpos := 0, begin;
      if begin + 1 == nr_token { return 0, Some(InvalidExp), begin; }
      if tokens[begin + 1] == Sym(DOLLAR) {
        if begin + 2 == nr_token { return 0, Some(InvalidExp), begin; }
        if IsZero(tokens[begin + 2]) { return cpu.gpr[0], None, begin + 3; }
        return 0, Some(InvalidReg), begin;
      }
      if IsZero(tokens[begin + 1]) { return cpu.gpr[0], None, begin + 2; }
      if !tokens[begin + 1].Name? { return 0, Some(InvalidReg), begin; }
      var isreg;
      res, isreg := ParseReg(cpu, tokens[begin + 1].text);
      if !isreg { return 0, Some(InvalidReg), begin; }
      return res, None, begin + 2;
    }

    /** get_leftblock at a minus sign or a star. */
    method GetPrefixed(cpu: Cpu, begin: nat) returns (res: Word, error: Option<Error>, endpos: nat)
      requires Valid() && cpu.Valid() && begin < nr_token
      requires tokens[begin] == Sym(MINUS) || tokens[begin] == Sym(STAR)
      ensures Reports(cpu.Abs(), BuildOperand(Live(begin)), res, error, endpos)
      decreases nr_token - begin, 0
    {
      assert Live(begin)[1..] == Live(begin + 1);
      PrefixAlone(cpu.Abs(), Live(begin));
      if begin + 1 == nr_token { return 0, Some(InvalidExp), begin; }
      res, error, endpos := GetLeftblock(cpu, begin + 1);
      if error.Some? { return 0, error, endpos; }
      if tokens[begin] == Sym(MINUS) { return Sub(0, res), None, endpos; }
      if !Fits(res, 4) { return 0, Some(Died), endpos; }
      res := PhysRead(cpu.pmem[..], res, 4);
    }

    /** get_leftblock at an opening parenthesis. */
    method GetParenthesised(cpu: Cpu, begin: nat) returns (res: Word, error: Option<Error>, endpos: nat)
      requires Valid() && cpu.Valid() && begin < nr_token && tokens[begin] == Sym(LPAR)
      ensures Reports(cpu.Abs(), BuildOperand(Live(begin)), res, error, endpos)
      decreases nr_token - begin, 0
    {
      assert Live(begin)[1..] == Live(begin + 1);
      ghost var (u, after) := BuildExp(Live(begin + 1), 1);
      NothingLeft();
      ParenValue(cpu.Abs(), Live(begin), u, after);
      if begin + 1 == nr_token { return 0, Some(InvalidExp), begin; }
      res, error, endpos := ParseExp(cpu, begin + 1, 1);
      if error.Some? { return 0, error, endpos; }
      assert Live(endpos) == after;
      if endpos == nr_token { return 0, Some(InvalidExp), endpos; }
      if tokens[endpos] != Sym(RPAR) { return 0, Some(NotBnf), endpos; }
      endpos := endpos + 1;
    }

    /** get_leftblock. */
    method GetLeftblock(cpu: Cpu, begin: nat) returns (res: Word, error: Option<Error>, endpos: nat)
      requires Valid() && cpu.Valid() && begin <= nr_token
      ensures Reports(cpu.Abs(), BuildOperand(Live(begin)), res, error, endpos)
      decreases nr_token - begin, 1
    {
      if begin == nr_token { return 0, Some(InvalidExp), begin; }
      match tokens[begin] {
        case Sym(MINUS) => res, error, endpos := GetPrefixed(cpu, begin);
        case Sym(STAR) => res, error, endpos := GetPrefixed(cpu, begin);
        case Sym(DOLLAR) => res, error, endpos := GetRegister(cpu, begin);
        case Hex(_) => return Number(tokens[begin]), None, begin + 1;
        case Dec(_) => return Number(tokens[begin]), None, begin + 1;
        case Sym(LPAR) => res, error, endpos := GetParenthesised(cpu, begin);
        case _ => return 0, Some(InvalidExp), begin;
      }
    }

    /** The next token's priority as a binary operator, below every level at the end. */
    method PriorityAt(pos: nat) returns (k: nat)
      requires Valid() && pos <= nr_token
      ensures k == NextPriority(Live(pos)) <= 6
    {
      if pos < nr_token && tokens[pos].Sym? { return Priority(tokens[pos].sym); }
      return 0;
    }

    /** One round of parse_exp's loop: a binary operator and its right operand. */
    method OneOperator(cpu: Cpu, pos: nat, next: nat, res: Word, ghost p: nat, ghost l: Tree)
      returns (res': Word, error: Option<Error>, stop: nat, ghost l': Tree)
      requires Valid() && cpu.Valid() && pos < nr_token && p < next == NextPriority(Live(pos)) <= 6
      requires Whole(l) && Eval(cpu.Abs(), l) == Ok(res)
      ensures error.Some? ==> Eval(cpu.Abs(), BuildMore(l, Live(pos), p).0) == Err(error.value)
      ensures error.None? ==> pos < stop <= nr_token && Whole(l') && Eval(cpu.Abs(), l') == Ok(res')
      ensures error.None? ==> BuildMore(l, Live(pos), p) == BuildMore(l', Live(stop), p)
      decreases nr_token - pos, 0
    {
      var op := tokens[pos].sym;
      assert Live(pos)[1..] == Live(pos + 1);
      ghost var (r, after) := BuildExp(Live(pos + 1), next);
      l' := Bin(op, l, r);
      if Eval(cpu.Abs(), l').Err? { ErrorsAreFinal(cpu.Abs(), l', after, p); }
      var tmp;
      tmp, error, stop := ParseExp(cpu, pos + 1, next);
      if error.Some? { return 0, error, stop, l'; }
      ExpEndsAt(Live(pos + 1), next, cpu.Abs());
      assert Live(stop) == after;
      var v := Apply(op, res, tmp);
      if v.Err? { return 0, Some(v.e), stop, l'; }
      res' := v.w;
    }

    /** parse_exp. l is the tree of what has been read so far, which the source never builds. */
    method ParseExp(cpu: Cpu, begin: nat, priority: nat) returns (res: Word, error: Option<Error>, endpos: nat)
      requires Valid() && cpu.Valid() && begin <= nr_token && priority <= 6
      ensures Reports(cpu.Abs(), BuildExp(Live(begin), priority), res, error, endpos)
      decreases nr_token - begin, 2
    {
      ghost var s := cpu.Abs();
      res, error, endpos := GetLeftblock(cpu, begin);
      ghost var (l, rest) := BuildOperand(Live(begin));
      if error.Some? {
        ErrorsAreFinal(s, l, rest, priority);
        return 0, error, endpos;
      }
      OperandEndsAt(Live(begin), s);
      assert Live(endpos) == rest;
      var next := PriorityAt(endpos);
      while next > priority
        invariant begin < endpos <= nr_token && next == NextPriority(Live(endpos)) <= 6
        invariant error == None && Whole(l) && Eval(s, l) == Ok(res)
        invariant BuildExp(Live(begin), priority) == BuildMore(l, Live(endpos), priority)
        decreases nr_token - endpos
      {
        res, error, endpos, l := OneOperator(cpu, endpos, next, res, priority, l);
        if error.Some? { return 0, error, endpos; }
        next := PriorityAt(endpos);
      }
    }

    /** expr. */
    method Expr(cpu: Cpu, e: string) returns (res: Word, error: Option<Error>)
      requires Valid() && cpu.Valid() && |Lex(e).tokens| <= 256
      modifies this, tokens
      ensures Valid() && cpu.Abs() == old(cpu.Abs())
      ensures ExprValue(cpu.Abs(), e) == if error == None then Ok(res) else Err(error.value)
      ensures error != None ==> res == 0
    {
      error := MakeToken(e);
      if error.Some? { return 0, error; }
      var endpos;
      assert Live(0) == Lex(e).tokens;
      res, error, endpos := ParseExp(cpu, 0, 1);
      if error.Some? { return 0, error; }
      if endpos < nr_token { return 0, Some(NotBnf); }
    }
  }

  lemma NothingLeft()
    ensures BuildOperand([]) == (Bad(InvalidExp), []) && forall p :: BuildExp([], p) == (Bad(InvalidExp), [])
  {
  }

  lemma PrefixAlone(s: State, ts: seq<Token>)
    requires ts != [] && (ts[0] == Sym(MINUS) || ts[0] == Sym(STAR))
    ensures |ts| == 1 ==> Eval(s, BuildOperand(ts).0) == Err(InvalidExp)
  {
    if |ts| == 1 {
      assert ts[1..] == [];
      NothingLeft();
    }
  }

  lemma ClosedValue(s: State, u: Tree, after: seq<Token>)
    requires Eval(s, u).Ok? ==> Whole(u)
    ensures Eval(s, Close(u, after).0) == (
      if Eval(s, u).Err? then Eval(s, u)
      else if after == [] then Err(InvalidExp)
      else if after[0] != Sym(RPAR) then Err(NotBnf)
      else Eval(s, u))
    ensures Eval(s, u).Ok? && after != [] && after[0] == Sym(RPAR) ==> Close(u, after).1 == after[1..]
  {
  }

  /** The outcome of a parenthesised expression, from the outcome of what is inside. */
  lemma ParenValue(s: State, ts: seq<Token>, u: Tree, after: seq<Token>)
    requires ts != [] && ts[0] == Sym(LPAR) && (u, after) == BuildExp(ts[1..], 1)
    ensures Eval(s, BuildOperand(ts).0) == (
      if Eval(s, u).Err? then Eval(s, u)
      else if after == [] then Err(InvalidExp)
      else if after[0] != Sym(RPAR) then Err(NotBnf)
      else Eval(s, u))
    ensures Eval(s, u).Ok? ==> |after| < |ts| - 1 && after == ts[|ts| - |after|..]
    ensures Eval(s, u).Ok? && after != [] && after[0] == Sym(RPAR) ==> BuildOperand(ts).1 == after[1..]
  {
    if Eval(s, u).Ok? { ExpEndsAt(ts[1..], 1, s); }
    ParenIsClose(ts);
    ClosedValue(s, u, after);
  }

  lemma ParenIsClose(ts: seq<Token>)
    requires ts != [] && ts[0] == Sym(LPAR)
    ensures BuildOperand(ts) == Close(BuildExp(ts[1..], 1).0, BuildExp(ts[1..], 1).1)
  {
  }

  /** What a successful parse leaves is a suffix of the tokens, and a proper one. */
  lemma ExpEndsAt(ts: seq<Token>, p: nat, s: State)
    requires p <= 6 && Eval(s, BuildExp(ts, p).0).Ok?
    ensures Whole(BuildExp(ts, p).0) && |BuildExp(ts, p).1| < |ts|
    ensures BuildExp(ts, p).1 == ts[|ts| - |BuildExp(ts, p).1|..]
  {
    ExpValuesAreWhole(s, ts, p);
    ExpSound(ts, p);
  }

  lemma OperandEndsAt(ts: seq<Token>, s: State)
    requires Eval(s, BuildOperand(ts).0).Ok?
    ensures Whole(BuildOperand(ts).0) && |BuildOperand(ts).1| < |ts|
    ensures BuildOperand(ts).1 == ts[|ts| - |BuildOperand(ts).1|..]
  {
    OperandValuesAreWhole(s, ts);
    OperandSound(ts);
  }

  lemma MoveOne(done: seq<Token>, rest: seq<Token>, t: Token)
    requires rest != [] && rest[0] == t
    ensures done + rest == (done + [t]) + rest[1..]
  {
  }

  lemma LexStep(s: string, i: nat, n: nat)
    requires s != "" && i == FirstRule(s, 0) < RULES && n == Recognise(RuleAt(i), s)
    ensures n > 0
    ensures Lex(s) ==
      if RuleAt(i).Spaces? then Lex(s[n..])
      else if n > MAX_TOKEN then Scan([], Some(TokenInflow))
      else Scan([Lexer.MakeToken(RuleAt(i), s[..n])] + Lex(s[n..]).tokens, Lex(s[n..]).error)
  {
  }
}
