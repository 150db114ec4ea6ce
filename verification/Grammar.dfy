/**
 The expression language of src/monitor/idb/expr.c as a stratified grammar (or, and,
 equality, sum, product, unary), with the trees it derives and their values. A tree may
 end in an error node on its right edge: the tree of a text says both what was read and
 where and why reading stopped.
 */
module Grammar {
  import opened Words
  import opened Memory
  import opened Isa
  import opened Lexer

  // ---------------------------------------------------------------------------
  // Values.

  datatype Value = Ok(w: Word) | Err(e: Error)

  function DigitOf(c: char): nat {
    if '0' <= c <= '9' then c as nat - '0' as nat
    else if 'a' <= c <= 'f' then c as nat - 'a' as nat + 10
    else if 'A' <= c <= 'F' then c as nat - 'A' as nat + 10
    else 0
  }

  function Fold(t: string, base: nat): nat {
    if t == "" then 0 else Fold(t[..|t| - 1], base) * base + DigitOf(t[|t| - 1])
  }

  /** dec10 and hex16. C leaves numbers of 2^32 and more to the library; here they wrap. */
  function Number(t: Token): Word {
    match t
    case Dec(text) => Fold(text, 10) % TWO_32
    case Hex(text) => (if |text| < 2 then 0 else Fold(text[2..], 16)) % TWO_32
    case _ => 0
  }

  /** The names of src/cpu/reg.c. */
  function RegName(i: nat): string {
    match i
    case 0 => "$0" case 1 => "ra" case 2 => "sp" case 3 => "gp" case 4 => "tp" case 5 => "t0"
    case 6 => "t1" case 7 => "t2" case 8 => "s0" case 9 => "s1" case 10 => "a0" case 11 => "a1"
    case 12 => "a2" case 13 => "a3" case 14 => "a4" case 15 => "a5" case 16 => "a6" case 17 => "a7"
    case 18 => "s2" case 19 => "s3" case 20 => "s4" case 21 => "s5" case 22 => "s6" case 23 => "s7"
    case 24 => "s8" case 25 => "s9" case 26 => "s10" case 27 => "s11" case 28 => "t3" case 29 => "t4"
    case 30 => "t5" case _ => "t6"
  }

  /** The first register at or after i with the name; 32 for none. */
  function RegIndex(name: string, i: nat): (r: nat)
    requires i <= 32
    ensures i <= r <= 32 && (r < 32 ==> RegName(r) == name)
    ensures forall j :: i <= j < r ==> RegName(j) != name
    decreases 32 - i
  {
    if i == 32 || RegName(i) == name then i else RegIndex(name, i + 1)
  }

  /** parse_reg: None for an unknown name. */
  function RegValue(s: State, name: string): Option<Word> {
    if name == "pc" then Some(s.pc)
    else if RegIndex(name, 0) < 32 then Some(s.gpr[RegIndex(name, 0)])
    else None
  }

  /** parse_mem. A read outside pmem runs a device or stops the program; neither returns here. */
  function Dereference(s: State, a: Word): Value {
    if Fits(a, 4) then Ok(PhysRead(s.mem, a, 4)) else Err(Died)
  }

  /** 0 for a token that is not a binary operator. */
  function Priority(s: Symbol): nat {
    match s
    case OROR => 2
    case ANDAND => 3
    case EQEQ => 4
    case NOTEQ => 4
    case PLUS => 5
    case MINUS => 5
    case STAR => 6
    case SLASH => 6
    case _ => 0
  }

  function Apply(op: Symbol, a: Word, b: Word): Value {
    match op
    case PLUS => Ok(Add(a, b))
    case MINUS => Ok(Sub(a, b))
    case STAR => Ok(Mul(a, b))
    case SLASH => if b == 0 then Err(DivByZero) else Ok(a / b)
    case NOTEQ => Ok(Truth(a != b))
    case EQEQ => Ok(Truth(a == b))
    case ANDAND => Ok(Truth(a != 0 && b != 0))
    case _ => Ok(Truth(a != 0 || b != 0))
  }

  // ---------------------------------------------------------------------------
  // Trees.

  datatype Tree =
    | Num(token: Token)
    | Zero(twice: bool)             // $0 or $$0
    | Reg(name: string)             // $name
    | Neg(t: Tree)
    | Deref(t: Tree)
    | Group(t: Tree)
    | Bin(op: Symbol, l: Tree, r: Tree)
    | Bad(e: Error)                 // no operand can start here
    | Unclosed(t: Tree, e: Error)   // a parenthesis around a whole expression is not closed
    | Inside(t: Tree)               // a parenthesis around an expression that is not whole

  /** No error node: the expression was read to its end. */
  predicate Whole(t: Tree) {
    match t
    case Neg(u) => Whole(u)
    case Deref(u) => Whole(u)
    case Group(u) => Whole(u)
    case Bin(_, l, r) => Whole(l) && Whole(r)
    case Bad(_) => false
    case Unclosed(_, _) => false
    case Inside(_) => false
    case _ => true
  }

  /** The tokens a tree covers. */
  function Yield(t: Tree): seq<Token> {
    match t
    case Num(token) => [token]
    case Zero(twice) => (if twice then [Sym(DOLLAR), Sym(DOLLAR)] else [Sym(DOLLAR)]) + [Dec("0")]
    case Reg(name) => [Sym(DOLLAR), Name(name)]
    case Neg(u) => [Sym(MINUS)] + Yield(u)
    case Deref(u) => [Sym(STAR)] + Yield(u)
    case Group(u) => [Sym(LPAR)] + Yield(u) + [Sym(RPAR)]
    case Bin(op, l, r) => Yield(l) + [Sym(op)] + Yield(r)
    case Bad(_) => []
    case Unclosed(u, _) => [Sym(LPAR)] + Yield(u)
    case Inside(u) => [Sym(LPAR)] + Yield(u)
  }

  /**
   The grammar. InGrammar(t, p): t is derived from the nonterminal whose binary operators
   have priority above p. From 1 that is the or level, then and, equality, sum, product;
   from 6 only unary expressions are left. Both operands of a binary operator come from the
   next levels: the left one from the operator's own, which makes it left-associative.
   */
  predicate InGrammar(t: Tree, p: nat) {
    match t
    case Num(token) => token.Dec? || token.Hex?
    case Zero(_) => true
    case Reg(name) => name == "pc" || RegIndex(name, 0) < 32
    case Neg(u) => InGrammar(u, 6)
    case Deref(u) => InGrammar(u, 6)
    case Group(u) => Whole(u) && InGrammar(u, 1)
    case Bin(op, l, r) =>
      Priority(op) > p && Whole(l) && InGrammar(l, Priority(op) - 1) && InGrammar(r, Priority(op))
    case Bad(_) => true
    case Unclosed(u, _) => Whole(u) && InGrammar(u, 1)
    case Inside(u) => !Whole(u) && InGrammar(u, 1)
  }

  /** The value of a tree, left operand first; && and || evaluate both operands. */
  function Eval(s: State, t: Tree): Value {
    match t
    case Num(token) => Ok(Number(token))
    case Zero(_) => Ok(s.gpr[0])
    case Reg(name) => if RegValue(s, name).Some? then Ok(RegValue(s, name).value) else Err(InvalidReg)
    case Neg(u) =>
      var v := Eval(s, u);
      if v.Ok? then Ok(Sub(0, v.w)) else v
    case Deref(u) =>
      var v := Eval(s, u);
      if v.Ok? then Dereference(s, v.w) else v
    case Group(u) => Eval(s, u)
    case Bin(op, l, r) =>
      var a := Eval(s, l);
      if a.Err? then a
      else
        var b := Eval(s, r);
        if b.Err? then b else Apply(op, a.w, b.w)
    case Bad(e) => Err(e)
    case Unclosed(u, e) =>
      var v := Eval(s, u);
      if v.Ok? then Err(e) else v
    case Inside(u) => Eval(s, u)
  }

  lemma {:induction false} OnlyWholeTreesHaveValues(s: State, t: Tree, p: nat)
    requires InGrammar(t, p) && Eval(s, t).Ok?
    ensures Whole(t)
  {
    match t {
      case Neg(u) => OnlyWholeTreesHaveValues(s, u, 6);
      case Deref(u) => OnlyWholeTreesHaveValues(s, u, 6);
      case Bin(op, _, r) => OnlyWholeTreesHaveValues(s, r, Priority(op));
      case Inside(u) => OnlyWholeTreesHaveValues(s, u, 1);
      case _ =>
    }
  }

  // ---------------------------------------------------------------------------
  // Where reading stops.

  /** The priority of the next token as a binary operator. */
  function NextPriority(ts: seq<Token>): nat {
    if ts != [] && ts[0].Sym? then Priority(ts[0].sym) else 0
  }

  predicate IsZero(t: Token) {
    t == Dec("0")
  }

  /** Why no operand can start at ts, for the cases that consume nothing. */
  function OperandError(ts: seq<Token>): Option<Error> {
    if ts == [] then Some(InvalidExp)
    else if !ts[0].Sym? then (if ts[0].Name? then Some(InvalidExp) else None)
    else
      match ts[0].sym
      case MINUS => None
      case STAR => None
      case LPAR => None
      case DOLLAR =>
        if |ts| == 1 then Some(InvalidExp)
        else if ts[1] == Sym(DOLLAR) then
          (if |ts| == 2 then Some(InvalidExp) else if IsZero(ts[2]) then None else Some(InvalidReg))
        else if IsZero(ts[1]) then None
        else if !ts[1].Name? then Some(InvalidReg)
        else if ts[1].text == "pc" || RegIndex(ts[1].text, 0) < 32 then None
        else Some(InvalidReg)
      case _ => Some(InvalidExp)
  }

  /** The error node on the right edge of t is what the rest of the tokens calls for. */
  predicate Stuck(t: Tree, rest: seq<Token>) {
    match t
    case Bad(e) => OperandError(rest) == Some(e)
    case Unclosed(_, e) =>
      if rest == [] then e == InvalidExp
      else rest[0] != Sym(RPAR) && NextPriority(rest) <= 1 && e == NotBnf
    case Inside(u) => Stuck(u, rest)
    case Neg(u) => Stuck(u, rest)
    case Deref(u) => Stuck(u, rest)
    case Bin(_, _, r) => Stuck(r, rest)
    case _ => false
  }

  /** Reading t above priority p stops in front of rest. */
  predicate StopsAt(t: Tree, p: nat, rest: seq<Token>) {
    if Whole(t) then NextPriority(rest) <= p else Stuck(t, rest)
  }

  // ---------------------------------------------------------------------------
  // The tree of a token sequence, by precedence climbing.

  /** After an opening parenthesis and the tree u. */
  function Close(u: Tree, rest: seq<Token>): (r: (Tree, seq<Token>))
    ensures |r.1| <= |rest| && (Whole(r.0) ==> Whole(u))
  {
    if !Whole(u) then (Inside(u), rest)
    else if rest == [] then (Unclosed(u, InvalidExp), rest)
    else if rest[0] != Sym(RPAR) then (Unclosed(u, NotBnf), rest)
    else (Group(u), rest[1..])
  }

  function BuildOperand(ts: seq<Token>): (r: (Tree, seq<Token>))
    ensures |r.1| <= |ts| && (Whole(r.0) ==> |r.1| < |ts|)
    decreases |ts|, 0
  {
    if OperandError(ts).Some? then (Bad(OperandError(ts).value), ts)
    else if !ts[0].Sym? then (Num(ts[0]), ts[1..])
    else if ts[0].sym == MINUS then
      var (t, rest) := BuildOperand(ts[1..]);
      (Neg(t), rest)
    else if ts[0].sym == STAR then
      var (t, rest) := BuildOperand(ts[1..]);
      (Deref(t), rest)
    else if ts[0].sym == LPAR then
      var (t, rest) := BuildExp(ts[1..], 1);
      Close(t, rest)
    else if ts[1] == Sym(DOLLAR) then (Zero(true), ts[3..])
    else if IsZero(ts[1]) then (Zero(false), ts[2..])
    else (Reg(ts[1].text), ts[2..])
  }

  function BuildExp(ts: seq<Token>, p: nat): (r: (Tree, seq<Token>))
    ensures |r.1| <= |ts| && (Whole(r.0) ==> |r.1| < |ts|)
    decreases |ts|, 2
  {
    var (t, rest) := BuildOperand(ts);
    BuildMore(t, rest, p)
  }

  /** Binary operators of priority above p after a left operand. */
  function BuildMore(l: Tree, ts: seq<Token>, p: nat): (r: (Tree, seq<Token>))
    ensures |r.1| <= |ts|
    ensures !Whole(l) ==> !Whole(r.0)
    decreases |ts|, 1
  {
    if !Whole(l) || NextPriority(ts) <= p then (l, ts)
    else
      var (r, rest) := BuildExp(ts[1..], Priority(ts[0].sym));
      BuildMore(Bin(ts[0].sym, l, r), rest, p)
  }
}
