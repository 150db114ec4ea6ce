/**
 The layered grammar of the expressions once more, one predicate per level with its
 operators written out: or, and, equality, sum, product, unary. LevelsAgree ties it to the
 grammar that the parser's priorities give, and ThreeOperands says what that means for the
 value of two operators in a row.
 */
module Levels {
  import opened Words
  import opened Isa
  import opened Lexer
  import opened Grammar
  import opened Parsing
  import opened Evaluator

  predicate OrLevel(t: Tree)
    decreases t, 6
  {
    AndLevel(t) || (t.Bin? && t.op == OROR && Whole(t.l) && OrLevel(t.l) && AndLevel(t.r))
  }

  predicate AndLevel(t: Tree)
    decreases t, 5
  {
    EqualityLevel(t) || (t.Bin? && t.op == ANDAND && Whole(t.l) && AndLevel(t.l) && EqualityLevel(t.r))
  }

  predicate EqualityLevel(t: Tree)
    decreases t, 4
  {
    SumLevel(t) || (t.Bin? && t.op in {EQEQ, NOTEQ} && Whole(t.l) && EqualityLevel(t.l) && SumLevel(t.r))
  }

  predicate SumLevel(t: Tree)
    decreases t, 3
  {
    ProductLevel(t) || (t.Bin? && t.op in {PLUS, MINUS} && Whole(t.l) && SumLevel(t.l) && ProductLevel(t.r))
  }

  predicate ProductLevel(t: Tree)
    decreases t, 2
  {
    UnaryLevel(t) || (t.Bin? && t.op in {STAR, SLASH} && Whole(t.l) && ProductLevel(t.l) && UnaryLevel(t.r))
  }

  /** Numbers, registers, prefix operators, parentheses, and the places where an operand breaks off. */
  predicate UnaryLevel(t: Tree)
    decreases t, 1
  {
    match t
    case Num(token) => token.Dec? || token.Hex?
    case Zero(_) => true
    case Reg(name) => name == "pc" || exists i :: 0 <= i < 32 && RegName(i) == name
    case Neg(u) => UnaryLevel(u)
    case Deref(u) => UnaryLevel(u)
    case Group(u) => Whole(u) && OrLevel(u)
    case Bin(_, _, _) => false
    case Bad(_) => true
    case Unclosed(u, _) => Whole(u) && OrLevel(u)
    case Inside(u) => !Whole(u) && OrLevel(u)
  }

  predicate Level(t: Tree, p: nat) {
    match p
    case 1 => OrLevel(t)
    case 2 => AndLevel(t)
    case 3 => EqualityLevel(t)
    case 4 => SumLevel(t)
    case 5 => ProductLevel(t)
    case _ => UnaryLevel(t)
  }

  /** A tree is derived above priority p exactly if it is derived at the p-th level from the outside. */
  lemma {:induction false} LevelsAgree(t: Tree, p: nat)
    requires 1 <= p <= 6
    ensures InGrammar(t, p) <==> Level(t, p)
    decreases t
  {
    if !t.Bin? { UnaryAtEveryLevel(t, p); }
    match t {
      case Neg(u) => LevelsAgree(u, 6);
      case Deref(u) => LevelsAgree(u, 6);
      case Group(u) => LevelsAgree(u, 1);
      case Unclosed(u, _) => LevelsAgree(u, 1);
      case Inside(u) => LevelsAgree(u, 1);
      case Bin(op, l, r) =>
        BinLevels(op, l, r, p);
        if LevelOf(op) > 0 {
          LevelsAgree(l, LevelOf(op));
          LevelsAgree(r, LevelOf(op) + 1);
        }
      case _ =>
    }
  }

  lemma UnaryAtEveryLevel(t: Tree, p: nat)
    requires 1 <= p <= 6 && !t.Bin?
    ensures Level(t, p) <==> UnaryLevel(t)
  {
    assert ProductLevel(t) <==> UnaryLevel(t);
    assert SumLevel(t) <==> ProductLevel(t);
    assert EqualityLevel(t) <==> SumLevel(t);
    assert AndLevel(t) <==> EqualityLevel(t);
  }

  /** The level an operator stands on. */
  function LevelOf(op: Symbol): nat {
    if op == OROR then 1
    else if op == ANDAND then 2
    else if op in {EQEQ, NOTEQ} then 3
    else if op in {PLUS, MINUS} then 4
    else if op in {STAR, SLASH} then 5
    else 0
  }

  lemma BinLevels(op: Symbol, l: Tree, r: Tree, p: nat)
    requires 1 <= p <= 6
    ensures Level(Bin(op, l, r), p) <==>
      LevelOf(op) >= p && Whole(l) && Level(l, LevelOf(op)) && Level(r, LevelOf(op) + 1)
  {
    var t := Bin(op, l, r);
    assert !UnaryLevel(t);
    assert ProductLevel(t) <==> op in {STAR, SLASH} && Whole(l) && ProductLevel(l) && UnaryLevel(r);
    assert SumLevel(t) <==> ProductLevel(t) || (op in {PLUS, MINUS} && Whole(l) && SumLevel(l) && ProductLevel(r));
    assert EqualityLevel(t) <==>
      SumLevel(t) || (op in {EQEQ, NOTEQ} && Whole(l) && EqualityLevel(l) && SumLevel(r));
    assert AndLevel(t) <==> EqualityLevel(t) || (op == ANDAND && Whole(l) && AndLevel(l) && EqualityLevel(r));
    assert OrLevel(t) <==> AndLevel(t) || (op == OROR && Whole(l) && OrLevel(l) && AndLevel(r));
  }
}
