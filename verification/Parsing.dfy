/**
 Precedence climbing decides the stratified grammar. BuildIff is the main result: the
 tree that BuildExp returns is the one and only tree the grammar allows for the tokens,
 error node included, and every such tree is found.
 */
module Parsing {
  import opened Lexer
  import opened Grammar

  lemma {:induction false} Weaken(t: Tree, q: nat, p: nat)
    requires InGrammar(t, q) && p <= q
    ensures InGrammar(t, p)
  {
  }

  // ---------------------------------------------------------------------------
  // Soundness: what is built is in the grammar and accounts for every token.

  /** t accounts for the tokens up to rest, and rest shows why reading stopped. */
  predicate Reads(ts: seq<Token>, t: Tree, rest: seq<Token>) {
    ts == Yield(t) + rest && (!Whole(t) ==> Stuck(t, rest))
  }

  lemma {:induction false} OperandSound(ts: seq<Token>)
    ensures var (t, rest) := BuildOperand(ts); InGrammar(t, 6) && Reads(ts, t, rest)
    decreases |ts|, 0
  {
    if OperandError(ts).Some? || !ts[0].Sym? {
    } else if ts[0].sym == MINUS || ts[0].sym == STAR {
      OperandSound(ts[1..]);
      var (u, rest) := BuildOperand(ts[1..]);
      PrefixSound(ts, u, rest);
    } else if ts[0].sym == LPAR {
      ExpSound(ts[1..], 1);
      var (u, after) := BuildExp(ts[1..], 1);
      CloseSound(ts, u, after);
    } else {
      RegisterSound(ts);
    }
  }

  lemma PrefixSound(ts: seq<Token>, u: Tree, rest: seq<Token>)
    requires ts != [] && InGrammar(u, 6) && Reads(ts[1..], u, rest)
    ensures ts[0] == Sym(MINUS) ==> InGrammar(Neg(u), 6) && Reads(ts, Neg(u), rest)
    ensures ts[0] == Sym(STAR) ==> InGrammar(Deref(u), 6) && Reads(ts, Deref(u), rest)
  {
    assert ts == [ts[0]] + ts[1..];
  }

  lemma RegisterSound(ts: seq<Token>)
    requires OperandError(ts).None? && ts[0] == Sym(DOLLAR)
    ensures var (t, rest) := BuildOperand(ts); InGrammar(t, 6) && Reads(ts, t, rest)
  {
    if ts[1] == Sym(DOLLAR) {
      assert ts == [ts[0], ts[1], ts[2]] + ts[3..];
    } else {
      assert ts == [ts[0], ts[1]] + ts[2..];
    }
  }

  lemma CloseSound(ts: seq<Token>, u: Tree, after: seq<Token>)
    requires ts != [] && ts[0] == Sym(LPAR) && ts[1..] == Yield(u) + after
    requires InGrammar(u, 1) && StopsAt(u, 1, after)
    ensures var (t, rest) := Close(u, after); InGrammar(t, 6) && Reads(ts, t, rest)
  {
    assert ts == [Sym(LPAR)] + (Yield(u) + after);
    if Whole(u) && after != [] && after[0] == Sym(RPAR) {
      assert after == [Sym(RPAR)] + after[1..];
    }
  }

  lemma {:induction false} ExpSound(ts: seq<Token>, p: nat)
    requires p <= 6
    ensures var (t, rest) := BuildExp(ts, p);
      InGrammar(t, p) && ts == Yield(t) + rest && StopsAt(t, p, rest)
    decreases |ts|, 2
  {
    OperandSound(ts);
    var (l, rest) := BuildOperand(ts);
    Weaken(l, 6, p);
    if Whole(l) { MoreSound(l, rest, 6, p); }
  }

  /** q bounds the operators at the top of l from below, and what may follow from above. */
  lemma {:induction false} MoreSound(l: Tree, ts: seq<Token>, q: nat, p: nat)
    requires Whole(l) && InGrammar(l, q) && p <= q <= 6 && NextPriority(ts) <= q + 1
    ensures var (t, rest) := BuildMore(l, ts, p);
      InGrammar(t, p) && Yield(l) + ts == Yield(t) + rest && StopsAt(t, p, rest)
    decreases |ts|, 1
  {
    if NextPriority(ts) <= p {
      Weaken(l, q, p);
    } else {
      var k := NextPriority(ts);
      ExpSound(ts[1..], k);
      var (r, rest) := BuildExp(ts[1..], k);
      BinSound(l, ts, q, r, rest);
      var b := Bin(ts[0].sym, l, r);
      Weaken(b, k - 1, p);
      if Whole(r) { MoreSound(b, rest, k - 1, p); }
    }
  }

  lemma BinSound(l: Tree, ts: seq<Token>, q: nat, r: Tree, rest: seq<Token>)
    requires Whole(l) && InGrammar(l, q) && 0 < NextPriority(ts) <= q + 1
    requires InGrammar(r, NextPriority(ts)) && ts[1..] == Yield(r) + rest
    ensures var b := Bin(ts[0].sym, l, r);
      InGrammar(b, NextPriority(ts) - 1) && Yield(l) + ts == Yield(b) + rest
  {
    Weaken(l, q, NextPriority(ts) - 1);
    assert ts == [ts[0]] + ts[1..];
    Regroup(Yield(l), [ts[0]], Yield(r), rest);
  }

  lemma Regroup(a: seq<Token>, b: seq<Token>, c: seq<Token>, d: seq<Token>)
    ensures a + (b + (c + d)) == (a + b + c) + d
  {
  }

  // ---------------------------------------------------------------------------
  // Completeness: every tree of the grammar is built from its tokens.

  lemma {:induction false} OperandComplete(t: Tree, rest: seq<Token>)
    requires InGrammar(t, 6) && (!Whole(t) ==> Stuck(t, rest))
    ensures BuildOperand(Yield(t) + rest) == (t, rest)
    decreases t, 0
  {
    var ts := Yield(t) + rest;
    match t {
      case Neg(u) =>
        OperandComplete(u, rest);
        assert ts[1..] == Yield(u) + rest;
      case Deref(u) =>
        OperandComplete(u, rest);
        assert ts[1..] == Yield(u) + rest;
      case Group(u) => ParenComplete(t, u, rest);
      case Unclosed(u, _) => ParenComplete(t, u, rest);
      case Inside(u) => ParenComplete(t, u, rest);
      case Bad(_) =>
        assert ts == rest;
      case _ => LeafComplete(t, rest);
    }
  }

  lemma LeafComplete(t: Tree, rest: seq<Token>)
    requires InGrammar(t, 6) && (t.Num? || t.Zero? || t.Reg?)
    ensures BuildOperand(Yield(t) + rest) == (t, rest)
  {
    var ts := Yield(t) + rest;
    assert ts[|Yield(t)|..] == rest;
    assert OperandError(ts).None?;
  }

  lemma {:induction false} ParenComplete(t: Tree, u: Tree, rest: seq<Token>)
    requires t == Group(u) || t == Inside(u) || (t.Unclosed? && t.t == u)
    requires InGrammar(t, 6) && (!Whole(t) ==> Stuck(t, rest))
    ensures BuildOperand(Yield(t) + rest) == (t, rest)
    decreases u, 3
  {
    var ts := Yield(t) + rest;
    var after := if t.Group? then [Sym(RPAR)] + rest else rest;
    assert ts[1..] == Yield(u) + after;
    ExpComplete(u, 1, after);
    assert t.Group? ==> after[1..] == rest;
  }

  /** A whole expression on the left is what the loop continues from. */
  lemma {:induction false} LeftComplete(l: Tree, q: nat, p: nat, tail: seq<Token>)
    requires Whole(l) && InGrammar(l, q) && p <= q <= 6 && NextPriority(tail) <= q + 1
    ensures BuildExp(Yield(l) + tail, p) == BuildMore(l, tail, p)
    decreases l, 1
  {
    if l.Bin? {
      var k := Priority(l.op);
      var mid := [Sym(l.op)] + (Yield(l.r) + tail);
      assert Yield(l) + tail == Yield(l.l) + mid;
      LeftComplete(l.l, k - 1, p, mid);
      assert mid[1..] == Yield(l.r) + tail;
      ExpComplete(l.r, k, tail);
    } else {
      Weaken6(l, q);
      OperandComplete(l, tail);
    }
  }

  lemma Weaken6(t: Tree, q: nat)
    requires InGrammar(t, q) && !t.Bin?
    ensures InGrammar(t, 6)
  {
  }

  lemma {:induction false} ExpComplete(t: Tree, p: nat, rest: seq<Token>)
    requires InGrammar(t, p) && p <= 6 && StopsAt(t, p, rest)
    ensures BuildExp(Yield(t) + rest, p) == (t, rest)
    decreases t, 2
  {
    if Whole(t) {
      LeftComplete(t, p, p, rest);
    } else if t.Bin? {
      var k := Priority(t.op);
      var mid := [Sym(t.op)] + (Yield(t.r) + rest);
      assert Yield(t) + rest == Yield(t.l) + mid;
      LeftComplete(t.l, k - 1, p, mid);
      assert mid[1..] == Yield(t.r) + rest;
      ExpComplete(t.r, k, rest);
    } else {
      Weaken6(t, p);
      OperandComplete(t, rest);
    }
  }

  /**
   Tokens have exactly one tree at each level: BuildExp finds it, and finds nothing else.
   */
  lemma BuildIff(ts: seq<Token>, p: nat, t: Tree, rest: seq<Token>)
    requires p <= 6
    ensures BuildExp(ts, p) == (t, rest) <==> InGrammar(t, p) && ts == Yield(t) + rest && StopsAt(t, p, rest)
  {
    ExpSound(ts, p);
    if InGrammar(t, p) && ts == Yield(t) + rest && StopsAt(t, p, rest) {
      ExpComplete(t, p, rest);
    }
  }

  /** A successful parse takes the longest prefix that is an expression. */
  lemma PrefixIsMaximal(ts: seq<Token>, p: nat, t: Tree, rest: seq<Token>, u: Tree, after: seq<Token>)
    requires p <= 6 && BuildExp(ts, p) == (t, rest) && Whole(t)
    requires Whole(u) && InGrammar(u, p) && ts == Yield(u) + after
    ensures |Yield(u)| <= |Yield(t)|
  {
    BuildIff(ts, p, t, rest);
    if |Yield(t)| < |Yield(u)| {
      var left := Yield(u)[|Yield(t)|..];
      assert Yield(u) == ts[..|Yield(u)|] && Yield(t) == ts[..|Yield(t)|];
      assert Yield(u) == Yield(t) + left && Yield(u) == Yield(u) + [] && left[0] == rest[0];
      BuildIff(Yield(u), p, t, left);
      BuildIff(Yield(u), p, u, []);
    }
  }

  /** The grammar is unambiguous, also about where and why reading stops. */
  lemma Unambiguous(t: Tree, rest: seq<Token>, u: Tree, after: seq<Token>, p: nat)
    requires p <= 6 && InGrammar(t, p) && StopsAt(t, p, rest) && InGrammar(u, p) && StopsAt(u, p, after)
    requires Yield(t) + rest == Yield(u) + after
    ensures t == u && rest == after
  {
    BuildIff(Yield(t) + rest, p, t, rest);
    BuildIff(Yield(t) + rest, p, u, after);
  }
}
