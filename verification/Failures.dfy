/**
 What expr reports when it fails: exactly when the scanner gives up, with which code, and
 which code the evaluation of a scanned text ends with.
 */
module Failures {
  import opened Words
  import opened Isa
  import opened Lexer
  import opened Grammar
  import opened Parsing
  import opened Evaluator
  import opened Printer

  // ---------------------------------------------------------------------------
  // The scanner.

  /** No rule matches at the head of rest, or a word of more than 30 characters stands there. */
  ghost predicate Offends(rest: string, e: Error) {
    match e
    case TokenInvalid => rest != "" && forall r, k :: !Denotes(r, rest, k)
    case TokenInflow => exists r, k :: IsWordRule(r) && k > MAX_TOKEN && Denotes(r, rest, k)
    case _ => false
  }

  /** A printing of ts with these gaps can be followed by rest without running into it. */
  predicate Joins(ts: seq<Token>, gaps: seq<nat>, rest: string)
    requires |gaps| == |ts| + 1
  {
    ts != [] && IsWordToken(ts[|ts| - 1]) && gaps[|ts|] == 0 ==> Breaks(rest)
  }

  /** The first n characters of s print ts, and what follows offends. */
  ghost predicate FailsAt(s: string, ts: seq<Token>, gaps: seq<nat>, n: nat, e: Error) {
    && n <= |s| && Prints(s[..n], ts, gaps) && Joins(ts, gaps, s[n..]) && Offends(s[n..], e)
  }

  /** The scanner at an offending text. */
  lemma OffendsIff(s: string, e: Error)
    ensures s != "" && !Begins(s) && Lex(s) == Scan([], Some(e)) <==> Offends(s, e)
  {
    var i := FirstRule(s, 0);
    if Offends(s, e) && e == TokenInflow {
      var r, k :| IsWordRule(r) && k > MAX_TOKEN && Denotes(r, s, k);
      WordComesFirst(r, s, k);
    }
    if Offends(s, e) && e == TokenInvalid && i < RULES {
      RecogniseIsLongest(RuleAt(i), s, 0);
    }
    if s != "" && i == RULES {
      forall r, k ensures !Denotes(r, s, k) { NoRule(s, r, k); }
    }
    if s != "" && i < RULES && !Begins(s) {
      RecogniseIsLongest(RuleAt(i), s, 0);
    }
  }

  lemma NoRule(s: string, r: Rule, k: nat)
    requires FirstRule(s, 0) == RULES
    ensures !Denotes(r, s, k)
  {
    var first := (i: nat) => if i <= RULES then FirstRule(s, i) else RULES;
    var hits := (i: nat) => i < RULES && Recognise(RuleAt(i), s) > 0;
    forall i: nat | i < RULES ensures first(i) == if hits(i) then i else first(i + 1) { RuleStep(s, i); }
    NoHit(first, hits, 0, RuleIndex(r));
    RecogniseIsLongest(r, s, k);
  }

  lemma RuleStep(s: string, i: nat)
    requires i < RULES
    ensures FirstRule(s, i) == if Recognise(RuleAt(i), s) > 0 then i else FirstRule(s, i + 1)
  {
  }

  /** A search that finds nothing has missed every index on its way. */
  lemma {:induction false} NoHit(first: nat -> nat, hits: nat -> bool, i: nat, j: nat)
    requires forall k: nat {:trigger hits(k)} :: k < RULES ==> first(k) == if hits(k) then k else first(k + 1)
    requires i <= j < RULES && first(i) == RULES
    ensures !hits(j)
    decreases j - i
  {
    if i < j {
      assert !hits(i);
      NoHit(first, hits, i + 1, j);
    }
  }

  lemma WordComesFirst(r: Rule, s: string, k: nat)
    requires IsWordRule(r) && Denotes(r, s, k)
    ensures FirstRule(s, 0) == RuleIndex(r) && Recognise(r, s) == k && s != ""
  {
    var t, rest := Lexer.MakeToken(r, s[..k]), s[k..];
    assert s == TextOf(t) + rest;
    SpelledWord(r, s[..k]);
    FirstIsOwn(t, rest);
  }

  /** Printed tokens are read back, and reading goes on behind them. */
  lemma {:induction false} LexAppend(head: string, ts: seq<Token>, gaps: seq<nat>, rest: string)
    requires Prints(head, ts, gaps) && Joins(ts, gaps, rest) && rest != "" && rest[0] != ' '
    ensures Lex(head + rest) == Scan(ts + Lex(rest).tokens, Lex(rest).error)
    decreases |ts|
  {
    if ts == [] {
      LexBlanks(gaps[0], rest);
      assert head == Blanks(gaps[0]);
    } else {
      var tail := TailPrints(head, ts, gaps);
      LexAppend(tail, ts[1..], gaps[1..], rest);
      assert IsWordToken(ts[0]) ==> Breaks(tail + rest) by { TailBreaks(tail, ts, gaps, rest); }
      Reassociate(Blanks(gaps[0]), TextOf(ts[0]), tail, rest);
      LexPrinted(head + rest, gaps[0], ts[0], tail + rest);
      JoinedTo(Lex(head + rest), Lex(tail + rest), ts, Lex(rest));
    }
  }

  lemma TailBreaks(tail: string, ts: seq<Token>, gaps: seq<nat>, rest: string)
    requires ts != [] && |gaps| == |ts| + 1 && Prints(tail, ts[1..], gaps[1..]) && Joins(ts, gaps, rest)
    requires IsWordToken(ts[0]) ==> Breaks(tail)
    ensures IsWordToken(ts[0]) ==> Breaks(tail + rest)
  {
    if ts[1..] != [] { PrintedIsNotEmpty(tail, ts[1..], gaps[1..]); }
    if tail == "" { assert tail + rest == rest; }
  }

  lemma PrintedIsNotEmpty(s: string, ts: seq<Token>, gaps: seq<nat>)
    requires Prints(s, ts, gaps) && ts != []
    ensures s != ""
  {
    TextStarts(ts[0]);
  }

  lemma Reassociate(a: string, b: string, c: string, d: string)
    ensures a + (b + c) + d == a + (b + (c + d))
  {
  }

  lemma JoinedTo(all: Scan, tail: Scan, ts: seq<Token>, rest: Scan)
    requires ts != [] && all == Scan([ts[0]] + tail.tokens, tail.error)
    requires tail == Scan(ts[1..] + rest.tokens, rest.error)
    ensures all == Scan(ts + rest.tokens, rest.error)
  {
    assert [ts[0]] + (ts[1..] + rest.tokens) == ts + rest.tokens;
  }

  /** An offending text does not begin with a space. */
  lemma OffendsHere(rest: string, e: Error)
    requires Offends(rest, e)
    ensures rest != "" && rest[0] != ' ' && Lex(rest) == Scan([], Some(e))
  {
    OffendsIff(rest, e);
    if rest[0] == ' ' { SpaceBegins(rest); }
  }

  lemma SpaceBegins(s: string)
    requires s != "" && s[0] == ' '
    ensures Begins(s)
  {
    SameRun(s, c => c == ' ', 1);
    FirstRuleIs(s, 0, 0);
  }

  /** Where and how the scanner fails, from what it reports. */
  lemma {:induction false} FailureSound(s: string, scan: Scan, e: Error) returns (n: nat, gaps: seq<nat>)
    requires scan == Lex(s) && scan.error == Some(e)
    ensures FailsAt(s, scan.tokens, gaps, n, e)
    decreases |s|
  {
    if !Begins(s) {
      n, gaps := 0, [0];
      FailsHere(s, e);
    } else {
      var k, t := LexHead(s);
      var rest := Lex(s[k..]);
      var m, after := FailureSound(s[k..], rest, e);
      n, gaps := FailsLater(s, scan, k, t, rest, m, after, e);
    }
  }

  lemma FailsLater(s: string, scan: Scan, k: nat, t: Option<Token>, rest: Scan, m: nat, after: seq<nat>, e: Error)
    returns (n: nat, gaps: seq<nat>)
    requires 0 < k <= |s| && FailsAt(s[k..], rest.tokens, after, m, e)
    requires t.None? ==> s == Blanks(k) + s[k..] && scan == rest
    requires t.Some? ==> s == TextOf(t.value) + s[k..] && Proper(t.value) && (IsWordToken(t.value) ==> Breaks(s[k..]))
    requires t.Some? ==> scan == Scan([t.value] + rest.tokens, rest.error)
    ensures FailsAt(s, scan.tokens, gaps, n, e)
  {
    n := k + m;
    if t.None? {
      gaps := BlankBefore(s, k, m, rest.tokens, after, e);
    } else {
      assert scan.tokens[0] == t.value && scan.tokens[1..] == rest.tokens;
      gaps := TokenBefore(s, k, m, scan.tokens, after, e);
    }
  }

  lemma FailsHere(s: string, e: Error)
    requires !Begins(s) && Lex(s).error == Some(e)
    ensures Lex(s).tokens == [] && FailsAt(s, [], [0], 0, e)
  {
    OffendsIff(s, e);
    assert s[..0] == Render([], [0]) && s[0..] == s;
  }

  lemma Cut(s: string, k: nat, m: nat)
    requires k <= |s| && m <= |s| - k
    ensures s[..k + m] == s[..k] + s[k..][..m] && s[k..][m..] == s[k + m..]
  {
  }

  lemma BlankBefore(s: string, k: nat, m: nat, ts: seq<Token>, after: seq<nat>, e: Error) returns (gaps: seq<nat>)
    requires 0 < k <= |s| && s == Blanks(k) + s[k..] && FailsAt(s[k..], ts, after, m, e)
    ensures FailsAt(s, ts, gaps, k + m, e)
  {
    gaps := [k + after[0]] + after[1..];
    Cut(s, k, m);
    MoreBlanks(s[k..][..m], k, ts, after);
    assert s[..k] == Blanks(k);
    assert ts != [] ==> gaps[|ts|] == after[|ts|];
  }

  lemma TokenBefore(s: string, k: nat, m: nat, ts: seq<Token>, after: seq<nat>, e: Error) returns (gaps: seq<nat>)
    requires ts != [] && 0 < k <= |s| && s == TextOf(ts[0]) + s[k..] && FailsAt(s[k..], ts[1..], after, m, e)
    requires Proper(ts[0]) && (IsWordToken(ts[0]) ==> Breaks(s[k..]))
    ensures FailsAt(s, ts, gaps, k + m, e)
  {
    gaps := [0] + after;
    Cut(s, k, m);
    var head := s[k..][..m];
    assert Breaks(s[k..]) ==> Breaks(head);
    MoreToken(ts[0], head, ts[1..], after);
    assert s[..k] == TextOf(ts[0]) && ts == [ts[0]] + ts[1..];
    if ts[1..] == [] && after[0] == 0 { assert head == "" && s[k..][m..] == s[k..]; }
  }

  /**
   Exactly when the scanner gives up, what it has recorded by then, and which code it
   reports: it reads a printing of the tokens, and behind it no rule matches, or a word is
   too long.
   */
  lemma ScanFailsIff(s: string, ts: seq<Token>, e: Error)
    ensures Lex(s) == Scan(ts, Some(e)) <==> exists n: nat, gaps :: FailsAt(s, ts, gaps, n, e)
  {
    if Lex(s) == Scan(ts, Some(e)) {
      var n, gaps := FailureSound(s, Lex(s), e);
    }
    forall n: nat, gaps | FailsAt(s, ts, gaps, n, e) ensures Lex(s) == Scan(ts, Some(e)) {
      FailureComplete(s, s[..n], s[n..], ts, gaps, e);
    }
  }

  lemma FailureComplete(s: string, head: string, rest: string, ts: seq<Token>, gaps: seq<nat>, e: Error)
    requires s == head + rest && Prints(head, ts, gaps) && Joins(ts, gaps, rest) && Offends(rest, e)
    ensures Lex(s) == Scan(ts, Some(e))
  {
    OffendsHere(rest, e);
    LexAppend(head, ts, gaps, rest);
    assert ts + [] == ts;
  }

  // ---------------------------------------------------------------------------
  // expr.

  /** Reading ts gives t and stops before rest; error is the first thing to go wrong on the way. */
  predicate FailsWith(s: State, ts: seq<Token>, t: Tree, rest: seq<Token>, error: Error) {
    && InGrammar(t, 1) && ts == Yield(t) + rest && StopsAt(t, 1, rest)
    && (Eval(s, t) == Err(error) || (Eval(s, t).Ok? && rest != [] && error == NotBnf))
  }

  /** e is a printing of the tokens ts. */
  ghost predicate PrintedAs(e: string, ts: seq<Token>) {
    exists gaps :: Prints(e, ts, gaps)
  }

  /** The scanner fails on e with this code. */
  ghost predicate Unscannable(e: string, error: Error) {
    exists ts, gaps, n: nat :: FailsAt(e, ts, gaps, n, error)
  }

  /**
   The error code of expr, for every text: that of the scanner, or else that of the unique
   tree of the tokens, the first failure in left-to-right eager evaluation, with text left
   over only when nothing else failed.
   */
  lemma ExprFailsIff(s: State, e: string, error: Error)
    ensures ExprValue(s, e) == Err(error) <==>
      Unscannable(e, error) || exists ts, t, rest :: PrintedAs(e, ts) && FailsWith(s, ts, t, rest, error)
  {
    var ts := Lex(e).tokens;
    if Lex(e).error.Some? {
      ScanFailsIff(e, ts, Lex(e).error.value);
      forall us | PrintedAs(e, us) ensures false { LexIff(e, us); }
      forall us, gaps, n: nat | FailsAt(e, us, gaps, n, error) ensures Lex(e) == Scan(us, Some(error)) {
        ScanFailsIff(e, us, error);
      }
    } else {
      LexIff(e, ts);
      forall us, gaps, n: nat | FailsAt(e, us, gaps, n, error) ensures false { ScanFailsIff(e, us, error); }
      forall us | PrintedAs(e, us) ensures us == ts { LexIff(e, us); }
      TreeFailsIff(s, ts, error);
      assert ExprValue(s, e) == EvalTokens(s, ts);
    }
  }

  lemma TreeFailsIff(s: State, ts: seq<Token>, error: Error)
    ensures EvalTokens(s, ts) == Err(error) <==> exists t, rest :: FailsWith(s, ts, t, rest, error)
  {
    var (t, rest) := BuildExp(ts, 1);
    BuildIff(ts, 1, t, rest);
    if EvalTokens(s, ts) == Err(error) { assert FailsWith(s, ts, t, rest, error); }
    forall u, after | FailsWith(s, ts, u, after, error) ensures EvalTokens(s, ts) == Err(error) {
      BuildIff(ts, 1, u, after);
    }
  }
}
