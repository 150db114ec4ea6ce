/**
 The token rules of src/monitor/idb/expr.c. A rule's regular expression is given twice: as
 the set of prefixes it matches (Denotes) and as a recogniser for the longest of them. An
 expression is the characters before the C string's terminating zero.
 */
module Lexer {
  import opened Words

  datatype Symbol = EQEQ | NOTEQ | ANDAND | OROR | PLUS | MINUS | STAR | SLASH | LPAR | RPAR | DOLLAR

  /** A token; the text of a symbol is never looked at. */
  datatype Token = Sym(sym: Symbol) | Name(text: string) | Hex(text: string) | Dec(text: string)

  /** The EX_ERR codes, and Died for an evaluation that does not return. */
  datatype Error = TokenInvalid | TokenInflow | InvalidReg | InvalidExp | DivByZero | NotBnf | Died

  const MAX_TOKEN: nat := 30

  // ---------------------------------------------------------------------------
  // The rules.

  datatype Rule = Spaces | Literal(sym: Symbol) | NameRule | HexRule | DecRule

  const RULES: nat := 15

  function RuleAt(i: nat): Rule
    requires i < RULES
  {
    match i
    case 0 => Spaces
    case 1 => Literal(PLUS)
    case 2 => Literal(EQEQ)
    case 3 => Literal(ANDAND)
    case 4 => Literal(OROR)
    case 5 => Literal(NOTEQ)
    case 6 => Literal(MINUS)
    case 7 => Literal(STAR)
    case 8 => Literal(SLASH)
    case 9 => Literal(LPAR)
    case 10 => Literal(RPAR)
    case 11 => Literal(DOLLAR)
    case 12 => NameRule
    case 13 => HexRule
    case _ => DecRule
  }

  function Spelling(s: Symbol): (t: string)
    ensures 1 <= |t| <= 2
  {
    match s
    case EQEQ => "=="
    case NOTEQ => "!="
    case ANDAND => "&&"
    case OROR => "||"
    case PLUS => "+"
    case MINUS => "-"
    case STAR => "*"
    case SLASH => "/"
    case LPAR => "("
    case RPAR => ")"
    case DOLLAR => "$"
  }

  predicate IsDigit(c: char) {
    '0' <= c <= '9'
  }

  predicate IsAlpha(c: char) {
    'a' <= c <= 'z' || 'A' <= c <= 'Z' || c == '_'
  }

  predicate IsHex(c: char) {
    IsDigit(c) || 'a' <= c <= 'f' || 'A' <= c <= 'F'
  }

  /** \\w in the C locale. */
  predicate IsWord(c: char) {
    IsDigit(c) || IsAlpha(c)
  }

  predicate All(s: string, p: char -> bool) {
    forall i :: 0 <= i < |s| ==> p(s[i])
  }

  /** \\b between position k - 1, which holds a word character, and position k. */
  predicate WordEnds(s: string, k: nat)
    requires k <= |s|
  {
    k == |s| || !IsWord(s[k])
  }

  /** Which texts a rule's expression describes. */
  predicate Spells(r: Rule, t: string) {
    match r
    case Spaces => t != "" && All(t, c => c == ' ')
    case Literal(sym) => t == Spelling(sym)
    case NameRule => t != "" && IsAlpha(t[0]) && All(t, IsWord)
    case HexRule => |t| >= 3 && t[..2] == "0x" && All(t[2..], IsHex)
    case DecRule => t != "" && All(t, IsDigit)
  }

  predicate IsWordRule(r: Rule) {
    r.NameRule? || r.HexRule? || r.DecRule?
  }

  /**
   The rule matches the first k characters of s. regexec is called at the current position
   without REG_NOTBOL, so the leading \\b holds at once for a word character.
   */
  predicate Denotes(r: Rule, s: string, k: nat) {
    k <= |s| && Spells(r, s[..k]) && (IsWordRule(r) ==> WordEnds(s, k))
  }

  /** The length of the longest prefix of characters that satisfy p. */
  function Span(s: string, p: char -> bool): (n: nat)
    ensures n <= |s| && (forall i :: 0 <= i < n ==> p(s[i])) && (n == |s| || !p(s[n]))
  {
    if s == "" || !p(s[0]) then 0
    else
      var n := 1 + Span(s[1..], p);
      assert forall i :: 0 < i < n ==> s[i] == s[1..][i - 1];
      n
  }

  /** The length of the longest match of a rule, 0 for none. */
  function Recognise(r: Rule, s: string): (k: nat)
    ensures k <= |s|
  {
    var word := Span(s, IsWord);
    match r
    case Spaces => Span(s, c => c == ' ')
    case Literal(sym) => if Spelling(sym) <= s then |Spelling(sym)| else 0
    case NameRule => if s != "" && IsAlpha(s[0]) then word else 0
    case HexRule => if word >= 3 && s[..2] == "0x" && All(s[2..word], IsHex) then word else 0
    case DecRule => if All(s[..word], IsDigit) then word else 0
  }

  /** The recogniser finds the leftmost-longest match. */
  lemma RecogniseIsLongest(r: Rule, s: string, k: nat)
    ensures Recognise(r, s) > 0 ==> Denotes(r, s, Recognise(r, s))
    ensures Denotes(r, s, k) ==> 0 < k <= Recognise(r, s)
  {
    var word := Span(s, IsWord);
    if r.HexRule? && word >= 3 { assert s[..word][2..] == s[2..word] && s[..word][..2] == s[..2]; }
    if Denotes(r, s, k) {
      var t := s[..k];
      if r.Spaces? {
        SameRun(s, c => c == ' ', k);
      } else if IsWordRule(r) {
        assert All(t, IsWord) by { SpelledWord(r, t); }
        WholeRun(s, k);
        if r.HexRule? { assert t[2..] == s[2..k]; }
      }
    }
  }

  lemma SpelledWord(r: Rule, t: string)
    requires IsWordRule(r) && Spells(r, t)
    ensures t != "" && All(t, IsWord)
  {
    if r.HexRule? {
      forall i | 0 <= i < |t| ensures IsWord(t[i]) {
        if i < 2 { assert t[i] == t[..2][i]; } else { assert t[i] == t[2..][i - 2]; }
      }
    }
  }

  lemma SameRun(s: string, p: char -> bool, k: nat)
    requires k <= |s| && All(s[..k], p)
    ensures k <= Span(s, p)
  {
  }

  lemma WholeRun(s: string, k: nat)
    requires k <= |s| && All(s[..k], IsWord) && WordEnds(s, k)
    ensures Span(s, IsWord) == k
  {
    SameRun(s, IsWord, k);
  }

  // ---------------------------------------------------------------------------
  // Scanning.

  /** The first rule at or after i that matches at the head of s; RULES for none. */
  function FirstRule(s: string, i: nat): (r: nat)
    requires i <= RULES
    ensures i <= r <= RULES && (r < RULES ==> Recognise(RuleAt(r), s) > 0)
    decreases RULES - i
  {
    if i == RULES || Recognise(RuleAt(i), s) > 0 then i else FirstRule(s, i + 1)
  }

  lemma {:induction false} FirstRuleIs(s: string, i: nat, r: nat)
    requires i <= r < RULES && Recognise(RuleAt(r), s) > 0
    requires forall j :: i <= j < r ==> Recognise(RuleAt(j), s) == 0
    ensures FirstRule(s, i) == r
    decreases RULES - i
  {
    if i < r { FirstRuleIs(s, i + 1, r); }
  }

  function MakeToken(r: Rule, text: string): Token
    requires !r.Spaces?
  {
    match r
    case Literal(sym) => Sym(sym)
    case NameRule => Name(text)
    case HexRule => Hex(text)
    case DecRule => Dec(text)
  }

  /** The tokens recorded, and the error that stopped the scan, if any. */
  datatype Scan = Scan(tokens: seq<Token>, error: Option<Error>)

  function Lex(s: string): Scan {
    if s == "" then Scan([], None)
    else
      var r := FirstRule(s, 0);
      if r == RULES then Scan([], Some(TokenInvalid))
      else
        var rule := RuleAt(r);
        var n := Recognise(rule, s);
        if rule.Spaces? then Lex(s[n..])
        else if n > MAX_TOKEN then Scan([], Some(TokenInflow))
        else
          var rest := Lex(s[n..]);
          Scan([MakeToken(rule, s[..n])] + rest.tokens, rest.error)
  }

  /** A text of at most 256 characters cannot overflow the token array. */
  lemma {:induction false} TokensAtMostLength(s: string)
    ensures |Lex(s).tokens| <= |s|
  {
    if s == "" {
    } else {
      var r := FirstRule(s, 0);
      if r != RULES { TokensAtMostLength(s[Recognise(RuleAt(r), s)..]); }
    }
  }
}
