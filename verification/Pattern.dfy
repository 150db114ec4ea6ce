/**
 The instruction pattern language of include/cpu.h: a string of '0', '1', '?' and
 spaces is compiled once into a key, a mask and a shift, and a word is then matched
 with three machine operations instead of character by character. The accumulators are
 uint64_t; here they are numbers below 2^64, with the wrap-around written out.
 */
module Pattern {
  import opened Words

  /** The machine's (a << 1) | b on uint64_t. */
  function Push(a: nat, b: bool): nat {
    (if 2 * a < TWO_64 then 2 * a else 2 * a % TWO_64) + (if b then 1 else 0)
  }

  predicate WellSpelled(p: string) {
    forall i :: 0 <= i < |p| ==> p[i] in {' ', '0', '1', '?'}
  }

  /** The number of word bits a pattern speaks about. */
  function Bits(p: string): nat {
    if p == "" then 0 else Bits(p[1..]) + (if p[0] == ' ' then 0 else 1)
  }

  /** A non-space pattern character against one bit of the word. */
  predicate CharMatches(c: char, bit: bool) {
    c == '?' || (c == '1') == bit
  }

  /** What a pattern means: every non-space character agrees with the bit it stands over. */
  ghost predicate Matches(p: string, w: nat) {
    forall i :: 0 <= i < |p| && p[i] != ' ' ==> CharMatches(p[i], Bit(w, Bits(p[i + 1..])))
  }

  /** n is the number of wildcards after the last '0' or '1', spaces aside. */
  ghost predicate TrailingWildcards(p: string, n: nat) {
    exists i :: TrailingFrom(p, n, i)
  }

  predicate TrailingFrom(p: string, n: nat, i: int) {
    0 <= i <= |p| && Bits(p[i..]) == n
    && (forall j :: i <= j < |p| ==> p[j] in {' ', '?'})
    && (i == 0 || p[i - 1] in {'0', '1'})
  }

  /** The masked comparison, as the INSTPAT macro writes it. */
  predicate FastMatches(w: nat, key: nat, mask: nat, shift: nat) {
    And(Shr(w, shift), mask) == key
  }

  // The accumulators of pattern_decode after the whole of a pattern has been read.

  function Key(p: string): nat {
    if p == "" then 0
    else
      var q, c := p[..|p| - 1], p[|p| - 1];
      if c == ' ' then Key(q) else Push(Key(q), c == '1')
  }

  function Mask(p: string): nat {
    if p == "" then 0
    else
      var q, c := p[..|p| - 1], p[|p| - 1];
      if c == ' ' then Mask(q) else Push(Mask(q), c != '?')
  }

  function Shift(p: string): nat {
    if p == "" then 0
    else
      var q, c := p[..|p| - 1], p[|p| - 1];
      if c == ' ' then Shift(q) else if c == '?' then Shift(q) + 1 else 0
  }

  // ---------------------------------------------------------------------------
  // Patterns read from the right.

  lemma {:induction false} BitsSnoc(p: string, c: char)
    ensures Bits(p + [c]) == Bits(p) + (if c == ' ' then 0 else 1)
  {
    if p == "" {
    } else {
      BitsSnoc(p[1..], c);
      assert (p + [c])[1..] == p[1..] + [c];
    }
  }

  lemma {:induction false} BitsInit(p: string)
    requires p != ""
    ensures Bits(p) == Bits(p[..|p| - 1]) + (if p[|p| - 1] == ' ' then 0 else 1)
  {
    BitsSnoc(p[..|p| - 1], p[|p| - 1]);
    assert p == p[..|p| - 1] + [p[|p| - 1]];
  }

  lemma {:induction false} BitsAtMostLength(p: string)
    ensures Bits(p) <= |p|
  {
    if p == "" {
    } else {
      BitsAtMostLength(p[1..]);
    }
  }

  lemma {:induction false} MatchesSnoc(q: string, c: char, w: nat)
    ensures Matches(q + [c], w) <==>
      if c == ' ' then Matches(q, w) else CharMatches(c, w % 2 == 1) && Matches(q, w / 2)
  {
    var p := q + [c];
    assert p[|q| + 1..] == "";
    forall i | 0 <= i < |q| && q[i] != ' '
      ensures Bits(p[i + 1..]) == Bits(q[i + 1..]) + (if c == ' ' then 0 else 1)
    {
      assert p[i + 1..] == q[i + 1..] + [c];
      BitsSnoc(q[i + 1..], c);
    }
    if Matches(p, w) {
      assert c != ' ' ==> CharMatches(p[|q|], Bit(w, Bits(p[|q| + 1..])));
      forall i | 0 <= i < |q| && q[i] != ' '
        ensures CharMatches(q[i], Bit(if c == ' ' then w else w / 2, Bits(q[i + 1..])))
      {
        assert p[i] == q[i];
        assert CharMatches(p[i], Bit(w, Bits(p[i + 1..])));
      }
    }
  }

  // ---------------------------------------------------------------------------
  // Up to 63 characters no bit is pushed out of a 64-bit accumulator.

  lemma {:induction false} Pow2Monotone(m: nat, n: nat)
    requires m <= n
    ensures 1 <= Pow2(m) <= Pow2(n)
  {
    if m == n {
      if m != 0 { Pow2Monotone(m - 1, m - 1); }
    } else {
      Pow2Monotone(m, n - 1);
    }
  }

  lemma Pow2Of63()
    ensures 2 * Pow2(63) == TWO_64
  {
    assert Pow2(9) == 0x200;
    assert Pow2(18) == 0x4_0000;
    assert Pow2(27) == 0x800_0000;
    assert Pow2(36) == 0x10_0000_0000;
    assert Pow2(45) == 0x2000_0000_0000;
    assert Pow2(54) == 0x40_0000_0000_0000;
  }

  lemma {:induction false} KeyMaskBound(p: string)
    requires Bits(p) <= 63
    ensures Key(p) < Pow2(Bits(p)) && Mask(p) < Pow2(Bits(p))
    ensures 2 * Key(p) < TWO_64 && 2 * Mask(p) < TWO_64
  {
    Pow2Monotone(Bits(p), 63);
    Pow2Of63();
    if p == "" {
    } else {
      BitsInit(p);
      KeyMaskBound(p[..|p| - 1]);
    }
  }

  // ---------------------------------------------------------------------------
  // The compiled form decides exactly what the pattern means.

  lemma {:induction false} FullIsNaive(p: string, w: nat)
    requires WellSpelled(p) && Bits(p) <= 63
    ensures And(w, Mask(p)) == Key(p) <==> Matches(p, w)
  {
    if p == "" {
    } else {
      var q, c := p[..|p| - 1], p[|p| - 1];
      assert p == q + [c];
      BitsInit(p);
      MatchesSnoc(q, c, w);
      if c == ' ' {
        FullIsNaive(q, w);
      } else {
        FullIsNaive(q, w / 2);
        KeyMaskBound(q);
        AndPush(w, Mask(q), c != '?');
      }
    }
  }

  lemma AndPush(w: nat, m: nat, b: bool)
    requires 2 * m < TWO_64
    ensures And(w, Push(m, b)) == 2 * And(w / 2, m) + (if b then w % 2 else 0)
  {
    var d := Push(m, b);
    assert d / 2 == m && (d % 2 == 1) == b;
    if w == 0 || d == 0 {
      assert And(w / 2, m) == 0;
    }
  }

  lemma ShrPush(a: nat, n: nat)
    requires 2 * a < TWO_64
    ensures Shr(Push(a, false), n + 1) == Shr(a, n)
  {
  }

  /** The match of a compiled pattern. */
  predicate Compiled(p: string, w: nat) {
    FastMatches(w, Shr(Key(p), Shift(p)), Shr(Mask(p), Shift(p)), Shift(p))
  }

  lemma CompiledWildcard(q: string, w: nat)
    requires 2 * Key(q) < TWO_64 && 2 * Mask(q) < TWO_64
    ensures Compiled(q + ['?'], w) <==> Compiled(q, w / 2)
  {
    var p := q + ['?'];
    assert p[..|p| - 1] == q;
    assert Key(p) == Push(Key(q), false) && Mask(p) == Push(Mask(q), false) && Shift(p) == Shift(q) + 1;
    ShrPush(Key(q), Shift(q));
    ShrPush(Mask(q), Shift(q));
    assert Shr(w, Shift(q) + 1) == Shr(w / 2, Shift(q));
  }

  lemma {:induction false} FastIsNaive(p: string, w: nat)
    requires WellSpelled(p) && Bits(p) <= 63
    ensures Compiled(p, w) <==> Matches(p, w)
  {
    if p == "" {
    } else {
      var q, c := p[..|p| - 1], p[|p| - 1];
      assert p == q + [c];
      BitsInit(p);
      MatchesSnoc(q, c, w);
      if c == ' ' {
        FastIsNaive(q, w);
      } else if c == '?' {
        KeyMaskBound(q);
        CompiledWildcard(q, w);
        FastIsNaive(q, w / 2);
      } else {
        FullIsNaive(p, w);
      }
    }
  }

  lemma {:induction false} ShiftCountsWildcards(p: string)
    requires WellSpelled(p)
    ensures TrailingWildcards(p, Shift(p))
  {
    if p == "" {
      assert TrailingFrom(p, 0, 0);
    } else {
      var q, c := p[..|p| - 1], p[|p| - 1];
      assert p == q + [c];
      if c in {'0', '1'} {
        assert TrailingFrom(p, 0, |p|);
      } else {
        ShiftCountsWildcards(q);
        var i :| TrailingFrom(q, Shift(q), i);
        assert p[i..] == q[i..] + [c];
        BitsSnoc(q[i..], c);
        assert TrailingFrom(p, Shift(p), i);
      }
    }
  }

  /**
   pattern_decode. The unrolled macro reads at most 63 characters; a longer pattern or a
   character outside the alphabet stops the program, which ok == false stands for.
   */
  method PatternDecode(str: string) returns (ok: bool, key: nat, mask: nat, shift: nat)
    ensures ok <==> |str| < 64 && WellSpelled(str)
    ensures ok ==> key < TWO_64 && mask < TWO_64 && TrailingWildcards(str, shift)
    ensures ok ==> forall w :: FastMatches(w, key, mask, shift) <==> Matches(str, w)
  {
    key, mask, shift := 0, 0, 0;
    var i := 0;
    while i < 64
      invariant 0 <= i <= 64 && i <= |str| && WellSpelled(str[..i])
      invariant key == Key(str[..i]) && mask == Mask(str[..i]) && shift == Shift(str[..i])
    {
      if i >= |str| {
        assert str[..i] == str;
        BitsAtMostLength(str);
        KeyMaskBound(str);
        forall w ensures FastMatches(w, Shr(key, shift), Shr(mask, shift), shift) <==> Matches(str, w) {
          FastIsNaive(str, w);
        }
        ShiftCountsWildcards(str);
        return true, Shr(key, shift), Shr(mask, shift), shift;
      }
      var c := str[i];
      assert str[..i + 1][..i] == str[..i];
      if c != ' ' {
        if c != '0' && c != '1' && c != '?' {
          return false, 0, 0, 0;
        }
        key := Push(key, c == '1');
        mask := Push(mask, c != '?');
        shift := if c == '?' then shift + 1 else 0;
      }
      i := i + 1;
    }
    return false, 0, 0, 0;
  }
}
