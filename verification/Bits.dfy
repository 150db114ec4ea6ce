/**
 The source's own bit operators. inst.c, mmu.c and intr.c take numbers apart and put them
 together with shifts, &, | and ~; the model uses quotients, remainders and sums. Here the
 expressions of the source are written with And, Or, Shl and Shr and proved equal to those
 of the model.
 */
module Bits {
  import opened Words
  import opened Memory
  import opened Decoder
  import opened Paging
  import opened Run
  import opened Arithmetic

  /** Or, of any width. */
  function OrN(a: nat, b: nat, n: nat): nat {
    Bitwise(a, b, n, (x: bool, y: bool) => x || y)
  }

  lemma {:induction false} OrZero(a: nat, n: nat)
    requires a < Pow2(n)
    ensures OrN(a, 0, n) == a
  {
    if n != 0 { OrZero(a / 2, n - 1); }
  }

  lemma Halves(h: nat, k: nat, l: nat)
    requires k > 0
    ensures h * Pow2(k) + l == 2 * (h * Pow2(k - 1)) + l
    ensures (h * Pow2(k) + l) / 2 == h * Pow2(k - 1) + l / 2 && (h * Pow2(k) + l) % 2 == l % 2
  {
    Doubled(h, Pow2(k - 1));
  }

  lemma OrStep(a: nat, b: nat, n: nat)
    requires n > 0
    ensures OrN(a, b, n) == 2 * OrN(a / 2, b / 2, n - 1) + (if a % 2 == 1 || b % 2 == 1 then 1 else 0)
  {
  }

  /** Or with a field below the lowest one of a number is addition. */
  lemma {:induction false} OrLow(h: nat, k: nat, d: nat, n: nat)
    requires k <= n && d < Pow2(k) && h * Pow2(k) < Pow2(n)
    ensures OrN(h * Pow2(k), d, n) == h * Pow2(k) + d
    decreases k
  {
    if k == 0 {
      OrZero(h * Pow2(0), n);
    } else {
      Halves(h, k, 0);
      OrStep(h * Pow2(k), d, n);
      OrLow(h, k - 1, d / 2, n - 1);
    }
  }

  /** Or with a field that falls into a gap between the low and the high part of a number is addition. */
  lemma {:induction false} OrFills(h: nat, k: nat, d: nat, j: nat, l: nat, n: nat)
    requires j <= k <= n && l < Pow2(j) && d * Pow2(j) < Pow2(k) && h * Pow2(k) + l < Pow2(n)
    ensures OrN(h * Pow2(k) + l, d * Pow2(j), n) == h * Pow2(k) + l + d * Pow2(j)
    decreases j
  {
    if j == 0 {
      assert Pow2(0) == 1 && l == 0 && d * Pow2(0) == d;
      OrLow(h, k, d, n);
    } else {
      Halves(h, k, l);
      Halves(d, j, 0);
      OrStep(h * Pow2(k) + l, d * Pow2(j), n);
      OrFills(h, k - 1, d, j - 1, l / 2, n - 1);
    }
  }

  /** Or with one bit. */
  lemma {:induction false} OrBit(m: nat, j: nat, n: nat)
    requires m < Pow2(n) && j < n
    ensures OrN(m, Pow2(j), n) == if Bit(m, j) then m else m + Pow2(j)
    decreases j
  {
    if j == 0 {
      OrZero(m / 2, n - 1);
    } else {
      OrBit(m / 2, j - 1, n - 1);
    }
  }

  /** a is q whole units of p and a rest. */
  predicate Split(a: nat, q: nat, p: nat, rest: nat) {
    rest < p && a == q * p + rest
  }

  /** And with a mask of the low k bits cuts a number in two. */
  lemma {:induction false} MaskSplits(a: nat, k: nat) returns (q: nat)
    ensures Split(a, q, Pow2(k), And(a, Pow2(k) - 1))
    decreases k
  {
    if k == 0 {
      q := a;
      NoMask(a);
    } else if a == 0 {
      q := 0;
      ZeroSplits(Pow2(k));
    } else {
      q := MaskSplits(a / 2, k - 1);
      MaskOneMore(a, k, q);
    }
  }

  lemma MaskOneMore(a: nat, k: nat, q: nat)
    requires k > 0 && a > 0 && Split(a / 2, q, Pow2(k - 1), And(a / 2, Pow2(k - 1) - 1))
    ensures Split(a, q, Pow2(k), And(a, Pow2(k) - 1))
  {
    MaskHalf(a, k);
    Rejoined(a, q, Pow2(k - 1), And(a / 2, Pow2(k - 1) - 1));
  }

  lemma NoMask(a: nat)
    ensures Split(a, a, Pow2(0), And(a, Pow2(0) - 1))
  {
  }

  lemma ZeroSplits(p: nat)
    requires p > 0
    ensures Split(0, 0, p, 0)
  {
  }

  lemma Rejoined(a: nat, q: nat, p: nat, r: nat)
    requires Split(a / 2, q, p, r)
    ensures Split(a, q, 2 * p, 2 * r + a % 2)
  {
    Doubled(q, p);
  }

  lemma MaskHalf(a: nat, k: nat)
    requires k > 0 && a > 0
    ensures And(a, Pow2(k) - 1) == 2 * And(a / 2, Pow2(k - 1) - 1) + a % 2
  {
    var m := Pow2(k) - 1;
    assert m / 2 == Pow2(k - 1) - 1 && m % 2 == 1;
  }

  lemma MaskBelow(a: nat, k: nat)
    ensures And(a, Pow2(k) - 1) < Pow2(k)
  {
    var q := MaskSplits(a, k);
  }

  lemma MaskAll(m: nat, n: nat)
    requires m < Pow2(n)
    ensures And(m, Pow2(n) - 1) == m
  {
    var q := MaskSplits(m, n);
    if q > 0 { assert q * Pow2(n) >= Pow2(n) by { AtLeast(q, Pow2(n)); } }
  }

  lemma AtLeast(q: nat, p: nat)
    requires q > 0
    ensures q * p >= p
  {
  }

  /** And with a single bit tests it. */
  lemma {:induction false} AndBit(m: nat, j: nat)
    ensures And(m, Pow2(j)) != 0 <==> Bit(m, j)
    decreases j
  {
    if m == 0 {
      ZeroDigits(j);
    } else if j != 0 {
      AndBit(m / 2, j - 1);
    }
  }

  /** And with all bits but one clears it. */
  lemma {:induction false} AndNotBit(m: nat, j: nat, n: nat)
    requires m < Pow2(n) && j < n
    ensures Pow2(j) < Pow2(n)
    ensures And(m, Pow2(n) - 1 - Pow2(j)) == if Bit(m, j) then m - Pow2(j) else m
    decreases j
  {
    Smaller(j, n);
    var x := Pow2(n) - 1 - Pow2(j);
    if m == 0 {
      ZeroDigits(j);
    } else if j == 0 {
      assert x / 2 == Pow2(n - 1) - 1 && x % 2 == 0;
      MaskAll(m / 2, n - 1);
      if x == 0 { assert m == 1; }
    } else {
      assert x / 2 == Pow2(n - 1) - 1 - Pow2(j - 1) && x % 2 == 1;
      AndNotBit(m / 2, j - 1, n - 1);
    }
  }

  lemma {:induction false} Smaller(j: nat, n: nat)
    requires j < n
    ensures Pow2(j) < Pow2(n)
  {
    if j + 1 < n { Smaller(j, n - 1); }
  }

  // ---------------------------------------------------------------------------
  // Fields of a word.

  /** BITS(x, hi, lo). */
  function BITS(x: Word, hi: nat, lo: nat): (r: Word)
    requires lo <= hi
    ensures r < Pow2(hi - lo + 1)
  {
    MaskBelow(Shr(x, lo), hi - lo + 1);
    And(Shr(x, lo), Pow2(hi - lo + 1) - 1)
  }

  lemma Powers()
    ensures Pow2(0) == 1 && Pow2(1) == 2 && Pow2(3) == 8 && Pow2(4) == 0x10 && Pow2(5) == 0x20 && Pow2(6) == 0x40
    ensures Pow2(7) == 0x80 && Pow2(8) == 0x100 && Pow2(10) == 0x400 && Pow2(11) == 0x800 && Pow2(12) == 0x1000
  {
    assert Pow2(4) == 0x10;
    assert Pow2(8) == 0x100;
  }

  lemma HighPowers()
    ensures Pow2(15) == 0x8000 && Pow2(20) == 0x10_0000 && Pow2(21) == 0x20_0000 && Pow2(22) == 0x40_0000
    ensures Pow2(25) == 0x200_0000 && Pow2(31) == TWO_31 && Pow2(32) == TWO_32
  {
    Powers();
    assert Pow2(16) == 0x1_0000;
    assert Pow2(20) == 0x10_0000;
    assert Pow2(24) == 0x100_0000;
    assert Pow2(28) == 0x1000_0000;
  }

  lemma DivUnique(q: nat, x: nat, p: nat)
    requires Quotient(q, x, p) && p > 0
    ensures x / p == q
  {
    DivisionRounds(x, p);
    SameQuotient(q, x / p, x, p);
  }

  lemma Grows(a: nat, b: nat, p: nat)
    requires a <= b
    ensures a * p <= b * p
  {
  }

  lemma Next(a: nat, p: nat)
    ensures (a + 1) * p == a * p + p
  {
  }

  /** BITS is a quotient and a remainder. */
  lemma Field(x: Word, hi: nat, lo: nat, p: nat, w: nat)
    requires lo <= hi && p == Pow2(lo) && w == Pow2(hi - lo + 1)
    ensures BITS(x, hi, lo) == x / p % w && BITS(x, hi, lo) < w
  {
    ShrDivides(x, lo);
    DivUnique(Shr(x, lo), x, p);
    var q := MaskSplits(Shr(x, lo), hi - lo + 1);
    ModUnique(q, Shr(x, lo), w, BITS(x, hi, lo));
  }

  lemma ModUnique(q: nat, a: nat, p: nat, r: nat)
    requires Split(a, q, p, r)
    ensures a % p == r
  {
    DivUnique(q, a, p);
  }

  /** A left shift that loses nothing is a multiplication. */
  lemma ShlExact(x: Word, n: nat, p: nat)
    requires p == Pow2(n) && x * p < TWO_32
    ensures Shl(x, n) == x * p
  {
    var k := ShlMultiplies(x, n);
    assert k == 0;
  }

  /** rd, rs1 and rs2 of decode_operand. */
  lemma OperandBits(w: Word)
    ensures BITS(w, 11, 7) == RdOf(w) && BITS(w, 19, 15) == Rs1Of(w) && BITS(w, 24, 20) == Rs2Of(w)
  {
    Powers();
    HighPowers();
    Field(w, 11, 7, 0x80, 0x20);
    Field(w, 19, 15, 0x8000, 0x20);
    Field(w, 24, 20, 0x10_0000, 0x20);
  }

  /** zimm is rs1 again; csr is the two highest fields. */
  lemma CsrBits(w: Word)
    ensures BITS(w, 31, 20) == F7Of(w) * 0x20 + Rs2Of(w)
  {
    Powers();
    HighPowers();
    Field(w, 31, 20, 0x10_0000, 0x1000);
    var t := w / 0x10_0000;
    assert w / 0x200_0000 == t / 0x20;
  }

  // ---------------------------------------------------------------------------
  // The immediates.

  /** SEXT(x, len), in the 32 bits that are kept. */
  function SEXT(x: nat, len: nat): Word
    requires x < Pow2(len) && 0 < len < 32
  {
    Smaller(len, 32);
    HighPowers();
    if x < Pow2(len - 1) then x else x + TWO_32 - Pow2(len)
  }

  /** immI to immB, operator by operator. */
  function ImmediateBits(ty: Type, w: Word): Word {
    match ty
    case TYPE_I => SEXT(BITS(w, 31, 20), 12)
    case TYPE_U => Shl(SEXT(BITS(w, 31, 12), 20), 12)
    case TYPE_S => Or(Shl(SEXT(BITS(w, 31, 25), 7), 5), BITS(w, 11, 7))
    case TYPE_J =>
      Or(Or(Or(Shl(SEXT(BITS(w, 31, 31), 1), 20), Shl(BITS(w, 20, 20), 11)), Shl(BITS(w, 30, 21), 1)),
        Shl(BITS(w, 19, 12), 12))
    case TYPE_B =>
      Or(Or(Or(Shl(SEXT(BITS(w, 31, 31), 1), 12), Shl(BITS(w, 11, 8), 1)), Shl(BITS(w, 30, 25), 5)),
        Shl(BITS(w, 7, 7), 11))
    case _ => 0
  }

  lemma SignShift(x: nat, len: nat, n: nat, p: nat, k: nat)
    requires x < Pow2(len) && 0 < len < 32 && p == Pow2(len) <= TWO_32 && k == Pow2(n)
    ensures Shl(SEXT(x, len), n) == SextShl(x, p, k)
  {
    var a := SEXT(x, len);
    assert p == 2 * Pow2(len - 1) && a == Sext(x, p);
    var j := ShlMultiplies(a, n);
    LowWord(a * k, Shl(a, n), j);
  }

  lemma LowWord(x: nat, r: Word, k: nat)
    requires x == r + k * TWO_32
    ensures x % TWO_32 == r
  {
  }

  /** What SEXT leaves after a shift: whole multiples of the shift. */
  lemma SignParts(x: nat)
    ensures x < 0x80 ==> SextShl(x, 0x80, 0x20) % 0x20 == 0
    ensures x < 2 ==> SextShl(x, 2, 0x10_0000) % 0x10_0000 == 0
    ensures x < 2 ==> SextShl(x, 2, 0x1000) % 0x1000 == 0
  {
    if x < 0x80 { assert SextShl(x, 0x80, 0x20) == if x < 0x40 then x * 0x20 else x * 0x20 + TWO_32 - 0x1000; }
  }

  lemma FillS(v: Word, d: nat)
    requires v % 0x20 == 0 && d < 0x20
    ensures Or(v, d) == v + d
  {
    Powers();
    HighPowers();
    OrFills(v / 0x20, 5, d, 0, 0, 32);
  }

  lemma FillJ(v: Word, b: nat, mid: nat, low: nat)
    requires v % 0x10_0000 == 0 && b < 2 && mid < 0x400 && low < 0x100
    ensures v + b * 0x800 + mid * 2 + low * 0x1000 < TWO_32
    ensures Or(Or(Or(v, b * 0x800), mid * 2), low * 0x1000) == v + b * 0x800 + mid * 2 + low * 0x1000
  {
    FillGap(v, b);
    FillLow(v + b * 0x800, mid);
    FillMiddle(v, b * 0x800 + mid * 2, low);
    OrThrice(v, b * 0x800, mid * 2, low * 0x1000);
  }

  lemma OrThrice(v: nat, a: nat, b: nat, c: nat)
    requires v + a + b + c < TWO_32
    requires Or(v, a) == v + a && Or(v + a, b) == v + a + b && Or(v + a + b, c) == v + a + b + c
    ensures Or(Or(Or(v, a), b), c) == v + a + b + c
  {
  }

  lemma FillGap(v: Word, b: nat)
    requires v % 0x10_0000 == 0 && b < 2
    ensures v + b * 0x800 < TWO_32 && Or(v, b * 0x800) == v + b * 0x800 && (v + b * 0x800) % 0x800 == 0
  {
    Powers();
    HighPowers();
    OrFills(v / 0x10_0000, 20, b, 11, 0, 32);
    StillAligned(v, b);
  }

  lemma StillAligned(v: nat, b: nat)
    requires v % 0x10_0000 == 0
    ensures (v + b * 0x800) % 0x800 == 0
  {
    assert v == 0x800 * (0x200 * (v / 0x10_0000));
  }

  lemma FillLow(v: Word, mid: nat)
    requires v % 0x800 == 0 && mid < 0x400
    ensures v + mid * 2 < TWO_32 && Or(v, mid * 2) == v + mid * 2
  {
    Powers();
    HighPowers();
    OrFills(v / 0x800, 11, mid, 1, 0, 32);
  }

  lemma FillMiddle(v: Word, l: nat, low: nat)
    requires v % 0x10_0000 == 0 && l < 0x1000 && low < 0x100
    ensures v + l + low * 0x1000 < TWO_32 && Or(v + l, low * 0x1000) == v + l + low * 0x1000
  {
    Powers();
    HighPowers();
    OrFills(v / 0x10_0000, 20, low, 12, l, 32);
  }

  lemma FillB(v: Word, b4: nat, b10: nat, b: nat)
    requires v % 0x1000 == 0 && b4 < 0x10 && b10 < 0x40 && b < 2
    ensures v + b4 * 2 + b10 * 0x20 + b * 0x800 < TWO_32
    ensures Or(Or(Or(v, b4 * 2), b10 * 0x20), b * 0x800) == v + b4 * 2 + b10 * 0x20 + b * 0x800
  {
    Powers();
    HighPowers();
    OrFills(v / 0x1000, 12, b4, 1, 0, 32);
    OrFills(v / 0x1000, 12, b10, 5, b4 * 2, 32);
    OrFills(v / 0x1000, 12, b, 11, b4 * 2 + b10 * 0x20, 32);
  }

  /** A sign-extended field at the top of the word, shifted. */
  lemma HighPart(w: Word, lo: nat, n: nat, x: nat, d: nat, p: nat, k: nat)
    requires 0 < lo < 32 && d == Pow2(lo) && p == Pow2(32 - lo) <= TWO_32 && k == Pow2(n)
    requires Quotient(x, w, d) && x < p
    ensures Shl(SEXT(BITS(w, 31, lo), 32 - lo), n) == SextShl(x, p, k)
  {
    ShrDivides(w, lo);
    SameQuotient(Shr(w, lo), x, w, d);
    var q := MaskSplits(x, 32 - lo);
    SmallSplit(x, q, p, BITS(w, 31, lo));
    SignShift(x, 32 - lo, n, p, k);
  }

  lemma SameQuotient(q: nat, r: nat, a: nat, d: nat)
    requires Quotient(q, a, d) && Quotient(r, a, d)
    ensures q == r
  {
    if q > r { Grows(r + 1, q, d); Next(r, d); }
    if q < r { Grows(q + 1, r, d); Next(q, d); }
  }

  lemma SmallSplit(x: nat, q: nat, p: nat, r: nat)
    requires Split(x, q, p, r) && x < p
    ensures x == r
  {
    if q > 0 { AtLeast(q, p); }
  }

  lemma SmallMod(a: nat, p: nat)
    requires a < p
    ensures a % p == a
  {
  }

  /** A field further down, shifted. */
  lemma LowPart(w: Word, hi: nat, lo: nat, n: nat, d: nat, m: nat, k: nat)
    requires lo <= hi && d == Pow2(lo) && m == Pow2(hi - lo + 1) && k == Pow2(n) && m * k < TWO_32
    ensures Shl(BITS(w, hi, lo), n) == w / d % m * k && w / d % m < m
  {
    Field(w, hi, lo, d, m);
    Grows(BITS(w, hi, lo), m, k);
    ShlExact(BITS(w, hi, lo), n, k);
  }

  lemma BitsI(w: Word)
    ensures ImmediateBits(TYPE_I, w) == Immediate(TYPE_I, w)
  {
    Powers();
    HighPowers();
    Field(w, 31, 20, 0x10_0000, 0x1000);
  }

  lemma BitsU(w: Word)
    ensures ImmediateBits(TYPE_U, w) == Immediate(TYPE_U, w)
  {
    Powers();
    HighPowers();
    HighPart(w, 12, 12, w / 0x1000, 0x1000, 0x10_0000, 0x1000);
  }

  lemma BitsS(w: Word)
    ensures ImmediateBits(TYPE_S, w) == Immediate(TYPE_S, w)
  {
    Powers();
    HighPowers();
    HighPart(w, 25, 5, w / 0x200_0000, 0x200_0000, 0x80, 0x20);
    Field(w, 11, 7, 0x80, 0x20);
    var x, low := w / 0x200_0000, w / 0x80 % 0x20;
    SignParts(x);
    FillS(SextShl(x, 0x80, 0x20), low);
  }

  lemma BitsJ(w: Word)
    ensures ImmediateBits(TYPE_J, w) == Immediate(TYPE_J, w)
  {
    Powers();
    HighPowers();
    HighPart(w, 31, 20, w / 0x8000_0000, 0x8000_0000, 2, 0x10_0000);
    LowPart(w, 20, 20, 11, 0x10_0000, 2, 0x800);
    LowPart(w, 30, 21, 1, 0x20_0000, 0x400, 2);
    LowPart(w, 19, 12, 12, 0x1000, 0x100, 0x1000);
    var x, b, mid, low := w / 0x8000_0000, w / 0x10_0000 % 2, w / 0x20_0000 % 0x400, w / 0x1000 % 0x100;
    SignParts(x);
    FillJ(SextShl(x, 2, 0x10_0000), b, mid, low);
  }

  lemma BitsB(w: Word)
    ensures ImmediateBits(TYPE_B, w) == Immediate(TYPE_B, w)
  {
    Powers();
    HighPowers();
    HighPart(w, 31, 12, w / 0x8000_0000, 0x8000_0000, 2, 0x1000);
    LowPart(w, 11, 8, 1, 0x100, 0x10, 2);
    LowPart(w, 30, 25, 5, 0x200_0000, 0x40, 0x20);
    LowPart(w, 7, 7, 11, 0x80, 2, 0x800);
    var x, b4, b10, b := w / 0x8000_0000, w / 0x100 % 0x10, w / 0x200_0000 % 0x40, w / 0x80 % 2;
    SignParts(x);
    FillB(SextShl(x, 2, 0x1000), b4, b10, b);
  }

  /** The macros of inst.c compute the immediates of the model, and those are the standard's fields. */
  lemma ImmediateMeaning(ty: Type, w: Word)
    requires ty in {TYPE_I, TYPE_U, TYPE_S, TYPE_J, TYPE_B}
    ensures ImmediateBits(ty, w) == Immediate(ty, w)
    ensures ty == TYPE_U || Immediate(ty, w) == ImmediateOf(ty, FieldsOf(w))
  {
    match ty {
      case TYPE_I => BitsI(w);
      case TYPE_U => BitsU(w);
      case TYPE_S => BitsS(w);
      case TYPE_J => BitsJ(w);
      case TYPE_B => BitsB(w);
    }
    if ty != TYPE_U { ImmediateFromFields(ty, w); }
  }

  /** The shift amount of the shift instructions. */
  lemma ShiftBits(b: Word)
    ensures And(b, 0x1f) == b % 0x20
  {
    Powers();
    var q := MaskSplits(b, 5);
    ModUnique(q, b, 0x20, And(b, 0x1f));
  }

  // ---------------------------------------------------------------------------
  // Paging.

  /** The address arithmetic of mmu.c, operator by operator: the two table indices. */
  lemma IndexBits(va: Word)
    ensures BITS(va, 31, 22) == Vpn1(va) && BITS(va, 21, 12) == Vpn0(va)
  {
    Powers();
    HighPowers();
    Field(va, 31, 22, 0x40_0000, 0x400);
    Field(va, 21, 12, 0x1000, 0x400);
    SmallMod(va / 0x40_0000, 0x400);
  }

  /** The paging switch, the V bit, and the page numbers. */
  lemma EntryBits(satp: Word, entry: Word)
    ensures And(satp, 0x8000_0000) != 0 <==> satp >= TWO_31
    ensures Shl(satp, 12) == PageStart(satp) && Shr(entry, 10) == EntryPage(entry)
    ensures And(entry, 1) != 0 <==> Paging.Valid(entry)
  {
    Powers();
    HighPowers();
    AndBit(satp, 31);
    ShrDivides(satp, 31);
    ShiftToPage(satp);
    ShrDivides(entry, 10);
    DivUnique(Shr(entry, 10), entry, 0x400);
    AndBit(entry, 0);
  }

  lemma ShiftToPage(pn: Word)
    ensures Shl(pn, 12) == PageStart(pn)
  {
    Powers();
    var k := ShlMultiplies(pn, 12);
    LowWord(pn * 0x1000, Shl(pn, 12), k);
    LowWord(pn * 0x1000, PageStart(pn), pn / 0x10_0000);
  }

  /** Frame and offset. */
  lemma AddressBits(pn: Word, va: Word)
    ensures Or(PageStart(pn), And(va, 0xfff)) == PageStart(pn) + PageOffset(va)
  {
    Powers();
    HighPowers();
    var q := MaskSplits(va, 12);
    ModUnique(q, va, 0x1000, And(va, 0xfff));
    OrFills(pn % 0x10_0000, 12, PageOffset(va), 0, 0, 32);
  }

  /** Four bytes from a on are in pmem. */
  predicate WordInPmem(a: nat) {
    0x8000_0000 <= a && a + 4 <= 0x8004_0000
  }

  /** paddr_read of a word. */
  function Reader(m: Mem): nat -> Word {
    (a: nat) => if WordInPmem(a) then PhysRead(m, a, 4) else 0
  }

  /** isa_mmu_translate, operator by operator. */
  function TranslateBits(satp: Word, read: nat -> Word, va: Word): Translation {
    if And(satp, 0x8000_0000) == 0 then Mapped(va)
    else
      var root := Shl(satp, 12) + 4 * BITS(va, 31, 22);
      if !WordInPmem(root) then Fault(Paging.Outside) else SecondBits(read, read(root), va)
  }

  /** From the first-level entry on. */
  function SecondBits(read: nat -> Word, pde: Word, va: Word): Translation {
    var entry := Shl(Shr(pde, 10), 12) + 4 * BITS(va, 21, 12);
    if And(pde, 1) == 0 then Fault(L1Miss)
    else if !WordInPmem(entry) then Fault(Paging.Outside)
    else LeafBits(read(entry), va)
  }

  /** From the second-level entry on. */
  function LeafBits(pte: Word, va: Word): Translation {
    if And(pte, 1) == 0 then Fault(L2Miss) else Mapped(Or(Shl(Shr(pte, 10), 12), And(va, 0xfff)))
  }

  lemma LeafMeaning(pte: Word, va: Word)
    ensures LeafBits(pte, va) ==
      if Paging.Valid(pte) then Mapped(PageStart(EntryPage(pte)) + PageOffset(va)) else Fault(L2Miss)
  {
    EntryBits(EntryPage(pte), pte);
    AddressBits(EntryPage(pte), va);
  }

  lemma EntryPlace(pde: Word, va: Word, entry: nat)
    requires entry == EntryAddress(EntryPage(pde), Vpn0(va))
    ensures Shl(Shr(pde, 10), 12) + 4 * BITS(va, 21, 12) == entry && (And(pde, 1) != 0 <==> Paging.Valid(pde))
  {
    IndexBits(va);
    EntryBits(EntryPage(pde), pde);
  }

  lemma RootPlace(satp: Word, va: Word, root: nat)
    requires root == EntryAddress(satp, Vpn1(va))
    ensures Shl(satp, 12) + 4 * BITS(va, 31, 22) == root && (And(satp, 0x8000_0000) != 0 <==> satp >= TWO_31)
  {
    IndexBits(va);
    EntryBits(satp, 0);
  }

  lemma SecondMeaning(read: nat -> Word, pde: Word, va: Word, entry: nat)
    requires entry == EntryAddress(EntryPage(pde), Vpn0(va))
    ensures SecondBits(read, pde, va) ==
      if !Paging.Valid(pde) then Fault(L1Miss)
      else if !WordInPmem(entry) then Fault(Paging.Outside)
      else LeafBits(read(entry), va)
  {
    EntryPlace(pde, va, entry);
  }

  lemma RootMeaning(satp: Word, read: nat -> Word, va: Word, root: nat)
    requires root == EntryAddress(satp, Vpn1(va))
    ensures TranslateBits(satp, read, va) ==
      if satp < TWO_31 then Mapped(va)
      else if !WordInPmem(root) then Fault(Paging.Outside)
      else SecondBits(read, read(root), va)
  {
    RootPlace(satp, va, root);
  }

  /** What the model walks, with the two entries named. */
  lemma WalkOf(satp: Word, m: Mem, va: Word, root: nat, pde: Word, entry: nat, pte: Word)
    requires root == EntryAddress(satp, Vpn1(va)) && pde == Reader(m)(root)
    requires entry == EntryAddress(EntryPage(pde), Vpn0(va)) && pte == Reader(m)(entry)
    ensures Translate(satp, m, va) ==
      if satp < TWO_31 then Mapped(va)
      else if !WordInPmem(root) then Fault(Paging.Outside)
      else if !Paging.Valid(pde) then Fault(L1Miss)
      else if !WordInPmem(entry) then Fault(Paging.Outside)
      else if !Paging.Valid(pte) then Fault(L2Miss)
      else Mapped(PageStart(EntryPage(pte)) + PageOffset(va))
  {
    FitsIff(root, 4);
    FitsIff(entry, 4);
  }

  /** The model's translation is the source's. */
  lemma TranslateMeaning(satp: Word, m: Mem, va: Word)
    ensures TranslateBits(satp, Reader(m), va) == Translate(satp, m, va)
  {
    var root := EntryAddress(satp, Vpn1(va));
    var pde := Reader(m)(root);
    var entry := EntryAddress(EntryPage(pde), Vpn0(va));
    var pte := Reader(m)(entry);
    WalkOf(satp, m, va, root, pde, entry, pte);
    RootMeaning(satp, Reader(m), va, root);
    SecondMeaning(Reader(m), pde, va, entry);
    LeafMeaning(pte, va);
  }

  // ---------------------------------------------------------------------------
  // MSTATUS.

  /** ~x on a word. */
  function Not(x: Word): Word {
    TWO_32 - 1 - x
  }

  /** The tests and assignments of intr.c, operator by operator. */
  lemma MstatusOperators(m: Word)
    ensures And(m, 8) != 0 <==> Mie(m)
    ensures Or(m, 0x80) == WithMpie(m, true) && And(m, Not(0x80)) == WithMpie(m, false)
    ensures And(m, Not(8)) == WithoutMie(m)
  {
    Powers();
    HighPowers();
    AndBit(m, 3);
    ShrDivides(m, 3);
    DivUnique(Shr(m, 3), m, 8);
    ShrDivides(m, 7);
    DivUnique(Shr(m, 7), m, 0x80);
    OrBit(m, 7, 32);
    AndNotBit(m, 7, 32);
    AndNotBit(m, 3, 32);
  }
}
