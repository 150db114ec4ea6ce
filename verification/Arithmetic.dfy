/**
 What the register operations of section 2.4 of the RISC-V Unprivileged ISA and the binary
 operators of the debugger mean: shifts as multiplication and division by powers of two, bit
 operations digit by digit, the rest in terms of integers.
 */
module Arithmetic {
  import opened Words
  import opened Isa
  import opened Lexer
  import opened Grammar

  /** q is a divided by d and rounded down. */
  predicate Quotient(q: int, a: int, d: nat) {
    q * d <= a < q * d + d
  }

  lemma {:induction false} ShrDivides(a: nat, n: nat)
    ensures Quotient(Shr(a, n), a, Pow2(n))
  {
    if n != 0 {
      ShrDivides(a / 2, n - 1);
      Doubled(Shr(a, n), Pow2(n - 1));
    }
  }

  lemma Doubled(q: int, d: int)
    ensures q * (2 * d) == 2 * (q * d)
  {
  }

  lemma {:induction false} ShlMultiplies(a: Word, n: nat) returns (k: nat)
    ensures a * Pow2(n) == Shl(a, n) + k * TWO_32
    decreases n
  {
    if n == 0 {
      k := 0;
    } else {
      var j := ShlMultiplies(Add(a, a), n - 1);
      Doubled(a, Pow2(n - 1));
      if a < TWO_31 {
        assert Add(a, a) == a + a;
        Twice(a, Pow2(n - 1));
        k := j;
      } else {
        assert Add(a, a) == a + a - TWO_32;
        Dropped(a, Pow2(n - 1));
        k := j + Pow2(n - 1);
      }
    }
  }

  lemma Twice(a: int, d: int)
    ensures (a + a) * d == 2 * (a * d)
  {
  }

  lemma Dropped(a: int, d: int)
    ensures (a + a - TWO_32) * d == 2 * (a * d) - d * TWO_32
  {
  }

  lemma {:induction false} SraDivides(a: Word, n: nat)
    ensures Quotient(Signed(Sra(a, n)), Signed(a), Pow2(n))
    decreases n
  {
    if n != 0 {
      var h: Word := a / 2 + if a < TWO_31 then 0 else TWO_31;
      SraDivides(h, n - 1);
      Doubled(Signed(Sra(a, n)), Pow2(n - 1));
      assert 2 * Signed(h) <= Signed(a) <= 2 * Signed(h) + 1;
    }
  }

  lemma {:induction false} AndDigit(a: nat, b: nat, i: nat)
    ensures Bit(And(a, b), i) <==> Bit(a, i) && Bit(b, i)
    decreases i
  {
    if a == 0 { ZeroDigits(i); }
    if b == 0 { ZeroDigits(i); }
    if a != 0 && b != 0 && i != 0 {
      assert And(a, b) / 2 == And(a / 2, b / 2);
      AndDigit(a / 2, b / 2, i - 1);
    }
  }

  lemma ZeroDigits(i: nat)
    ensures Shr(0, i) == 0
  {
  }

  lemma {:induction false} BitwiseDigit(a: nat, b: nat, n: nat, f: (bool, bool) -> bool, i: nat)
    requires i < n
    ensures Bit(Bitwise(a, b, n, f), i) <==> f(Bit(a, i), Bit(b, i))
    decreases n
  {
    if i != 0 {
      assert Bitwise(a, b, n, f) / 2 == Bitwise(a / 2, b / 2, n - 1, f);
      BitwiseDigit(a / 2, b / 2, n - 1, f, i - 1);
    }
  }

  /** r is congruent to x modulo 2^32, for an x one addition or subtraction away. */
  predicate Wraps(r: Word, x: int) {
    r == x || r == x - TWO_32 || r == x + TWO_32
  }

  ghost predicate ComputeMeans(op: Alu, a: Word, b: Word, r: Word) {
    var n := b % 0x20;
    match op
    case ADD => Wraps(r, a + b)
    case SUB => Wraps(r, a - b)
    case SLL => exists k: nat :: a * Pow2(n) == r + k * TWO_32
    case SRL => Quotient(r, a, Pow2(n))
    case SRA => Quotient(Signed(r), Signed(a), Pow2(n))
    case SLT => r == if Signed(a) < Signed(b) then 1 else 0
    case SLTU => r == if a < b then 1 else 0
    case XOR => forall i :: 0 <= i < 32 ==> (Bit(r, i) <==> Bit(a, i) != Bit(b, i))
    case OR => forall i :: 0 <= i < 32 ==> (Bit(r, i) <==> Bit(a, i) || Bit(b, i))
    case AND => forall i :: 0 <= i < 32 ==> (Bit(r, i) <==> Bit(a, i) && Bit(b, i))
  }

  /** Every register operation is what its name says. */
  lemma ComputeMeaning(op: Alu, a: Word, b: Word)
    ensures ComputeMeans(op, a, b, Compute(op, a, b))
  {
    var n := b % 0x20;
    match op {
      case SLL => var k := ShlMultiplies(a, n);
      case SRL => ShrDivides(a, n);
      case SRA => SraDivides(a, n);
      case XOR => forall i | 0 <= i < 32 ensures Bit(Xor(a, b), i) <==> Bit(a, i) != Bit(b, i) {
        BitwiseDigit(a, b, 32, (x: bool, y: bool) => x != y, i);
      }
      case OR => forall i | 0 <= i < 32 ensures Bit(Or(a, b), i) <==> Bit(a, i) || Bit(b, i) {
        BitwiseDigit(a, b, 32, (x: bool, y: bool) => x || y, i);
      }
      case AND => forall i | 0 <= i < 32 ensures Bit(And(a, b), i) <==> Bit(a, i) && Bit(b, i) {
        AndDigit(a, b, i);
      }
      case _ =>
    }
  }

  /** A word as a signed number, and displaced by one. */
  lemma SignedMeaning(w: Word, d: int)
    requires -0x8000_0000 <= d < 0x8000_0000
    ensures -0x8000_0000 <= Signed(w) < 0x8000_0000 && (Signed(w) == w || Signed(w) == w - 0x1_0000_0000)
    ensures Wraps(ToWord(d), d) && Wraps(Offset(w, d), w + d)
  {
  }

  /** A loaded byte or halfword is extended as a signed or unsigned number. */
  lemma ExtendMeaning(w: Width, v: Word)
    requires (w.B? || w.BU? ==> v < 0x100) && (w.H? || w.HU? ==> v < 0x1_0000)
    ensures w.BU? || w.HU? || w.W? ==> Extend(w, v) == v
    ensures w.B? ==> -0x80 <= Signed(Extend(w, v)) < 0x80 && Signed(Extend(w, v)) % 0x100 == v
    ensures w.H? ==> -0x8000 <= Signed(Extend(w, v)) < 0x8000 && Signed(Extend(w, v)) % 0x1_0000 == v
  {
  }

  ghost predicate ApplyMeans(op: Symbol, a: Word, b: Word, r: Word) {
    match op
    case PLUS => Wraps(r, a + b)
    case MINUS => Wraps(r, a - b)
    case STAR => exists k: nat :: a * b == r + k * TWO_32
    case SLASH => Quotient(r, a, b)
    case NOTEQ => r == if a != b then 1 else 0
    case EQEQ => r == if a == b then 1 else 0
    case ANDAND => r == if a == 0 || b == 0 then 0 else 1
    case OROR => r == if a == 0 && b == 0 then 0 else 1
    case _ => true
  }

  /** Every binary operator is what it says; only a division by zero fails, and it always does. */
  lemma ApplyMeaning(op: Symbol, a: Word, b: Word)
    requires Priority(op) > 0
    ensures Apply(op, a, b) == Err(DivByZero) <==> op == SLASH && b == 0
    ensures Apply(op, a, b).Err? ==> Apply(op, a, b) == Err(DivByZero)
    ensures Apply(op, a, b).Ok? ==> ApplyMeans(op, a, b, Apply(op, a, b).w)
  {
    if op == STAR {
      var k: nat := a * b / TWO_32;
      assert a * b == Mul(a, b) + k * TWO_32;
    } else if op == SLASH && b != 0 {
      DivisionRounds(a, b);
    }
  }

  lemma DivisionRounds(a: nat, b: nat)
    requires b != 0
    ensures Quotient(a / b, a, b)
  {
    assert a == a / b * b + a % b;
  }
}
