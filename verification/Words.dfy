/**
 The machine's fixed-width numbers. word_t, vaddr_t and paddr_t are all uint32_t; here a
 word is a number below 2^32 and every wrap-around is written out.
 */
module Words {

  const TWO_31: nat := 0x8000_0000
  const TWO_32: nat := 0x1_0000_0000
  const TWO_64: nat := 0x1_0000_0000_0000_0000

  type Byte = b: nat | b < 0x100
  type Word = w: nat | w < TWO_32

  datatype Option<+T> = None | Some(value: T)

  function Add(a: Word, b: Word): Word {
    if a + b < TWO_32 then a + b else a + b - TWO_32
  }

  function Sub(a: Word, b: Word): Word {
    if b <= a then a - b else a + TWO_32 - b
  }

  function Mul(a: Word, b: Word): Word {
    a * b % TWO_32
  }

  /** The C cast (int) w. */
  function Signed(w: Word): int {
    if w < TWO_31 then w else w - TWO_32
  }

  /** A signed number as a word, and a word displaced by a signed number. */
  function ToWord(d: int): Word
    requires -0x8000_0000 <= d < 0x8000_0000
  {
    if d < 0 then d + TWO_32 else d
  }

  function Offset(a: Word, d: int): Word
    requires -0x8000_0000 <= d < 0x8000_0000
  {
    if a + d < 0 then a + d + TWO_32 else if a + d < TWO_32 then a + d else a + d - TWO_32
  }

  /** C's truth values. */
  function Truth(b: bool): Word {
    if b then 1 else 0
  }

  // ---------------------------------------------------------------------------
  // Bitwise operators on unsigned numbers, one binary digit at a time.

  function And(a: nat, b: nat): (r: nat)
    ensures r <= a && r <= b
  {
    if a == 0 || b == 0 then 0
    else 2 * And(a / 2, b / 2) + (if a % 2 == 1 && b % 2 == 1 then 1 else 0)
  }

  /** a >> n: n times a halving. */
  function Shr(a: nat, n: nat): (r: nat)
    ensures r <= a
  {
    if n == 0 then a else Shr(a / 2, n - 1)
  }

  predicate Bit(w: nat, i: nat) {
    Shr(w, i) % 2 == 1
  }

  /** a << n in 32 bits: n times a doubling that drops the top bit. */
  function Shl(a: Word, n: nat): Word
    decreases n
  {
    if n == 0 then a else Shl(Add(a, a), n - 1)
  }

  /** (int) a >> n: n times a halving that keeps the sign bit. */
  function Sra(a: Word, n: nat): Word
    decreases n
  {
    if n == 0 then a else Sra(a / 2 + (if a < TWO_31 then 0 else TWO_31), n - 1)
  }

  function Xor(a: Word, b: Word): Word {
    Bitwise(a, b, 32, (x: bool, y: bool) => x != y)
  }

  function Or(a: Word, b: Word): Word {
    Bitwise(a, b, 32, (x: bool, y: bool) => x || y)
  }

  function Pow2(n: nat): (r: nat)
    ensures r >= 1
  {
    if n == 0 then 1 else 2 * Pow2(n - 1)
  }

  /** A two-place bit operation over the low n digits. */
  function Bitwise(a: nat, b: nat, n: nat, f: (bool, bool) -> bool): (r: nat)
    ensures r < Pow2(n)
    ensures n == 32 ==> r < TWO_32
  {
    var r := if n == 0 then 0
      else 2 * Bitwise(a / 2, b / 2, n - 1, f) + (if f(a % 2 == 1, b % 2 == 1) then 1 else 0);
    assert n == 32 ==> r < TWO_32 by { Pow2Of32(); }
    r
  }

  lemma Pow2Of32()
    ensures Pow2(32) == TWO_32
  {
    assert Pow2(8) == 0x100;
    assert Pow2(16) == 0x1_0000;
    assert Pow2(24) == 0x100_0000;
  }
}
