/**
 Physical memory (src/memory/memory.c, include/mainmem.h): one array of bytes, read and
 written in units of one, two or four.
 */
module Memory {
  import opened Words

  const MBASE: nat := 0x8000_0000
  const MSIZE: nat := 0x0004_0000

  type Mem = m: seq<Byte> | |m| == MSIZE witness seq(MSIZE, _ => 0)

  /** in_pmem: the subtraction wraps, so addresses below the base are out. */
  predicate InPmem(a: Word) {
    Sub(a, MBASE) < MSIZE
  }

  predicate Len(len: nat) {
    len == 1 || len == 2 || len == 4
  }

  /**
   The whole access lies in pmem. in_pmem looks at the first byte only; an access that
   starts in pmem and runs over its end is undefined in C and leaves this model, as does
   an access that starts outside pmem and goes to a device.
   */
  predicate Fits(a: Word, len: nat) {
    Len(len) && InPmem(a) && Sub(a, MBASE) + len <= MSIZE
  }

  /** Pmem is the 256 KiB from 0x80000000 on. */
  lemma FitsIff(a: Word, len: nat)
    ensures InPmem(a) <==> 0x8000_0000 <= a < 0x8004_0000
    ensures Fits(a, len) <==> len in {1, 2, 4} && 0x8000_0000 <= a && a + len <= 0x8004_0000
  {
  }

  function At(m: Mem, a: nat): Byte
    requires MBASE <= a < MBASE + MSIZE
  {
    m[a - MBASE]
  }

  /** Byte k of a word, little end first. */
  function ByteOf(d: Word, k: nat): Byte {
    (if k == 0 then d else if k == 1 then d / 0x100 else if k == 2 then d / 0x1_0000 else d / 0x100_0000) % 0x100
  }

  /** The number the bytes f(a), f(a + 1), .. stand for on a little-endian host. */
  function Assemble(f: nat -> Byte, a: nat, len: nat): Word {
    if len == 1 then f(a)
    else if len == 2 then f(a) + 0x100 * f(a + 1)
    else f(a) + 0x100 * f(a + 1) + 0x1_0000 * f(a + 2) + 0x100_0000 * f(a + 3)
  }

  function Bytes(m: Mem): nat -> Byte {
    (x: nat) => if MBASE <= x < MBASE + MSIZE then At(m, x) else 0
  }

  /** paddr_read inside pmem, through host_read. */
  function PhysRead(m: Mem, a: Word, len: nat): Word
    requires Fits(a, len)
  {
    Assemble(Bytes(m), a, len)
  }

  /** paddr_write inside pmem, through host_write. */
  function PhysWrite(m: Mem, a: Word, len: nat, d: Word): Mem
    requires Fits(a, len)
  {
    var i := Sub(a, MBASE);
    if len == 1 then m[i := ByteOf(d, 0)]
    else if len == 2 then m[i := ByteOf(d, 0)][i + 1 := ByteOf(d, 1)]
    else m[i := ByteOf(d, 0)][i + 1 := ByteOf(d, 1)][i + 2 := ByteOf(d, 2)][i + 3 := ByteOf(d, 3)]
  }

  /** A store changes exactly the bytes it covers. */
  lemma WriteAt(m: Mem, a: Word, len: nat, d: Word, x: nat)
    requires Fits(a, len) && MBASE <= x < MBASE + MSIZE
    ensures At(PhysWrite(m, a, len, d), x) == if a <= x < a + len then ByteOf(d, x - a) else At(m, x)
  {
  }

  /** What was stored is what is loaded, cut to the access width. */
  lemma ReadBack(m: Mem, a: Word, len: nat, d: Word)
    requires Fits(a, len)
    ensures PhysRead(PhysWrite(m, a, len, d), a, len)
      == if len == 1 then d % 0x100 else if len == 2 then d % 0x1_0000 else d
  {
    forall k | 0 <= k < len ensures At(PhysWrite(m, a, len, d), a + k) == ByteOf(d, k) {
      WriteAt(m, a, len, d, a + k);
    }
    Reassemble(d);
  }

  lemma Reassemble(d: Word)
    ensures ByteOf(d, 0) + 0x100 * ByteOf(d, 1) == d % 0x1_0000
    ensures ByteOf(d, 0) + 0x100 * ByteOf(d, 1) + 0x1_0000 * ByteOf(d, 2) + 0x100_0000 * ByteOf(d, 3) == d
  {
    var q1, q2, q3 := d / 0x100, d / 0x1_0000, d / 0x100_0000;
    assert q2 == q1 / 0x100 && q3 == q2 / 0x100 && q3 < 0x100;
  }

  // ---------------------------------------------------------------------------
  // Memories small enough to write down.

  /** A memory that begins with the given words and is zero behind them. */
  function Rom(words: seq<Word>): Mem {
    seq(MSIZE, i requires 0 <= i => if i / 4 < |words| then ByteOf(words[i / 4], i % 4) else 0)
  }

  lemma RomByte(words: seq<Word>, k: nat, j: nat)
    requires 4 * k + 4 <= MSIZE && j < 4
    ensures At(Rom(words), MBASE + 4 * k + j) == if k < |words| then ByteOf(words[k], j) else 0
  {
    assert (4 * k + j) / 4 == k && (4 * k + j) % 4 == j;
  }

  lemma RomWord(words: seq<Word>, k: nat)
    requires 4 * k + 4 <= MSIZE
    ensures PhysRead(Rom(words), MBASE + 4 * k, 4) == if k < |words| then words[k] else 0
  {
    RomByte(words, k, 0);
    RomByte(words, k, 1);
    RomByte(words, k, 2);
    RomByte(words, k, 3);
    if k < |words| { Reassemble(words[k]); }
  }
}
