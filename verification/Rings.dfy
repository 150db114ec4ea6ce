/**
 The two ring buffers: the instruction trace of src/cpu/cpu-exec.c, which drops its oldest
 line, and the key queue of src/device/keyboard.c, which stops the program when it is full.
 Each is proved to be the sequence it stands for, across any number of index wrap-arounds.
 */
module Rings {
  import opened Words
  import opened Arithmetic

  // ---------------------------------------------------------------------------
  // The instruction trace.

  const IRINGBUF_SIZE: nat := 256

  /** The length of a row; strncpy copies no more. */
  const ROW: nat := 128

  function Clip(s: string): (r: string)
    ensures |r| == (if |s| <= 128 then |s| else 128) && r == s[..|r|]
  {
    if |s| <= ROW then s else s[..ROW]
  }

  /** The last n elements of s, or all of them. */
  function Last<T>(s: seq<T>, n: nat): seq<T> {
    if |s| <= n then s else s[|s| - n..]
  }

  lemma LastMeaning<T>(s: seq<T>, n: nat)
    ensures var r := Last(s, n);
      && |r| == (if |s| <= n then |s| else n)
      && forall i :: 0 <= i < |r| ==> r[i] == s[|s| - |r| + i]
  {
  }

  function Slot(x: nat): nat {
    if x < IRINGBUF_SIZE then x else x - IRINGBUF_SIZE
  }

  class Trace {
    const lines: array<string>
    var begin: nat
    var end: nat
    /** Everything ever written, as far as a row holds it. */
    ghost var written: seq<string>

    /** The lines from begin to end, round the corner if need be, are the last ones written. */
    ghost predicate Valid()
      reads this, lines
    {
      var kept := Last(written, IRINGBUF_SIZE - 1);
      && lines.Length == IRINGBUF_SIZE && begin < IRINGBUF_SIZE && end < IRINGBUF_SIZE
      && |kept| == (if begin <= end then end - begin else IRINGBUF_SIZE - begin + end)
      && (|written| < IRINGBUF_SIZE - 1 ==> begin == 0)
      && forall i :: 0 <= i < |kept| ==> kept[i] == lines[Slot(begin + i)]
    }

    /** iringbuf_init. */
    constructor ()
      ensures Valid() && written == [] && fresh(lines)
    {
      lines := new string[IRINGBUF_SIZE](_ => "");
      begin, end, written := 0, 0, [];
    }

    /** iringbuf_write. */
    method Write(s: string)
      requires Valid()
      modifies this`begin, this`end, this`written, lines
      ensures Valid() && written == old(written) + [Clip(s)]
    {
      ghost var kept, first := Last(written, IRINGBUF_SIZE - 1), begin;
      lines[end] := Clip(s);
      end := end + 1;
      if end >= IRINGBUF_SIZE { end := 0; }
      if begin == end || end - begin == IRINGBUF_SIZE {
        begin := begin + 1;
        if begin >= IRINGBUF_SIZE { begin := 0; }
      }
      written := written + [Clip(s)];
      ghost var full := |kept| == IRINGBUF_SIZE - 1;
      ghost var now := Last(written, IRINGBUF_SIZE - 1);
      assert now == (if full then kept[1..] else kept) + [Clip(s)];
      assert begin == if full then Slot(first + 1) else first;
      forall i | 0 <= i < |now| ensures now[i] == lines[Slot(begin + i)] {
        if i < |now| - 1 { assert now[i] == kept[if full then i + 1 else i]; }
      }
    }

    /** iringbuf_display, with the lines it logs as its result. */
    method Display() returns (shown: seq<string>)
      requires Valid()
      ensures shown == Last(written, 255)
      ensures begin == end <==> written == []
    {
      ghost var all := Last(written, IRINGBUF_SIZE - 1);
      shown := [];
      if begin == end { return; }
      if begin < end {
        for i := begin to end
          invariant shown == all[..i - begin]
        {
          assert lines[i] == all[i - begin];
          shown := shown + [lines[i]];
        }
      } else {
        for i := begin to IRINGBUF_SIZE
          invariant shown == all[..i - begin]
        {
          assert lines[i] == all[i - begin];
          shown := shown + [lines[i]];
        }
        for i := 0 to end
          invariant shown == all[..IRINGBUF_SIZE - begin + i]
        {
          assert lines[i] == all[IRINGBUF_SIZE - begin + i];
          shown := shown + [lines[i]];
        }
      }
    }
  }

  // ---------------------------------------------------------------------------
  // The key queue.

  const KEY_QUEUE_LEN: nat := 1024
  const KEYDOWN_MASK: Word := 0xf000

  class KeyQueue {
    const keys: array<Word>
    var f: nat
    var r: nat
    /** The keys waiting, oldest first. */
    ghost var pending: seq<Word>

    ghost predicate Valid()
      reads this, keys
    {
      && keys.Length == KEY_QUEUE_LEN && f < KEY_QUEUE_LEN && |pending| < KEY_QUEUE_LEN
      && r == (f + |pending|) % KEY_QUEUE_LEN
      && forall k :: 0 <= k < |pending| ==> keys[(f + k) % KEY_QUEUE_LEN] == pending[k]
    }

    constructor ()
      ensures Valid() && pending == [] && fresh(keys)
    {
      keys := new Word[KEY_QUEUE_LEN](_ => 0);
      f, r, pending := 0, 0, [];
    }

    /** key_enqueue; ok is false where the overflow assertion stops the program. */
    method Enqueue(key: Word) returns (ok: bool)
      requires Valid()
      modifies this`r, this`pending, keys
      ensures ok <==> |old(pending)| < 1023
      ensures ok ==> Valid() && pending == old(pending) + [key]
    {
      keys[r] := key;
      r := (r + 1) % KEY_QUEUE_LEN;
      ok := r != f;
      pending := pending + [key];
    }

    /** key_dequeue. */
    method Dequeue() returns (key: Word)
      requires Valid()
      modifies this`f, this`pending
      ensures Valid()
      ensures if old(pending) == [] then key == 0 && pending == [] else [key] + pending == old(pending)
    {
      key := 0;
      if f != r {
        key := keys[f];
        f := (f + 1) % KEY_QUEUE_LEN;
        pending := pending[1..];
      }
    }

    /**
     send_key, with the key map and whether the emulator is running as parameters. A release
     is marked in bits 12 to 15.
     */
    method SendKey(keymap: seq<Word>, running: bool, scancode: Byte, isKeydown: bool) returns (ok: bool)
      requires Valid() && |keymap| == 256
      modifies this`r, this`pending, keys
      ensures !running || scancode == 0 ==> ok && pending == old(pending)
      ensures running && scancode != 0 ==> (ok <==> |old(pending)| < 1023)
      ensures running && scancode != 0 && ok ==>
        pending == old(pending) + [if isKeydown then keymap[scancode] else Or(keymap[scancode], 0xf000)]
      ensures ok ==> Valid()
    {
      ok := true;
      var rcode := keymap[scancode];
      if running && scancode != 0 {
        ok := Enqueue(if isKeydown then rcode else Or(rcode, KEYDOWN_MASK));
      }
    }
  }

  /** A released key has bits 12 to 15 set and is otherwise the mapped code. */
  lemma ReleaseMark(code: Word, i: nat)
    requires i < 32
    ensures Bit(Or(code, 0xf000), i) <==> Bit(code, i) || 12 <= i <= 15
  {
    BitwiseDigit(code, 0xf000, 32, (x: bool, y: bool) => x || y, i);
    MaskBits(i);
  }

  lemma MaskBits(i: nat)
    ensures Bit(0xf000, i) <==> 12 <= i < 16
  {
    assert Pow2(4) == 0x10;
    assert Pow2(8) == 0x100;
    assert Pow2(12) == 0x1000;
    RunOfOnes(12, i);
  }

  /** Four ones from bit lo on. */
  lemma {:induction false} RunOfOnes(lo: nat, i: nat)
    ensures Bit(0xf * Pow2(lo), i) <==> lo <= i < lo + 4
    decreases lo
  {
    if lo == 0 {
      assert Pow2(0) == 1;
      FourOnes(i);
    } else {
      var x := 0xf * Pow2(lo - 1);
      assert 0xf * Pow2(lo) == 2 * x;
      if i > 0 { RunOfOnes(lo - 1, i - 1); }
    }
  }

  lemma FourOnes(i: nat)
    ensures Bit(0xf, i) <==> i < 4
  {
    if i == 1 {
      assert Shr(0xf, 1) == 7;
    } else if i == 2 {
      assert Shr(0xf, 2) == Shr(7, 1) == 3;
    } else if i == 3 {
      assert Shr(0xf, 3) == Shr(7, 2) == Shr(3, 1) == 1;
    } else if i > 3 {
      assert Shr(0xf, i) == Shr(7, i - 1) == Shr(3, i - 2) == Shr(1, i - 3) == Shr(0, i - 4);
      ZeroDigits(i - 4);
    }
  }
}
