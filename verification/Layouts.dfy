/**
 Page tables small enough to write down: one that satisfies the hypotheses of
 Paging.PagedRefinesFlat, and the two ways in which a mapping fails to be flat.
 */
module Layouts {
  import opened Words
  import opened Memory
  import opened Paging

  /** Paging is on and the root table is on page 0x80000, the first of pmem. */
  const ROOT: Word := 0x8008_0000

  /** The two tables are on pages 0x80000 and 0x80001; page 0 goes to frame 0x80002. */
  const TABLES: set<nat> := {0x80000, 0x80001}

  function Entry(frame: nat): Word
    requires frame < 0x10_0000
  {
    frame * 0x400 + 1
  }

  /** The words of a memory in which page 1 goes to the given frame. */
  function Words2(frame: nat): (words: seq<Word>)
    requires frame < 0x10_0000
    ensures |words| == 0x402 && words[0] == Entry(0x80001)
    ensures words[0x400] == Entry(0x80002) && words[0x401] == Entry(frame)
  {
    [Entry(0x80001)] + seq<Word>(0x3ff, _ => 0) + [Entry(0x80002), Entry(frame)]
  }

  function TwoPages(frame: nat): Mem
    requires frame < 0x10_0000
  {
    Rom(Words2(frame))
  }

  function LayoutOf(frame: nat): Layout {
    Layout(map[0 := 0x80002, 1 := frame], TABLES)
  }

  lemma TwoPagesRead(frame: nat)
    requires frame < 0x10_0000
    ensures PhysRead(TwoPages(frame), 0x8000_0000, 4) == Entry(0x80001)
    ensures PhysRead(TwoPages(frame), 0x8000_1000, 4) == Entry(0x80002)
    ensures PhysRead(TwoPages(frame), 0x8000_1004, 4) == Entry(frame)
  {
    RomWord(Words2(frame), 0);
    RomWord(Words2(frame), 0x400);
    RomWord(Words2(frame), 0x401);
  }

  lemma EntryParts(frame: nat)
    requires frame < 0x10_0000
    ensures Paging.Valid(Entry(frame)) && EntryPage(Entry(frame)) == frame && frame % 0x10_0000 == frame
  {
    EntryIsOdd(frame * 0x200);
  }

  lemma EntryIsOdd(half: nat)
    ensures (2 * half + 1) % 2 == 1
  {
  }

  /** The addresses of the entries of a page among the first 1024. */
  lemma Places(p: nat)
    requires p < 2
    ensures EntryAddress(ROOT, p / ENTRIES) == 0x8000_0000 && EntryAddress(0x80001, p % ENTRIES) == 0x8000_1000 + 4 * p
    ensures Fits(0x8000_0000, 4) && Fits(0x8000_1000 + 4 * p, 4) && ROOT % 0x10_0000 == 0x80000
  {
  }

  /** A walk, from the two entries it reads. */
  lemma WalkFrom(satp: Word, m: Mem, p: nat, root: Word, pde: Word, a: Word, pte: Word, frame: nat, tables: set<nat>)
    requires p < 0x10_0000 && root == EntryAddress(satp, p / ENTRIES) && Fits(root, 4)
    requires PhysRead(m, root, 4) == pde && Paging.Valid(pde)
    requires a == EntryAddress(EntryPage(pde), p % ENTRIES) && Fits(a, 4)
    requires PhysRead(m, a, 4) == pte && Paging.Valid(pte) && EntryPage(pte) % 0x10_0000 == frame
    requires satp % 0x10_0000 in tables && EntryPage(pde) % 0x10_0000 in tables
    ensures Walks(satp, m, p, frame, tables)
  {
  }

  lemma TwoPagesWalk(frame: nat, p: nat)
    requires frame < 0x10_0000 && p < 2
    ensures Walks(ROOT, TwoPages(frame), p, LayoutOf(frame).frames[p], TABLES)
  {
    var f := LayoutOf(frame).frames[p];
    TwoPagesRead(frame);
    Places(p);
    EntryParts(0x80001);
    EntryParts(f);
    WalkFrom(ROOT, TwoPages(frame), p, 0x8000_0000, Entry(0x80001), 0x8000_1000 + 4 * p, Entry(f), f, TABLES);
  }

  lemma TwoPagesTable(frame: nat)
    requires frame < 0x10_0000
    ensures IsTableOf(ROOT, TwoPages(frame), LayoutOf(frame), 0, 0x80001)
  {
    TwoPagesRead(frame);
    Places(0);
    EntryParts(0x80001);
  }

  lemma TwoPagesMapped(frame: nat)
    requires FrameInPmem(frame)
    ensures frame < 0x10_0000
    ensures Mapping(ROOT, TwoPages(frame), LayoutOf(frame)) && TablesRead(ROOT, TwoPages(frame), LayoutOf(frame))
  {
    var l, m := LayoutOf(frame), TwoPages(frame);
    forall p | p in l.frames ensures Walks(ROOT, m, p, l.frames[p], l.tables) && FrameInPmem(l.frames[p]) {
      TwoPagesWalk(frame, p);
    }
    MappedBy(ROOT, m, l);
    TwoPagesTable(frame);
    Places(0);
    ReadTables(ROOT, m, l, 0, 0x80001);
  }

  lemma MappedBy(satp: Word, m: Mem, l: Layout)
    requires satp >= TWO_31
    requires forall p :: p in l.frames ==> Walks(satp, m, p, l.frames[p], l.tables) && FrameInPmem(l.frames[p])
    ensures Mapping(satp, m, l)
  {
  }

  lemma ReadTables(satp: Word, m: Mem, l: Layout, p: nat, t: nat)
    requires Mapping(satp, m, l) && IsTableOf(satp, m, l, p, t) && l.tables == {satp % 0x10_0000, t}
    ensures TablesRead(satp, m, l)
  {
  }

  /** With page 1 on a third frame, paged memory is flat. */
  lemma FlatExample()
    ensures WellPaged(ROOT, TwoPages(0x80003), LayoutOf(0x80003))
    ensures exists f :: ActsFlat(ROOT, TwoPages(0x80003), LayoutOf(0x80003), f)
  {
    TwoPagesMapped(0x80003);
    FlatIffSeparated(ROOT, TwoPages(0x80003), LayoutOf(0x80003));
  }

  /** With both pages on one frame it is not. */
  lemma SharedFrameExample()
    ensures Mapping(ROOT, TwoPages(0x80002), LayoutOf(0x80002))
    ensures TablesRead(ROOT, TwoPages(0x80002), LayoutOf(0x80002))
    ensures !exists f :: ActsFlat(ROOT, TwoPages(0x80002), LayoutOf(0x80002), f)
  {
    TwoPagesMapped(0x80002);
    var l := LayoutOf(0x80002);
    assert l.frames[0] == l.frames[1];
    FlatIffSeparated(ROOT, TwoPages(0x80002), l);
  }

  /** Nor is it with page 1 on its own page table. */
  lemma TableFrameExample()
    ensures Mapping(ROOT, TwoPages(0x80001), LayoutOf(0x80001))
    ensures TablesRead(ROOT, TwoPages(0x80001), LayoutOf(0x80001))
    ensures !exists f :: ActsFlat(ROOT, TwoPages(0x80001), LayoutOf(0x80001), f)
  {
    TwoPagesMapped(0x80001);
    var l := LayoutOf(0x80001);
    assert l.frames[1] in l.tables;
    FlatIffSeparated(ROOT, TwoPages(0x80001), l);
  }
}
