/**
 isa_mmu_translate (src/cpu/mmu.c) and the virtual accesses built on it
 (src/memory/memory.c). PagedRefinesFlat is the main result: under a condition on the
 page tables alone, any sequence of loads and stores through the walk returns what a flat
 byte map over virtual addresses returns, and never disturbs the walk.
 */
module Paging {
  import opened Words
  import opened Memory

  const PGSIZE: nat := 0x1000
  const ENTRIES: nat := 0x400

  /** PGSTART: the shift by 12 drops all but the low 20 bits of the page number. */
  function PageStart(pn: Word): Word {
    pn % 0x10_0000 * PGSIZE
  }

  function PageOffset(va: Word): nat {
    va % PGSIZE
  }

  function Page(va: Word): nat {
    va / PGSIZE
  }

  /** VPN_1 and VPN_0: the two table indices. */
  function Vpn1(va: Word): nat {
    va / 0x40_0000
  }

  function Vpn0(va: Word): nat {
    va / PGSIZE % ENTRIES
  }

  predicate Valid(entry: Word) {
    entry % 2 == 1
  }

  /** PPN. */
  function EntryPage(entry: Word): Word {
    entry / 0x400
  }

  /** The address of entry i of the table on page pn. */
  function EntryAddress(pn: Word, i: nat): Word
    requires i < ENTRIES
  {
    PageStart(pn) + 4 * i
  }

  datatype Walk = Leaf(entry: Word) | L1Miss | L2Miss | Outside

  /** The two table reads. Outside: a table word is not in pmem, so its read would go to a device. */
  function WalkTables(satp: Word, m: Mem, v1: nat, v0: nat): Walk
    requires v1 < ENTRIES && v0 < ENTRIES
  {
    if !Fits(EntryAddress(satp, v1), 4) then Outside
    else
      var pde := PhysRead(m, EntryAddress(satp, v1), 4);
      if !Valid(pde) then L1Miss
      else if !Fits(EntryAddress(EntryPage(pde), v0), 4) then Outside
      else
        var pte := PhysRead(m, EntryAddress(EntryPage(pde), v0), 4);
        if Valid(pte) then Leaf(pte) else L2Miss
  }

  datatype Translation = Mapped(pa: Word) | Fault(why: Walk)

  /**
   isa_mmu_translate. Both misses panic in the source. Frames are page aligned, so the
   source's bitwise or of frame and offset is a sum.
   */
  function Translate(satp: Word, m: Mem, va: Word): Translation {
    if satp < TWO_31 then Mapped(va)
    else
      match WalkTables(satp, m, Vpn1(va), Vpn0(va))
      case Leaf(pte) => Mapped(PageStart(EntryPage(pte)) + PageOffset(va))
      case why => Fault(why)
  }

  /** vaddr_read; None where the source panics, goes to a device or overruns pmem. */
  function VirtRead(satp: Word, m: Mem, va: Word, len: nat): Option<Word> {
    match Translate(satp, m, va)
    case Mapped(pa) => if Fits(pa, len) then Some(PhysRead(m, pa, len)) else None
    case _ => None
  }

  /** vaddr_write. */
  function VirtWrite(satp: Word, m: Mem, va: Word, len: nat, d: Word): Option<Mem> {
    match Translate(satp, m, va)
    case Mapped(pa) => if Fits(pa, len) then Some(PhysWrite(m, pa, len, d)) else None
    case _ => None
  }

  datatype Access = LoadAt(va: Word, len: nat) | StoreAt(va: Word, len: nat, data: Word)

  /** The values the loads of a sequence of accesses return, and the memory they leave. */
  function RunPaged(satp: Word, m: Mem, ops: seq<Access>): Option<(seq<Word>, Mem)>
    decreases ops
  {
    if ops == [] then Some(([], m))
    else
      match ops[0]
      case LoadAt(va, len) => (
        match VirtRead(satp, m, va, len)
        case None => None
        case Some(w) =>
          match RunPaged(satp, m, ops[1..])
          case None => None
          case Some((ws, m')) => Some(([w] + ws, m')))
      case StoreAt(va, len, d) =>
        match VirtWrite(satp, m, va, len, d)
        case None => None
        case Some(m') => RunPaged(satp, m', ops[1..])
  }

  /** Storing into a flat byte map. */
  function FlatStore(f: nat -> Byte, va: nat, len: nat, d: Word): nat -> Byte {
    (x: nat) => if va <= x < va + len then ByteOf(d, x - va) else f(x)
  }

  function RunFlat(f: nat -> Byte, ops: seq<Access>): (seq<Word>, nat -> Byte)
    decreases ops
  {
    if ops == [] then ([], f)
    else
      match ops[0]
      case LoadAt(va, len) =>
        var (ws, f') := RunFlat(f, ops[1..]);
        ([Assemble(f, va, len)] + ws, f')
      case StoreAt(va, len, d) => RunFlat(FlatStore(f, va, len, d), ops[1..])
  }

  // ---------------------------------------------------------------------------
  // Which page tables support a set of pages.

  /** A page table seen from outside: where each page goes, and which pages hold the tables. */
  datatype Layout = Layout(frames: map<nat, nat>, tables: set<nat>)

  /** The walk for page p reads only table pages and ends at the given frame. */
  predicate Walks(satp: Word, m: Mem, p: nat, frame: nat, tables: set<nat>) {
    p < 0x10_0000
    && satp % 0x10_0000 in tables
    && var walk := WalkTables(satp, m, p / ENTRIES, p % ENTRIES);
    && walk.Leaf? && EntryPage(walk.entry) % 0x10_0000 == frame
    && EntryPage(PhysRead(m, EntryAddress(satp, p / ENTRIES), 4)) % 0x10_0000 in tables
  }

  predicate FrameInPmem(frame: nat) {
    MBASE <= frame * PGSIZE && frame * PGSIZE + PGSIZE <= MBASE + MSIZE
  }

  /**
   Paging is on, every page goes to a frame of its own inside pmem, and no frame is a page
   that a walk reads.
   */
  ghost predicate WellPaged(satp: Word, m: Mem, l: Layout) {
    && satp >= TWO_31
    && (forall p {:trigger Walks(satp, m, p, l.frames[p], l.tables)} ::
          p in l.frames ==> Walks(satp, m, p, l.frames[p], l.tables))
    && Separated(l)
  }

  ghost predicate Separated(l: Layout) {
    && (forall p, q :: p in l.frames && q in l.frames && p != q ==> l.frames[p] != l.frames[q])
    && (forall p :: p in l.frames ==> FrameInPmem(l.frames[p]) && l.frames[p] !in l.tables)
  }

  /** The access is of a legal width, on one of the pages, and does not leave it. */
  predicate InPages(l: Layout, a: Access) {
    Len(a.len) && Page(a.va) in l.frames && PageOffset(a.va) + a.len <= PGSIZE
  }

  predicate AllInPages(l: Layout, ops: seq<Access>) {
    forall i :: 0 <= i < |ops| ==> InPages(l, ops[i])
  }

  /** f is the flat view of the mapped pages. */
  ghost predicate FlatView(m: Mem, l: Layout, f: nat -> Byte) {
    forall p, o :: p in l.frames && 0 <= o < PGSIZE ==> ByteAgrees(m, l.frames[p], f, p, o)
  }

  predicate ByteAgrees(m: Mem, frame: nat, f: nat -> Byte, p: nat, o: nat) {
    Bytes(m)(frame * PGSIZE + o) == f(p * PGSIZE + o)
  }

  // ---------------------------------------------------------------------------

  lemma IndicesOfPage(va: Word)
    ensures Page(va) < 0x10_0000
    ensures Vpn1(va) == Page(va) / ENTRIES && Vpn0(va) == Page(va) % ENTRIES
    ensures va == Page(va) * PGSIZE + PageOffset(va)
  {
  }

  lemma EntryPages(pn: Word, i: nat)
    requires i < ENTRIES
    ensures EntryAddress(pn, i) % 4 == 0 && Page(EntryAddress(pn, i)) == pn % 0x10_0000
  {
  }

  /** The physical address an access inside the pages goes to. */
  lemma Target(satp: Word, m: Mem, l: Layout, a: Access) returns (pa: Word)
    requires WellPaged(satp, m, l) && InPages(l, a)
    ensures pa == l.frames[Page(a.va)] * PGSIZE + PageOffset(a.va)
    ensures a.va == Page(a.va) * PGSIZE + PageOffset(a.va)
    ensures Fits(pa, a.len) && PageOffset(pa) == PageOffset(a.va) && Page(pa) !in l.tables
    ensures a.LoadAt? ==> VirtRead(satp, m, a.va, a.len) == Some(PhysRead(m, pa, a.len))
    ensures a.StoreAt? ==> VirtWrite(satp, m, a.va, a.len, a.data) == Some(PhysWrite(m, pa, a.len, a.data))
  {
    WalkOfAddress(satp, m, l, a.va);
    pa := l.frames[Page(a.va)] * PGSIZE + PageOffset(a.va);
    assert Page(pa) == l.frames[Page(a.va)];
  }

  lemma WalkOfAddress(satp: Word, m: Mem, l: Layout, va: Word)
    requires WellPaged(satp, m, l) && Page(va) in l.frames
    ensures va == Page(va) * PGSIZE + PageOffset(va)
    ensures FrameInPmem(l.frames[Page(va)])
    ensures Translate(satp, m, va) == Mapped(l.frames[Page(va)] * PGSIZE + PageOffset(va))
  {
    IndicesOfPage(va);
    assert Walks(satp, m, Page(va), l.frames[Page(va)], l.tables);
  }

  /** A store that stays inside a frame leaves every other frame's words alone. */
  lemma WriteElsewhere(m: Mem, a: Word, len: nat, d: Word, b: Word)
    requires Fits(a, len) && PageOffset(a) + len <= PGSIZE
    requires Fits(b, 4) && b % 4 == 0 && Page(a) != Page(b)
    ensures PhysRead(PhysWrite(m, a, len, d), b, 4) == PhysRead(m, b, 4)
  {
    var m' := PhysWrite(m, a, len, d);
    forall x: nat | b <= x < b + 4
      ensures At(m', x) == At(m, x)
    {
      WriteAt(m, a, len, d, x);
      assert x / PGSIZE == Page(b);
    }
    assert At(m', b) == At(m, b) && At(m', b + 1) == At(m, b + 1);
    assert At(m', b + 2) == At(m, b + 2) && At(m', b + 3) == At(m, b + 3);
  }

  /** A store outside the table pages never changes a walk. */
  lemma WalkUndisturbed(satp: Word, m: Mem, p: nat, frame: nat, tables: set<nat>, pa: Word, len: nat, d: Word)
    requires Walks(satp, m, p, frame, tables) && Page(pa) !in tables
    requires Fits(pa, len) && PageOffset(pa) + len <= PGSIZE
    ensures Walks(satp, PhysWrite(m, pa, len, d), p, frame, tables)
  {
    var l1 := EntryAddress(satp, p / ENTRIES);
    var table := EntryPage(PhysRead(m, l1, 4));
    EntryPages(satp, p / ENTRIES);
    EntryPages(table, p % ENTRIES);
    WriteElsewhere(m, pa, len, d, l1);
    WriteElsewhere(m, pa, len, d, EntryAddress(table, p % ENTRIES));
  }

  lemma StoreKeepsWalks(satp: Word, m: Mem, l: Layout, pa: Word, len: nat, d: Word)
    requires WellPaged(satp, m, l)
    requires Fits(pa, len) && PageOffset(pa) + len <= PGSIZE && Page(pa) !in l.tables
    ensures WellPaged(satp, PhysWrite(m, pa, len, d), l)
  {
    forall p | p in l.frames
      ensures Walks(satp, PhysWrite(m, pa, len, d), p, l.frames[p], l.tables)
    {
      WalkUndisturbed(satp, m, p, l.frames[p], l.tables, pa, len, d);
    }
  }

  /** Two page-local intervals: a cell is covered iff the pages agree and the offset is covered. */
  lemma SameCell(p: nat, o: nat, q: nat, s: nat, len: nat)
    requires o < PGSIZE && s + len <= PGSIZE
    ensures (q * PGSIZE + s <= p * PGSIZE + o < q * PGSIZE + s + len) <==> (p == q && s <= o < s + len)
  {
  }

  lemma StoredByte(m: Mem, l: Layout, f: nat -> Byte, pa: Word, va: Word, len: nat, d: Word, p: nat, o: nat)
    requires Separated(l) && FlatView(m, l, f) && InPages(l, StoreAt(va, len, d)) && Fits(pa, len)
    requires pa == l.frames[Page(va)] * PGSIZE + PageOffset(va) && va == Page(va) * PGSIZE + PageOffset(va)
    requires p in l.frames && o < PGSIZE
    ensures ByteAgrees(PhysWrite(m, pa, len, d), l.frames[p], FlatStore(f, va, len, d), p, o)
  {
    WriteAt(m, pa, len, d, l.frames[p] * PGSIZE + o);
    assert ByteAgrees(m, l.frames[p], f, p, o);
    SameCell(l.frames[p], o, l.frames[Page(va)], PageOffset(va), len);
    SameCell(p, o, Page(va), PageOffset(va), len);
  }

  lemma StoredView(m: Mem, l: Layout, f: nat -> Byte, pa: Word, va: Word, len: nat, d: Word)
    requires Separated(l) && FlatView(m, l, f) && InPages(l, StoreAt(va, len, d)) && Fits(pa, len)
    requires pa == l.frames[Page(va)] * PGSIZE + PageOffset(va) && va == Page(va) * PGSIZE + PageOffset(va)
    ensures FlatView(PhysWrite(m, pa, len, d), l, FlatStore(f, va, len, d))
  {
    forall p, o | p in l.frames && 0 <= o < PGSIZE
      ensures ByteAgrees(PhysWrite(m, pa, len, d), l.frames[p], FlatStore(f, va, len, d), p, o)
    {
      StoredByte(m, l, f, pa, va, len, d, p, o);
    }
  }

  lemma StoreStep(satp: Word, m: Mem, l: Layout, f: nat -> Byte, va: Word, len: nat, d: Word) returns (m': Mem)
    requires WellPaged(satp, m, l) && FlatView(m, l, f) && InPages(l, StoreAt(va, len, d))
    ensures VirtWrite(satp, m, va, len, d) == Some(m')
    ensures WellPaged(satp, m', l) && FlatView(m', l, FlatStore(f, va, len, d))
  {
    var pa := Target(satp, m, l, StoreAt(va, len, d));
    StoredView(m, l, f, pa, va, len, d);
    StoreKeepsWalks(satp, m, l, pa, len, d);
    m' := PhysWrite(m, pa, len, d);
  }

  lemma LoadStep(satp: Word, m: Mem, l: Layout, f: nat -> Byte, va: Word, len: nat)
    requires WellPaged(satp, m, l) && FlatView(m, l, f) && InPages(l, LoadAt(va, len))
    ensures VirtRead(satp, m, va, len) == Some(Assemble(f, va, len))
  {
    var pa := Target(satp, m, l, LoadAt(va, len));
    LoadedWord(m, l, f, Page(va), PageOffset(va), len);
  }

  lemma LoadedWord(m: Mem, l: Layout, f: nat -> Byte, p: nat, o: nat, len: nat)
    requires FlatView(m, l, f) && p in l.frames && Len(len) && o + len <= PGSIZE
    ensures Assemble(Bytes(m), l.frames[p] * PGSIZE + o, len) == Assemble(f, p * PGSIZE + o, len)
  {
    assert ByteAgrees(m, l.frames[p], f, p, o);
    if len != 1 {
      assert ByteAgrees(m, l.frames[p], f, p, o + 1);
      if len != 2 {
        assert ByteAgrees(m, l.frames[p], f, p, o + 2);
        assert ByteAgrees(m, l.frames[p], f, p, o + 3);
      }
    }
  }

  /**
   Walked memory refines flat memory. If the pages go to distinct frames inside pmem and
   no frame is a page the walk reads, then every sequence of accesses inside the pages
   runs to the end, its loads return what a flat byte map returns, and the same layout
   still holds afterwards.
   */
  lemma {:induction false} PagedRefinesFlat(satp: Word, m: Mem, l: Layout, f: nat -> Byte, ops: seq<Access>)
    requires WellPaged(satp, m, l) && FlatView(m, l, f)
    requires AllInPages(l, ops)
    ensures RunPaged(satp, m, ops).Some?
    ensures RunPaged(satp, m, ops).value.0 == RunFlat(f, ops).0
    ensures WellPaged(satp, RunPaged(satp, m, ops).value.1, l)
    ensures FlatView(RunPaged(satp, m, ops).value.1, l, RunFlat(f, ops).1)
    decreases ops
  {
    if ops == [] {
    } else {
      assert InPages(l, ops[0]);
      assert forall i :: 0 <= i < |ops[1..]| ==> ops[1..][i] == ops[i + 1];
      match ops[0] {
        case LoadAt(va, len) =>
          LoadStep(satp, m, l, f, va, len);
          PagedRefinesFlat(satp, m, l, f, ops[1..]);
        case StoreAt(va, len, d) =>
          var m1 := StoreStep(satp, m, l, f, va, len, d);
          PagedRefinesFlat(satp, m1, l, FlatStore(f, va, len, d), ops[1..]);
      }
    }
  }

  /** What the mapped pages hold, as a flat byte map. */
  function ViewOf(m: Mem, l: Layout): nat -> Byte {
    (x: nat) => if x / PGSIZE in l.frames then Bytes(m)(l.frames[x / PGSIZE] * PGSIZE + x % PGSIZE) else 0
  }

  lemma ViewOfIsFlatView(m: Mem, l: Layout)
    ensures FlatView(m, l, ViewOf(m, l))
  {
    forall p, o | p in l.frames && 0 <= o < PGSIZE ensures ByteAgrees(m, l.frames[p], ViewOf(m, l), p, o) {
      assert (p * PGSIZE + o) / PGSIZE == p && (p * PGSIZE + o) % PGSIZE == o;
    }
  }

  /** In terms of addresses: no sequence of accesses inside the pages changes any translation. */
  lemma TranslationNeverChanges(satp: Word, m: Mem, l: Layout, ops: seq<Access>, va: Word)
    requires WellPaged(satp, m, l) && AllInPages(l, ops) && Page(va) in l.frames
    ensures RunPaged(satp, m, ops).Some?
    ensures Translate(satp, RunPaged(satp, m, ops).value.1, va) == Translate(satp, m, va)
      == Mapped(l.frames[Page(va)] * PGSIZE + PageOffset(va))
  {
    ViewOfIsFlatView(m, l);
    PagedRefinesFlat(satp, m, l, ViewOf(m, l), ops);
    WalkOfAddress(satp, m, l, va);
    WalkOfAddress(satp, RunPaged(satp, m, ops).value.1, l, va);
  }

  // ---------------------------------------------------------------------------
  // The conditions are necessary.

  /** Every sequence of accesses inside the pages does what the flat byte map f does. */
  ghost predicate ActsFlat(satp: Word, m: Mem, l: Layout, f: nat -> Byte) {
    forall ops: seq<Access> :: AllInPages(l, ops) ==>
      RunPaged(satp, m, ops).Some? && RunPaged(satp, m, ops).value.0 == RunFlat(f, ops).0
  }

  /** The page of the second-level table in the walk for page p. */
  function TableOf(satp: Word, m: Mem, p: nat): nat
    requires p < 0x10_0000 && Fits(EntryAddress(satp, p / ENTRIES), 4)
  {
    EntryPage(PhysRead(m, EntryAddress(satp, p / ENTRIES), 4)) % 0x10_0000
  }

  /** Every page is mapped to some frame in pmem. */
  ghost predicate Mapping(satp: Word, m: Mem, l: Layout) {
    && satp >= TWO_31
    && (forall p {:trigger Walks(satp, m, p, l.frames[p], l.tables)} ::
          p in l.frames ==> Walks(satp, m, p, l.frames[p], l.tables))
    && (forall p :: p in l.frames ==> FrameInPmem(l.frames[p]))
  }

  /** The pages given as tables are all read by some walk. */
  ghost predicate TablesRead(satp: Word, m: Mem, l: Layout)
    requires Mapping(satp, m, l)
  {
    forall t :: t in l.tables ==> t == satp % 0x10_0000 || exists p: nat :: IsTableOf(satp, m, l, p, t)
  }

  predicate IsTableOf(satp: Word, m: Mem, l: Layout, p: nat, t: nat) {
    p in l.frames && p < 0x10_0000 && Fits(EntryAddress(satp, p / ENTRIES), 4) && t == TableOf(satp, m, p)
  }

  /** No page is mapped to a page that a walk reads. */
  ghost predicate TablesUnmapped(l: Layout) {
    forall p :: p in l.frames ==> l.frames[p] !in l.tables
  }

  /**
   Mapped pages act like some flat memory exactly if no two share a frame and none is mapped
   to a page table. Both can be read off the tables.
   */
  lemma FlatIffSeparated(satp: Word, m: Mem, l: Layout)
    requires Mapping(satp, m, l) && TablesRead(satp, m, l)
    ensures (exists f :: ActsFlat(satp, m, l, f)) <==> Separated(l)
  {
    if p :| p in l.frames && l.frames[p] in l.tables {
      forall f ensures !ActsFlat(satp, m, l, f) { TableFrameShows(satp, m, l, p, f); }
    } else if p, q :| p in l.frames && q in l.frames && p != q && l.frames[p] == l.frames[q] {
      assert TablesUnmapped(l);
      forall f ensures !ActsFlat(satp, m, l, f) { SharedFrameShows(satp, m, l, p, q, f); }
    } else {
      assert Separated(l) && WellPaged(satp, m, l);
      ViewActsFlat(satp, m, l);
    }
  }

  lemma ViewActsFlat(satp: Word, m: Mem, l: Layout)
    requires WellPaged(satp, m, l)
    ensures ActsFlat(satp, m, l, ViewOf(m, l))
  {
    ViewOfIsFlatView(m, l);
    forall ops: seq<Access> | AllInPages(l, ops)
      ensures RunPaged(satp, m, ops).Some? && RunPaged(satp, m, ops).value.0 == RunFlat(ViewOf(m, l), ops).0
    {
      PagedRefinesFlat(satp, m, l, ViewOf(m, l), ops);
    }
  }

  /** A page mapped to a table: through it an entry can be cleared, and then a load fails. */
  lemma TableFrameShows(satp: Word, m: Mem, l: Layout, p: nat, f: nat -> Byte)
    requires Mapping(satp, m, l) && TablesRead(satp, m, l) && p in l.frames && l.frames[p] in l.tables
    ensures !ActsFlat(satp, m, l, f)
  {
    var t := l.frames[p];
    assert Walks(satp, m, p, t, l.tables);
    if t == satp % 0x10_0000 {
      RootClears(satp, m, l, p);
      EntryCleared(satp, m, l, p, p, EntryAddress(satp, p / ENTRIES), f);
    } else {
      var q: nat :| IsTableOf(satp, m, l, q, t);
      TableClears(satp, m, l, p, q);
      var table := EntryPage(PhysRead(m, EntryAddress(satp, q / ENTRIES), 4));
      EntryCleared(satp, m, l, p, q, EntryAddress(table, q % ENTRIES), f);
    }
  }

  lemma ZeroByteClears(m: Mem, a: Word)
    requires Fits(a, 4)
    ensures !Valid(PhysRead(PhysWrite(m, a, 1, 0), a, 4))
  {
    WriteAt(m, a, 1, 0, a);
  }

  /** A zero byte over the first-level entry of p makes the walk for p miss. */
  lemma RootClears(satp: Word, m: Mem, l: Layout, p: nat)
    requires Mapping(satp, m, l) && p in l.frames
    ensures p < 0x10_0000
    ensures var a := EntryAddress(satp, p / ENTRIES);
      Fits(a, 4) && Page(a) == satp % 0x10_0000 && PageOffset(a) + 1 <= PGSIZE
      && Translate(satp, PhysWrite(m, a, 1, 0), p * PGSIZE) == Fault(L1Miss)
  {
    assert Walks(satp, m, p, l.frames[p], l.tables);
    var a := EntryAddress(satp, p / ENTRIES);
    EntryPages(satp, p / ENTRIES);
    ZeroByteClears(m, a);
    IndicesOfPage(p * PGSIZE);
  }

  /** A zero byte over the second-level entry of q, in another page than the root, makes the walk for q miss. */
  lemma TableClears(satp: Word, m: Mem, l: Layout, p: nat, q: nat)
    requires Mapping(satp, m, l) && p in l.frames && l.frames[p] != satp % 0x10_0000
    requires IsTableOf(satp, m, l, q, l.frames[p])
    ensures var a := EntryAddress(EntryPage(PhysRead(m, EntryAddress(satp, q / ENTRIES), 4)), q % ENTRIES);
      Fits(a, 4) && Page(a) == l.frames[p] && PageOffset(a) + 1 <= PGSIZE
      && Translate(satp, PhysWrite(m, a, 1, 0), q * PGSIZE) == Fault(L2Miss)
  {
    assert Walks(satp, m, q, l.frames[q], l.tables);
    var root := EntryAddress(satp, q / ENTRIES);
    var pde := PhysRead(m, root, 4);
    var a := EntryAddress(EntryPage(pde), q % ENTRIES);
    EntryPages(satp, q / ENTRIES);
    EntryPages(EntryPage(pde), q % ENTRIES);
    WriteElsewhere(m, a, 1, 0, root);
    ZeroByteClears(m, a);
    MissesAt(satp, PhysWrite(m, a, 1, 0), q, pde);
  }

  lemma MissesAt(satp: Word, m: Mem, q: nat, pde: Word)
    requires satp >= TWO_31 && q < 0x10_0000
    requires var root := EntryAddress(satp, q / ENTRIES); Fits(root, 4) && PhysRead(m, root, 4) == pde && Valid(pde)
    requires var a := EntryAddress(EntryPage(pde), q % ENTRIES); Fits(a, 4) && !Valid(PhysRead(m, a, 4))
    ensures Translate(satp, m, q * PGSIZE) == Fault(L2Miss)
  {
    IndicesOfPage(q * PGSIZE);
  }

  /** If clearing the byte at a, in the frame of p, makes q miss, the pages do not act flat. */
  lemma EntryCleared(satp: Word, m: Mem, l: Layout, p: nat, q: nat, a: Word, f: nat -> Byte)
    requires Mapping(satp, m, l) && p in l.frames && q in l.frames && p < 0x10_0000 && q < 0x10_0000
    requires Fits(a, 4) && Page(a) == l.frames[p]
    requires Translate(satp, PhysWrite(m, a, 1, 0), q * PGSIZE).Fault?
    ensures !ActsFlat(satp, m, l, f)
  {
    var va: Word := p * PGSIZE + PageOffset(a);
    AddressWalk(satp, m, l, p, PageOffset(a));
    IndicesOfPage(a);
    AddressIn(q, 0);
    FaultRefutes(satp, m, l, va, q * PGSIZE, a, f);
  }

  lemma FaultRefutes(satp: Word, m: Mem, l: Layout, va: Word, vb: Word, pa: Word, f: nat -> Byte)
    requires InPages(l, StoreAt(va, 1, 0)) && InPages(l, LoadAt(vb, 1))
    requires Fits(pa, 1) && Translate(satp, m, va) == Mapped(pa)
    requires Translate(satp, PhysWrite(m, pa, 1, 0), vb).Fault?
    ensures !ActsFlat(satp, m, l, f)
  {
    StoreThenFault(satp, m, va, vb, pa);
    assert AllInPages(l, [StoreAt(va, 1, 0), LoadAt(vb, 1)]);
  }

  lemma AddressWalk(satp: Word, m: Mem, l: Layout, p: nat, o: nat)
    requires Mapping(satp, m, l) && p in l.frames && o < PGSIZE && p < 0x10_0000
    ensures p * PGSIZE + o < TWO_32 && Page(p * PGSIZE + o) == p && PageOffset(p * PGSIZE + o) == o
    ensures Translate(satp, m, p * PGSIZE + o) == Mapped(l.frames[p] * PGSIZE + o)
  {
    assert Walks(satp, m, p, l.frames[p], l.tables);
    AddressIn(p, o);
    IndicesOfPage(p * PGSIZE + o);
  }

  lemma AddressIn(p: nat, o: nat)
    requires o < PGSIZE && p < 0x10_0000
    ensures p * PGSIZE + o < TWO_32 && Page(p * PGSIZE + o) == p && PageOffset(p * PGSIZE + o) == o
  {
  }

  lemma StoreThenFault(satp: Word, m: Mem, va: Word, vb: Word, pa: Word)
    requires Fits(pa, 1) && Translate(satp, m, va) == Mapped(pa)
    requires Translate(satp, PhysWrite(m, pa, 1, 0), vb).Fault?
    ensures RunPaged(satp, m, [StoreAt(va, 1, 0), LoadAt(vb, 1)]).None?
  {
    assert [StoreAt(va, 1, 0), LoadAt(vb, 1)][1..] == [LoadAt(vb, 1)];
    assert RunPaged(satp, PhysWrite(m, pa, 1, 0), [LoadAt(vb, 1)]).None?;
  }

  lemma PageWalk(satp: Word, m: Mem, l: Layout, p: nat)
    requires Mapping(satp, m, l) && p in l.frames
    ensures p * PGSIZE < TWO_32 && Translate(satp, m, p * PGSIZE) == Mapped(l.frames[p] * PGSIZE)
    ensures Fits(l.frames[p] * PGSIZE, 1)
  {
    assert Walks(satp, m, p, l.frames[p], l.tables);
    IndicesOfPage(p * PGSIZE);
  }

  lemma StoreKeepsMapping(satp: Word, m: Mem, l: Layout, p: nat, d: Byte)
    requires Mapping(satp, m, l) && TablesUnmapped(l) && p in l.frames && Fits(l.frames[p] * PGSIZE, 1)
    ensures Mapping(satp, PhysWrite(m, l.frames[p] * PGSIZE, 1, d), l)
  {
    var pa := l.frames[p] * PGSIZE;
    assert Page(pa) == l.frames[p] && PageOffset(pa) == 0;
    forall x | x in l.frames ensures Walks(satp, PhysWrite(m, pa, 1, d), x, l.frames[x], l.tables) {
      WalkUndisturbed(satp, m, x, l.frames[x], l.tables, pa, 1, d);
    }
  }

  /** A store through one of two pages on the same frame is seen through the other. */
  lemma SharedFrameShows(satp: Word, m: Mem, l: Layout, p: nat, q: nat, f: nat -> Byte)
    requires Mapping(satp, m, l) && TablesUnmapped(l)
    requires p in l.frames && q in l.frames && p != q && l.frames[p] == l.frames[q]
    ensures !ActsFlat(satp, m, l, f)
  {
    PageWalk(satp, m, l, p);
    var d, pa := if f(q * PGSIZE) == 0 then 1 else 0, l.frames[p] * PGSIZE;
    StoreKeepsMapping(satp, m, l, p, d);
    PageWalk(satp, PhysWrite(m, pa, 1, d), l, q);
    var va, vb: Word := p * PGSIZE, q * PGSIZE;
    assert Page(va) == p && Page(vb) == q;
    Refuted(satp, m, l, va, vb, pa, d, f);
  }

  lemma Refuted(satp: Word, m: Mem, l: Layout, va: Word, vb: Word, pa: Word, d: Byte, f: nat -> Byte)
    requires InPages(l, StoreAt(va, 1, d)) && InPages(l, LoadAt(vb, 1)) && va != vb && f(vb) != d
    requires Fits(pa, 1) && Translate(satp, m, va) == Mapped(pa)
    requires Translate(satp, PhysWrite(m, pa, 1, d), vb) == Mapped(pa)
    ensures !ActsFlat(satp, m, l, f)
  {
    StoreThenLoad(satp, m, va, vb, pa, d);
    FlatStoreThenLoad(f, va, vb, d);
    assert AllInPages(l, [StoreAt(va, 1, d), LoadAt(vb, 1)]);
  }

  lemma StoreThenLoad(satp: Word, m: Mem, va: Word, vb: Word, pa: Word, d: Byte)
    requires Fits(pa, 1) && Translate(satp, m, va) == Mapped(pa)
    requires Translate(satp, PhysWrite(m, pa, 1, d), vb) == Mapped(pa)
    ensures var r := RunPaged(satp, m, [StoreAt(va, 1, d), LoadAt(vb, 1)]); r.Some? && r.value.0 == [d]
  {
    ReadBack(m, pa, 1, d);
    LoadOnly(satp, PhysWrite(m, pa, 1, d), vb, d);
    assert [StoreAt(va, 1, d), LoadAt(vb, 1)][1..] == [LoadAt(vb, 1)];
  }

  lemma LoadOnly(satp: Word, m: Mem, va: Word, w: Word)
    requires VirtRead(satp, m, va, 1) == Some(w)
    ensures RunPaged(satp, m, [LoadAt(va, 1)]) == Some(([w], m))
  {
    assert [LoadAt(va, 1)][1..] == [];
    assert RunPaged(satp, m, []) == Some(([], m)) && [w] + [] == [w];
  }

  lemma FlatStoreThenLoad(f: nat -> Byte, va: Word, vb: Word, d: Byte)
    requires va != vb
    ensures RunFlat(f, [StoreAt(va, 1, d), LoadAt(vb, 1)]).0 == [f(vb)]
  {
    var g, ops, rest := FlatStore(f, va, 1, d), [StoreAt(va, 1, d), LoadAt(vb, 1)], [LoadAt(vb, 1)];
    assert ops[1..] == rest && rest[1..] == [];
    assert RunFlat(f, ops) == RunFlat(g, rest);
    assert RunFlat(g, rest).0 == [Assemble(g, vb, 1)] + RunFlat(g, []).0;
    assert RunFlat(g, []).0 == [] && g(vb) == f(vb);
  }
}
