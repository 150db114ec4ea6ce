/**
 Whole programs under paging. A run whose fetches, loads and stores stay inside the mapped
 pages is, register by register, the run of the same instructions on a machine without
 paging whose memory is the flat byte map of those pages.
 */
module FlatPrograms {
  import opened Words
  import opened Memory
  import opened Paging
  import opened Isa
  import opened Decoder
  import opened Machine
  import opened Run
  import opened Layouts

  /** The machine without paging: s.mem is not used, f is its memory. */
  datatype Flat = Flat(s: State, f: nat -> Byte)

  // ---------------------------------------------------------------------------
  // One instruction.

  function FlatStep(x: Flat, i: Instr): Flat
    requires Isa.Legal(i)
  {
    match i
    case Load(w, rd, rs1, imm) =>
      x.(s := WriteBack(x.s, rd, Extend(w, Assemble(x.f, Offset(Get(x.s.gpr, rs1), imm), Size(w)))))
    case Store(w, rs1, rs2, imm) =>
      Flat(x.s.(pc := Add(x.s.pc, 4)), FlatStore(x.f, Offset(Get(x.s.gpr, rs1), imm), Size(w), Get(x.s.gpr, rs2)))
    case _ => x.(s := Step(x.s, i).value)
  }

  /** An instruction of its own memory: fetched, decoded and executed without any translation. */
  function FlatCycle(x: Flat): Flat {
    var w := Assemble(x.f, x.s.pc, 4);
    match Decode(w)
    case Some(i) => LegalDecode(w); FlatStep(x, i)
    case None => x.(s := AbortedAt(x.s))
  }

  /** The memory accesses of one cycle: the fetch, and what the instruction or the error message reads or writes. */
  function Accesses(x: Flat): seq<Access> {
    var w := Assemble(x.f, x.s.pc, 4);
    [LoadAt(x.s.pc, 4)] +
    match Decode(w)
    case Some(Load(width, _, rs1, imm)) => LegalDecode(w); [LoadAt(Offset(Get(x.s.gpr, rs1), imm), Size(width))]
    case Some(Store(width, rs1, rs2, imm)) =>
      LegalDecode(w);
      [StoreAt(Offset(Get(x.s.gpr, rs1), imm), Size(width), Get(x.s.gpr, rs2))]
    case Some(_) => []
    case None => [LoadAt(Add(x.s.pc, 4), 4)]
  }

  /** The paged machine in state s does what the flat machine x does: same but for the memory, which x views flat. */
  ghost predicate Mirrors(s: State, x: Flat, l: Layout) {
    && s == x.s.(mem := s.mem)
    && WellPaged(s.csrs[SATP], s.mem, l) && FlatView(s.mem, l, x.f)
  }

  lemma StepMirrors(s: State, x: Flat, l: Layout, i: Instr)
    requires Mirrors(s, x, l) && Isa.Legal(i)
    requires i.Load? ==> InPages(l, LoadAt(Offset(Get(x.s.gpr, i.rs1), i.imm), Size(i.width)))
    requires i.Store? ==> InPages(l, StoreAt(Offset(Get(x.s.gpr, i.rs1), i.imm), Size(i.width), Get(x.s.gpr, i.rs2)))
    ensures Step(s, i).Some? && Mirrors(Step(s, i).value, FlatStep(x, i), l)
  {
    if i.Load? {
      LoadStep(s.csrs[SATP], s.mem, l, x.f, Offset(Get(x.s.gpr, i.rs1), i.imm), Size(i.width));
    } else if i.Store? {
      var va := Offset(Get(x.s.gpr, i.rs1), i.imm);
      var m := StoreStep(s.csrs[SATP], s.mem, l, x.f, va, Size(i.width), Get(x.s.gpr, i.rs2));
    } else {
      StepIgnoresMemory(x.s, s.mem, i);
    }
  }

  lemma StepIgnoresMemory(s: State, m: Mem, i: Instr)
    requires Isa.Legal(i) && !i.Load? && !i.Store?
    ensures Step(s, i).Some? && Step(s.(mem := m), i) == Some(Step(s, i).value.(mem := m))
    ensures Step(s, i).value.csrs == s.csrs
  {
  }

  lemma CycleMirrors(s: State, x: Flat, l: Layout)
    requires Mirrors(s, x, l) && AllInPages(l, Accesses(x))
    ensures Cycle(s).Some? && Mirrors(Cycle(s).value, FlatCycle(x), l)
  {
    var w := Assemble(x.f, x.s.pc, 4);
    assert InPages(l, Accesses(x)[0]);
    LoadStep(s.csrs[SATP], s.mem, l, x.f, s.pc, 4);
    match Decode(w) {
      case Some(i) =>
        LegalDecode(w);
        if i.Load? || i.Store? { assert InPages(l, Accesses(x)[1]); }
        StepMirrors(s, x, l, i);
      case None =>
        assert InPages(l, Accesses(x)[1]);
        LoadStep(s.csrs[SATP], s.mem, l, x.f, Add(s.pc, 4), 4);
    }
  }

  // ---------------------------------------------------------------------------
  // Runs.

  // The runs take the flat machine's cycle as a parameter, as Run.Execute does.

  type FlatStepper = Flat -> Flat

  function After(step: FlatStepper, x: Flat): Flat {
    var y := step(x);
    y.(s := Counted(y.s))
  }

  function Next(step: FlatStepper, x: Flat, e: Event): Flat {
    var c := After(step, x);
    c.(s := Tick(c.s, e))
  }

  /** execute on the flat machine; it cannot fail. */
  function FlatExecute(step: FlatStepper, x: Flat, n: nat, env: Environment, now: nat): (Flat, nat)
    decreases n
  {
    if n == 0 then (x, now)
    else if After(step, x).s.emu != Running then (After(step, x), now)
    else FlatExecute(step, Next(step, x, env(now)), n - 1, env, now + 1)
  }

  /** Every cycle of the flat run satisfies inside. */
  predicate Stays(step: FlatStepper, inside: Flat -> bool, x: Flat, n: nat, env: Environment, now: nat)
    decreases n
  {
    n == 0 || (
      && inside(x)
      && (After(step, x).s.emu == Running ==> Stays(step, inside, Next(step, x, env(now)), n - 1, env, now + 1)))
  }

  /** One cycle of the paged machine is one of the flat machine, while inside holds. */
  ghost predicate Simulates(cycle: Stepper, step: FlatStepper, inside: Flat -> bool, l: Layout) {
    forall s: State, x: Flat {:trigger cycle(s), step(x)} ::
      Mirrors(s, x, l) && inside(x) ==> cycle(s).Some? && Mirrors(cycle(s).value, step(x), l)
  }

  lemma TickMirrors(s: State, x: Flat, l: Layout, e: Event)
    requires Mirrors(s, x, l)
    ensures Mirrors(Counted(s), x.(s := Counted(x.s)), l)
    ensures Mirrors(Tick(s, e), x.(s := Tick(x.s, e)), l)
  {
    assert Tick(s, e).csrs[SATP] == s.csrs[SATP];
  }

  lemma RoundMirrors(t: State, y: Flat, l: Layout, e: Event)
    requires Mirrors(t, y, l)
    ensures Mirrors(Counted(t), y.(s := Counted(y.s)), l)
    ensures Mirrors(Tick(Counted(t), e), y.(s := Tick(Counted(y.s), e)), l)
  {
    TickMirrors(t, y, l, e);
    TickMirrors(Counted(t), y.(s := Counted(y.s)), l, e);
  }

  lemma {:induction false} RunMirrors(cycle: Stepper, step: FlatStepper, inside: Flat -> bool, s: State, x: Flat,
                                      l: Layout, n: nat, env: Environment, now: nat)
    requires Simulates(cycle, step, inside, l) && Mirrors(s, x, l) && Stays(step, inside, x, n, env, now)
    ensures var r, (y, to) := Execute(cycle, s, n, env, now), FlatExecute(step, x, n, env, now);
      r.Some? && r.value.now == to && Mirrors(r.value.s, y, l)
    decreases n
  {
    if n != 0 {
      assert Mirrors(cycle(s).value, step(x), l);
      var t := cycle(s).value;
      RoundMirrors(t, step(x), l, env(now));
      if t.emu == Running {
        RunMirrors(cycle, step, inside, Tick(Counted(t), env(now)), Next(step, x, env(now)), l, n - 1, env, now + 1);
      }
    }
  }

  /** Every access of the next cycle stays inside the pages. */
  predicate Inside(l: Layout, x: Flat) {
    AllInPages(l, Accesses(x))
  }

  /** A program that stays inside its pages runs as on a flat memory, interrupts included. */
  lemma ProgramRefinesFlat(s: State, x: Flat, l: Layout, n: nat, env: Environment, now: nat)
    requires Mirrors(s, x, l) && Stays(FlatCycle, y => Inside(l, y), x, n, env, now)
    ensures var r, (y, to) := Execute(Cycle, s, n, env, now), FlatExecute(FlatCycle, x, n, env, now);
      r.Some? && r.value.now == to && Mirrors(r.value.s, y, l)
  {
    var inside := (y: Flat) => Inside(l, y);
    assert Simulates(Cycle, FlatCycle, inside, l) by {
      forall u: State, y: Flat | Mirrors(u, y, l) && inside(y)
        ensures Cycle(u).Some? && Mirrors(Cycle(u).value, FlatCycle(y), l)
      {
        CycleMirrors(u, y, l);
      }
    }
    RunMirrors(Cycle, FlatCycle, inside, s, x, l, n, env, now);
  }

  // ---------------------------------------------------------------------------
  // A program under paging, to show that such runs exist.

  /** At virtual address 0, in page 0 of the layout with two pages: a zero word, which is no instruction. */
  function Start(): State {
    var m := TwoPages(0x80003);
    State(seq(32, _ => 0), 0, seq(2048, _ => 0)[SATP := ROOT], false, m, Running, 0, 0, 0)
  }

  lemma ZeroAtStart()
    ensures Assemble(ViewOf(Start().mem, LayoutOf(0x80003)), 0, 4) == 0
  {
    var words, f := Words2(0x80003), ViewOf(Start().mem, LayoutOf(0x80003));
    RomByte(words, 0x800, 0);
    RomByte(words, 0x800, 1);
    RomByte(words, 0x800, 2);
    RomByte(words, 0x800, 3);
    assert f(0) == 0 && f(1) == 0 && f(2) == 0 && f(3) == 0;
  }

  /** A run of one instruction that aborts. */
  lemma AbortsAtOnce(cycle: Stepper, step: FlatStepper, inside: Flat -> bool, s: State, x: Flat, env: Environment)
    requires cycle(s).Some? && cycle(s).value.emu == Aborted && step(x).s.emu == Aborted && inside(x)
    ensures Stays(step, inside, x, 1, env, 0)
    ensures Execute(cycle, s, 1, env, 0).Some? && Execute(cycle, s, 1, env, 0).value.s.emu == Aborted
  {
  }

  lemma ProgramExample(env: Environment)
    ensures var l, s := LayoutOf(0x80003), Start();
      var x := Flat(s, ViewOf(s.mem, l));
      && Mirrors(s, x, l) && Stays(FlatCycle, y => Inside(l, y), x, 1, env, 0)
      && Execute(Cycle, s, 1, env, 0).Some? && Execute(Cycle, s, 1, env, 0).value.s.emu == Aborted
  {
    var l, s := LayoutOf(0x80003), Start();
    var x := Flat(s, ViewOf(s.mem, l));
    FlatExample();
    ViewOfIsFlatView(s.mem, l);
    ZeroAtStart();
    assert FieldsOf(0) == Fields(0, 0, 0, 0, 0, 0);
    assert Accesses(x) == [LoadAt(0, 4), LoadAt(4, 4)];
    assert InPages(l, LoadAt(0, 4)) && InPages(l, LoadAt(4, 4));
    CycleMirrors(s, x, l);
    assert FlatCycle(x) == x.(s := AbortedAt(s));
    AbortsAtOnce(Cycle, FlatCycle, y => Inside(l, y), s, x, env);
  }
}
