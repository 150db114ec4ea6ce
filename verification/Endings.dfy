/**
 How a program comes to its end, and when the end does not last: an ebreak or an invalid
 word under watchpoints (CONFIG_DEBUG), a window closed in the middle of a run, and the
 second fetch an invalid word asks for. Each is stated for the emulator's own cycle
 (Machine.Cycle) and its own expressions (Watch.ValueOf).
 */
module Endings {
  import opened Words
  import opened Memory
  import opened Paging
  import opened Isa
  import opened Decoder
  import opened Machine
  import opened Lexer
  import opened Grammar
  import opened Printer
  import opened Run
  import opened Watch

  // ---------------------------------------------------------------------------
  // The instruction that ends a program.

  /** The word at the pc, if it can be fetched. */
  function Fetched(s: State): Option<Word> {
    VirtRead(s.csrs[SATP], s.mem, s.pc, 4)
  }

  /** A word that ends the program or is no instruction. */
  predicate Stops(w: Word) {
    w == Encode(Ebreak) || Decode(w).None?
  }

  /** The next cycle ends or aborts the program. */
  predicate Ends(s: State) {
    s.emu == Running && Cycle(s).Some? && Final(Cycle(s).value.emu)
  }

  /** s as far as an expression can see it after the instruction that ends it. */
  function AtEnd(s: State): State {
    s.(pc := Add(s.pc, 4))
  }

  /** An instruction makes the emulator's state final exactly if it is an ebreak or no instruction at all. */
  lemma CycleStopsIff(s: State)
    requires !Final(s.emu) && Cycle(s).Some?
    ensures Final(Cycle(s).value.emu) <==> Stops(Fetched(s).value)
  {
    var w := Fetched(s).value;
    OnlyEbreak(w);
    if Decode(w).Some? {
      LegalDecode(w);
      OnlyEbreakEnds(s, Decode(w).value);
    }
  }

  /** In terms of the words: an ebreak, or no instruction with a word behind it that can be fetched. */
  lemma EndsIff(s: State)
    ensures Ends(s) <==>
      && s.emu == Running && Fetched(s).Some? && Stops(Fetched(s).value)
      && (Decode(Fetched(s).value).None? ==> Fetched(AtEnd(s)).Some?)
  {
    if Fetched(s).Some? {
      OnlyEbreak(Fetched(s).value);
      if Cycle(s).Some? && s.emu == Running { CycleStopsIff(s); }
    }
  }

  /** Only its own encoding runs as ebreak. */
  lemma OnlyEbreak(w: Word)
    ensures Decode(w) == Some(Ebreak) <==> w == Encode(Ebreak)
  {
    DecodeIff(w, Ebreak);
    TidyWordClearsBit25(w);
  }

  lemma OnlyEbreakEnds(s: State, i: Instr)
    requires Isa.Legal(i) && !Final(s.emu) && Step(s, i).Some?
    ensures Final(Step(s, i).value.emu) <==> i == Ebreak
  {
  }

  /** Such an instruction moves the pc by four and touches nothing else an expression can read. */
  lemma EndingMovesOnlyPc(s: State)
    requires Ends(s)
    ensures var t := Cycle(s).value;
      t == AtEnd(s).(emu := t.emu, haltPc := s.pc, haltRet := t.haltRet)
  {
    var w := Fetched(s).value;
    if Decode(w).Some? {
      LegalDecode(w);
      OnlyEbreakEnds(s, Decode(w).value);
    }
  }

  lemma SameValues(s: State, u: State, es: seq<string>)
    requires s.gpr == u.gpr && s.mem == u.mem
    requires s.pc == u.pc || forall i :: 0 <= i < |es| ==> Name("pc") !in Lex(es[i]).tokens
    ensures Alive(ValueOf, s, es) <==> Alive(ValueOf, u, es)
    ensures Alive(ValueOf, s, es) ==> Values(ValueOf, s, es) == Values(ValueOf, u, es)
  {
    forall i | 0 <= i < |es| ensures ValueOf(s, es[i]) == ValueOf(u, es[i]) {
      ValueReads(s, u, es[i]);
    }
  }

  /**
   With CONFIG_DEBUG an end lasts exactly if moving the pc by four, and nothing else, changes
   no watched value. Otherwise the emulator is merely stopped and the next command runs on,
   or the check itself stops the program.
   */
  lemma HaltSurvivesIff(s: State, es: seq<string>, n: nat, env: Environment, now: nat)
    requires n > 0 && Ends(s) && Alive(ValueOf, s, es)
    ensures var lasts := Values(ValueOf, s, es);
      var r := DebugExecute(Cycle, ValueOf, s, es, lasts, n, env, now);
      && (r.Some? <==> Alive(ValueOf, AtEnd(s), es))
      && (r.Some? ==> r.value.0.now == now && r.value.1 == Values(ValueOf, AtEnd(s), es))
      && (r.Some? ==> (Final(r.value.0.s.emu) <==> Values(ValueOf, AtEnd(s), es) == lasts))
      && (r.Some? && !Final(r.value.0.s.emu) ==> r.value.0.s.emu == Stopped)
  {
    var c := Counted(Cycle(s).value);
    EndingMovesOnlyPc(s);
    SameValues(c, AtEnd(s), es);
    DebugRound(Cycle, ValueOf, s, es, Values(ValueOf, s, es), n, env, now, c);
  }

  /** The end always lasts if no watched expression names the pc. */
  lemma HaltSurvivesWithoutPc(s: State, es: seq<string>, n: nat, env: Environment, now: nat)
    requires n > 0 && Ends(s) && Alive(ValueOf, s, es)
    requires forall i :: 0 <= i < |es| ==> Name("pc") !in Lex(es[i]).tokens
    ensures var lasts := Values(ValueOf, s, es);
      DebugExecute(Cycle, ValueOf, s, es, lasts, n, env, now) == Some((Ran(Counted(Cycle(s).value), now), lasts))
  {
    SameValues(s, AtEnd(s), es);
    var c := Counted(Cycle(s).value);
    EndingMovesOnlyPc(s);
    SameValues(c, AtEnd(s), es);
    DebugRound(Cycle, ValueOf, s, es, Values(ValueOf, s, es), n, env, now, c);
  }

  lemma PcText(s: State)
    ensures ValueOf(s, "$pc") == Some(s.pc)
  {
    var ts := [Sym(DOLLAR), Name("pc")];
    assert Yield(Bracket(ProgramCounter, 1)) == ts;
    assert Render([], [0]) == Blanks(0) == "";
    assert [0, 0][1..] == [0] && ts[1..][1..] == [] && ts[1..] == [Name("pc")] && [0, 0, 0][1..] == [0, 0];
    assert Render([Name("pc")], [0, 0]) == "" + ("pc" + "");
    assert Render(ts, [0, 0, 0]) == "" + ("$" + "pc") == "$pc";
    RoundTrip(s, ProgramCounter, "$pc", [0, 0, 0]);
  }

  /** Watching $pc, no end lasts. */
  lemma WatchedPcUndoesHalt(s: State, n: nat, env: Environment, now: nat)
    requires n > 0 && Ends(s)
    ensures var r := DebugExecute(Cycle, ValueOf, s, ["$pc"], [s.pc], n, env, now);
      r.Some? && r.value.0.s.emu == Stopped && r.value.0.s.pc == Add(s.pc, 4)
  {
    var es := ["$pc"];
    PcText(s);
    PcText(AtEnd(s));
    assert Values(ValueOf, s, es) == [s.pc] && Values(ValueOf, AtEnd(s), es) == [Add(s.pc, 4)];
    HaltSurvivesIff(s, es, n, env, now);
    var c := Counted(Cycle(s).value);
    EndingMovesOnlyPc(s);
    SameValues(c, AtEnd(s), es);
    DebugRound(Cycle, ValueOf, s, es, [s.pc], n, env, now, c);
  }

  // ---------------------------------------------------------------------------
  // The failing inputs.

  lemma EbreakEnds(s: State)
    requires s.emu == Running && VirtRead(s.csrs[SATP], s.mem, s.pc, 4) == Some(Encode(Ebreak))
    ensures Ends(s) && Cycle(s).value.emu == Ended
  {
    RunsAs(s, Ebreak);
  }

  /** The failing input: a program that is one ebreak, with $pc watched. */
  lemma HaltIsLost(env: Environment)
    ensures var s := Fresh(MBASE, Rom([Encode(Ebreak)]), 0);
      var r := DebugExecute(Cycle, ValueOf, s, ["$pc"], [MBASE], 1, env, 0);
      Ends(s) && r.Some? && r.value.0.s.emu == Stopped
  {
    var s := Fresh(MBASE, Rom([Encode(Ebreak)]), 0);
    RomWord([Encode(Ebreak)], 0);
    EbreakEnds(s);
    WatchedPcUndoesHalt(s, 1, env, 0);
  }

  // ---------------------------------------------------------------------------
  // A closed window.

  /** A run that goes its full length and sees the window closed in its last device update leaves the emulator quit. */
  lemma QuitAtLastUpdate(cycle: Stepper, s: State, a: nat, env: Environment, now: nat)
    requires Tame(cycle) && s.emu == Running && a > 0 && NoQuit(env, now, now + a - 1) && env(now + a - 1).quit
    requires Execute(cycle, s, a, env, now).Some? && Execute(cycle, s, a, env, now).value.now == now + a
    ensures Execute(cycle, s, a, env, now).value.s.emu == Quit
  {
    ExecuteSplit(cycle, s, a - 1, 1, env, now);
    CutShortIff(cycle, s, a - 1, env, now);
    var u := Execute(cycle, s, a - 1, env, now).value;
    assert Execute(cycle, u.s, 1, env, u.now).Some?;
    LastRound(cycle, u.s, env, u.now);
  }

  lemma LastRound(cycle: Stepper, s: State, env: Environment, now: nat)
    requires Execute(cycle, s, 1, env, now).Some?
    ensures var t := cycle(s).value;
      Execute(cycle, s, 1, env, now).value
        == if t.emu != Running then Ran(Counted(t), now) else Ran(Tick(Counted(t), env(now)), now + 1)
  {
  }

  /**
   The window is closed in the device update after instruction a. A longer run executes one
   more instruction before it stops, and if that one ends or aborts the program, the quit is
   lost.
   */
  lemma QuitIsLate(cycle: Stepper, s: State, a: nat, n: nat, env: Environment, now: nat)
    requires Tame(cycle) && s.emu == Running && 0 < a < n && NoQuit(env, now, now + a - 1) && env(now + a - 1).quit
    requires Execute(cycle, s, a, env, now).Some? && Execute(cycle, s, a, env, now).value.now == now + a
    ensures var u := Execute(cycle, s, a, env, now).value.s;
      && Execute(cycle, s, n, env, now) ==
        (if cycle(u).None? then None else Some(Ran(Counted(cycle(u).value), now + a)))
      && (cycle(u).Some? ==> cycle(u).value.emu == Quit || Final(cycle(u).value.emu))
  {
    QuitAtLastUpdate(cycle, s, a, env, now);
    ExecuteSplit(cycle, s, a, n - a, env, now);
    var u := Execute(cycle, s, a, env, now).value.s;
    if cycle(u).Some? { assert Keeps(u, cycle(u).value); }
  }

  /** For the emulator's cycle: the quit is lost exactly if the next word is an ebreak or no instruction. */
  lemma QuitSurvivesIff(s: State, a: nat, n: nat, env: Environment, now: nat)
    requires s.emu == Running && 0 < a < n && NoQuit(env, now, now + a - 1) && env(now + a - 1).quit
    requires Execute(Cycle, s, a, env, now).Some? && Execute(Cycle, s, a, env, now).value.now == now + a
    requires Execute(Cycle, s, n, env, now).Some?
    ensures var u := Execute(Cycle, s, a, env, now).value.s;
      && Fetched(u).Some?
      && (Execute(Cycle, s, n, env, now).value.s.emu == Quit <==> !Stops(Fetched(u).value))
      && (Execute(Cycle, s, n, env, now).value.s.emu == Quit || Final(Execute(Cycle, s, n, env, now).value.s.emu))
  {
    CycleIsTame();
    QuitAtLastUpdate(Cycle, s, a, env, now);
    QuitIsLate(Cycle, s, a, n, env, now);
    CycleStopsIff(Execute(Cycle, s, a, env, now).value.s);
  }

  /** Nor does a quit last: the next command runs on from it as from a stop. */
  lemma QuitRunsOn(cycle: Stepper, s: State, n: nat, env: Environment, now: nat)
    requires s.emu == Quit
    ensures CpuExec(cycle, s, n, env, now) == CpuExec(cycle, s.(emu := Stopped), n, env, now)
    ensures CpuExec(cycle, s, n, env, now).Some? ==> CpuExec(cycle, s, n, env, now).value.s.emu != Running
  {
  }

  /** The failing input: addi x0, x0, 0 and an ebreak, with the window closed after the first. */
  lemma QuitIsLost()
    ensures var s := Fresh(MBASE, Rom([Encode(Nop()), Encode(Ebreak)]), 0);
      var env: Environment := (k: nat) => Event(false, true);
      && Execute(Cycle, s, 1, env, 0) == Some(Ran(s.(pc := MBASE + 4, emu := Quit, count := 1), 1))
      && Execute(Cycle, s, 2, env, 0).Some? && Execute(Cycle, s, 2, env, 0).value.s.emu == Ended
  {
    var env: Environment := (k: nat) => Event(false, true);
    var rom := [Encode(Nop()), Encode(Ebreak)];
    var s := Fresh(MBASE, Rom(rom), 0);
    RomWord(rom, 0);
    RomWord(rom, 1);
    RunsAs(s, Nop());
    var u := s.(pc := MBASE + 4, emu := Quit, count := 1);
    RunsAs(u, Ebreak);
    ThenLate(Cycle, s, u, env);
  }

  function Nop(): Instr {
    OpImm(ADD, 0, 0, 0)
  }

  lemma ThenLate(cycle: Stepper, s: State, u: State, env: Environment)
    requires s.emu == Running && !s.intr && !Mie(s.csrs[MSTATUS]) && s.count == 0 && env(0) == Event(false, true)
    requires cycle(s) == Some(s.(pc := MBASE + 4)) && u == s.(pc := MBASE + 4, emu := Quit, count := 1)
    requires cycle(u).Some? && cycle(u).value.emu == Ended
    ensures Execute(cycle, s, 1, env, 0) == Some(Ran(u, 1))
    ensures Execute(cycle, s, 2, env, 0).Some? && Execute(cycle, s, 2, env, 0).value.s.emu == Ended
  {
    assert Execute(cycle, s, 2, env, 0) == Execute(cycle, u, 1, env, 1);
  }

  // ---------------------------------------------------------------------------
  // An invalid word.

  /**
   A word that is no instruction aborts the program exactly if the word behind it can be
   fetched too; if it cannot, the emulator stops inside the message.
   */
  lemma InvalidAbortsIff(s: State, w: Word)
    requires VirtRead(s.csrs[SATP], s.mem, s.pc, 4) == Some(w) && Decode(w).None?
    ensures Cycle(s).Some? <==> VirtRead(s.csrs[SATP], s.mem, Add(s.pc, 4), 4).Some?
    ensures Cycle(s).Some? ==> Cycle(s).value == AtEnd(s).(emu := Aborted, haltPc := s.pc, haltRet := 0xffff_ffff)
  {
    assert Cycle(s) == Invalid(s);
    assert AbortedAt(s) == AtEnd(s).(emu := Aborted, haltPc := s.pc, haltRet := 0xffff_ffff);
  }

  /** The failing input: a zero word in the last four bytes of memory. */
  lemma InvalidAtTheEnd()
    ensures var s := Fresh(MBASE + MSIZE - 4, Rom([]), 0);
      VirtRead(0, s.mem, s.pc, 4) == Some(0) && Decode(0).None? && Cycle(s).None?
  {
    var s := Fresh(MBASE + MSIZE - 4, Rom([]), 0);
    RomWord([], MSIZE / 4 - 1);
    assert FieldsOf(0) == Fields(0, 0, 0, 0, 0, 0);
    InvalidAbortsIff(s, 0);
  }
}
