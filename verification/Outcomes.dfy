/**
 In which state a command leaves the emulator, and what the end of each loop round does,
 with the states, register numbers and causes written out.
 */
module Outcomes {
  import opened Words
  import opened Isa
  import opened Lexer
  import opened Grammar
  import Evaluator
  import opened Run
  import opened Watch
  import opened Interrupts

  // ---------------------------------------------------------------------------
  // The end of a round.

  /** device_update, then the interrupt: it goes on at MTVEC if one is pending and MIE is set. */
  lemma TickMeaning(s: State, e: Event)
    ensures var t, pending, on := Tick(s, e), s.intr || e.intr, s.csrs[0x300] / 8 % 2 == 1;
      && t == s.(pc := t.pc, csrs := t.csrs, intr := t.intr, emu := t.emu)
      && t.emu == (if e.quit then Quit else s.emu)
      && (pending && on ==> t.pc == s.csrs[0x305] && t.csrs[0x341] == s.pc && t.csrs[0x342] == 0x8000_0007 && !t.intr)
      && (!(pending && on) ==> t.pc == s.pc && t.csrs == s.csrs && t.intr == pending)
  {
  }

  /** isa_raise_intr for any cause: all but the timer resume behind the instruction. */
  lemma RaisedForAnyCause(c: Csrs, no: Word, epc: Word, i: nat)
    requires i < 2048
    ensures var r := Raised(c, no, epc);
      && (no == 0x8000_0007 ==> r[0x341] == epc)
      && (no != 0x8000_0007 ==> r[0x341] == epc + 4 || r[0x341] == epc + 4 - 0x1_0000_0000)
      && r[0x342] == no && !Mie(r[0x300]) && (Mpie(r[0x300]) <==> Mie(c[0x300]))
      && (i != 0x341 && i != 0x342 && i != 0x300 ==> r[i] == c[i])
  {
    MstatusBits(c[MSTATUS], Mie(c[MSTATUS]));
    MstatusBits(WithMpie(c[MSTATUS], Mie(c[MSTATUS])), true);
  }

  // ---------------------------------------------------------------------------
  // Runs as sequences of states.

  /** The program goes from s to t: one instruction that leaves it running, counted, and the end of the round. */
  predicate GoesOn(cycle: Stepper, s: State, e: Event, t: State) {
    cycle(s).Some? && cycle(s).value.emu == Running && t == Tick(Counted(cycle(s).value), e)
  }

  /** The states at the beginning of successive rounds. */
  ghost predicate Rounds(cycle: Stepper, ss: seq<State>, env: Environment, now: nat) {
    ss != [] && forall k: nat :: k < |ss| - 1 ==> GoesOn(cycle, ss[k], env(now + k), ss[k + 1])
  }

  /** The next instruction leaves the program not running, in t. */
  predicate Over(cycle: Stepper, s: State, t: State) {
    cycle(s).Some? && cycle(s).value.emu != Running && t == Counted(cycle(s).value)
  }

  /** What execute(n) leaves after the rounds ss. */
  predicate Leaves(cycle: Stepper, ss: seq<State>, n: nat, now: nat, r: Ran)
    requires ss != []
  {
    var k := |ss| - 1;
    r.now == now + k && if k == n then r.s == ss[k] else k < n && Over(cycle, ss[k], r.s)
  }

  /** execute(n) ends with r exactly if there are rounds that begin with s and leave r. */
  lemma {:induction false} RunIff(cycle: Stepper, s: State, n: nat, env: Environment, now: nat, r: Ran)
    ensures Execute(cycle, s, n, env, now) == Some(r) <==>
      exists ss :: Rounds(cycle, ss, env, now) && ss[0] == s && Leaves(cycle, ss, n, now, r)
    decreases n
  {
    if Execute(cycle, s, n, env, now) == Some(r) {
      var ss := RoundsOf(cycle, s, n, env, now);
    }
    forall ss | Rounds(cycle, ss, env, now) && ss[0] == s && Leaves(cycle, ss, n, now, r)
      ensures Execute(cycle, s, n, env, now) == Some(r)
    {
      RoundsRun(cycle, ss, n, env, now, r);
    }
  }

  lemma {:induction false} RoundsOf(cycle: Stepper, s: State, n: nat, env: Environment, now: nat)
    returns (ss: seq<State>)
    requires Execute(cycle, s, n, env, now).Some?
    ensures Rounds(cycle, ss, env, now) && ss[0] == s
    ensures Leaves(cycle, ss, n, now, Execute(cycle, s, n, env, now).value)
    decreases n
  {
    ss := [s];
    if n != 0 && cycle(s).value.emu == Running {
      var u := Tick(Counted(cycle(s).value), env(now));
      var rest := RoundsOf(cycle, u, n - 1, env, now + 1);
      ss := [s] + rest;
      assert ss[|ss| - 1] == rest[|rest| - 1];
      forall k: nat | k < |ss| - 1 ensures GoesOn(cycle, ss[k], env(now + k), ss[k + 1]) {
        if k > 0 { assert GoesOn(cycle, rest[k - 1], env(now + 1 + (k - 1)), rest[k]); }
      }
    }
  }

  lemma {:induction false} RoundsRun(cycle: Stepper, ss: seq<State>, n: nat, env: Environment, now: nat, r: Ran)
    requires Rounds(cycle, ss, env, now) && Leaves(cycle, ss, n, now, r)
    ensures Execute(cycle, ss[0], n, env, now) == Some(r)
    decreases n
  {
    if |ss| > 1 {
      RoundsTail(cycle, ss, env, now);
      assert GoesOn(cycle, ss[0], env(now + 0), ss[1]);
      RoundsRun(cycle, ss[1..], n - 1, env, now + 1, r);
    }
  }

  lemma RoundsTail(cycle: Stepper, ss: seq<State>, env: Environment, now: nat)
    requires Rounds(cycle, ss, env, now) && |ss| > 1
    ensures Rounds(cycle, ss[1..], env, now + 1)
  {
    forall k: nat | k < |ss[1..]| - 1 ensures GoesOn(cycle, ss[1..][k], env(now + 1 + k), ss[1..][k + 1]) {
      assert GoesOn(cycle, ss[k + 1], env(now + (k + 1)), ss[k + 2]);
    }
  }

  /** The k-th checkpoint of a run is the state right after the instruction of its k-th round. */
  lemma {:induction false} CheckpointAt(cycle: Stepper, ss: seq<State>, n: nat, env: Environment, now: nat)
    requires Rounds(cycle, ss, env, now) && |ss| <= n
    ensures var cs, k := Checkpoints(cycle, ss[0], n, env, now), |ss| - 1;
      && (cycle(ss[k]) == None ==> |cs| == k)
      && (cycle(ss[k]).Some? ==>
           && k < |cs| && cs[k] == Counted(cycle(ss[k]).value)
           && (k + 1 == n || cs[k].emu != Running ==> |cs| == k + 1))
    decreases n
  {
    if |ss| > 1 {
      RoundsTail(cycle, ss, env, now);
      assert GoesOn(cycle, ss[0], env(now + 0), ss[1]);
      CheckpointAt(cycle, ss[1..], n - 1, env, now + 1);
    }
  }

  // ---------------------------------------------------------------------------
  // Runs and commands.

  /** A window is closed in one of the device updates from now to to. */
  ghost predicate QuitSeen(env: Environment, now: nat, to: nat) {
    exists k :: now <= k < to && env(k).quit
  }

  /** How a run can end. */
  lemma {:induction false} RunEnds(cycle: Stepper, s: State, n: nat, env: Environment, now: nat)
    requires Tame(cycle) && s.emu == Running && Execute(cycle, s, n, env, now).Some?
    ensures var r := Execute(cycle, s, n, env, now).value;
      && r.s.emu in {Running, Quit, Ended, Aborted} && now <= r.now <= now + n
      && (r.s.emu == Running ==> r.now == now + n) && (r.s.emu == Quit ==> QuitSeen(env, now, r.now))
    decreases n
  {
    if n != 0 {
      var t := cycle(s).value;
      assert Keeps(s, t);
      if t.emu == Running {
        var u := Tick(Counted(t), env(now));
        if env(now).quit {
          AfterQuit(cycle, u, n - 1, env, now + 1);
        } else {
          RunEnds(cycle, u, n - 1, env, now + 1);
        }
      }
    }
  }

  lemma AfterQuit(cycle: Stepper, u: State, n: nat, env: Environment, now: nat)
    requires Tame(cycle) && u.emu == Quit && Execute(cycle, u, n, env, now).Some?
    ensures var r := Execute(cycle, u, n, env, now).value;
      r.now == now && r.s.emu in {Quit, Ended, Aborted}
  {
    if n != 0 { assert Keeps(u, cycle(u).value); }
  }

  /** A command on an ended or aborted program does nothing, however often it is given. */
  lemma EndedStaysEnded(cycle: Stepper, s: State, ns: seq<nat>, env: Environment, now: nat)
    requires s.emu == Ended || s.emu == Aborted
    ensures CpuExecAll(cycle, s, ns, env, now) == Some(Ran(s, now))
  {
    FinalIsAbsorbing(cycle, s, ns, env, now);
  }

  /**
   Any other command runs, and leaves the emulator stopped, quit, ended or aborted; quit only
   if the window was closed. Everything else is as the run leaves it.
   */
  lemma CommandEnds(cycle: Stepper, s: State, n: nat, env: Environment, now: nat)
    requires Tame(cycle) && s.emu != Ended && s.emu != Aborted && CpuExec(cycle, s, n, env, now).Some?
    ensures var r, run := CpuExec(cycle, s, n, env, now).value, Execute(cycle, s.(emu := Running), n, env, now);
      && run.Some? && r.now == run.value.now && r.s == run.value.s.(emu := r.s.emu)
      && r.s.emu in {Stopped, Quit, Ended, Aborted} && (r.s.emu == Quit ==> QuitSeen(env, now, r.now))
      && (r.s.emu == Stopped ==> r.now == now + n)
  {
    RunEnds(cycle, s.(emu := Running), n, env, now);
  }

  /** While no window is closed: stopped exactly if every instruction was executed. */
  lemma StoppedIff(cycle: Stepper, s: State, n: nat, env: Environment, now: nat)
    requires Tame(cycle) && s.emu != Ended && s.emu != Aborted && CpuExec(cycle, s, n, env, now).Some?
    requires NoQuit(env, now, now + n)
    ensures var r := CpuExec(cycle, s, n, env, now).value;
      && (r.s.emu == Stopped <==> r.now == now + n)
      && (r.s.emu != Stopped ==> r.s.emu == Ended || r.s.emu == Aborted)
  {
    CutShortIff(cycle, s.(emu := Running), n, env, now);
  }

  /** With CONFIG_DEBUG: stopped by a check, or as without it. */
  lemma DebugCommandEnds(cycle: Stepper, val: Valuation, s: State, es: seq<string>, lasts: seq<Word>, n: nat,
                         env: Environment, now: nat)
    requires Tame(cycle) && s.emu != Ended && s.emu != Aborted
    requires DebugCpuExec(cycle, val, s, es, lasts, n, env, now).Some?
    ensures var r, cs := DebugCpuExec(cycle, val, s, es, lasts, n, env, now).value.0,
        Checkpoints(cycle, s.(emu := Running), n, env, now);
      && r.s.emu in {Stopped, Quit, Ended, Aborted} && (r.s.emu == Quit ==> QuitSeen(env, now, r.now))
      && (FirstCut(val, cs, es, lasts) < |cs| ==> r.s.emu == Stopped)
      && (FirstCut(val, cs, es, lasts) == |cs| ==> CpuExec(cycle, s, n, env, now) == Some(r))
  {
    WatchedRun(cycle, val, s.(emu := Running), es, lasts, n, env, now);
    if CpuExec(cycle, s, n, env, now).Some? { CommandEnds(cycle, s, n, env, now); }
  }

  /** And while no window is closed. */
  lemma DebugStoppedIff(cycle: Stepper, val: Valuation, s: State, es: seq<string>, lasts: seq<Word>, n: nat,
                        env: Environment, now: nat)
    requires Tame(cycle) && s.emu != Ended && s.emu != Aborted && NoQuit(env, now, now + n)
    requires DebugCpuExec(cycle, val, s, es, lasts, n, env, now).Some?
    ensures var r, cs := DebugCpuExec(cycle, val, s, es, lasts, n, env, now).value.0,
        Checkpoints(cycle, s.(emu := Running), n, env, now);
      && (r.s.emu == Stopped <==> FirstCut(val, cs, es, lasts) < |cs| || r.now == now + n)
      && (r.s.emu != Stopped ==> r.s.emu == Ended || r.s.emu == Aborted)
  {
    DebugCommandEnds(cycle, val, s, es, lasts, n, env, now);
    if CpuExec(cycle, s, n, env, now).Some? { StoppedIff(cycle, s, n, env, now); }
  }

  // ---------------------------------------------------------------------------
  // One check.

  /** check_wp stops the emulator exactly if a value differs, and remembers every value. */
  lemma CheckMeaning(val: Valuation, s: State, es: seq<string>, lasts: seq<Word>)
    requires |es| == |lasts|
    ensures (exists i :: 0 <= i < |es| && val(s, es[i]) == None) <==> Check(val, s, es, lasts) == None
    ensures Check(val, s, es, lasts).Some? ==>
      var (t, seen) := Check(val, s, es, lasts).value;
      && |seen| == |es| && (forall i :: 0 <= i < |es| ==> val(s, es[i]) == Some(seen[i]))
      && t == s.(emu := if exists i :: 0 <= i < |es| && seen[i] != lasts[i] then Stopped else s.emu)
  {
  }

  /** A watched expression that has no value counts as zero, unless it stops the program. */
  lemma ErrorsCountAsZero(s: State, e: string)
    ensures Evaluator.ExprValue(s, e).Ok? ==> ValueOf(s, e) == Some(Evaluator.ExprValue(s, e).w)
    ensures Evaluator.ExprValue(s, e) == Err(Died) ==> ValueOf(s, e) == None
    ensures Evaluator.ExprValue(s, e).Err? && Evaluator.ExprValue(s, e).e != Died ==> ValueOf(s, e) == Some(0)
  {
  }
}
