/**
 The timer interrupt over whole runs (src/cpu/intr.c). No active instruction writes a
 control register, so nothing turns interrupts back on: a run takes at most one.
 */
module Interrupts {
  import opened Words
  import opened Isa
  import opened Run

  /** The resume addresses of the interrupts a run takes, in order. */
  function Taken(cycle: Stepper, s: State, n: nat, env: Environment, now: nat): seq<Word>
    decreases n
  {
    if n == 0 then []
    else
      match cycle(s)
      case None => []
      case Some(t) =>
        if t.emu != Running then []
        else
          var d := Counted(t);
          (if (d.intr || env(now).intr) && Mie(d.csrs[MSTATUS]) then [d.pc] else [])
          + Taken(cycle, Tick(d, env(now)), n - 1, env, now + 1)
  }

  lemma MstatusBits(m: Word, on: bool)
    ensures Mpie(WithMpie(m, on)) == on && (Mie(WithMpie(m, on)) <==> Mie(m))
    ensures !Mie(WithoutMie(m)) && (Mpie(WithoutMie(m)) <==> Mpie(m))
  {
    MpieSet(m, on);
    MieCleared(m);
  }

  lemma MpieSet(m: Word, on: bool)
    ensures Mpie(WithMpie(m, on)) == on && (Mie(WithMpie(m, on)) <==> Mie(m))
  {
    Eighths(m);
    Eighths(WithMpie(m, on));
    if Mpie(m) != on {
      var q := m / 8;
      assert WithMpie(m, on) / 8 == if on then q + 0x10 else q - 0x10;
      if on { Sixteen(q); } else { Sixteen(q - 0x10); }
    }
  }

  lemma Sixteen(q: nat)
    ensures (q + 0x10) / 0x10 == q / 0x10 + 1 && (q + 0x10) % 2 == q % 2
  {
    assert (q + 0x10) % 2 == q % 2 by { assert q + 0x10 == 2 * (q / 2 + 8) + q % 2; }
  }

  lemma MieCleared(m: Word)
    ensures !Mie(WithoutMie(m)) && (Mpie(WithoutMie(m)) <==> Mpie(m))
  {
    if Mie(m) {
      Eighths(m);
      Eighths(m - 8);
      assert (m - 8) / 8 == m / 8 - 1;
      OddDown(m / 8);
    }
  }

  lemma OddDown(q: nat)
    requires q % 2 == 1
    ensures (q - 1) % 2 == 0 && (q - 1) / 0x10 == q / 0x10
  {
    assert q == 2 * (q / 2) + 1 && q / 0x10 == q / 2 / 8;
  }

  lemma Eighths(m: Word)
    ensures m / 0x80 == m / 8 / 0x10
  {
  }

  /** What an interrupt leaves in the control registers, and that it leaves the others alone. */
  lemma RaisedMeaning(c: Csrs, epc: Word, i: nat)
    requires Mie(c[MSTATUS]) && i < 2048
    ensures var r := Raised(c, IRQ_TIMER, epc);
      && r[MEPC] == epc && r[MCAUSE] == IRQ_TIMER && Mpie(r[MSTATUS]) && !Mie(r[MSTATUS])
      && (i != MEPC && i != MCAUSE && i != MSTATUS ==> r[i] == c[i])
  {
    MstatusBits(c[MSTATUS], true);
    MstatusBits(WithMpie(c[MSTATUS], true), true);
  }

  /** With interrupts off, none is taken, no control register changes, and a pending one stays pending. */
  lemma {:induction false} MaskedRun(cycle: Stepper, s: State, n: nat, env: Environment, now: nat)
    requires Tame(cycle) && !Mie(s.csrs[MSTATUS])
    ensures Taken(cycle, s, n, env, now) == []
    ensures var r := Execute(cycle, s, n, env, now);
      r.Some? ==> r.value.s.csrs == s.csrs && (s.intr ==> r.value.s.intr)
    decreases n
  {
    if n != 0 && cycle(s).Some? {
      var t := cycle(s).value;
      assert Keeps(s, t);
      if t.emu == Running { MaskedRun(cycle, Tick(Counted(t), env(now)), n - 1, env, now + 1); }
    }
  }

  /**
   Every run takes at most one interrupt. Its control registers at the end are those of the
   start, or those with the one interrupt recorded.
   */
  lemma {:induction false} AtMostOneInterrupt(cycle: Stepper, s: State, n: nat, env: Environment, now: nat)
    requires Tame(cycle)
    ensures var taken, r := Taken(cycle, s, n, env, now), Execute(cycle, s, n, env, now);
      && |taken| <= 1 && (taken != [] ==> Mie(s.csrs[MSTATUS]))
      && (r.Some? ==> r.value.s.csrs == if taken == [] then s.csrs else Raised(s.csrs, IRQ_TIMER, taken[0]))
    decreases n
  {
    if n != 0 && cycle(s).Some? {
      var t := cycle(s).value;
      assert Keeps(s, t);
      if t.emu == Running {
        var u := Tick(Counted(t), env(now));
        if (t.intr || env(now).intr) && Mie(s.csrs[MSTATUS]) {
          RaisedMeaning(s.csrs, t.pc, 0);
          MaskedRun(cycle, u, n - 1, env, now + 1);
        } else {
          AtMostOneInterrupt(cycle, u, n - 1, env, now + 1);
        }
      }
    }
  }

  /** The line is up at the start, or raised in one of the device updates from now to to. */
  ghost predicate Requested(s: State, env: Environment, now: nat, to: nat) {
    s.intr || exists k :: now <= k < to && env(k).intr
  }

  /**
   No enabled interrupt is lost: a run that reaches a device update takes one exactly if
   interrupts are on and one is pending or raised. Without one the line keeps what it saw.
   */
  lemma {:induction false} TakenIff(cycle: Stepper, s: State, n: nat, env: Environment, now: nat)
    requires Tame(cycle) && Execute(cycle, s, n, env, now).Some?
    ensures var r, taken := Execute(cycle, s, n, env, now).value, Taken(cycle, s, n, env, now);
      && r.now >= now
      && (taken != [] <==> Mie(s.csrs[MSTATUS]) && r.now > now && Requested(s, env, now, r.now))
      && (taken == [] ==> (r.s.intr <==> Requested(s, env, now, r.now)))
    decreases n
  {
    if n != 0 {
      var t := cycle(s).value;
      assert Keeps(s, t);
      if t.emu == Running {
        var u := Tick(Counted(t), env(now));
        var to := Execute(cycle, s, n, env, now).value.now;
        TakenIff(cycle, u, n - 1, env, now + 1);
        if (t.intr || env(now).intr) && Mie(s.csrs[MSTATUS]) {
          assert Requested(s, env, now, to);
        } else {
          assert u.intr == (s.intr || env(now).intr);
          assert Requested(s, env, now, to) <==> Requested(u, env, now + 1, to);
        }
      }
    }
  }

  // ---------------------------------------------------------------------------
  // Whole sessions: any sequence of commands.

  /** The resume addresses of the interrupts a sequence of commands takes. */
  function TakenAll(cycle: Stepper, s: State, ns: seq<nat>, env: Environment, now: nat): seq<Word>
    decreases |ns|
  {
    if ns == [] || Final(s.emu) then []
    else
      Taken(cycle, s.(emu := Running), ns[0], env, now)
      + match CpuExec(cycle, s, ns[0], env, now)
        case None => []
        case Some(r) => TakenAll(cycle, r.s, ns[1..], env, r.now)
  }

  /** One command, from the run inside it. */
  lemma CommandInterrupts(cycle: Stepper, s: State, n: nat, env: Environment, now: nat)
    requires Tame(cycle) && !Final(s.emu)
    ensures var taken, r := Taken(cycle, s.(emu := Running), n, env, now), CpuExec(cycle, s, n, env, now);
      && |taken| <= 1 && (taken != [] ==> Mie(s.csrs[MSTATUS]))
      && (r.Some? ==> r.value.s.csrs == if taken == [] then s.csrs else Raised(s.csrs, IRQ_TIMER, taken[0]))
  {
    AtMostOneInterrupt(cycle, s.(emu := Running), n, env, now);
  }

  lemma {:induction false} MaskedSession(cycle: Stepper, s: State, ns: seq<nat>, env: Environment, now: nat)
    requires Tame(cycle) && !Mie(s.csrs[MSTATUS])
    ensures TakenAll(cycle, s, ns, env, now) == []
    ensures var r := CpuExecAll(cycle, s, ns, env, now);
      r.Some? ==> r.value.s.csrs == s.csrs && (s.intr ==> r.value.s.intr)
    decreases |ns|
  {
    if ns == [] {
    } else if Final(s.emu) {
      FinalIsAbsorbing(cycle, s, ns, env, now);
    } else {
      MaskedRun(cycle, s.(emu := Running), ns[0], env, now);
      var c := CpuExec(cycle, s, ns[0], env, now);
      if c.Some? { MaskedSession(cycle, c.value.s, ns[1..], env, c.value.now); }
    }
  }

  /** A whole session takes at most one interrupt. */
  lemma {:induction false} AtMostOneInSession(cycle: Stepper, s: State, ns: seq<nat>, env: Environment, now: nat)
    requires Tame(cycle)
    ensures var taken, r := TakenAll(cycle, s, ns, env, now), CpuExecAll(cycle, s, ns, env, now);
      && |taken| <= 1 && (taken != [] ==> Mie(s.csrs[MSTATUS]))
      && (r.Some? ==> r.value.s.csrs == if taken == [] then s.csrs else Raised(s.csrs, IRQ_TIMER, taken[0]))
    decreases |ns|
  {
    if ns == [] {
    } else if Final(s.emu) {
      FinalIsAbsorbing(cycle, s, ns, env, now);
    } else {
      CommandInterrupts(cycle, s, ns[0], env, now);
      var c := CpuExec(cycle, s, ns[0], env, now);
      var first := Taken(cycle, s.(emu := Running), ns[0], env, now);
      if c.Some? {
        if first == [] {
          AtMostOneInSession(cycle, c.value.s, ns[1..], env, c.value.now);
        } else {
          RaisedMeaning(s.csrs, first[0], 0);
          MaskedSession(cycle, c.value.s, ns[1..], env, c.value.now);
        }
      }
    }
  }

  /** Nor does a session lose an enabled interrupt. */
  lemma {:induction false} TakenAllIff(cycle: Stepper, s: State, ns: seq<nat>, env: Environment, now: nat)
    requires Tame(cycle) && CpuExecAll(cycle, s, ns, env, now).Some?
    ensures var r, taken := CpuExecAll(cycle, s, ns, env, now).value, TakenAll(cycle, s, ns, env, now);
      && r.now >= now
      && (taken != [] <==> Mie(s.csrs[MSTATUS]) && r.now > now && Requested(s, env, now, r.now))
      && (taken == [] ==> (r.s.intr <==> Requested(s, env, now, r.now)))
    decreases |ns|
  {
    if ns == [] {
    } else if Final(s.emu) {
      FinalIsAbsorbing(cycle, s, ns, env, now);
    } else {
      var c := CpuExec(cycle, s, ns[0], env, now).value;
      var to := CpuExecAll(cycle, s, ns, env, now).value.now;
      TakenIff(cycle, s.(emu := Running), ns[0], env, now);
      CommandInterrupts(cycle, s, ns[0], env, now);
      TakenAllIff(cycle, c.s, ns[1..], env, c.now);
      RequestedSplits(s, c.s, env, now, c.now, to);
    }
  }

  /** What a run without an interrupt hands on to the next one. */
  lemma RequestedSplits(s: State, u: State, env: Environment, now: nat, mid: nat, to: nat)
    requires now <= mid <= to
    ensures Requested(s, env, now, mid) ==> Requested(s, env, now, to)
    ensures (u.intr <==> Requested(s, env, now, mid)) ==>
      (Requested(s, env, now, to) <==> Requested(u, env, mid, to))
  {
    if Requested(s, env, now, mid) && !s.intr {
      var k :| now <= k < mid && env(k).intr;
      assert k < to;
    }
  }

  /** The address translation and the handler address never change in a session. */
  lemma SatpAndMtvecAreFixed(cycle: Stepper, s: State, ns: seq<nat>, env: Environment, now: nat)
    requires Tame(cycle) && CpuExecAll(cycle, s, ns, env, now).Some?
    ensures var c := CpuExecAll(cycle, s, ns, env, now).value.s.csrs;
      c[SATP] == s.csrs[SATP] && c[MTVEC] == s.csrs[MTVEC]
  {
    AtMostOneInSession(cycle, s, ns, env, now);
    var taken := TakenAll(cycle, s, ns, env, now);
    if taken != [] {
      RaisedMeaning(s.csrs, taken[0], SATP);
      RaisedMeaning(s.csrs, taken[0], MTVEC);
    }
  }

  /** restart() sets MSTATUS to 0x1800, so a session from reset takes no interrupt at all. */
  lemma NoneFromReset(cycle: Stepper, s: State, ns: seq<nat>, env: Environment, now: nat)
    requires Tame(cycle) && s.csrs[MSTATUS] == 0x1800
    ensures TakenAll(cycle, s, ns, env, now) == []
  {
    MaskedSession(cycle, s, ns, env, now);
  }
}
