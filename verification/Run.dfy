/**
 Whole runs: execute and cpu_exec (src/cpu/cpu-exec.c) with the timer interrupt
 (src/cpu/intr.c). device_update is replaced by an environment that may, at every step,
 raise the interrupt line and close the window. This module is the default configuration,
 without CONFIG_DEBUG; Watch adds the other one.
 */
module Run {
  import opened Words
  import opened Paging
  import opened Isa
  import opened Decoder
  import opened Machine

  const IRQ_TIMER: Word := 0x8000_0007

  /** What happens in one device_update. */
  datatype Event = Event(intr: bool, quit: bool)

  type Environment = nat -> Event

  // ---------------------------------------------------------------------------
  // Interrupts. MIE is bit 3 of MSTATUS and MPIE is bit 7.

  predicate Mie(mstatus: Word) {
    mstatus / 8 % 2 == 1
  }

  predicate Mpie(mstatus: Word) {
    mstatus / 0x80 % 2 == 1
  }

  /** mstatus |= MPIE or &= ~MPIE. */
  function WithMpie(mstatus: Word, on: bool): Word {
    if Mpie(mstatus) == on then mstatus else if on then mstatus + 0x80 else mstatus - 0x80
  }

  /** mstatus &= ~MIE. */
  function WithoutMie(mstatus: Word): Word {
    if Mie(mstatus) then mstatus - 8 else mstatus
  }

  /** isa_raise_intr: the control registers it leaves. It returns MTVEC as the next pc. */
  function Raised(csrs: Csrs, no: Word, epc: Word): Csrs {
    csrs[MEPC := if no == IRQ_TIMER then epc else Add(epc, 4)][MCAUSE := no]
      [MSTATUS := WithoutMie(WithMpie(csrs[MSTATUS], Mie(csrs[MSTATUS])))]
  }

  /** isa_query_intr says yes. */
  predicate Interrupted(s: State) {
    s.intr && Mie(s.csrs[MSTATUS])
  }

  /** The tail of the loop: devices, then the interrupt if it is pending and enabled. */
  function Tick(s: State, e: Event): State {
    var d := s.(intr := s.intr || e.intr, emu := if e.quit then Quit else s.emu);
    if Interrupted(d)
    then d.(intr := false, csrs := Raised(d.csrs, IRQ_TIMER, d.pc), pc := d.csrs[MTVEC])
    else d
  }

  function Counted(s: State): State {
    s.(count := if s.count + 1 < TWO_64 then s.count + 1 else 0)
  }

  // ---------------------------------------------------------------------------
  // Runs, over an instruction cycle given as a parameter; Machine.Cycle is the one that is
  // run. now is the number of device updates so far.

  datatype Ran = Ran(s: State, now: nat)

  type Stepper = State -> Option<State>

  /** execute; None when the program stops inside an instruction or leaves pmem. */
  function Execute(cycle: Stepper, s: State, n: nat, env: Environment, now: nat): Option<Ran>
    decreases n
  {
    if n == 0 then Some(Ran(s, now))
    else
      match cycle(s)
      case None => None
      case Some(t) =>
        if t.emu != Running then Some(Ran(Counted(t), now))
        else Execute(cycle, Tick(Counted(t), env(now)), n - 1, env, now + 1)
  }

  predicate Final(e: Emu) {
    e == Ended || e == Aborted
  }

  function CpuExec(cycle: Stepper, s: State, n: nat, env: Environment, now: nat): Option<Ran> {
    if Final(s.emu) then Some(Ran(s, now))
    else
      match Execute(cycle, s.(emu := Running), n, env, now)
      case None => None
      case Some(r) => Some(if r.s.emu == Running then r.(s := r.s.(emu := Stopped)) else r)
  }

  /** A sequence of debugger commands. */
  function CpuExecAll(cycle: Stepper, s: State, ns: seq<nat>, env: Environment, now: nat): Option<Ran>
    decreases |ns|
  {
    if ns == [] then Some(Ran(s, now))
    else
      match CpuExec(cycle, s, ns[0], env, now)
      case None => None
      case Some(r) => CpuExecAll(cycle, r.s, ns[1..], env, r.now)
  }

  // ---------------------------------------------------------------------------
  // What no instruction does: touch the control registers, the interrupt line or the
  // instruction count, leave register 0 nonzero, or stop the emulator short of a final state.

  predicate Keeps(s: State, t: State) {
    && (t.emu == s.emu || Final(t.emu))
    && t.csrs == s.csrs && t.intr == s.intr && t.count == s.count
    && (s.gpr[0] == 0 ==> t.gpr[0] == 0)
  }

  ghost predicate Tame(cycle: Stepper) {
    forall s :: cycle(s).Some? ==> Keeps(s, cycle(s).value)
  }

  lemma StepKeeps(s: State, i: Instr)
    requires Isa.Legal(i) && Step(s, i).Some?
    ensures Keeps(s, Step(s, i).value)
  {
  }

  lemma CycleIsTame()
    ensures Tame(Cycle)
  {
    forall s: State | Cycle(s).Some? ensures Keeps(s, Cycle(s).value) {
      var w := VirtRead(s.csrs[SATP], s.mem, s.pc, 4).value;
      if Decode(w).Some? {
        LegalDecode(w);
        StepKeeps(s, Decode(w).value);
      }
    }
  }

  // ---------------------------------------------------------------------------
  // Composition.

  predicate NoQuit(env: Environment, from: nat, to: nat) {
    forall k :: from <= k < to ==> !env(k).quit
  }

  /** A run of a + b steps is a run of a steps and, if nothing ended it, one of b steps. */
  lemma {:induction false} ExecuteSplit(cycle: Stepper, s: State, a: nat, b: nat, env: Environment, now: nat)
    ensures Execute(cycle, s, a + b, env, now) ==
      match Execute(cycle, s, a, env, now)
      case None => None
      case Some(r) => if r.now < now + a then Some(r) else Execute(cycle, r.s, b, env, r.now)
    ensures Execute(cycle, s, a, env, now).Some? ==> now <= Execute(cycle, s, a, env, now).value.now <= now + a
    decreases a
  {
    if a == 0 {
    } else {
      var c := cycle(s);
      if c.Some? && c.value.emu == Running {
        ExecuteSplit(cycle, Tick(Counted(c.value), env(now)), a - 1, b, env, now + 1);
      }
    }
  }

  /** While nothing quits, a run is cut short exactly when it leaves the running state. */
  lemma {:induction false} CutShortIff(cycle: Stepper, s: State, n: nat, env: Environment, now: nat)
    requires Tame(cycle) && s.emu == Running && NoQuit(env, now, now + n)
    requires Execute(cycle, s, n, env, now).Some?
    ensures var r := Execute(cycle, s, n, env, now).value;
      r.now < now + n <==> r.s.emu != Running
    ensures Execute(cycle, s, n, env, now).value.now <= now + n
    ensures Execute(cycle, s, n, env, now).value.s.emu in {Running, Ended, Aborted}
    decreases n
  {
    if n == 0 {
    } else {
      var t := cycle(s).value;
      assert Keeps(s, t);
      if t.emu == Running {
        assert !env(now).quit;
        CutShortIff(cycle, Tick(Counted(t), env(now)), n - 1, env, now + 1);
      }
    }
  }

  /**
   Stopping in between makes no difference: cpu_exec(a) and then cpu_exec(b) is
   cpu_exec(a + b), as long as the first part does not see the window closed.
   */
  lemma RunComposition(cycle: Stepper, s: State, a: nat, b: nat, env: Environment, now: nat)
    requires Tame(cycle) && NoQuit(env, now, now + a)
    ensures CpuExecAll(cycle, s, [a, b], env, now) == CpuExec(cycle, s, a + b, env, now)
  {
    if !Final(s.emu) {
      var s0 := s.(emu := Running);
      ExecuteSplit(cycle, s0, a, b, env, now);
      if Execute(cycle, s0, a, env, now).Some? {
        CutShortIff(cycle, s0, a, env, now);
        var r := Execute(cycle, s0, a, env, now).value;
        assert r.s.emu == Running ==> r.s.(emu := Stopped).(emu := Running) == r.s;
      }
    }
    TwoCommands(cycle, s, a, b, env, now);
  }

  lemma TwoCommands(cycle: Stepper, s: State, a: nat, b: nat, env: Environment, now: nat)
    ensures CpuExecAll(cycle, s, [a, b], env, now) ==
      match CpuExec(cycle, s, a, env, now)
      case None => None
      case Some(r) => CpuExec(cycle, r.s, b, env, r.now)
  {
    assert [a, b][1..] == [b] && [b][1..] == [];
    if CpuExec(cycle, s, a, env, now).Some? {
      var r := CpuExec(cycle, s, a, env, now).value;
      assert CpuExecAll(cycle, r.s, [b], env, r.now) == CpuExec(cycle, r.s, b, env, r.now);
    }
  }

  function Sum(ns: seq<nat>): nat {
    if ns == [] then 0 else ns[0] + Sum(ns[1..])
  }

  lemma CommandAdvances(cycle: Stepper, s: State, n: nat, env: Environment, now: nat)
    requires CpuExec(cycle, s, n, env, now).Some?
    ensures now <= CpuExec(cycle, s, n, env, now).value.now <= now + n
  {
    if !Final(s.emu) {
      ExecuteSplit(cycle, s.(emu := Running), n, 0, env, now);
    }
  }

  /** Any sequence of commands is one command, as long as it does not see the window closed. */
  lemma {:induction false} CommandsAreOne(cycle: Stepper, s: State, ns: seq<nat>, env: Environment, now: nat)
    requires Tame(cycle) && ns != [] && NoQuit(env, now, now + Sum(ns))
    ensures CpuExecAll(cycle, s, ns, env, now) == CpuExec(cycle, s, Sum(ns), env, now)
    decreases |ns|
  {
    var a, rest := ns[0], ns[1..];
    var first := CpuExec(cycle, s, a, env, now);
    if rest == [] {
      assert Sum(rest) == 0;
      if first.Some? { assert CpuExecAll(cycle, first.value.s, rest, env, first.value.now) == first; }
    } else {
      RunComposition(cycle, s, a, Sum(rest), env, now);
      TwoCommands(cycle, s, a, Sum(rest), env, now);
      if first.Some? {
        CommandAdvances(cycle, s, a, env, now);
        CommandsAreOne(cycle, first.value.s, rest, env, first.value.now);
      }
    }
  }

  /** Once ended or aborted, no sequence of commands changes anything. */
  lemma {:induction false} FinalIsAbsorbing(cycle: Stepper, s: State, ns: seq<nat>, env: Environment, now: nat)
    requires Final(s.emu)
    ensures CpuExecAll(cycle, s, ns, env, now) == Some(Ran(s, now))
    decreases |ns|
  {
    if ns == [] {
    } else {
      FinalIsAbsorbing(cycle, s, ns[1..], env, now);
    }
  }

  /** The number of instructions a run executes, and the counter that records them modulo 2^64. */
  function Executed(cycle: Stepper, s: State, n: nat, env: Environment, now: nat): nat
    decreases n
  {
    if n == 0 then 0
    else
      match cycle(s)
      case None => 0
      case Some(t) =>
        if t.emu != Running then 1 else 1 + Executed(cycle, Tick(Counted(t), env(now)), n - 1, env, now + 1)
  }

  lemma OneMore(count: nat, k: nat)
    requires count < TWO_64
    ensures ((if count + 1 < TWO_64 then count + 1 else 0) + k) % TWO_64 == (count + (1 + k)) % TWO_64
  {
    if count + 1 == TWO_64 { assert (k + TWO_64) % TWO_64 == k % TWO_64; }
  }

  lemma {:induction false} CountGrows(cycle: Stepper, s: State, n: nat, env: Environment, now: nat)
    requires Tame(cycle) && s.count < TWO_64 && Execute(cycle, s, n, env, now).Some?
    ensures Execute(cycle, s, n, env, now).value.s.count == (s.count + Executed(cycle, s, n, env, now)) % TWO_64
    ensures Executed(cycle, s, n, env, now) <= n
    decreases n
  {
    if n == 0 {
    } else {
      var t := cycle(s).value;
      assert Keeps(s, t);
      if t.emu == Running {
        var u := Tick(Counted(t), env(now));
        CountGrows(cycle, u, n - 1, env, now + 1);
        OneMore(s.count, Executed(cycle, u, n - 1, env, now + 1));
      } else {
        OneMore(s.count, 0);
      }
    }
  }

  /** The number of instructions a sequence of commands executes. */
  function ExecutedAll(cycle: Stepper, s: State, ns: seq<nat>, env: Environment, now: nat): nat
    decreases |ns|
  {
    if ns == [] || Final(s.emu) then 0
    else
      Executed(cycle, s.(emu := Running), ns[0], env, now)
      + match CpuExec(cycle, s, ns[0], env, now)
        case None => 0
        case Some(r) => ExecutedAll(cycle, r.s, ns[1..], env, r.now)
  }

  /** Over any sequence of commands the count grows by the instructions executed, modulo 2^64. */
  lemma {:induction false} CountGrowsAll(cycle: Stepper, s: State, ns: seq<nat>, env: Environment, now: nat)
    requires Tame(cycle) && s.count < TWO_64 && CpuExecAll(cycle, s, ns, env, now).Some?
    ensures CpuExecAll(cycle, s, ns, env, now).value.s.count == (s.count + ExecutedAll(cycle, s, ns, env, now)) % TWO_64
    decreases |ns|
  {
    if ns == [] {
    } else if Final(s.emu) {
      FinalIsAbsorbing(cycle, s, ns, env, now);
    } else {
      var r := CpuExec(cycle, s, ns[0], env, now).value;
      CountGrows(cycle, s.(emu := Running), ns[0], env, now);
      CountGrowsAll(cycle, r.s, ns[1..], env, r.now);
      TwiceReduced(s.count, Executed(cycle, s.(emu := Running), ns[0], env, now),
        ExecutedAll(cycle, r.s, ns[1..], env, r.now));
    }
  }

  lemma TwiceReduced(a: nat, b: nat, c: nat)
    ensures ((a + b) % TWO_64 + c) % TWO_64 == (a + (b + c)) % TWO_64
  {
  }

  lemma {:induction false} ZeroStaysZero(cycle: Stepper, s: State, n: nat, env: Environment, now: nat)
    requires Tame(cycle) && s.gpr[0] == 0 && Execute(cycle, s, n, env, now).Some?
    ensures Execute(cycle, s, n, env, now).value.s.gpr[0] == 0
    decreases n
  {
    if n == 0 {
    } else {
      var t := cycle(s).value;
      assert Keeps(s, t);
      if t.emu == Running {
        ZeroStaysZero(cycle, Tick(Counted(t), env(now)), n - 1, env, now + 1);
      }
    }
  }

  lemma {:induction false} ZeroStaysZeroAll(cycle: Stepper, s: State, ns: seq<nat>, env: Environment, now: nat)
    requires Tame(cycle) && s.gpr[0] == 0 && CpuExecAll(cycle, s, ns, env, now).Some?
    ensures CpuExecAll(cycle, s, ns, env, now).value.s.gpr[0] == 0
    decreases |ns|
  {
    if ns != [] {
      var r := CpuExec(cycle, s, ns[0], env, now).value;
      if !Final(s.emu) { ZeroStaysZero(cycle, s.(emu := Running), ns[0], env, now); }
      ZeroStaysZeroAll(cycle, r.s, ns[1..], env, r.now);
    }
  }
}
