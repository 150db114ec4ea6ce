/**
 The emulator loop in place: isa_query_intr and isa_raise_intr (src/cpu/intr.c), execute and
 cpu_exec (src/cpu/cpu-exec.c), on the objects they update. Each method is proved against the
 run functions of Run, or of Watch for the build with CONFIG_DEBUG.
 */
module Emulator {
  import opened Words
  import opened Isa
  import opened Machine
  import opened Evaluator
  import Run
  import Watch
  import opened WatchPool

  const INTR_EMPTY: Word := 0xffff_ffff

  /** isa_query_intr: a pending interrupt that is enabled is handed out once. */
  method QueryIntr(cpu: Cpu) returns (no: Word)
    requires cpu.Valid()
    modifies cpu`intr
    ensures no == if Run.Interrupted(old(cpu.Abs())) then Run.IRQ_TIMER else INTR_EMPTY
    ensures cpu.Abs() == old(cpu.Abs()).(intr := old(cpu.intr) && no == INTR_EMPTY)
  {
    if cpu.intr && Run.Mie(cpu.csrs[MSTATUS]) {
      cpu.intr := false;
      return Run.IRQ_TIMER;
    }
    return INTR_EMPTY;
  }

  /** isa_raise_intr: saves where to resume, masks further interrupts, and returns the handler. */
  method RaiseIntr(cpu: Cpu, no: Word, epc: Word) returns (handler: Word)
    requires cpu.Valid()
    modifies cpu.csrs
    ensures cpu.Abs() == old(cpu.Abs()).(csrs := Run.Raised(old(cpu.Abs()).csrs, no, epc))
    ensures handler == old(cpu.csrs[MTVEC])
  {
    var csrs := cpu.csrs;
    csrs[MEPC] := if no == Run.IRQ_TIMER then epc else Add(epc, 4);
    csrs[MCAUSE] := no;
    if Run.Mie(csrs[MSTATUS]) {
      csrs[MSTATUS] := Run.WithMpie(csrs[MSTATUS], true);
    } else {
      csrs[MSTATUS] := Run.WithMpie(csrs[MSTATUS], false);
    }
    csrs[MSTATUS] := Run.WithoutMie(csrs[MSTATUS]);
    return csrs[MTVEC];
  }

  /** device_update, as far as the processor can tell. */
  method DeviceUpdate(cpu: Cpu, e: Run.Event)
    requires cpu.Valid()
    modifies cpu`intr, cpu`emu
    ensures cpu.Abs() == old(cpu.Abs()).(intr := old(cpu.intr) || e.intr, emu := if e.quit then Quit else old(cpu.emu))
  {
    cpu.intr := cpu.intr || e.intr;
    if e.quit { cpu.emu := Quit; }
  }

  /** The tail of the loop of execute. */
  method EndStep(cpu: Cpu, e: Run.Event)
    requires cpu.Valid() && cpu.gpr[0] == 0
    modifies cpu`intr, cpu`emu, cpu`pc, cpu.csrs
    ensures cpu.Abs() == Run.Tick(old(cpu.Abs()), e)
  {
    DeviceUpdate(cpu, e);
    var no := QueryIntr(cpu);
    if no != INTR_EMPTY { cpu.pc := RaiseIntr(cpu, no, cpu.pc); }
  }

  method CountStep(cpu: Cpu)
    requires cpu.Valid()
    modifies cpu`count
    ensures cpu.Abs() == Run.Counted(old(cpu.Abs()))
  {
    cpu.count := if cpu.count + 1 < TWO_64 then cpu.count + 1 else 0;
  }

  /** cycle is the instruction cycle of Machine. The loops do not depend on what that is. */
  ghost predicate IsCycle(cycle: Run.Stepper) {
    forall s: State {:trigger Cycle(s)} :: cycle(s) == Cycle(s)
  }

  /** exec_once and the instruction count. ok is false if the program stops inside the instruction. */
  method ExecCounted(cpu: Cpu, ghost cycle: Run.Stepper) returns (ok: bool)
    requires IsCycle(cycle) && cpu.Valid() && cpu.gpr[0] == 0
    modifies cpu, cpu.gpr, cpu.pmem
    ensures ok == cycle(old(cpu.Abs())).Some?
    ensures ok ==> cpu.gpr[0] == 0 && cpu.Abs() == Run.Counted(cycle(old(cpu.Abs())).value)
  {
    ok := cpu.ExecOnce();
    if ok { CountStep(cpu); }
  }

  /** One round of the loop of execute. ok is false if the program stops inside the instruction. */
  method Round(cpu: Cpu, e: Run.Event, ghost cycle: Run.Stepper) returns (ok: bool, running: bool)
    requires IsCycle(cycle) && cpu.Valid() && cpu.gpr[0] == 0
    modifies cpu, cpu.gpr, cpu.csrs, cpu.pmem
    ensures ok == cycle(old(cpu.Abs())).Some?
    ensures ok ==> cpu.gpr[0] == 0
    ensures ok ==>
      var t := Run.Counted(cycle(old(cpu.Abs())).value);
      running == (t.emu == Running) && cpu.Abs() == if running then Run.Tick(t, e) else t
  {
    running := false;
    ok := ExecCounted(cpu, cycle);
    if !ok { return; }
    if cpu.emu != Running { return; }
    EndStep(cpu, e);
    running := true;
  }

  /** execute. */
  method Execute(cpu: Cpu, n: nat, env: Run.Environment, now: nat, ghost cycle: Run.Stepper)
    returns (ok: bool, after: nat)
    requires IsCycle(cycle) && cpu.Valid() && cpu.gpr[0] == 0
    modifies cpu, cpu.gpr, cpu.csrs, cpu.pmem
    ensures Run.Execute(cycle, old(cpu.Abs()), n, env, now) == if ok then Some(Run.Ran(cpu.Abs(), after)) else None
    ensures ok ==> cpu.gpr[0] == 0
  {
    ghost var s := cpu.Abs();
    var k: nat := n;
    after, ok := now, true;
    while k > 0
      invariant ok && k <= n && cpu.gpr[0] == 0 && s == cpu.Abs()
      invariant Run.Execute(cycle, old(cpu.Abs()), n, env, now) == Run.Execute(cycle, s, k, env, after)
    {
      var running;
      ok, running := Round(cpu, env(after), cycle);
      s := cpu.Abs();
      if !ok || !running { return; }
      k, after := k - 1, after + 1;
    }
  }

  /** cpu_exec. */
  method CpuExec(cpu: Cpu, n: nat, env: Run.Environment, now: nat) returns (ok: bool, after: nat)
    requires cpu.Valid() && cpu.gpr[0] == 0
    modifies cpu, cpu.gpr, cpu.csrs, cpu.pmem
    ensures Run.CpuExec(Cycle, old(cpu.Abs()), n, env, now) == if ok then Some(Run.Ran(cpu.Abs(), after)) else None
    ensures ok ==> cpu.gpr[0] == 0
  {
    if cpu.emu == Ended || cpu.emu == Aborted { return true, now; }
    cpu.emu := Running;
    ok, after := Execute(cpu, n, env, now, Cycle);
    if ok && cpu.emu == Running { cpu.emu := Stopped; }
  }

  // ---------------------------------------------------------------------------
  // With CONFIG_DEBUG: check_wp follows every instruction.

  /** val is the valuation of Watch. */
  ghost predicate IsValue(val: Watch.Valuation) {
    forall s: State, es: seq<string>, lasts: seq<Word> {:trigger Watch.Check(Watch.ValueOf, s, es, lasts)} ::
      Watch.Check(val, s, es, lasts) == Watch.Check(Watch.ValueOf, s, es, lasts)
  }

  /** The state after an instruction and the check that follows it, and the values seen then. */
  ghost function Seen(val: Watch.Valuation, c: Option<State>, es: seq<string>, lasts: seq<Word>)
    : Option<(State, seq<Word>)>
  {
    if c.None? then None else Watch.Check(val, Run.Counted(c.value), es, lasts)
  }

  /** check_wp. */
  method CheckAll(cpu: Cpu, pool: Pool, parser: Parser, ghost val: Watch.Valuation) returns (ok: bool)
    requires IsValue(val) && cpu.Valid() && pool.Valid() && parser.Valid()
    modifies pool.active`last, parser, parser.tokens, cpu`emu
    ensures pool.Valid() && parser.Valid() && Exprs(pool.active) == old(Exprs(pool.active))
    ensures Watch.Check(val, old(cpu.Abs()), Exprs(pool.active), old(Lasts(pool.active))) ==
      if ok then Some((cpu.Abs(), Lasts(pool.active))) else None
  {
    ok := pool.CheckWp(cpu, parser);
  }

  /** An instruction and the check that follows it. */
  method ExecChecked(cpu: Cpu, pool: Pool, parser: Parser, ghost cycle: Run.Stepper, ghost val: Watch.Valuation)
    returns (ok: bool)
    requires IsCycle(cycle) && IsValue(val) && cpu.Valid() && cpu.gpr[0] == 0 && pool.Valid() && parser.Valid()
    modifies cpu, cpu.gpr, cpu.pmem, pool.active`last, parser, parser.tokens
    ensures pool.Valid() && parser.Valid() && Exprs(pool.active) == old(Exprs(pool.active))
    ensures ok ==> cpu.gpr[0] == 0
    ensures Seen(val, cycle(old(cpu.Abs())), Exprs(pool.active), old(Lasts(pool.active)))
      == if ok then Some((cpu.Abs(), Lasts(pool.active))) else None
  {
    ok := ExecCounted(cpu, cycle);
    if ok { ok := CheckAll(cpu, pool, parser, val); }
  }

  /** One round of the loop of execute; c is the state after the check. */
  method WatchedRound(cpu: Cpu, pool: Pool, parser: Parser, e: Run.Event,
                      ghost cycle: Run.Stepper, ghost val: Watch.Valuation)
    returns (ok: bool, running: bool, ghost c: State)
    requires IsCycle(cycle) && IsValue(val) && cpu.Valid() && cpu.gpr[0] == 0 && pool.Valid() && parser.Valid()
    modifies cpu, cpu.gpr, cpu.csrs, cpu.pmem, pool.active`last, parser, parser.tokens
    ensures pool.Valid() && parser.Valid() && Exprs(pool.active) == old(Exprs(pool.active))
    ensures ok ==> cpu.gpr[0] == 0
    ensures Seen(val, cycle(old(cpu.Abs())), Exprs(pool.active), old(Lasts(pool.active)))
      == if ok then Some((c, Lasts(pool.active))) else None
    ensures ok ==> running == (c.emu == Running) && cpu.Abs() == if running then Run.Tick(c, e) else c
  {
    ok := ExecChecked(cpu, pool, parser, cycle, val);
    c, running := cpu.Abs(), cpu.emu == Running;
    if ok && running { EndStep(cpu, e); }
  }

  /** execute. */
  method ExecuteWatched(cpu: Cpu, pool: Pool, parser: Parser, n: nat, env: Run.Environment, now: nat,
                        ghost cycle: Run.Stepper, ghost val: Watch.Valuation) returns (ok: bool, after: nat)
    requires IsCycle(cycle) && IsValue(val) && cpu.Valid() && cpu.gpr[0] == 0 && pool.Valid() && parser.Valid()
    modifies cpu, cpu.gpr, cpu.csrs, cpu.pmem, pool.active`last, parser, parser.tokens
    ensures pool.Valid() && Exprs(pool.active) == old(Exprs(pool.active))
    ensures Watch.DebugExecute(cycle, val, old(cpu.Abs()), Exprs(pool.active), old(Lasts(pool.active)), n, env, now)
      == if ok then Some((Run.Ran(cpu.Abs(), after), Lasts(pool.active))) else None
    ensures ok ==> cpu.gpr[0] == 0
  {
    ghost var s, es, lasts := cpu.Abs(), Exprs(pool.active), Lasts(pool.active);
    ghost var run := Watch.DebugExecute(cycle, val, s, es, lasts, n, env, now);
    var k: nat := n;
    after, ok := now, true;
    while k > 0
      invariant ok && k <= n && cpu.gpr[0] == 0 && s == cpu.Abs()
      invariant pool.Valid() && parser.Valid() && Exprs(pool.active) == es && Lasts(pool.active) == lasts
      invariant run == Watch.DebugExecute(cycle, val, s, es, lasts, k, env, after)
    {
      var running;
      ghost var c;
      ok, running, c := WatchedRound(cpu, pool, parser, env(after), cycle, val);
      s, lasts := cpu.Abs(), Lasts(pool.active);
      if !ok || !running { return; }
      k, after := k - 1, after + 1;
    }
  }

  /** cpu_exec. */
  method CpuExecWatched(cpu: Cpu, pool: Pool, parser: Parser, n: nat, env: Run.Environment, now: nat,
                        ghost cycle: Run.Stepper, ghost val: Watch.Valuation) returns (ok: bool, after: nat)
    requires IsCycle(cycle) && IsValue(val) && cpu.Valid() && cpu.gpr[0] == 0 && pool.Valid() && parser.Valid()
    modifies cpu, cpu.gpr, cpu.csrs, cpu.pmem, pool.active`last, parser, parser.tokens
    ensures pool.Valid() && Exprs(pool.active) == old(Exprs(pool.active))
    ensures Watch.DebugCpuExec(cycle, val, old(cpu.Abs()), Exprs(pool.active), old(Lasts(pool.active)), n, env, now)
      == if ok then Some((Run.Ran(cpu.Abs(), after), Lasts(pool.active))) else None
    ensures ok ==> cpu.gpr[0] == 0
  {
    if cpu.emu == Ended || cpu.emu == Aborted { return true, now; }
    cpu.emu := Running;
    ok, after := ExecuteWatched(cpu, pool, parser, n, env, now, cycle, val);
    if ok && cpu.emu == Running { cpu.emu := Stopped; }
  }

  // ---------------------------------------------------------------------------
  // The theorems about runs, for the emulator's own cycle.

  /** Stopping in between makes no difference. */
  lemma CommandsCompose(s: State, ns: seq<nat>, env: Run.Environment, now: nat)
    requires ns != [] && Run.NoQuit(env, now, now + Run.Sum(ns))
    ensures Run.CpuExecAll(Cycle, s, ns, env, now) == Run.CpuExec(Cycle, s, Run.Sum(ns), env, now)
  {
    Run.CycleIsTame();
    Run.CommandsAreOne(Cycle, s, ns, env, now);
  }
}
