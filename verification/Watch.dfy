/**
 Runs with CONFIG_DEBUG on (src/cpu/cpu-exec.c): after every instruction check_wp
 (src/monitor/idb/watchpoint.c) evaluates the watched expressions and stops the emulator
 if one has changed. WatchedRun is the main result: such a run is the ordinary run, cut at
 the first instruction after which a watched value differs from its last one, or has none.
 */
module Watch {
  import opened Words
  import opened Isa
  import opened Lexer
  import opened Grammar
  import opened Parsing
  import opened Evaluator
  import opened Run

  /** The value of an expression in a state; None when evaluating it stops the program. */
  type Valuation = (State, string) -> Option<Word>

  /** What expr returns, with its error code ignored: 0 on every error. */
  function ValueOf(s: State, e: string): Option<Word> {
    match ExprValue(s, e)
    case Ok(w) => Some(w)
    case Err(Died) => None
    case Err(_) => Some(0)
  }

  // ---------------------------------------------------------------------------
  // One check. es are the watched expressions, lasts their values when last seen.

  predicate Alive(val: Valuation, s: State, es: seq<string>) {
    forall i :: 0 <= i < |es| ==> val(s, es[i]).Some?
  }

  function Values(val: Valuation, s: State, es: seq<string>): (r: seq<Word>)
    requires Alive(val, s, es)
  {
    seq(|es|, i requires 0 <= i < |es| => val(s, es[i]).value)
  }

  /** check_wp: stop if a value is not the one last seen, and remember the values. */
  function Check(val: Valuation, s: State, es: seq<string>, lasts: seq<Word>): Option<(State, seq<Word>)> {
    if !Alive(val, s, es) then None
    else Some((if Values(val, s, es) != lasts then s.(emu := Stopped) else s, Values(val, s, es)))
  }

  /** The valuation does not look at the emulator's own state, which a check may change. */
  ghost predicate IgnoresEmu(val: Valuation) {
    forall s: State, x: Emu, e: string :: val(s.(emu := x), e) == val(s, e)
  }

  /** A check leaves every last value current, so an immediate second one reports nothing. */
  lemma CheckTwice(val: Valuation, s: State, es: seq<string>, lasts: seq<Word>)
    requires IgnoresEmu(val) && Alive(val, s, es)
    ensures var (t, now) := Check(val, s, es, lasts).value;
      Check(val, t, es, now) == Some((t, now))
  {
    var (t, now) := Check(val, s, es, lasts).value;
    forall i | 0 <= i < |es| ensures val(t, es[i]) == val(s, es[i]) {
      assert val(s.(emu := Stopped), es[i]) == val(s, es[i]);
    }
    assert Alive(val, t, es) && Values(val, t, es) == now;
  }

  // ---------------------------------------------------------------------------
  // Runs.

  /** execute with CONFIG_DEBUG. */
  function DebugExecute(cycle: Stepper, val: Valuation, s: State, es: seq<string>, lasts: seq<Word>, n: nat,
                        env: Environment, now: nat): Option<(Ran, seq<Word>)>
    decreases n
  {
    if n == 0 then Some((Ran(s, now), lasts))
    else
      match cycle(s)
      case None => None
      case Some(t) =>
        match Check(val, Counted(t), es, lasts)
        case None => None
        case Some((c, seen)) =>
          if c.emu != Running then Some((Ran(c, now), seen))
          else DebugExecute(cycle, val, Tick(c, env(now)), es, seen, n - 1, env, now + 1)
  }

  /** cpu_exec with CONFIG_DEBUG. */
  function DebugCpuExec(cycle: Stepper, val: Valuation, s: State, es: seq<string>, lasts: seq<Word>, n: nat,
                        env: Environment, now: nat): Option<(Ran, seq<Word>)> {
    if Final(s.emu) then Some((Ran(s, now), lasts))
    else
      match DebugExecute(cycle, val, s.(emu := Running), es, lasts, n, env, now)
      case None => None
      case Some((r, seen)) => Some((if r.s.emu == Running then r.(s := r.s.(emu := Stopped)) else r, seen))
  }

  /** The states in which an ordinary run would be checked: one after each instruction. */
  function Checkpoints(cycle: Stepper, s: State, n: nat, env: Environment, now: nat): seq<State>
    decreases n
  {
    if n == 0 then []
    else
      match cycle(s)
      case None => []
      case Some(t) =>
        var c := Counted(t);
        if c.emu != Running then [c] else [c] + Checkpoints(cycle, Tick(c, env(now)), n - 1, env, now + 1)
  }

  /** A check that lets the run go on: every expression has a value, and it is the one last seen. */
  predicate Quiet(val: Valuation, c: State, es: seq<string>, lasts: seq<Word>) {
    Alive(val, c, es) && Values(val, c, es) == lasts
  }

  /** The index of the first checkpoint that is not quiet, or their number. */
  function FirstCut(val: Valuation, cs: seq<State>, es: seq<string>, lasts: seq<Word>): (j: nat)
    ensures j <= |cs|
    ensures j < |cs| ==> !Quiet(val, cs[j], es, lasts)
    ensures forall k :: 0 <= k < j ==> Quiet(val, cs[k], es, lasts)
    decreases |cs|
  {
    if cs == [] || !Quiet(val, cs[0], es, lasts) then 0 else 1 + FirstCut(val, cs[1..], es, lasts)
  }

  /**
   The run r with checkpoints cs, cut at checkpoint j if there is one: there it ends with the
   state of the ordinary run, stopped, whatever the instruction had done to the emulator, or
   with the program stopped inside an evaluation.
   */
  function CutAt(val: Valuation, cs: seq<State>, j: nat, es: seq<string>, lasts: seq<Word>, r: Option<Ran>, now: nat)
    : Option<(Ran, seq<Word>)>
  {
    if j < |cs| then
      if Alive(val, cs[j], es) then Some((Ran(cs[j].(emu := Stopped), now + j), Values(val, cs[j], es))) else None
    else if r.None? then None
    else Some((r.value, lasts))
  }

  function CutFirst(val: Valuation, cs: seq<State>, es: seq<string>, lasts: seq<Word>, r: Option<Ran>, now: nat)
    : Option<(Ran, seq<Word>)>
  {
    CutAt(val, cs, FirstCut(val, cs, es, lasts), es, lasts, r, now)
  }

  lemma CutAtTail(val: Valuation, c: State, rest: seq<State>, j: nat, es: seq<string>, lasts: seq<Word>,
                  r: Option<Ran>, now: nat)
    ensures CutAt(val, [c] + rest, j + 1, es, lasts, r, now) == CutAt(val, rest, j, es, lasts, r, now + 1)
  {
    if j < |rest| { assert ([c] + rest)[j + 1] == rest[j]; }
  }

  /** Cutting a run at a quiet first checkpoint is cutting the rest of it. */
  lemma CutLater(val: Valuation, c: State, rest: seq<State>, es: seq<string>, lasts: seq<Word>,
                 r: Option<Ran>, now: nat)
    requires Quiet(val, c, es, lasts)
    ensures CutFirst(val, [c] + rest, es, lasts, r, now) == CutFirst(val, rest, es, lasts, r, now + 1)
  {
    assert ([c] + rest)[1..] == rest;
    CutAtTail(val, c, rest, FirstCut(val, rest, es, lasts), es, lasts, r, now);
  }

  /** At a first checkpoint that is not quiet, it is over. */
  lemma CutNow(val: Valuation, c: State, rest: seq<State>, es: seq<string>, lasts: seq<Word>, r: Option<Ran>, now: nat)
    requires !Quiet(val, c, es, lasts)
    ensures CutFirst(val, [c] + rest, es, lasts, r, now) ==
      if Alive(val, c, es) then Some((Ran(c.(emu := Stopped), now), Values(val, c, es))) else None
  {
    assert ([c] + rest)[0] == c;
  }

  /** One round of a watched run: it goes on exactly if the check is quiet and nothing ended. */
  lemma DebugRound(cycle: Stepper, val: Valuation, s: State, es: seq<string>, lasts: seq<Word>, n: nat,
                   env: Environment, now: nat, c: State)
    requires n > 0 && cycle(s).Some? && c == Counted(cycle(s).value)
    ensures DebugExecute(cycle, val, s, es, lasts, n, env, now) ==
      if !Alive(val, c, es) then None
      else if Values(val, c, es) != lasts then Some((Ran(c.(emu := Stopped), now), Values(val, c, es)))
      else if c.emu != Running then Some((Ran(c, now), lasts))
      else DebugExecute(cycle, val, Tick(c, env(now)), es, lasts, n - 1, env, now + 1)
  {
  }

  /**
   With watchpoints a run is the ordinary run, cut at the first instruction after which some
   watched value differs from the one last seen, or cannot be computed.
   */
  lemma {:induction false} WatchedRun(cycle: Stepper, val: Valuation, s: State, es: seq<string>, lasts: seq<Word>,
                                      n: nat, env: Environment, now: nat)
    ensures DebugExecute(cycle, val, s, es, lasts, n, env, now)
      == CutFirst(val, Checkpoints(cycle, s, n, env, now), es, lasts, Execute(cycle, s, n, env, now), now)
    decreases n
  {
    if n != 0 && cycle(s).Some? {
      var c := Counted(cycle(s).value);
      var u := Tick(c, env(now));
      var rest := if c.emu != Running then [] else Checkpoints(cycle, u, n - 1, env, now + 1);
      assert Checkpoints(cycle, s, n, env, now) == [c] + rest;
      if c.emu == Running && Quiet(val, c, es, lasts) {
        WatchedRun(cycle, val, u, es, lasts, n - 1, env, now + 1);
      }
      WatchedRound(cycle, val, s, es, lasts, n, env, now, c, rest, Execute(cycle, s, n, env, now));
    }
  }

  /** The inductive step of WatchedRun. */
  lemma WatchedRound(cycle: Stepper, val: Valuation, s: State, es: seq<string>, lasts: seq<Word>, n: nat,
                     env: Environment, now: nat, c: State, rest: seq<State>, r: Option<Ran>)
    requires n > 0 && cycle(s).Some? && c == Counted(cycle(s).value)
    requires c.emu != Running ==> rest == [] && r == Some(Ran(c, now))
    requires c.emu == Running && Quiet(val, c, es, lasts) ==>
      DebugExecute(cycle, val, Tick(c, env(now)), es, lasts, n - 1, env, now + 1)
        == CutFirst(val, rest, es, lasts, r, now + 1)
    ensures DebugExecute(cycle, val, s, es, lasts, n, env, now) == CutFirst(val, [c] + rest, es, lasts, r, now)
  {
    DebugRound(cycle, val, s, es, lasts, n, env, now, c);
    if Quiet(val, c, es, lasts) {
      CutLater(val, c, rest, es, lasts, r, now);
    } else {
      CutNow(val, c, rest, es, lasts, r, now);
    }
  }

  // ---------------------------------------------------------------------------
  // expr as the valuation.

  /** What an expression can read: registers, memory and the pc, and the pc only by its name. */
  lemma {:induction false} EvalReads(s: State, u: State, t: Tree)
    requires s.gpr == u.gpr && s.mem == u.mem && (s.pc == u.pc || Name("pc") !in Yield(t))
    ensures Eval(s, t) == Eval(u, t)
  {
    match t {
      case Reg(name) => assert Yield(t)[1] == Name(name);
      case Neg(v) => EvalReads(s, u, v);
      case Deref(v) => EvalReads(s, u, v);
      case Group(v) => EvalReads(s, u, v);
      case Bin(_, l, r) =>
        EvalReads(s, u, l);
        EvalReads(s, u, r);
      case Unclosed(v, _) => EvalReads(s, u, v);
      case Inside(v) => EvalReads(s, u, v);
      case _ =>
    }
  }

  lemma ValueReads(s: State, u: State, e: string)
    requires s.gpr == u.gpr && s.mem == u.mem && (s.pc == u.pc || Name("pc") !in Lex(e).tokens)
    ensures ValueOf(s, e) == ValueOf(u, e)
  {
    var ts := Lex(e).tokens;
    ExpSound(ts, 1);
    EvalReads(s, u, BuildExp(ts, 1).0);
  }

  lemma ExprIgnoresEmu()
    ensures IgnoresEmu(ValueOf)
  {
    forall s: State, x: Emu, e: string ensures ValueOf(s.(emu := x), e) == ValueOf(s, e) {
      ValueReads(s.(emu := x), s, e);
    }
  }
}
