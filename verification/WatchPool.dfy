/**
 The watchpoint pool of src/monitor/idb/watchpoint.c: 32 nodes on two intrusive lists, the
 active one from head and the free one from free_. Valid is the shape invariant; the ghost
 sequences active and idle are the two lists.
 */
module WatchPool {
  import opened Words
  import opened Isa
  import opened Machine
  import opened Lexer
  import opened Grammar
  import opened Evaluator
  import opened Watch

  const NR_WP: nat := 32

  /** The size of a node's expr array, with room for a final zero. */
  const EXPR_SIZE: nat := 256

  class WP {
    var NO: nat
    var next: WP?
    var expr: string
    var last: Word

    constructor (no: nat)
      ensures NO == no && next == null && expr == "" && last == 0
    {
      NO, next, expr, last := no, null, "", 0;
    }
  }

  /** h is the first node of the null-terminated chain s. */
  ghost predicate Chain(h: WP?, s: seq<WP>)
    reads s`next
    decreases |s|
  {
    if s == [] then h == null else h == s[0] && Chain(s[0].next, s[1..])
  }

  predicate Distinct(s: seq<WP>) {
    forall i, j :: 0 <= i < j < |s| ==> s[i] != s[j]
  }

  /** s without its k-th element. */
  function Without<T>(s: seq<T>, k: nat): seq<T>
    requires k < |s|
  {
    s[..k] + s[k + 1..]
  }

  lemma WithoutMeaning<T>(s: seq<T>, k: nat)
    requires k < |s|
    ensures |Without(s, k)| == |s| - 1
    ensures forall i :: 0 <= i < |s| - 1 ==> Without(s, k)[i] == s[if i < k then i else i + 1]
  {
  }

  /**
   The lists together hold every node of the pool exactly once: neither repeats a node, no
   node is on both, and there are as many places as nodes.
   */
  predicate Partition(nodes: seq<WP>, active: seq<WP>, idle: seq<WP>) {
    && Distinct(active) && Distinct(idle) && (forall w | w in active :: w !in idle)
    && |active| + |idle| == |nodes|
    && (forall w | w in nodes :: w in active || w in idle)
    && (forall w | w in active :: w in nodes) && (forall w | w in idle :: w in nodes)
  }

  lemma PartitionCounts(nodes: seq<WP>, active: seq<WP>, idle: seq<WP>)
    requires Partition(nodes, active, idle) && Distinct(nodes)
    ensures multiset(nodes) == multiset(active) + multiset(idle)
  {
    forall w: WP ensures multiset(nodes)[w] == (multiset(active) + multiset(idle))[w] {
      CountDistinct(nodes, w);
      CountDistinct(active, w);
      CountDistinct(idle, w);
    }
  }

  lemma {:induction false} CountDistinct(s: seq<WP>, w: WP)
    requires Distinct(s)
    ensures multiset(s)[w] == if w in s then 1 else 0
  {
    if s != [] {
      assert s == [s[0]] + s[1..] && s[0] !in s[1..];
      CountDistinct(s[1..], w);
    }
  }

  /** Taking the first idle node to the front of the active list. */
  lemma Activated(nodes: seq<WP>, active: seq<WP>, idle: seq<WP>)
    requires Partition(nodes, active, idle) && idle != []
    ensures Partition(nodes, [idle[0]] + active, idle[1..])
  {
    var n, t := idle[0], idle[1..];
    assert n in idle && idle == [n] + t;
    assert forall w :: w in idle <==> w == n || w in t;
  }

  /** Taking the k-th active node to the front of the idle list. */
  lemma Released(nodes: seq<WP>, active: seq<WP>, idle: seq<WP>, k: nat)
    requires Partition(nodes, active, idle) && k < |active|
    ensures Partition(nodes, Without(active, k), [active[k]] + idle)
  {
    var n, t := active[k], Without(active, k);
    assert n in active;
    assert n !in t;
    assert forall w :: w in active <==> w == n || w in t by {
      assert active == active[..k] + [n] + active[k + 1..];
    }
  }

  class Pool {
    const nodes: seq<WP>
    var head: WP?
    var free_: WP?
    ghost var active: seq<WP>
    ghost var idle: seq<WP>

    /**
     Both lists are proper chains that share out the nodes, node i still has number i, and
     every expression fits its array.
     */
    ghost predicate Valid()
      reads this, nodes`NO, nodes`expr, active`next, idle`next
    {
      && |nodes| == NR_WP && (forall i :: 0 <= i < |nodes| ==> nodes[i].NO == i)
      && (forall w | w in nodes :: |w.expr| < EXPR_SIZE)
      && Partition(nodes, active, idle) && Chain(head, active) && Chain(free_, idle)
    }

    /** Every node is on exactly one of the lists, and there once. */
    lemma EachNodeOnce()
      requires Valid()
      ensures |nodes| == 32 && Distinct(nodes) && multiset(nodes) == multiset(active) + multiset(idle)
    {
      assert Distinct(nodes);
      PartitionCounts(nodes, active, idle);
    }

    /** init_wp_pool. */
    constructor ()
      ensures Valid() && fresh(nodes) && |nodes| == 32 && active == [] && idle == nodes
    {
      var ws: seq<WP> := [];
      while |ws| < NR_WP
        invariant |ws| <= NR_WP && fresh(ws) && Distinct(ws)
        invariant forall i :: 0 <= i < |ws| ==> ws[i].NO == i && ws[i].expr == ""
        invariant forall i :: 0 <= i < |ws| - 1 ==> ws[i].next == ws[i + 1]
        invariant ws != [] ==> ws[|ws| - 1].next == null
      {
        var w := new WP(|ws|);
        if ws != [] { ws[|ws| - 1].next := w; }
        ws := ws + [w];
      }
      nodes := ws;
      head, free_ := null, ws[0];
      active, idle := [], ws;
      new;
      ChainIff(free_, idle);
    }

    /** new_wp: the first free node becomes the first active one. */
    method NewWp() returns (ret: WP?)
      requires Valid()
      modifies this, nodes`next
      ensures Valid()
      ensures old(idle) == [] ==> ret == null && active == old(active) && idle == []
      ensures old(idle) != [] ==> ret == old(idle)[0] && active == [ret] + old(active) && idle == old(idle)[1..]
    {
      if free_ == null { return null; }
      ret := free_;
      Activated(nodes, active, idle);
      assert ret in idle && ret !in active && ret !in idle[1..];
      free_ := free_.next;
      ret.next := head;
      head := ret;
      ChainCons(ret, active);
      active, idle := [ret] + active, idle[1..];
    }

    /** The loop of free_wp: the active node whose successor is wp. */
    method Predecessor(wp: WP) returns (pre: WP?, ghost i: nat)
      requires Valid()
      ensures i <= |active| && pre == After(active, i)
      ensures pre != null ==> i + 1 < |active| && active[i + 1] == wp
      ensures pre == null ==> wp !in active || active[0] == wp
    {
      ChainIff(head, active);
      pre, i := head, 0;
      while pre != null
        invariant i <= |active| && pre == After(active, i)
        invariant forall j :: 0 < j <= i && j < |active| ==> active[j] != wp
        decreases |active| - i
      {
        if pre.next == wp { return; }
        pre := pre.next;
        i := i + 1;
      }
    }

    /** Taking the k-th active node off the active list: the node before it skips it. */
    method Unlink(wp: WP, pre: WP?, ghost k: nat)
      requires k < |active| && active[k] == wp && Distinct(active) && Chain(head, active)
      requires pre == if k == 0 then null else active[k - 1]
      modifies this`head, (if pre == null then {} else {pre})`next
      ensures wp.next == old(wp.next) && Chain(head, Without(active, k))
    {
      ChainIff(head, active);
      var nxt := wp.next;
      assert k > 0 ==> pre in active && pre != wp && wp != head;
      if wp == head { head := nxt; } else { pre.next := nxt; }
      Bypassed(active, k);
      ChainIff(head, Without(active, k));
    }

    /** The k-th active node moves to the front of the free list. */
    method Release(wp: WP, pre: WP?, ghost k: nat)
      requires Valid() && k < |active| && active[k] == wp
      requires pre == if k == 0 then null else active[k - 1]
      modifies this, nodes`next
      ensures Valid() && active == Without(old(active), k) && idle == [wp] + old(idle)
    {
      Released(nodes, active, idle, k);
      assert wp in active && (k > 0 ==> pre in active);
      ghost var s, t := Without(active, k), [wp] + idle;
      Unlink(wp, pre, k);
      assert Chain(free_, idle);
      assert wp !in s && wp !in idle by { assert t[0] == wp; }
      wp.next := free_;
      free_ := wp;
      assert Chain(head, s);
      ChainCons(wp, idle);
      active, idle := s, t;
    }

    /**
     free_wp. A node that is not active is left alone; the k-th active one is unlinked, the
     order of the others is kept, and it becomes the first free node.
     */
    method FreeWp(wp: WP?)
      requires Valid()
      modifies this, nodes`next
      ensures Valid()
      ensures wp == null || wp !in old(active) ==> active == old(active) && idle == old(idle)
      ensures forall k :: 0 <= k < |old(active)| && old(active)[k] == wp ==>
        active == Without(old(active), k) && idle == [wp] + old(idle)
    {
      if wp == null { return; }
      var pre, i := Predecessor(wp);
      if pre == null && wp != head { return; }
      ghost var k := if wp == head then 0 else i + 1;
      assert active[k] == wp;
      Release(wp, pre, k);
    }

    /** watchpoint_erase_byNo: the active node with this number, if there is one. */
    method EraseByNo(No: int)
      requires Valid()
      modifies this, nodes`next
      ensures Valid()
      ensures (forall w | w in old(active) :: w.NO != No) ==> active == old(active) && idle == old(idle)
      ensures forall k :: 0 <= k < |old(active)| && old(active)[k].NO == No ==>
        active == Without(old(active), k) && idle == [old(active)[k]] + old(idle)
    {
      var now := head;
      ghost var i := 0;
      ChainIff(head, active);
      while now != null
        invariant i <= |active| && now == After(active, i)
        invariant forall j :: 0 <= j < i ==> active[j].NO != No
        invariant Valid() && active == old(active) && idle == old(idle)
        decreases |active| - i
      {
        if now.NO == No {
          NumbersDiffer();
          FreeWp(now);
          return;
        }
        now, i := now.next, i + 1;
      }
    }

    /** watchpoint_erase_byList: the cnt-th active node, counted from 1, if there is one. */
    method EraseByList(cnt: int)
      requires Valid()
      modifies this, nodes`next
      ensures Valid()
      ensures if 1 <= cnt <= |old(active)|
        then active == Without(old(active), cnt - 1) && idle == [old(active)[cnt - 1]] + old(idle)
        else active == old(active) && idle == old(idle)
    {
      var now, i := head, 0;
      ChainIff(head, active);
      while now != null
        invariant i <= |active| && now == After(active, i) && !(1 <= cnt <= i)
        invariant Valid() && active == old(active) && idle == old(idle)
        decreases |active| - i
      {
        if i + 1 == cnt {
          FreeWp(now);
          return;
        }
        now, i := now.next, i + 1;
      }
    }

    /** A number names at most one active node. */
    lemma NumbersDiffer()
      requires Valid()
      ensures forall i, j :: 0 <= i < j < |active| ==> active[i].NO != active[j].NO
    {
      forall i, j | 0 <= i < j < |active| ensures active[i].NO != active[j].NO {
        assert active[i] in nodes && active[j] in nodes && active[i] != active[j];
      }
    }

    /** The first half of watchpoint_add: a free node is taken and e copied into it. */
    method Register(e: string) returns (wp: WP)
      requires Valid() && idle != [] && |e| < EXPR_SIZE
      modifies this, nodes`next, nodes`expr
      ensures Valid() && wp in nodes && wp == old(idle)[0] && wp.expr == e
      ensures active == [wp] + old(active) && idle == old(idle)[1..]
      ensures forall w | w in nodes && w != wp :: w.expr == old(w.expr)
    {
      assert idle[0] in nodes;
      wp := NewWp();
      wp.expr := e;
    }

    /**
     watchpoint_add: a free node becomes the first active one, watching e from its present
     value. alive is false if evaluating e stops the program.
     */
    method Add(e: string, cpu: Cpu, parser: Parser) returns (alive: bool)
      requires Valid() && idle != [] && |e| < EXPR_SIZE && cpu.Valid() && parser.Valid()
      modifies this, nodes, parser, parser.tokens
      ensures Valid() && parser.Valid() && cpu.Abs() == old(cpu.Abs())
      ensures active == [old(idle)[0]] + old(active) && idle == old(idle)[1..]
      ensures ValueOf(cpu.Abs(), e) == if alive then Some(active[0].last) else None
      ensures active[0].expr == e
      ensures forall w | w in nodes && w != active[0] :: w.expr == old(w.expr) && w.last == old(w.last)
    {
      var wp := Register(e);
      alive := Start(wp, cpu, parser);
    }

    /** check_wp: the check of module Watch, on the active list. */
    method CheckWp(cpu: Cpu, parser: Parser) returns (alive: bool)
      requires Valid() && cpu.Valid() && parser.Valid()
      modifies active`last, parser, parser.tokens, cpu`emu
      ensures Valid() && parser.Valid() && active == old(active) && Exprs(active) == old(Exprs(active))
      ensures Check(ValueOf, old(cpu.Abs()), Exprs(active), old(Lasts(active))) ==
        if alive then Some((cpu.Abs(), Lasts(active))) else None
    {
      ChainIff(head, active);
      alive := CheckNodes(head, cpu, parser, active);
    }
  }

  // ---------------------------------------------------------------------------
  // Watching.

  /** What the nodes of a list watch, in list order. */
  ghost function Exprs(s: seq<WP>): (r: seq<string>)
    reads s
  {
    seq(|s|, i requires 0 <= i < |s| reads s => s[i].expr)
  }

  ghost function Lasts(s: seq<WP>): (r: seq<Word>)
    reads s
  {
    seq(|s|, i requires 0 <= i < |s| reads s => s[i].last)
  }

  /**
   watchpoint_evaluate. report says whether the caller passed succ: if so an error leaves
   last alone, if not it counts as the value 0.
   */
  method Evaluate(wp: WP, cpu: Cpu, parser: Parser, report: bool)
    returns (ret: Word, error: Option<Error>, changed: bool)
    requires |wp.expr| < EXPR_SIZE && cpu.Valid() && parser.Valid()
    modifies parser, parser.tokens, wp`last
    ensures parser.Valid() && cpu.Abs() == old(cpu.Abs())
    ensures ExprValue(cpu.Abs(), wp.expr) == if error == None then Ok(ret) else Err(error.value)
    ensures error != None ==> ret == 0
    ensures wp.last == if report && error != None then old(wp.last) else ret
    ensures changed <==> wp.last != old(wp.last)
  {
    TokensAtMostLength(wp.expr);
    ret, error := parser.Expr(cpu, wp.expr);
    if report && error != None { return 0, error, false; }
    changed := ret != wp.last;
    wp.last := ret;
  }

  /** The second half of watchpoint_add: the present value is remembered. */
  method Start(wp: WP, cpu: Cpu, parser: Parser) returns (alive: bool)
    requires |wp.expr| < EXPR_SIZE && cpu.Valid() && parser.Valid()
    modifies parser, parser.tokens, wp`last
    ensures parser.Valid() && cpu.Abs() == old(cpu.Abs())
    ensures ValueOf(cpu.Abs(), wp.expr) == if alive then Some(wp.last) else None
  {
    var _, error, _ := Evaluate(wp, cpu, parser, false);
    alive := error != Some(Died);
  }

  /** s is the state of cpu, except that a check may have stopped the emulator since. */
  ghost predicate Same(cpu: Cpu, s: State)
    requires cpu.Valid()
    reads cpu, cpu.gpr, cpu.csrs, cpu.pmem
  {
    cpu.Abs() == s.(emu := cpu.emu)
  }

  /** The body of the loop of check_wp; v is the value of the watched expression. */
  method CheckOne(wp: WP, cpu: Cpu, parser: Parser, ghost s: State, ghost v: Option<Word>)
    returns (alive: bool, changed: bool)
    requires |wp.expr| < EXPR_SIZE && cpu.Valid() && parser.Valid() && Same(cpu, s) && v == ValueOf(s, wp.expr)
    modifies parser, parser.tokens, wp`last, cpu`emu
    ensures parser.Valid() && Same(cpu, s) && v == if alive then Some(wp.last) else None
    ensures alive ==> (changed <==> wp.last != old(wp.last))
    ensures cpu.emu == if alive && changed then Stopped else old(cpu.emu)
  {
    ValueReads(s.(emu := cpu.emu), s, wp.expr);
    var _, error, differs := Evaluate(wp, cpu, parser, false);
    alive, changed := error != Some(Died), differs;
    if alive && changed { cpu.emu := Stopped; }
  }

  /** vs are the values of the expressions es. */
  ghost predicate Outcomes(vs: seq<Option<Word>>, s: State, es: seq<string>) {
    |vs| == |es| && forall j {:trigger ValueOf(s, es[j])} :: 0 <= j < |es| ==> vs[j] == ValueOf(s, es[j])
  }

  /**
   The loop of check_wp, from the first node of the list ws, which watches es. alive is false
   if evaluating one of the expressions stops the program.
   */
  method CheckList(first: WP?, cpu: Cpu, parser: Parser,
                   ghost ws: seq<WP>, ghost s: State, ghost es: seq<string>,
                   ghost vs: seq<Option<Word>>, ghost ls: seq<Word>)
    returns (alive: bool)
    requires Links(ws) && Distinct(ws) && first == After(ws, 0) && |ws| == |es| == |ls|
    requires forall j :: 0 <= j < |ws| ==> ws[j].expr == es[j] && |es[j]| < EXPR_SIZE && ws[j].last == ls[j]
    requires cpu.Valid() && parser.Valid() && Same(cpu, s) && Outcomes(vs, s, es)
    modifies ws`last, parser, parser.tokens, cpu`emu
    ensures parser.Valid() && Same(cpu, s)
    ensures if alive then forall j :: 0 <= j < |ws| ==> vs[j] == Some(ws[j].last) else None in vs
    ensures alive ==>
      cpu.emu == if forall j :: 0 <= j < |ws| ==> ws[j].last == ls[j] then old(cpu.emu) else Stopped
  {
    ghost var i, d := 0, 0;
    var now, stop := first, false;
    while now != null
      invariant i <= |ws| && now == After(ws, i) && parser.Valid() && Same(cpu, s)
      invariant cpu.emu == if stop then Stopped else old(cpu.emu)
      invariant forall j :: 0 <= j < i ==> vs[j] == Some(ws[j].last)
      invariant forall j :: 0 <= j < |ws| && (!stop || i <= j) ==> ws[j].last == ls[j]
      invariant stop ==> d < i && ws[d].last != ls[d]
      decreases |ws| - i
    {
      assert now == ws[i] && vs[i] == ValueOf(s, es[i]);
      var changed;
      alive, changed := CheckOne(now, cpu, parser, s, vs[i]);
      if !alive { return; }
      if changed { stop, d := true, i; }
      now, i := now.next, i + 1;
    }
    return true;
  }

  method CheckNodes(first: WP?, cpu: Cpu, parser: Parser, ghost ws: seq<WP>) returns (alive: bool)
    requires Links(ws) && Distinct(ws) && first == After(ws, 0) && (forall w | w in ws :: |w.expr| < EXPR_SIZE)
    requires cpu.Valid() && parser.Valid()
    modifies ws`last, parser, parser.tokens, cpu`emu
    ensures parser.Valid() && Exprs(ws) == old(Exprs(ws))
    ensures Check(ValueOf, old(cpu.Abs()), Exprs(ws), old(Lasts(ws))) ==
      if alive then Some((cpu.Abs(), Lasts(ws))) else None
  {
    ghost var s, es, ls := cpu.Abs(), Exprs(ws), Lasts(ws);
    ghost var vs := seq(|es|, i requires 0 <= i < |es| => ValueOf(s, es[i]));
    alive := CheckList(first, cpu, parser, ws, s, es, vs, ls);
    ghost var now := Lasts(ws);
    assert Exprs(ws) == es;
    if alive {
      assert cpu.Abs() == if now != ls then s.(emu := Stopped) else s;
    }
    CheckByOutcomes(s, es, vs, ls, now);
  }

  /** What check_wp does, from the values of the expressions. */
  lemma CheckByOutcomes(s: State, es: seq<string>, vs: seq<Option<Word>>, ls: seq<Word>, now: seq<Word>)
    requires Outcomes(vs, s, es) && |es| == |ls| == |now|
    ensures None in vs ==> Check(ValueOf, s, es, ls).None?
    ensures (forall j :: 0 <= j < |es| ==> vs[j] == Some(now[j])) ==>
      Check(ValueOf, s, es, ls) == Some((if now != ls then s.(emu := Stopped) else s, now))
  {
    assert forall j :: 0 <= j < |es| ==> vs[j] == ValueOf(s, es[j]);
    if forall j :: 0 <= j < |es| ==> vs[j] == Some(now[j]) {
      assert Values(ValueOf, s, es) == now;
    }
  }

  // ---------------------------------------------------------------------------
  // Chains of nodes.

  /** If the node before s[k] skips it and the other links are as before, s without s[k] is linked. */
  lemma Bypassed(s: seq<WP>, k: nat)
    requires k < |s| && Distinct(s)
    requires forall m :: 0 <= m < |s| && m != k ==> s[m].next == After(s, if m + 1 == k then k + 1 else m + 1)
    ensures Links(Without(s, k))
  {
    var t := Without(s, k);
    forall m | 0 <= m < |t| ensures t[m].next == After(t, m + 1) {
      assert t[m] == s[if m < k then m else m + 1];
    }
  }

  /** The node after position i, null after the last. */
  function After(s: seq<WP>, i: nat): WP? {
    if i < |s| then s[i] else null
  }

  ghost predicate Links(s: seq<WP>)
    reads s`next
  {
    forall i {:trigger s[i].next} :: 0 <= i < |s| ==> s[i].next == After(s, i + 1)
  }

  /** A chain, link by link. */
  lemma {:induction false} ChainIff(h: WP?, s: seq<WP>)
    ensures Chain(h, s) <==> h == After(s, 0) && Links(s)
    decreases |s|
  {
    if s != [] {
      ChainIff(s[0].next, s[1..]);
      assert forall i :: 0 <= i <= |s[1..]| ==> After(s[1..], i) == After(s, i + 1);
      assert forall i :: 0 < i < |s| ==> s[i] == s[1..][i - 1];
    }
  }

  lemma ChainCons(n: WP, s: seq<WP>)
    requires Chain(n.next, s)
    ensures Chain(n, [n] + s)
  {
    assert ([n] + s)[1..] == s;
  }

  /** A node determines the chain that begins with it, so head and free_ determine active and idle. */
  lemma {:induction false} ChainUnique(h: WP?, s: seq<WP>, t: seq<WP>)
    requires Chain(h, s) && Chain(h, t)
    ensures s == t
    decreases |s|
  {
    if s == [] {
    } else {
      ChainUnique(s[0].next, s[1..], t[1..]);
    }
  }
}
