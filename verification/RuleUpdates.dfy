/** All interleavings of sp_mapdb_rule_update calls with one another and with
    sp_mapdb_ruletable_flush. A step is what happens between two points at which another thread
    can get in: a locked section, a test-and-set, an unlocked read, an allocation, or handing a
    node to RCU for destruction. */
module RuleUpdates {
  import opened Common
  import opened RuleTable
  import opened RuleManager

  /** Where a thread stands inside sp_mapdb_rule_update. */
  datatype Thread =
    | Idle
    | Writing(cmd: Command, rule: Rule)   // holds the single-writer bit
    | Roomy(node: Node)                   // the table was not full, the new node is allocated
    | Absent(node: Node)                  // no rule with this id was found, the lock is free again
    | Retiring(node: Node, result: Result)
    | Leaving(result: Result)

  datatype System = System(
    table: Table,
    writer: Option<nat>,     // the single-writer bit, and the thread that has set it
    threads: seq<Thread>,
    nextAddr: nat,           // addresses from here on have never been allocated
    retired: seq<Node>)      // handed to RCU for destruction

  datatype Step =
    | Enter(t: nat, cmd: Command, rule: Rule)
    | Check(t: nat, success: bool)
    | DeleteById(t: nat)
    | Reject(t: nat)
    | FindOrModify(t: nat)
    | InsertNew(t: nat, success: bool)
    | Retire(t: nat)
    | Leave(t: nat)
    | FlushTable

  predicate Enabled(s: System, step: Step)
  {
    step.FlushTable? ||
    (step.t < |s.threads| &&
      var th := s.threads[step.t];
      match step
      case Enter(_, _, rule) => th.Idle? && rule.precedence <= PRECEDENCES
      case Check(_, _) => th.Writing? && th.cmd == AddRule
      case DeleteById(_) => th.Writing? && th.cmd == DeleteRule
      case Reject(_) => th.Writing? && th.cmd == Other
      case FindOrModify(_) => th.Roomy?
      case InsertNew(_, _) => th.Absent?
      case Retire(_) => th.Retiring?
      case Leave(_) => th.Leaving?)
  }

  function Move(s: System, t: nat, th: Thread): System
    requires t < |s.threads|
  {
    s.(threads := s.threads[t := th])
  }

  /** The test-and-set at the start; if the bit is set the call returns ERR_SINGLE_WRITER. */
  function EnterStep(s: System, t: nat, cmd: Command, rule: Rule): System
    requires t < |s.threads|
  {
    if s.writer.Some? then s else Move(s, t, Writing(cmd, rule)).(writer := Some(t))
  }

  /** The checks of sp_mapdb_rule_add before it takes the lock, and the allocation. */
  function CheckStep(s: System, t: nat, rule: Rule, success: bool): System
    requires t < |s.threads|
  {
    if s.table.count == MAX_RULES then Move(s, t, Leaving(TableFull))
    else if !ValidOutput(rule) then Move(s, t, Leaving(InvalidEntry))
    else if !success then Move(s, t, Leaving(AllocNode))
    else Move(s, t, Roomy(Node(s.nextAddr, Stored(rule)))).(nextAddr := s.nextAddr + 1)
  }

  /** The locked section of sp_mapdb_rule_delete. */
  function DeleteStep(s: System, t: nat, id: nat): System
    requires t < |s.threads|
  {
    if s.table.count == 0 then Move(s, t, Leaving(TableEmpty))
    else
      match Lookup(s.table.index, id)
      case None => Move(s, t, Leaving(NoSuchRule))
      case Some(cur) => Move(s, t, Retiring(cur, DeleteOk)).(table := Remove(s.table, cur))
  }

  /** The first locked section of sp_mapdb_rule_add. */
  function ModifyStep(s: System, t: nat, n: Node): System
    requires t < |s.threads|
  {
    match Lookup(s.table.index, n.rule.id)
    case None => Move(s, t, Absent(n))
    case Some(cur) => Move(s, t, Retiring(cur, ModifyOk)).(table := Modify(s.table, cur, n))
  }

  /** The second allocation of sp_mapdb_rule_add and its second locked section. If the
      allocation fails the new node is freed again. */
  function InsertStep(s: System, t: nat, n: Node, success: bool): System
    requires t < |s.threads|
  {
    if !success then Move(s, t, Leaving(AllocHash))
    else Move(s, t, Leaving(AddOk)).(table := Insert(s.table, n))
  }

  function Next(s: System, step: Step): System
    requires Enabled(s, step)
  {
    match step
    case FlushTable => s.(table := Flush(s.table), retired := s.retired + Flat(s.table))
    case Enter(t, cmd, rule) => EnterStep(s, t, cmd, rule)
    case Check(t, success) => CheckStep(s, t, s.threads[t].rule, success)
    case DeleteById(t) => DeleteStep(s, t, s.threads[t].rule.id)
    case Reject(t) => Move(s, t, Leaving(UnknownBit))
    case FindOrModify(t) => ModifyStep(s, t, s.threads[t].node)
    case InsertNew(t, success) => InsertStep(s, t, s.threads[t].node, success)
    case Retire(t) =>
      var th := s.threads[t];
      Move(s, t, Leaving(th.result)).(retired := s.retired + [th.node])
    case Leave(t) => Move(s, t, Idle).(writer := None)
  }

  // ----- the invariant -----

  /** The node a thread holds: newly allocated and not yet linked, or unlinked and not yet
      handed over. */
  function Held(th: Thread): multiset<Node>
  {
    if th.Roomy? || th.Absent? || th.Retiring? then multiset{th.node} else multiset{}
  }

  /** The node held by the thread that has set the bit; no other thread holds one. */
  function HeldByWriter(s: System): multiset<Node>
  {
    match s.writer
    case Some(t) => if t < |s.threads| then Held(s.threads[t]) else multiset{}
    case None => multiset{}
  }

  /** Every node there is, wherever it is. */
  function Nodes(s: System): multiset<Node>
  {
    multiset(s.table.index) + HeldByWriter(s) + multiset(s.retired)
  }

  /** No node is in two places, and different nodes have different addresses. */
  ghost predicate Distinct(m: multiset<Node>, nextAddr: nat)
  {
    && (forall n :: m[n] <= 1)
    && (forall n :: n in m ==> n.addr < nextAddr)
    && (forall n, k :: n in m && k in m && n.addr == k.addr ==> n == k)
  }

  /** A thread is inside an update exactly if it has set the bit. */
  ghost predicate Exclusive(s: System)
  {
    && (s.writer.Some? ==> s.writer.value < |s.threads|)
    && forall t :: 0 <= t < |s.threads| ==> (!s.threads[t].Idle? <==> s.writer == Some(t))
  }

  /** What a thread has found out stays true while the lock is free: there is room, and a rule
      that was absent is still absent. */
  ghost predicate Informed(t: Table, th: Thread)
  {
    && (th.Roomy? || th.Absent? ==> t.count < MAX_RULES && th.node.rule.precedence < PRECEDENCES)
    && (th.Absent? ==> Lookup(t.index, th.node.rule.id).None?)
    && (th.Writing? ==> th.rule.precedence <= PRECEDENCES)
  }

  ghost predicate Inv(s: System)
  {
    && Consistent(s.table)
    && Exclusive(s)
    && Distinct(Nodes(s), s.nextAddr)
    && forall t :: 0 <= t < |s.threads| ==> Informed(s.table, s.threads[t])
  }

  function Init(threads: nat): System
  {
    System(Empty(), None, seq(threads, _ => Idle), 0, [])
  }

  lemma InitInv(threads: nat)
    ensures Inv(Init(threads))
  {
    var s := Init(threads);
    OrderEmpty(Empty().lists, PRECEDENCES);
  }

  // ----- every step keeps the invariant -----

  /** A step of the one active thread: it is enough to look at the table, at the nodes and at
      what the thread now knows. */
  lemma ActiveStep(s: System, t: nat, th: Thread, s': System)
    requires Inv(s) && t < |s.threads| && !s.threads[t].Idle?
    requires s'.threads == s.threads[t := th] && s'.writer == if th.Idle? then None else s.writer
    requires Consistent(s'.table) && Distinct(Nodes(s'), s'.nextAddr) && Informed(s'.table, th)
    ensures Inv(s')
  {
    hide Consistent, Distinct, Nodes;
  }

  /** What the active thread holds before and after its step. */
  lemma ActiveHeld(s: System, t: nat, th: Thread, s': System)
    requires Exclusive(s) && t < |s.threads| && !s.threads[t].Idle?
    requires s'.threads == s.threads[t := th] && s'.writer == if th.Idle? then None else s.writer
    ensures Nodes(s) == multiset(s.table.index) + Held(s.threads[t]) + multiset(s.retired)
    ensures Nodes(s') == multiset(s'.table.index) + Held(th) + multiset(s'.retired)
  {
  }

  lemma DistinctLess(m: multiset<Node>, m': multiset<Node>, nextAddr: nat)
    requires Distinct(m, nextAddr) && m' <= m
    ensures Distinct(m', nextAddr)
  {
    forall n
      ensures m'[n] <= 1 && (n in m' ==> n in m)
    {
      assert m'[n] <= m[n];
    }
  }

  lemma DistinctFresh(m: multiset<Node>, n: Node, nextAddr: nat)
    requires Distinct(m, nextAddr) && n.addr == nextAddr
    ensures Distinct(m + multiset{n}, nextAddr + 1)
  {
    assert n !in m;
  }

  lemma CheckInv(s: System, t: nat, rule: Rule, success: bool)
    requires Inv(s) && t < |s.threads| && s.threads[t] == Writing(AddRule, rule)
    ensures Inv(CheckStep(s, t, rule, success))
  {
    hide Consistent, Distinct, Lookup, Nodes;
    var s' := CheckStep(s, t, rule, success);
    ActiveHeld(s, t, s'.threads[t], s');
    CountBound(s.table);
    if s'.threads[t].Roomy? {
      DistinctFresh(Nodes(s), s'.threads[t].node, s.nextAddr);
      assert Nodes(s') == Nodes(s) + multiset{s'.threads[t].node};
    }
    ActiveStep(s, t, s'.threads[t], s');
  }

  lemma Exchange(i: multiset<Node>, cur: Node, h: multiset<Node>, r: multiset<Node>)
    requires cur in i
    ensures (i - multiset{cur} + h) + multiset{cur} + r == i + h + r
  {
  }

  lemma CountBound(t: Table)
    requires Consistent(t)
    ensures t.count <= MAX_RULES
  {
  }

  /** A step that leaves the table and the nodes alone. */
  lemma QuietInv(s: System, t: nat, th: Thread, s': System)
    requires Inv(s) && t < |s.threads| && !s.threads[t].Idle? && Held(s.threads[t]) == Held(th)
    requires s' == Move(s, t, th).(writer := if th.Idle? then None else s.writer)
    requires Informed(s.table, th)
    ensures Inv(s')
  {
    hide Consistent, Distinct, Nodes, Informed;
    ActiveHeld(s, t, th, s');
    ActiveStep(s, t, th, s');
  }

  /** A step after which the thread holds a node that was in the table before. */
  lemma ReplacedInv(s: System, t: nat, cur: Node, result: Result, s': System)
    requires Inv(s) && t < |s.threads| && !s.threads[t].Idle? && cur in s.table.index
    requires s' == Move(s, t, Retiring(cur, result)).(table := s'.table) && Consistent(s'.table)
    requires multiset(s'.table.index) == multiset(s.table.index) - multiset{cur} + Held(s.threads[t])
    ensures Inv(s')
  {
    hide Consistent, Distinct, Nodes;
    ActiveHeld(s, t, s'.threads[t], s');
    Exchange(multiset(s.table.index), cur, Held(s.threads[t]), multiset(s.retired));
    ActiveStep(s, t, s'.threads[t], s');
  }

  lemma DeleteInv(s: System, t: nat, id: nat)
    requires Inv(s) && t < |s.threads| && s.threads[t].Writing?
    ensures Inv(DeleteStep(s, t, id))
  {
    hide Consistent, Distinct, Lookup, Unlink, Delete, Nodes, Exclusive;
    var s' := DeleteStep(s, t, id);
    var r := Lookup(s.table.index, id);
    if s.table.count != 0 && r.Some? {
      RemoveRefines(s.table, r.value, 0);
      DeleteNodes(s.table.index, r.value);
      ReplacedInv(s, t, r.value, DeleteOk, s');
    } else {
      QuietInv(s, t, s'.threads[t], s');
    }
  }

  lemma ModifyInv(s: System, t: nat, n: Node)
    requires Inv(s) && t < |s.threads| && s.threads[t] == Roomy(n)
    ensures Inv(ModifyStep(s, t, n))
  {
    hide Consistent, Distinct, Lookup, Relink, Replace, Nodes, Exclusive;
    var s' := ModifyStep(s, t, n);
    var r := Lookup(s.table.index, n.rule.id);
    if r.Some? {
      ModifyRefines(s.table, r.value, n, 0);
      ReplaceNodes(s.table.index, r.value, n);
      ReplacedInv(s, t, r.value, ModifyOk, s');
    } else {
      QuietInv(s, t, s'.threads[t], s');
    }
  }

  lemma InsertInv(s: System, t: nat, n: Node, success: bool)
    requires Inv(s) && t < |s.threads| && s.threads[t] == Absent(n)
    ensures Inv(InsertStep(s, t, n, success))
  {
    hide Consistent, Distinct, Lookup, Link, Nodes;
    var s' := InsertStep(s, t, n, success);
    ActiveHeld(s, t, s'.threads[t], s');
    if success {
      InsertRefines(s.table, n, 0);
      assert multiset([n] + s.table.index) == multiset{n} + multiset(s.table.index);
      assert Nodes(s') == Nodes(s);
    } else {
      DistinctLess(Nodes(s), Nodes(s'), s.nextAddr);
    }
    ActiveStep(s, t, s'.threads[t], s');
  }

  lemma RetireInv(s: System, t: nat)
    requires Inv(s) && Enabled(s, Retire(t))
    ensures Inv(Next(s, Retire(t)))
  {
    hide Consistent, Distinct, Nodes;
    var s' := Next(s, Retire(t));
    ActiveHeld(s, t, s'.threads[t], s');
    assert Nodes(s') == Nodes(s);
    ActiveStep(s, t, s'.threads[t], s');
  }

  lemma EnterInv(s: System, t: nat, cmd: Command, rule: Rule)
    requires Inv(s) && Enabled(s, Enter(t, cmd, rule))
    ensures Inv(EnterStep(s, t, cmd, rule))
  {
    hide Consistent, Distinct, Nodes, Lookup;
    EnterNodes(s, t, cmd, rule);
  }

  lemma EnterNodes(s: System, t: nat, cmd: Command, rule: Rule)
    requires t < |s.threads|
    ensures Nodes(EnterStep(s, t, cmd, rule)) == Nodes(s)
  {
  }

  lemma FlushInv(s: System)
    requires Inv(s)
    ensures Inv(Next(s, FlushTable))
  {
    var s' := Next(s, FlushTable);
    FlushRefines(s.table);
    FlushNodes(s, s');
  }

  lemma FlushNodes(s: System, s': System)
    requires Inv(s) && s' == Next(s, FlushTable) && s'.table.index == [] && Consistent(s'.table)
    requires s'.table.count == 0
    ensures Inv(s')
  {
    hide Distinct, Flush, Lookup;
    assert multiset(s.table.index) == multiset(Flat(s.table));
    assert multiset(s'.retired) == multiset(s.retired) + multiset(Flat(s.table));
    assert Nodes(s') == Nodes(s);
    EmptyInformed(s.table, s'.table, s.threads);
  }

  lemma EmptyInformed(t: Table, t': Table, threads: seq<Thread>)
    requires t'.index == [] && t'.count == 0
    requires forall i :: 0 <= i < |threads| ==> Informed(t, threads[i])
    ensures forall i :: 0 <= i < |threads| ==> Informed(t', threads[i])
  {
  }

  lemma NextInv(s: System, step: Step)
    requires Inv(s) && Enabled(s, step)
    ensures Inv(Next(s, step))
  {
    hide Inv, EnterStep, CheckStep, DeleteStep, ModifyStep, InsertStep, Flush, Flat;
    match step
    case Enter(t, cmd, rule) => EnterInv(s, t, cmd, rule);
    case Check(t, success) => CheckInv(s, t, s.threads[t].rule, success);
    case DeleteById(t) => DeleteInv(s, t, s.threads[t].rule.id);
    case Reject(t) => QuietInv(s, t, Leaving(UnknownBit), Next(s, step));
    case FindOrModify(t) => ModifyInv(s, t, s.threads[t].node);
    case InsertNew(t, success) => InsertInv(s, t, s.threads[t].node, success);
    case Retire(t) => RetireInv(s, t);
    case Leave(t) => QuietInv(s, t, Idle, Next(s, step));
    case FlushTable => FlushInv(s);
  }

  // ----- runs -----

  /** s' is reached from s by the given steps, in any interleaving of the threads. */
  ghost predicate Run(s: System, steps: seq<Step>, s': System)
    decreases |steps|
  {
    if steps == [] then s' == s
    else Enabled(s, steps[0]) && Run(Next(s, steps[0]), steps[1..], s')
  }

  lemma {:induction false} RunInv(s: System, steps: seq<Step>, s': System)
    requires Inv(s) && Run(s, steps, s')
    ensures Inv(s')
    decreases |steps|
  {
    if steps != [] {
      NextInv(s, steps[0]);
      RunInv(Next(s, steps[0]), steps[1..], s');
    }
  }

  /** In every interleaving: rule ids are unique, the index and the lists hold the same nodes,
      the count is their number and at most 255, no node is handed over for destruction twice,
      and none that is still linked. */
  lemma UpdatesSafe(threads: nat, steps: seq<Step>, s: System)
    requires Run(Init(threads), steps, s)
    ensures |s.table.lists| == PRECEDENCES && multiset(s.table.index) == multiset(Flat(s.table))
    ensures forall i, j :: 0 <= i < j < |s.table.index| ==> s.table.index[i].rule.id != s.table.index[j].rule.id
    ensures s.table.count == |s.table.index| == |Flat(s.table)| <= MAX_RULES
    ensures forall i, j :: 0 <= i < j < |s.retired| ==> s.retired[i].addr != s.retired[j].addr
    ensures forall i, n :: 0 <= i < |s.retired| && n in s.table.index ==> s.retired[i].addr != n.addr
    ensures forall t, u :: 0 <= t < |s.threads| && 0 <= u < |s.threads| && !s.threads[t].Idle? && !s.threads[u].Idle?
                           ==> t == u
  {
    InitInv(threads);
    RunInv(Init(threads), steps, s);
    assert |multiset(s.table.index)| == |multiset(Flat(s.table))|;
    RetiredOnce(s);
  }

  lemma RetiredOnce(s: System)
    requires Distinct(Nodes(s), s.nextAddr)
    ensures forall i, j :: 0 <= i < j < |s.retired| ==> s.retired[i].addr != s.retired[j].addr
    ensures forall i, n :: 0 <= i < |s.retired| && n in s.table.index ==> s.retired[i].addr != n.addr
  {
    var r := s.retired;
    forall i, j | 0 <= i < j < |r|
      ensures r[i].addr != r[j].addr
    {
      var x, y := r[i], r[j];
      assert r == r[..i] + [x] + r[i + 1..j] + [y] + r[j + 1..];
      assert multiset{x} + multiset{y} <= multiset(r) <= Nodes(s);
      assert x in Nodes(s) && y in Nodes(s);
      assert (multiset{x} + multiset{y})[x] <= Nodes(s)[x] <= 1;
    }
    forall i, n | 0 <= i < |r| && n in s.table.index
      ensures r[i].addr != n.addr
    {
      assert r[i] in multiset(r) && n in multiset(s.table.index);
      assert r[i] in Nodes(s) && n in Nodes(s);
    }
  }

  // ----- what the steps mean for matching -----

  /** In every interleaving the table stays a single list of rules in the order of matching: a
      step queues a rule, requeues or deletes one, empties the list, or leaves it alone. */
  lemma StepRefines(s: System, step: Step)
    requires Inv(s) && Enabled(s, step)
    ensures var s' := Next(s, step);
            match step
            case InsertNew(t, true) => Flat(s'.table) == Enqueue(Flat(s.table), s.threads[t].node)
            case FindOrModify(t) =>
              var n := s.threads[t].node;
              (match Lookup(s.table.index, n.rule.id)
               case Some(cur) => Flat(s'.table) == Requeue(Flat(s.table), cur, n)
               case None => s'.table == s.table)
            case DeleteById(t) =>
              (match Lookup(s.table.index, s.threads[t].rule.id)
               case Some(cur) => Flat(s'.table) == Delete(Flat(s.table), cur)
               case None => s'.table == s.table)
            case FlushTable => Flat(s'.table) == []
            case _ => s'.table == s.table
  {
    match step
    case InsertNew(t, true) => InsertRefines(s.table, s.threads[t].node, 0);
    case FindOrModify(t) =>
      var r := Lookup(s.table.index, s.threads[t].node.rule.id);
      if r.Some? { ModifyRefines(s.table, r.value, s.threads[t].node, 0); }
    case DeleteById(t) =>
      var r := Lookup(s.table.index, s.threads[t].rule.id);
      if r.Some? { RemoveRefines(s.table, r.value, 0); }
    case FlushTable => FlushRefines(s.table);
    case _ =>
  }
}
