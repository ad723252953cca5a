/** The rule manager of qca/src/emesh-sp/sp_mapdb.c, which changes its lists, its index and its
    count in place: every locked section, and the lookups, against the functions on tables. */
module RuleManager {
  import opened Common
  import opened RuleTable

  /** enum sp_mapdb_update_results, without the value for a null pointer. */
  datatype Result =
    | TableFull | TableEmpty | AllocNode | AllocHash | NoSuchRule | UnknownBit | SingleWriter | InvalidEntry
    | AddOk | DeleteOk | ModifyOk

  /** enum sp_mapdb_rule_output_types, and SP_MAPDB_RULE_DEFAULT_PCP. */
  const USE_DSCP: nat := 8
  const USE_UP: nat := 9
  const NO_MATCH: nat := 10
  const DEFAULT_PCP: nat := 0

  /** The Add/Remove filter bit of a rule. */
  datatype Command = DeleteRule | AddRule | Other

  /** What the output of a search is made from in the packet: its priority, and its DSCP class if
      it is an IP packet. */
  datatype Packet = Packet(priority: nat, dscpClass: Option<nat>)

  /** The priority that a rule output stands for. */
  function Pcp(output: nat, p: Packet): nat
  {
    if output == USE_UP then p.priority
    else if output == USE_DSCP then (match p.dscpClass case Some(c) => c case None => DEFAULT_PCP)
    else if output == NO_MATCH then DEFAULT_PCP
    else output
  }

  /** The rule outputs that sp_mapdb_rule_add accepts. */
  predicate ValidOutput(r: Rule) { r.inner.output < NO_MATCH }

  /** Which of its results sp_mapdb_rule_add returns. A full table refuses changes, too. */
  function AddResult(t: Table, r: Rule, nodeAllocated: bool, entryAllocated: bool): Result
  {
    if t.count == MAX_RULES then TableFull
    else if !ValidOutput(r) then InvalidEntry
    else if !nodeAllocated then AllocNode
    else if Lookup(t.index, r.id).Some? then ModifyOk
    else if entryAllocated then AddOk
    else AllocHash
  }

  /** Which of its results sp_mapdb_rule_delete returns. */
  function DeleteResult(t: Table, id: nat): Result
  {
    if t.count == 0 then TableEmpty else if Lookup(t.index, id).None? then NoSuchRule else DeleteOk
  }

  class Manager {
    const prec: array<seq<Node>>
    var index: seq<Node>
    var ruleCount: int
    var singleWriter: bool

    ghost function View(): Table
      reads this, prec
    {
      Table(prec[..], index, ruleCount)
    }

    /** sp_mapdb_rules_init. */
    constructor ()
      ensures View() == Empty() && !singleWriter && fresh(prec)
    {
      prec := new seq<Node>[PRECEDENCES](_ => []);
      index, ruleCount, singleWriter := [], 0, false;
      new;
      assert prec[..] == Empty().lists;
    }

    /** sp_mapdb_search_hashentry. */
    method SearchEntry(id: nat) returns (r: Option<Node>)
      ensures r == Lookup(index, id)
    {
      var i := 0;
      while i < |index|
        invariant i <= |index| && Lookup(index, id) == Lookup(index[i..], id)
      {
        if index[i].rule.id == id {
          return Some(index[i]);
        }
        assert index[i..][1..] == index[i + 1..];
        i := i + 1;
      }
      return None;
    }

    /** The first locked section of sp_mapdb_rule_add: changes the rule if there is one with its
        id, and hands back the node that was replaced. */
    method ModifyLocked(n: Node) returns (replaced: Option<Node>)
      requires Consistent(View()) && n.rule.precedence < PRECEDENCES
      modifies this`index, prec
      ensures replaced == Lookup(old(index), n.rule.id)
      ensures replaced.Some? ==>
                replaced.value.rule.precedence < PRECEDENCES && View() == Modify(old(View()), replaced.value, n)
      ensures replaced.None? ==> View() == old(View())
    {
      replaced := SearchEntry(n.rule.id);
      if replaced.None? {
        return;
      }
      var cur := replaced.value;
      MemberOf(View(), cur);
      var p, q := cur.rule.precedence, n.rule.precedence;
      if p == q {
        prec[p] := Replace(prec[p], cur, n);
      } else {
        prec[p] := Delete(prec[p], cur);
        prec[q] := [n] + prec[q];
      }
      index := Replace(index, cur, n);
      assert prec[..] == Relink(old(prec[..]), cur, n);
    }

    /** The second locked section of sp_mapdb_rule_add. */
    method InsertLocked(n: Node)
      requires prec.Length == PRECEDENCES && n.rule.precedence < PRECEDENCES
      modifies this`index, this`ruleCount, prec
      ensures View() == Insert(old(View()), n)
    {
      var p := n.rule.precedence;
      prec[p] := [n] + prec[p];
      index := [n] + index;
      ruleCount := ruleCount + 1;
      assert prec[..] == Link(old(prec[..]), n);
    }

    /** The locked section of sp_mapdb_rule_delete. */
    method DeleteLocked(id: nat) returns (result: Result, removed: Option<Node>)
      requires Consistent(View())
      modifies this`index, this`ruleCount, prec
      ensures removed == Lookup(old(index), id)
      ensures result == if old(ruleCount) == 0 then TableEmpty else if removed.None? then NoSuchRule else DeleteOk
      ensures removed.Some? <==> result == DeleteOk
      ensures removed.None? ==> View() == old(View())
      ensures removed.Some? ==>
                removed.value.rule.precedence < PRECEDENCES && View() == Remove(old(View()), removed.value)
    {
      if ruleCount == 0 {
        return TableEmpty, None;
      }
      removed := SearchEntry(id);
      if removed.None? {
        return NoSuchRule, None;
      }
      var cur := removed.value;
      MemberOf(View(), cur);
      var p := cur.rule.precedence;
      prec[p] := Delete(prec[p], cur);
      index := Delete(index, cur);
      ruleCount := ruleCount - 1;
      result := DeleteOk;
      assert prec[..] == Unlink(old(prec[..]), cur);
    }

    /** Takes every node of one list out and hands it over for destruction. */
    method EmptyList(i: nat) returns (taken: seq<Node>)
      requires i < prec.Length
      modifies prec
      ensures prec[i] == [] && taken == old(prec[i])
      ensures forall p :: 0 <= p < prec.Length && p != i ==> prec[p] == old(prec[p])
    {
      taken := [];
      while prec[i] != []
        invariant taken + prec[i] == old(prec[i])
        invariant forall p :: 0 <= p < prec.Length && p != i ==> prec[p] == old(prec[p])
        decreases |prec[i]|
      {
        taken := taken + [prec[i][0]];
        prec[i] := prec[i][1..];
      }
    }

    /** sp_mapdb_ruletable_flush: every node leaves its list and is handed over for destruction,
        then the index is emptied. */
    method FlushLocked() returns (retired: seq<Node>)
      requires Consistent(View())
      modifies this`index, this`ruleCount, prec
      ensures View() == Flush(old(View()))
      ensures multiset(retired) == multiset(Flat(old(View())))
    {
      hide Consistent, Filed, UniqueIds;
      retired := [];
      LengthOfLists(View());
      if ruleCount == 0 {
        FlushRefines(View());
        return;
      }
      ghost var lists := prec[..];
      var i: nat := 0;
      while i < PRECEDENCES
        invariant i <= PRECEDENCES
        invariant forall p :: 0 <= p < i ==> prec[p] == []
        invariant forall p :: i <= p < PRECEDENCES ==> prec[p] == lists[p]
        invariant multiset(retired) == multiset(Order(lists, i))
      {
        var taken := EmptyList(i);
        retired := retired + taken;
        i := i + 1;
      }
      assert prec[..] == Empty().lists;
      while index != []
        invariant prec[..] == Empty().lists
        decreases |index|
      {
        index := index[1..];
      }
      ruleCount := 0;
    }

    /** The walk over the lists shared by both lookups, from the highest precedence down. */
    method Walk(match_: Rule -> bool) returns (r: Option<Node>)
      requires prec.Length == PRECEDENCES
      ensures r == FirstMatch(Flat(View()), match_)
    {
      var i: nat := PRECEDENCES;
      assert prec[..][..PRECEDENCES] == prec[..];
      while i > 0
        invariant i <= PRECEDENCES
        invariant FirstMatch(Flat(View()), match_) == FirstMatch(Order(prec[..], i), match_)
      {
        i := i - 1;
        var l := prec[i];
        FirstMatchConcat(l, Order(prec[..], i), match_);
        var j := 0;
        while j < |l|
          invariant j <= |l| && FirstMatch(l, match_) == FirstMatch(l[j..], match_)
        {
          if match_(l[j].rule) {
            return Some(l[j]);
          }
          assert l[j..][1..] == l[j + 1..];
          j := j + 1;
        }
      }
      return None;
    }

    /** sp_mapdb_ruletable_search: the priority for a packet. */
    method Search(match_: Rule -> bool, p: Packet) returns (output: nat)
      requires Consistent(View())
      ensures index == [] ==> output == Pcp(USE_DSCP, p)
      ensures index != [] ==>
                output == match FirstMatch(Flat(View()), match_)
                          case Some(n) => Pcp(n.rule.inner.output, p)
                          case None => Pcp(NO_MATCH, p)
    {
      if ruleCount == 0 {
        return Pcp(USE_DSCP, p);
      }
      var r := Walk(match_);
      output := match r case Some(n) => Pcp(n.rule.inner.output, p) case None => Pcp(NO_MATCH, p);
    }

    /** sp_mapdb_get_wlan_latency_params: the parameters of the very rule that a search decides
        for, and zeros if there is none. */
    method LatencyParams(match_: Rule -> bool) returns (dl: (nat, nat), ul: (nat, nat))
      requires prec.Length == PRECEDENCES
      ensures match FirstMatch(Flat(View()), match_)
              case Some(n) =>
                dl == (n.rule.inner.intervalDl, n.rule.inner.burstDl) &&
                ul == (n.rule.inner.intervalUl, n.rule.inner.burstUl)
              case None => dl == ul == (0, 0)
    {
      var r := Walk(match_);
      match r
      case Some(n) =>
        dl, ul := (n.rule.inner.intervalDl, n.rule.inner.burstDl), (n.rule.inner.intervalUl, n.rule.inner.burstUl);
      case None =>
        dl, ul := (0, 0), (0, 0);
    }

    /** sp_mapdb_rule_update without interference: the table keeps a map of rules by id and the
        order of matching. The addresses and outcomes of the two allocations are parameters. */
    method Update(cmd: Command, rule: Rule, addr: Option<nat>, entryAllocated: bool) returns (result: Result)
      requires Consistent(View()) && rule.precedence <= PRECEDENCES
      modifies this, prec
      ensures Consistent(View()) && singleWriter == old(singleWriter)
      ensures old(singleWriter) <==> result == SingleWriter
      ensures !old(singleWriter) && cmd == AddRule ==>
                result == AddResult(old(View()), rule, addr.Some?, entryAllocated)
      ensures !old(singleWriter) && cmd == DeleteRule ==>
                result == DeleteResult(old(View()), rule.id)
      ensures !old(singleWriter) && cmd == Other ==> result == UnknownBit
      ensures result !in {AddOk, ModifyOk, DeleteOk} ==> View() == old(View())
      ensures result == AddOk ==>
                && cmd == AddRule && addr.Some? && Lookup(old(index), rule.id).None?
                && Flat(View()) == Enqueue(old(Flat(View())), Node(addr.value, Stored(rule)))
      ensures result == ModifyOk ==>
                && cmd == AddRule && addr.Some? && Lookup(old(index), rule.id).Some?
                && Flat(View()) ==
                   Requeue(old(Flat(View())), Lookup(old(index), rule.id).value, Node(addr.value, Stored(rule)))
      ensures result in {AddOk, ModifyOk} ==> forall id ::
                Lookup(index, id) ==
                if id == rule.id then Some(Node(addr.value, Stored(rule))) else Lookup(old(index), id)
      ensures result == DeleteOk ==>
                && cmd == DeleteRule && Lookup(old(index), rule.id).Some?
                && Flat(View()) == Delete(old(Flat(View())), Lookup(old(index), rule.id).value)
                && forall id :: Lookup(index, id) == if id == rule.id then None else Lookup(old(index), id)
    {
      hide Order, Enqueue, Requeue, Consistent, Insert, Modify, Remove;
      if singleWriter {
        return SingleWriter;
      }
      singleWriter := true;
      match cmd {
        case DeleteRule =>
          var removed;
          result, removed := DeleteLocked(rule.id);
          if removed.Some? {
            forall id ensures Lookup(index, id) == if id == rule.id then None else Lookup(old(index), id) {
              RemoveRefines(old(View()), removed.value, id);
            }
            RemoveRefines(old(View()), removed.value, 0);
          }
        case AddRule => result := Add(rule, addr, entryAllocated);
        case Other => result := UnknownBit;
      }
      singleWriter := false;
    }

    /** sp_mapdb_rule_add without interference. */
    method Add(rule: Rule, addr: Option<nat>, entryAllocated: bool) returns (result: Result)
      requires Consistent(View()) && rule.precedence <= PRECEDENCES
      modifies this`index, this`ruleCount, prec
      ensures Consistent(View())
      ensures result == AddResult(old(View()), rule, addr.Some?, entryAllocated)
      ensures result !in {AddOk, ModifyOk} ==> View() == old(View())
      ensures result in {AddOk, ModifyOk} ==> addr.Some?
      ensures result == AddOk ==>
                && Lookup(old(index), rule.id).None?
                && Flat(View()) == Enqueue(old(Flat(View())), Node(addr.value, Stored(rule)))
      ensures result == ModifyOk ==>
                && Lookup(old(index), rule.id).Some?
                && Flat(View()) ==
                   Requeue(old(Flat(View())), Lookup(old(index), rule.id).value, Node(addr.value, Stored(rule)))
      ensures result in {AddOk, ModifyOk} ==> forall id ::
                Lookup(index, id) ==
                if id == rule.id then Some(Node(addr.value, Stored(rule))) else Lookup(old(index), id)
    {
      if ruleCount == MAX_RULES {
        return TableFull;
      }
      if !ValidOutput(rule) {
        return InvalidEntry;
      }
      if addr.None? {
        return AllocNode;
      }
      var n := Node(addr.value, Stored(rule));
      var replaced := ModifyLocked(n);
      if replaced.None? {
        if !entryAllocated {
          return AllocHash;
        }
        InsertLocked(n);
        forall id ensures Lookup(index, id) == if id == rule.id then Some(n) else Lookup(old(index), id) {
          InsertRefines(old(View()), n, id);
        }
        InsertRefines(old(View()), n, 0);
        return AddOk;
      }
      LookupMember(old(index), rule.id);
      forall id ensures Lookup(index, id) == if id == rule.id then Some(n) else Lookup(old(index), id) {
        ModifyRefines(old(View()), replaced.value, n, id);
      }
      ModifyRefines(old(View()), replaced.value, n, 0);
      return ModifyOk;
    }
  }

  lemma LengthOfLists(t: Table)
    requires Consistent(t)
    ensures |t.lists| == PRECEDENCES
  {
  }

  lemma LookupMember(l: seq<Node>, id: nat)
    ensures Lookup(l, id).Some? ==> Lookup(l, id).value in l && Lookup(l, id).value.rule.id == id
  {
  }
}
