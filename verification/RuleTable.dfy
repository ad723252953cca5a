/** The rule table of qca/src/emesh-sp/sp_mapdb.c as a value: one list of rule nodes for every
    precedence, and an index by rule id. What each locked section does to it is shown to be an
    operation on a single list of rules in the order of matching. */
module RuleTable {
  import opened Common

  /** SP_MAPDB_RULE_MAX_PRECEDENCENUM and SP_MAPDB_RULE_MAX. */
  const PRECEDENCES: nat := 255
  const MAX_RULES: nat := 255

  /** struct sp_rule_inner; the fields used by matching are one opaque value. */
  datatype Inner = Inner(output: nat, intervalDl: nat, burstDl: nat, intervalUl: nat, burstUl: nat, fields: nat)

  /** struct sp_rule without its command. */
  datatype Rule = Rule(id: nat, inner: Inner, precedence: nat)

  /** A rule node at its address. */
  datatype Node = Node(addr: nat, rule: Rule)

  /** Precedence 255 is stored as 0. */
  function Stored(r: Rule): (s: Rule)
    ensures r.precedence <= PRECEDENCES ==> s.precedence < PRECEDENCES
  {
    if r.precedence == PRECEDENCES then r.(precedence := 0) else r
  }

  datatype Table = Table(lists: seq<seq<Node>>, index: seq<Node>, count: int)

  /** The table after sp_mapdb_rules_init. */
  function Empty(): (t: Table)
    ensures |t.lists| == PRECEDENCES && forall p :: 0 <= p < PRECEDENCES ==> t.lists[p] == []
  {
    Table(seq(PRECEDENCES, (i: nat) => []), [], 0)
  }

  // ----- lists of nodes -----

  /** list_replace_rcu, and the update of a hash entry. */
  function Replace(l: seq<Node>, old_: Node, new_: Node): (r: seq<Node>)
    ensures |r| == |l|
  {
    if l == [] then []
    else if l[0] == old_ then [new_] + l[1..]
    else [l[0]] + Replace(l[1..], old_, new_)
  }

  /** list_del_rcu, and hash_del. */
  function Delete(l: seq<Node>, n: Node): (r: seq<Node>)
    ensures |r| <= |l|
  {
    if l == [] then []
    else if l[0] == n then l[1..]
    else [l[0]] + Delete(l[1..], n)
  }

  lemma {:induction false} ReplaceNodes(l: seq<Node>, old_: Node, new_: Node)
    requires old_ in l
    ensures multiset(Replace(l, old_, new_)) == multiset(l) - multiset{old_} + multiset{new_}
  {
    assert l == [l[0]] + l[1..];
    if l[0] != old_ { ReplaceNodes(l[1..], old_, new_); }
  }

  lemma {:induction false} DeleteNodes(l: seq<Node>, n: Node)
    requires n in l
    ensures multiset(Delete(l, n)) == multiset(l) - multiset{n} && |Delete(l, n)| == |l| - 1
  {
    assert l == [l[0]] + l[1..];
    if l[0] != n { DeleteNodes(l[1..], n); }
  }

  /** sp_mapdb_search_hashentry. */
  function Lookup(index: seq<Node>, id: nat): (r: Option<Node>)
    ensures r.Some? ==> r.value in index && r.value.rule.id == id
    ensures r.None? ==> forall n :: n in index ==> n.rule.id != id
  {
    if index == [] then None
    else
      assert index == [index[0]] + index[1..];
      if index[0].rule.id == id then Some(index[0]) else Lookup(index[1..], id)
  }

  /** All nodes below precedence k in the order of matching: highest precedence first, and in
      the order of each list. */
  function Order(lists: seq<seq<Node>>, k: nat): seq<Node>
    requires k <= |lists|
  {
    if k == 0 then [] else lists[k - 1] + Order(lists, k - 1)
  }

  // ----- the locked sections -----

  ghost predicate UniqueIds(l: seq<Node>)
  {
    forall i, j :: 0 <= i < j < |l| ==> l[i].rule.id != l[j].rule.id
  }

  /** Every node is in the list of its precedence. */
  ghost predicate Filed(lists: seq<seq<Node>>)
  {
    forall p, i :: 0 <= p < |lists| && 0 <= i < |lists[p]| ==> lists[p][i].rule.precedence == p
  }

  /** The index and the lists hold exactly the same nodes, rule ids are unique, and the count is
      the number of rules. */
  ghost predicate Consistent(t: Table)
  {
    && |t.lists| == PRECEDENCES && Filed(t.lists)
    && multiset(t.index) == multiset(Order(t.lists, PRECEDENCES))
    && UniqueIds(t.index)
    && t.count == |t.index| <= MAX_RULES
  }

  /** The second locked section of sp_mapdb_rule_add. */
  function Insert(t: Table, n: Node): Table
  {
    Table(Link(t.lists, n), [n] + t.index, t.count + 1)
  }

  /** Puts a new node in the place of cur, or at the head of the list of its own precedence. */
  function Relink(lists: seq<seq<Node>>, cur: Node, n: Node): (r: seq<seq<Node>>)
    ensures |r| == |lists|
  {
    var p := cur.rule.precedence;
    if p == n.rule.precedence && p < |lists| then lists[p := Replace(lists[p], cur, n)]
    else Link(Unlink(lists, cur), n)
  }

  /** list_del_rcu from the list of the node's precedence. */
  function Unlink(lists: seq<seq<Node>>, cur: Node): (r: seq<seq<Node>>)
    ensures |r| == |lists|
  {
    var p := cur.rule.precedence;
    if p < |lists| then lists[p := Delete(lists[p], cur)] else lists
  }

  /** list_add_rcu at the head of the list of the node's precedence. */
  function Link(lists: seq<seq<Node>>, n: Node): (r: seq<seq<Node>>)
    ensures |r| == |lists|
  {
    var p := n.rule.precedence;
    if p < |lists| then lists[p := [n] + lists[p]] else lists
  }

  /** The first locked section of sp_mapdb_rule_add, when it finds the rule. */
  function Modify(t: Table, cur: Node, n: Node): Table
  {
    Table(Relink(t.lists, cur, n), Replace(t.index, cur, n), t.count)
  }

  /** The locked section of sp_mapdb_rule_delete, when it finds the rule. */
  function Remove(t: Table, cur: Node): Table
  {
    Table(Unlink(t.lists, cur), Delete(t.index, cur), t.count - 1)
  }

  /** sp_mapdb_ruletable_flush. */
  function Flush(t: Table): Table { if t.count == 0 then t else Empty() }

  // ----- one list of rules in the order of matching -----

  /** Puts a node before all nodes of the same or a lower precedence. */
  function Enqueue(l: seq<Node>, n: Node): seq<Node>
  {
    if l == [] || l[0].rule.precedence <= n.rule.precedence then [n] + l
    else [l[0]] + Enqueue(l[1..], n)
  }

  /** A changed rule keeps its place if its precedence stays, and is queued anew otherwise. */
  function Requeue(l: seq<Node>, cur: Node, n: Node): seq<Node>
  {
    if cur.rule.precedence == n.rule.precedence then Replace(l, cur, n) else Enqueue(Delete(l, cur), n)
  }

  lemma {:induction false} OrderEmpty(lists: seq<seq<Node>>, k: nat)
    requires k <= |lists| && forall p :: 0 <= p < k ==> lists[p] == []
    ensures Order(lists, k) == []
  {
    if k > 0 { OrderEmpty(lists, k - 1); }
  }

  lemma {:induction false} OrderBelow(lists: seq<seq<Node>>, k: nat, n: Node)
    requires k <= |lists| && Filed(lists)
    ensures n in Order(lists, k) <==> n.rule.precedence < k && n in lists[n.rule.precedence]
  {
    if k > 0 {
      OrderBelow(lists, k - 1, n);
      if n in lists[k - 1] { assert n.rule.precedence == k - 1; }
    }
  }

  /** Changing one list only. */
  lemma {:induction false} OrderFrame(lists: seq<seq<Node>>, p: nat, l: seq<Node>, k: nat)
    requires k <= p < |lists|
    ensures Order(lists[p := l], k) == Order(lists, k)
  {
    if k > 0 { OrderFrame(lists, p, l, k - 1); }
  }

  lemma {:induction false} EnqueueBehind(a: seq<Node>, b: seq<Node>, n: Node)
    requires forall x :: x in a ==> x.rule.precedence > n.rule.precedence
    ensures Enqueue(a + b, n) == a + Enqueue(b, n)
  {
    if a == [] {
      assert a + b == b;
    } else {
      assert a[0] in a && (a + b)[1..] == a[1..] + b;
      EnqueueBehind(a[1..], b, n);
    }
  }

  lemma {:induction false} ReplaceConcat(a: seq<Node>, b: seq<Node>, cur: Node, n: Node)
    ensures Replace(a + b, cur, n) == if cur in a then Replace(a, cur, n) + b else a + Replace(b, cur, n)
    decreases |a|
  {
    if a == [] {
      assert a + b == b;
    } else {
      var rest := a[1..];
      assert (a + b)[0] == a[0] && (a + b)[1..] == rest + b;
      assert cur in a <==> cur == a[0] || cur in rest;
      ReplaceConcat(rest, b, cur, n);
      if cur in rest && a[0] != cur {
        assert [a[0]] + (Replace(rest, cur, n) + b) == ([a[0]] + Replace(rest, cur, n)) + b;
      }
    }
  }

  lemma {:induction false} DeleteConcat(a: seq<Node>, b: seq<Node>, cur: Node)
    ensures Delete(a + b, cur) == if cur in a then Delete(a, cur) + b else a + Delete(b, cur)
    decreases |a|
  {
    if a == [] {
      assert a + b == b;
    } else {
      var rest := a[1..];
      assert (a + b)[0] == a[0] && (a + b)[1..] == rest + b;
      assert cur in a <==> cur == a[0] || cur in rest;
      DeleteConcat(rest, b, cur);
      if cur in rest && a[0] != cur {
        assert [a[0]] + (Delete(rest, cur) + b) == ([a[0]] + Delete(rest, cur)) + b;
      }
    }
  }

  lemma {:induction false} OrderInsert(lists: seq<seq<Node>>, k: nat, n: Node)
    requires k <= |lists| && Filed(lists) && n.rule.precedence < k
    ensures Order(Link(lists, n), k) == Enqueue(Order(lists, k), n)
  {
    var p := n.rule.precedence;
    var lists' := lists[p := [n] + lists[p]];
    if p == k - 1 {
      OrderFrame(lists, p, [n] + lists[p], k - 1);
      var l := Order(lists, k);
      if l != [] {
        assert l[0] in l;
        OrderBelow(lists, k, l[0]);
      }
      assert Order(lists', k) == [n] + l;
    } else {
      OrderInsert(lists, k - 1, n);
      EnqueueBehind(lists[k - 1], Order(lists, k - 1), n);
    }
  }

  /** A node is in no list but that of its precedence. */
  lemma NotElsewhere(lists: seq<seq<Node>>, p: nat, n: Node)
    requires Filed(lists) && p < |lists| && n.rule.precedence != p
    ensures n !in lists[p]
  {
  }

  lemma {:induction false} OrderReplace(lists: seq<seq<Node>>, k: nat, cur: Node, n: Node)
    requires k <= |lists| && Filed(lists) && cur.rule.precedence < k && cur in lists[cur.rule.precedence]
    ensures var p := cur.rule.precedence;
            Order(lists[p := Replace(lists[p], cur, n)], k) == Replace(Order(lists, k), cur, n)
  {
    var p := cur.rule.precedence;
    ReplaceConcat(lists[k - 1], Order(lists, k - 1), cur, n);
    if p == k - 1 {
      OrderFrame(lists, p, Replace(lists[p], cur, n), k - 1);
    } else {
      NotElsewhere(lists, k - 1, cur);
      OrderReplace(lists, k - 1, cur, n);
    }
  }

  lemma {:induction false} OrderDelete(lists: seq<seq<Node>>, k: nat, cur: Node)
    requires k <= |lists| && Filed(lists) && cur.rule.precedence < k && cur in lists[cur.rule.precedence]
    ensures Order(Unlink(lists, cur), k) == Delete(Order(lists, k), cur)
  {
    var p := cur.rule.precedence;
    var (a, b) := (lists[k - 1], Order(lists, k - 1));
    DeleteConcat(a, b, cur);
    if p == k - 1 {
      OrderFrame(lists, p, Delete(lists[p], cur), k - 1);
    } else {
      NotElsewhere(lists, k - 1, cur);
      OrderDelete(lists, k - 1, cur);
    }
  }

  // ----- every locked section keeps the table consistent -----

  /** All nodes of a table in the order of matching. */
  function Flat(t: Table): seq<Node>
  {
    Order(t.lists, |t.lists|)
  }

  lemma MemberOf(t: Table, n: Node)
    requires Consistent(t)
    ensures n in t.index <==> n in Flat(t)
    ensures n in t.index ==> n.rule.precedence < PRECEDENCES && n in t.lists[n.rule.precedence]
  {
    assert n in t.index <==> n in multiset(t.index);
    assert n in Flat(t) <==> n in multiset(Flat(t));
    OrderBelow(t.lists, PRECEDENCES, n);
  }

  lemma {:induction false} EnqueueNodes(l: seq<Node>, n: Node)
    ensures multiset(Enqueue(l, n)) == multiset(l) + multiset{n}
  {
    if l != [] && l[0].rule.precedence > n.rule.precedence {
      EnqueueNodes(l[1..], n);
      assert l == [l[0]] + l[1..];
    }
  }

  lemma LinkFiled(lists: seq<seq<Node>>, n: Node)
    requires Filed(lists) && n.rule.precedence < |lists|
    ensures Filed(Link(lists, n))
  {
  }

  lemma {:induction false} ReplaceMember(l: seq<Node>, cur: Node, n: Node, x: Node)
    requires x in Replace(l, cur, n)
    ensures x in l || x == n
  {
    if l[0] != cur {
      if x != l[0] { ReplaceMember(l[1..], cur, n, x); }
    }
  }

  lemma {:induction false} DeleteMember(l: seq<Node>, cur: Node, x: Node)
    requires x in Delete(l, cur)
    ensures x in l
  {
    if l[0] != cur {
      if x != l[0] { DeleteMember(l[1..], cur, x); }
    }
  }

  lemma ReplaceFiled(lists: seq<seq<Node>>, cur: Node, n: Node)
    requires Filed(lists) && cur.rule.precedence == n.rule.precedence < |lists|
    ensures Filed(lists[n.rule.precedence := Replace(lists[n.rule.precedence], cur, n)])
  {
    var p := n.rule.precedence;
    var l := Replace(lists[p], cur, n);
    forall i | 0 <= i < |l|
      ensures l[i].rule.precedence == p
    {
      ReplaceMember(lists[p], cur, n, l[i]);
    }
  }

  lemma DeleteFiled(lists: seq<seq<Node>>, cur: Node)
    requires Filed(lists) && cur.rule.precedence < |lists|
    ensures Filed(Unlink(lists, cur))
  {
    var p := cur.rule.precedence;
    var l := Delete(lists[p], cur);
    forall i | 0 <= i < |l|
      ensures l[i].rule.precedence == p
    {
      DeleteMember(lists[p], cur, l[i]);
    }
  }

  lemma {:induction false} ReplaceUnique(l: seq<Node>, cur: Node, n: Node)
    requires UniqueIds(l) && cur in l && cur.rule.id == n.rule.id
    ensures UniqueIds(Replace(l, cur, n))
    ensures forall x :: x in Replace(l, cur, n) <==> x == n || (x in l && x.rule.id != n.rule.id)
  {
    var k :| 0 <= k < |l| && l[k] == cur;
    ReplaceAt(l, cur, n, k);
    var r := Replace(l, cur, n);
    assert r == l[k := n];
    forall x
      ensures x in r <==> x == n || (x in l && x.rule.id != n.rule.id)
    {
      if x in r {
        var i :| 0 <= i < |r| && r[i] == x;
        if i != k { assert l[i] == x; }
      }
      if x in l && x.rule.id != n.rule.id {
        var i :| 0 <= i < |l| && l[i] == x;
        assert r[i] == x;
      }
      assert r[k] == n;
    }
  }

  lemma {:induction false} ReplaceAt(l: seq<Node>, cur: Node, n: Node, k: nat)
    requires UniqueIds(l) && k < |l| && l[k] == cur
    ensures Replace(l, cur, n) == l[k := n]
  {
    if k > 0 {
      assert l[0].rule.id != l[k].rule.id;
      ReplaceAt(l[1..], cur, n, k - 1);
    }
  }

  lemma {:induction false} DeleteAt(l: seq<Node>, cur: Node, k: nat)
    requires UniqueIds(l) && k < |l| && l[k] == cur
    ensures Delete(l, cur) == l[..k] + l[k + 1..]
  {
    if k > 0 {
      assert l[0].rule.id != l[k].rule.id;
      DeleteAt(l[1..], cur, k - 1);
      assert l[1..][..k - 1] == l[1..k] && l[1..][k..] == l[k + 1..];
    }
  }

  lemma WithoutAt(l: seq<Node>, k: nat)
    requires UniqueIds(l) && k < |l|
    ensures var r := l[..k] + l[k + 1..];
            UniqueIds(r) && forall i :: 0 <= i < |r| ==> r[i] == if i < k then l[i] else l[i + 1]
  {
  }

  lemma DeleteUnique(l: seq<Node>, cur: Node)
    requires UniqueIds(l) && cur in l
    ensures UniqueIds(Delete(l, cur))
    ensures forall x :: x in Delete(l, cur) <==> x in l && x.rule.id != cur.rule.id
  {
    hide Delete;
    var k :| 0 <= k < |l| && l[k] == cur;
    DeleteAt(l, cur, k);
    WithoutAt(l, k);
    forall x
      ensures x in Delete(l, cur) <==> x in l && x.rule.id != cur.rule.id
    {
      WithoutMembers(l, k, x);
    }
  }

  lemma WithoutMembers(l: seq<Node>, k: nat, x: Node)
    requires UniqueIds(l) && k < |l|
    ensures x in l[..k] + l[k + 1..] <==> x in l && x.rule.id != l[k].rule.id
  {
    var r := l[..k] + l[k + 1..];
    if x in r {
      var i :| 0 <= i < |r| && r[i] == x;
      assert x == if i < k then l[i] else l[i + 1];
    }
    if x in l && x.rule.id != l[k].rule.id {
      var i :| 0 <= i < |l| && l[i] == x;
      assert if i < k then r[i] == x else r[i - 1] == x;
    }
  }

  // ----- what each section does, in the order of matching and by rule id -----

  lemma {:induction false} ReplaceLookup(l: seq<Node>, cur: Node, n: Node, id: nat)
    requires UniqueIds(l) && cur in l && cur.rule.id == n.rule.id
    ensures Lookup(Replace(l, cur, n), id) == if id == n.rule.id then Some(n) else Lookup(l, id)
  {
    if l[0] != cur {
      var k :| 0 < k < |l| && l[k] == cur;
      assert l[0].rule.id != l[k].rule.id && cur == l[1..][k - 1];
      ReplaceLookup(l[1..], cur, n, id);
    }
  }

  lemma {:induction false} DeleteLookup(l: seq<Node>, cur: Node, id: nat)
    requires UniqueIds(l) && cur in l
    ensures Lookup(Delete(l, cur), id) == if id == cur.rule.id then None else Lookup(l, id)
  {
    if l[0] != cur {
      var k :| 0 < k < |l| && l[k] == cur;
      assert l[0].rule.id != l[k].rule.id && cur == l[1..][k - 1];
      DeleteLookup(l[1..], cur, id);
    }
  }

  lemma InsertUnique(l: seq<Node>, n: Node)
    requires UniqueIds(l) && Lookup(l, n.rule.id).None?
    ensures UniqueIds([n] + l)
  {
    forall i, j | 0 <= i < j < |l| + 1
      ensures ([n] + l)[i].rule.id != ([n] + l)[j].rule.id
    {
      assert l[j - 1] in l;
    }
  }

  /** Adding a rule with a new id: it is matched before the rules of its own precedence, and
      nothing else changes. */
  lemma InsertRefines(t: Table, n: Node, id: nat)
    requires Consistent(t) && n.rule.precedence < PRECEDENCES && t.count < MAX_RULES
    requires Lookup(t.index, n.rule.id).None?
    ensures Consistent(Insert(t, n))
    ensures Flat(Insert(t, n)) == Enqueue(Flat(t), n)
    ensures Lookup(Insert(t, n).index, id) == if id == n.rule.id then Some(n) else Lookup(t.index, id)
  {
    hide Order, Enqueue, Link, Filed, UniqueIds;
    OrderInsert(t.lists, PRECEDENCES, n);
    LinkFiled(t.lists, n);
    EnqueueNodes(Flat(t), n);
    InsertUnique(t.index, n);
    assert multiset([n] + t.index) == multiset(t.index) + multiset{n};
    assert ([n] + t.index)[1..] == t.index;
  }

  /** The new lists of a changed rule, in the order of matching. */
  lemma RelinkOrder(lists: seq<seq<Node>>, cur: Node, n: Node)
    requires |lists| == PRECEDENCES && Filed(lists) && n.rule.precedence < PRECEDENCES
    requires cur.rule.precedence < PRECEDENCES && cur in lists[cur.rule.precedence]
    ensures Filed(Relink(lists, cur, n))
    ensures Order(Relink(lists, cur, n), PRECEDENCES) == Requeue(Order(lists, PRECEDENCES), cur, n)
  {
    hide Order, Enqueue, Filed;
    if cur.rule.precedence == n.rule.precedence {
      OrderReplace(lists, PRECEDENCES, cur, n);
      ReplaceFiled(lists, cur, n);
    } else {
      var rest := Unlink(lists, cur);
      OrderDelete(lists, PRECEDENCES, cur);
      DeleteFiled(lists, cur);
      OrderInsert(rest, PRECEDENCES, n);
      LinkFiled(rest, n);
    }
  }

  lemma RequeueNodes(l: seq<Node>, cur: Node, n: Node)
    requires cur in l
    ensures multiset(Requeue(l, cur, n)) == multiset(l) - multiset{cur} + multiset{n}
  {
    ReplaceNodes(l, cur, n);
    DeleteNodes(l, cur);
    EnqueueNodes(Delete(l, cur), n);
  }

  /** Changing a rule: it keeps its place if the precedence is the same, and is matched before
      the rules of the new precedence otherwise. */
  lemma ModifyRefines(t: Table, cur: Node, n: Node, id: nat)
    requires Consistent(t) && n.rule.precedence < PRECEDENCES
    requires cur in t.index && cur.rule.id == n.rule.id
    ensures cur.rule.precedence < PRECEDENCES
    ensures Consistent(Modify(t, cur, n))
    ensures Flat(Modify(t, cur, n)) == Requeue(Flat(t), cur, n)
    ensures Lookup(Modify(t, cur, n).index, id) == if id == n.rule.id then Some(n) else Lookup(t.index, id)
  {
    hide Order, Enqueue, Requeue, Relink, Filed;
    MemberOf(t, cur);
    ReplaceNodes(t.index, cur, n);
    ReplaceUnique(t.index, cur, n);
    ReplaceLookup(t.index, cur, n, id);
    RelinkOrder(t.lists, cur, n);
    RequeueNodes(Flat(t), cur, n);
  }

  /** Deleting a rule. */
  lemma RemoveRefines(t: Table, cur: Node, id: nat)
    requires Consistent(t) && cur in t.index
    ensures cur.rule.precedence < PRECEDENCES
    ensures Consistent(Remove(t, cur))
    ensures Flat(Remove(t, cur)) == Delete(Flat(t), cur)
    ensures Lookup(Remove(t, cur).index, id) == if id == cur.rule.id then None else Lookup(t.index, id)
  {
    hide Order, Filed;
    MemberOf(t, cur);
    DeleteNodes(t.index, cur);
    DeleteUnique(t.index, cur);
    DeleteLookup(t.index, cur, id);
    OrderDelete(t.lists, PRECEDENCES, cur);
    DeleteFiled(t.lists, cur);
    DeleteNodes(Flat(t), cur);
  }

  /** Flushing. */
  lemma FlushRefines(t: Table)
    requires Consistent(t)
    ensures Consistent(Flush(t)) && Flat(Flush(t)) == [] && Flush(t).index == []
  {
    var e := Empty();
    OrderEmpty(e.lists, PRECEDENCES);
    if t.count == 0 {
      assert |multiset(Flat(t))| == |multiset(t.index)| == 0;
    }
  }

  // ----- searching -----

  /** The first node of a list that matches. */
  function FirstMatch(l: seq<Node>, match_: Rule -> bool): (r: Option<Node>)
  {
    if l == [] then None
    else if match_(l[0].rule) then Some(l[0])
    else FirstMatch(l[1..], match_)
  }

  /** Descending precedence. */
  ghost predicate Descending(l: seq<Node>)
  {
    forall i, j :: 0 <= i < j < |l| ==> l[i].rule.precedence >= l[j].rule.precedence
  }

  lemma {:induction false} OrderDescending(lists: seq<seq<Node>>, k: nat)
    requires k <= |lists| && Filed(lists)
    ensures Descending(Order(lists, k))
  {
    if k > 0 {
      OrderDescending(lists, k - 1);
      var below := Order(lists, k - 1);
      forall i | 0 <= i < |below|
        ensures below[i].rule.precedence < k - 1
      {
        OrderBelow(lists, k - 1, below[i]);
      }
    }
  }

  lemma {:induction false} FirstMatchAt(l: seq<Node>, match_: Rule -> bool) returns (k: nat)
    ensures match FirstMatch(l, match_)
            case None => forall x :: x in l ==> !match_(x.rule)
            case Some(n) => k < |l| && l[k] == n && match_(n.rule) && forall i :: 0 <= i < k ==> !match_(l[i].rule)
  {
    if l == [] || match_(l[0].rule) {
      k := 0;
    } else {
      k := FirstMatchAt(l[1..], match_);
      k := k + 1;
    }
  }

  /** The search order decides for a rule of the highest matching precedence, and among those
      for the one at the front of its list; if it finds nothing, no rule matches. */
  lemma FirstMatchBest(t: Table, match_: Rule -> bool)
    requires Consistent(t)
    ensures match FirstMatch(Flat(t), match_)
            case None => forall x :: x in t.index ==> !match_(x.rule)
            case Some(n) =>
              && n in t.index && match_(n.rule)
              && n.rule.precedence < PRECEDENCES
              && (forall x :: x in t.index && match_(x.rule) ==> x.rule.precedence <= n.rule.precedence)
              && FirstMatch(t.lists[n.rule.precedence], match_) == Some(n)
  {
    var l := Flat(t);
    var k := FirstMatchAt(l, match_);
    OrderDescending(t.lists, PRECEDENCES);
    forall x
      ensures x in t.index <==> x in l
    {
      MemberOf(t, x);
    }
    var r := FirstMatch(l, match_);
    if r.Some? {
      var n := r.value;
      MemberOf(t, n);
      forall x | x in l && match_(x.rule)
        ensures x.rule.precedence <= n.rule.precedence
      {
        var i :| 0 <= i < |l| && l[i] == x;
      }
      FirstMatchInList(t.lists, PRECEDENCES, match_, n);
    }
  }

  lemma {:induction false} FirstMatchConcat(a: seq<Node>, b: seq<Node>, match_: Rule -> bool)
    ensures FirstMatch(a + b, match_) ==
            if FirstMatch(a, match_).Some? then FirstMatch(a, match_) else FirstMatch(b, match_)
  {
    if a == [] {
      assert a + b == b;
    } else {
      assert (a + b)[1..] == a[1..] + b;
      FirstMatchConcat(a[1..], b, match_);
    }
  }

  lemma {:induction false} FirstMatchInList(lists: seq<seq<Node>>, k: nat, match_: Rule -> bool, n: Node)
    requires k <= |lists| && Filed(lists) && FirstMatch(Order(lists, k), match_) == Some(n)
    ensures n.rule.precedence < k && FirstMatch(lists[n.rule.precedence], match_) == Some(n)
  {
    if k > 0 {
      FirstMatchConcat(lists[k - 1], Order(lists, k - 1), match_);
      if FirstMatch(lists[k - 1], match_).Some? {
        var i := FirstMatchAt(lists[k - 1], match_);
      } else {
        FirstMatchInList(lists, k - 1, match_, n);
      }
    }
  }
}
