/** The menu tree as scripts/config/menu.c keeps it: entries linked by next, list and parent.
    menu_finalize changes dep, the prompt's condition and all three links in place; every
    method here is proved to leave the heap linked as the tree that MenuForest computes. */
module MenuTree {
  import opened Common
  import opened Expressions
  import opened Submenu
  import opened MenuForest

  class Menu {
    var next: Menu?
    var list: Menu?
    var parent: Menu?
    var sym: Option<Sym>
    var typed: bool
    var dep: Dep
    var prompt: Option<Dep>
    var others: seq<Dep>

    function Fields(): Info
      reads this
    {
      Info(sym, typed, dep, prompt, others)
    }
  }

  /** The SYMBOL_CHOICEVAL flags. */
  class Flags {
    var values: set<Sym>
  }

  // ----- distinct entries -----

  ghost function Nodes<K>(f: Forest<K>): set<K>
    decreases Sizes(f)
  {
    if f == [] then {} else {f[0].key} + Nodes(f[0].kids) + Nodes(f[1..])
  }

  /** No entry occurs twice. */
  ghost predicate Distinct<K>(f: Forest<K>)
    decreases Sizes(f)
  {
    f != [] ==>
      && f[0].key !in Nodes(f[0].kids) && f[0].key !in Nodes(f[1..])
      && Nodes(f[0].kids) !! Nodes(f[1..])
      && Distinct(f[0].kids) && Distinct(f[1..])
  }

  lemma {:induction false} NodesConcat<K>(f: Forest<K>, g: Forest<K>)
    ensures Nodes(f + g) == Nodes(f) + Nodes(g)
    decreases |f|
  {
    if f == [] {
      assert f + g == g;
    } else {
      assert (f + g)[1..] == f[1..] + g;
      NodesConcat(f[1..], g);
    }
  }

  lemma {:induction false} DistinctConcat<K>(f: Forest<K>, g: Forest<K>)
    ensures Distinct(f + g) <==> Distinct(f) && Distinct(g) && Nodes(f) !! Nodes(g)
    decreases |f|
  {
    if f == [] {
      assert f + g == g;
    } else {
      assert (f + g)[1..] == f[1..] + g;
      DistinctConcat(f[1..], g);
      NodesConcat(f[1..], g);
    }
  }

  ghost function Named<K>(s: seq<(K, Info)>): set<K>
  {
    set i | 0 <= i < |s| :: s[i].0
  }

  lemma NamedConcat<K>(s: seq<(K, Info)>, u: seq<(K, Info)>)
    ensures Named(s + u) == Named(s) + Named(u)
  {
    forall k | k in Named(s) + Named(u)
      ensures k in Named(s + u)
    {
      if k in Named(s) {
        var i :| 0 <= i < |s| && s[i].0 == k;
        assert (s + u)[i].0 == k;
      } else {
        var i :| 0 <= i < |u| && u[i].0 == k;
        assert (s + u)[|s| + i].0 == k;
      }
    }
  }

  lemma {:induction false} NodesOfEntries<K>(f: Forest<K>)
    ensures Nodes(f) == Named(Entries(f))
    decreases Sizes(f)
  {
    if f != [] {
      NodesOfEntries(f[0].kids);
      NodesOfEntries(f[1..]);
      var one := [(f[0].key, f[0].info)];
      assert Named(one) == {f[0].key} by {
        assert one[0].0 == f[0].key;
      }
      NamedConcat(one + Entries(f[0].kids), Entries(f[1..]));
      NamedConcat(one, Entries(f[0].kids));
    }
  }

  /** Distinctness can be told from the number of entries alone. */
  lemma {:induction false} DistinctCount<K>(f: Forest<K>)
    ensures |Nodes(f)| <= Sizes(f) && (Distinct(f) <==> |Nodes(f)| == Sizes(f))
    decreases Sizes(f)
  {
    if f != [] {
      DistinctCount(f[0].kids);
      DistinctCount(f[1..]);
      var (a, b, c) := ({f[0].key}, Nodes(f[0].kids), Nodes(f[1..]));
      UnionCount(b, c);
      UnionCount(a, b + c);
      assert Nodes(f) == a + (b + c);
    }
  }

  lemma UnionCount<K>(a: set<K>, b: set<K>)
    ensures |a + b| <= |a| + |b| && (|a + b| == |a| + |b| <==> a !! b)
  {
    assert a + b == a + (b - a) && |b - a| + |b * a| == |b| by {
      assert b == (b - a) + (b * a);
    }
    assert |a + (b - a)| == |a| + |b - a|;
    assert a !! b <==> b * a == {};
  }

  /** Distinctness only depends on which entries there are. */
  lemma SameEntriesDistinct<K>(f: Forest<K>, g: Forest<K>, v0: set<Sym>, v1: set<Sym>)
    requires Marked(Entries(SpreadAll(g)), v0, Entries(f), v1)
    ensures Nodes(f) == Nodes(g) && Distinct(f) == Distinct(g)
  {
    hide Entries, SpreadAll, MarkedOne;
    SpreadNodes(g);
    NodesOfEntries(f);
    NodesOfEntries(SpreadAll(g));
    SameNames(Entries(SpreadAll(g)), Entries(f));
    EntriesCount(f);
    EntriesCount(SpreadAll(g));
    DistinctCount(f);
    DistinctCount(g);
  }

  lemma SameNames<K>(s: seq<(K, Info)>, u: seq<(K, Info)>)
    requires |s| == |u| && forall i :: 0 <= i < |s| ==> s[i].0 == u[i].0
    ensures Named(s) == Named(u)
  {
    forall k | k in Named(s) || k in Named(u)
      ensures k in Named(s) && k in Named(u)
    {
      var i :| 0 <= i < |s| && (s[i].0 == k || u[i].0 == k);
      assert s[i].0 == u[i].0 == k;
    }
  }

  lemma {:induction false} EntriesCount<K>(f: Forest<K>)
    ensures |Entries(f)| == Sizes(f)
    decreases Sizes(f)
  {
    if f != [] {
      EntriesCount(f[0].kids);
      EntriesCount(f[1..]);
    }
  }

  lemma {:induction false} PropagateNodes<K>(p: Info, f: Forest<K>)
    ensures Nodes(Propagate(p, f)) == Nodes(f) && Distinct(Propagate(p, f)) == Distinct(f)
    decreases |f|
  {
    if f != [] {
      PropagateNodes(p, f[1..]);
      assert Propagate(p, f)[1..] == Propagate(p, f[1..]);
    }
  }

  lemma {:induction false} SpreadNodes<K>(f: Forest<K>)
    ensures Nodes(SpreadAll(f)) == Nodes(f)
    decreases Sizes(f)
  {
    if f != [] {
      SpreadNodes(f[1..]);
      var kids := Propagate(f[0].info, f[0].kids);
      PropagateNodes(f[0].info, f[0].kids);
      SpreadNodes(kids);
      assert SpreadAll(f)[0] == Spread(f[0]) && SpreadAll(f)[1..] == SpreadAll(f[1..]);
    }
  }

  lemma FinalizeNodes<K>(t: Tree<K>, rest: Forest<K>, values: set<Sym>)
    requires Distinct([t] + rest)
    ensures var (t', rest', _) := Finalize(t, rest, values);
            && Nodes([t']) + Nodes(rest') == Nodes([t] + rest)
            && Nodes([t']) !! Nodes(rest') && Distinct([t']) && Distinct(rest')
            && Nodes(rest') <= Nodes(rest)
  {
    hide Entries, SpreadAll, Finalize, Marked;
    FinalizeKeeps(t, rest, values);
    var (t', rest', values') := Finalize(t, rest, values);
    var n := Taken(rest, rest');
    SameEntriesDistinct([t'], [t] + rest[..n], values, values');
    assert [t] + rest == ([t] + rest[..n]) + rest' && rest == rest[..n] + rest';
    DistinctConcat([t] + rest[..n], rest');
    NodesConcat([t] + rest[..n], rest');
    NodesConcat(rest[..n], rest');
  }

  // ----- linked entries -----

  /** The chain of entries from first up to end holds the forest f below parent: the links, the
      fields and the parent pointers of all its entries agree with it. */
  ghost predicate Linked(first: Menu?, f: Forest<Menu>, parent: Menu?, end: Menu?)
    reads Nodes(f)
    decreases Sizes(f)
  {
    if f == [] then first == end
    else
      var m := f[0].key;
      && first == m && m.Fields() == f[0].info && m.parent == parent
      && Linked(m.list, f[0].kids, m, null)
      && Linked(m.next, f[1..], parent, end)
  }

  lemma {:induction false} LinkedConcat(first: Menu?, f: Forest<Menu>, mid: Menu?, g: Forest<Menu>, parent: Menu?,
                                        end: Menu?)
    requires Linked(first, f, parent, mid) && Linked(mid, g, parent, end)
    ensures Linked(first, f + g, parent, end)
    decreases |f|
  {
    if f == [] {
      assert f + g == g;
    } else {
      assert (f + g)[1..] == f[1..] + g;
      LinkedConcat(f[0].key.next, f[1..], mid, g, parent, end);
    }
  }

  lemma LinkedOne(m: Menu, t: Tree<Menu>, parent: Menu?, end: Menu?)
    requires t.key == m && m.Fields() == t.info && m.parent == parent && m.next == end
    requires Linked(m.list, t.kids, m, null)
    ensures Linked(m, [t], parent, end)
  {
    assert [t][1..] == [];
  }

  lemma NodesOne<K>(t: Tree<K>)
    ensures Nodes([t]) == {t.key} + Nodes(t.kids)
  {
    assert [t][1..] == [];
  }

  // ----- walking along a chain -----

  /** A chain taken apart at mid: the entries done so far are linked below dp, the others, in a
      chain that ends there, still below tp. */
  ghost predicate Split(all: set<Menu>, first: Menu?, done: Forest<Menu>, dp: Menu?,
                        mid: Menu?, ahead: Forest<Menu>, tp: Menu?)
    reads all
  {
    && Nodes(done) !! Nodes(ahead) && Nodes(done) + Nodes(ahead) == all && Distinct(done) && Distinct(ahead)
    && Linked(first, done, dp, mid) && Linked(mid, ahead, tp, null)
  }

  /** The first of the entries still to do. */
  lemma Front(first: Menu, f: Forest<Menu>, parent: Menu?)
    requires Linked(first, f, parent, null) && Distinct(f)
    ensures f != [] && first == f[0].key && first.Fields() == f[0].info && first.parent == parent
    ensures Linked(first.list, f[0].kids, first, null) && Linked(first.next, f[1..], parent, null)
    ensures Nodes(f) == {first} + Nodes(f[0].kids) + Nodes(f[1..])
    ensures first !in Nodes(f[0].kids) && first !in Nodes(f[1..]) && Nodes(f[0].kids) !! Nodes(f[1..])
    ensures Distinct(f[0].kids) && Distinct(f[1..])
  {
  }

  /** One more entry of a chain is done. */
  lemma Advance(first: Menu?, done: Forest<Menu>, m: Menu, t: Tree<Menu>, parent: Menu?)
    requires Linked(first, done, parent, m) && t.key == m && m.Fields() == t.info && m.parent == parent
    requires Linked(m.list, t.kids, m, null)
    requires Distinct(done) && Distinct([t]) && Nodes([t]) !! Nodes(done)
    ensures Linked(first, done + [t], parent, m.next)
    ensures Distinct(done + [t]) && Nodes(done + [t]) == Nodes(done) + Nodes([t])
  {
    LinkedOne(m, t, parent, m.next);
    LinkedConcat(first, done, m, [t], parent, m.next);
    NodesConcat(done, [t]);
    DistinctConcat(done, [t]);
  }

  lemma DistinctOne(t: Tree<Menu>)
    ensures Distinct([t]) <==> t.key !in Nodes(t.kids) && Distinct(t.kids)
  {
    assert [t][1..] == [];
  }

  lemma {:induction false} Allocated(f: Forest<Menu>)
    ensures allocated(Nodes(f))
    decreases Sizes(f)
  {
    if f != [] {
      Allocated(f[0].kids);
      Allocated(f[1..]);
    }
  }

  lemma Start(first: Menu?, f: Forest<Menu>, dp: Menu?, tp: Menu?)
    requires Linked(first, f, tp, null) && Distinct(f)
    ensures Split(Nodes(f), first, [], dp, first, f, tp) && allocated(Nodes(f))
  {
    Allocated(f);
  }

  /** The entry at the cut, with other fields now, has joined those that are done. */
  lemma Step(all: set<Menu>, first: Menu?, done: Forest<Menu>, dp: Menu?,
             m: Menu, t: Tree<Menu>, rest: Forest<Menu>, tp: Menu?)
    requires Linked(first, done, dp, m) && Distinct(done)
    requires m == t.key && m.Fields() == t.info && m.parent == dp && Linked(m.list, t.kids, m, null)
    requires m !in Nodes(t.kids) && Distinct(t.kids)
    requires Linked(m.next, rest, tp, null) && Distinct(rest)
    requires Nodes(done) !! {m} + Nodes(t.kids) + Nodes(rest) && {m} + Nodes(t.kids) !! Nodes(rest)
    requires all == Nodes(done) + ({m} + Nodes(t.kids) + Nodes(rest))
    ensures Split(all, first, done + [t], dp, m.next, rest, tp)
  {
    NodesOne(t);
    DistinctOne(t);
    Advance(first, done, m, t, dp);
  }

  // ----- menu_finalize -----

  /** The conditions of the other properties of an entry. */
  method ConditionOthers(menu: Menu, dep: Dep, tristate: bool)
    modifies menu`others
    ensures menu.others == ConditionedAll(dep, old(menu.others), tristate)
  {
    hide HandDownProperty;
    var k := 0;
    while k < |menu.others|
      invariant k <= |menu.others| == |old(menu.others)|
      invariant forall j :: 0 <= j < k ==> menu.others[j] == HandDownProperty(dep, old(menu.others)[j], tristate)
      invariant forall j :: k <= j < |menu.others| ==> menu.others[j] == old(menu.others)[j]
    {
      menu.others := menu.others[k := HandDownProperty(dep, menu.others[k], tristate)];
      k := k + 1;
    }
  }

  /** The conditions of one entry below an entry with info p. */
  method Condition(menu: Menu, p: Info)
    modifies menu`dep, menu`prompt, menu`others
    ensures menu.Fields() == Conditioned(p, old(menu.Fields()))
  {
    hide HandDown, HandDownProperty;
    var dep := HandDown(p.Inherited(), menu.dep);
    menu.dep := dep;
    if menu.prompt.Some? {
      menu.prompt := Some(HandDownProperty(dep, menu.prompt.value, menu.Fields().Tristate()));
    }
    ConditionOthers(menu, dep, menu.Fields().Tristate());
  }

  lemma PropagateStep(p: Info, done: Forest<Menu>, ahead: Forest<Menu>)
    ensures ahead != [] ==>
      done + Propagate(p, ahead) ==
      (done + [ahead[0].(info := Conditioned(p, ahead[0].info))]) + Propagate(p, ahead[1..])
    ensures ahead == [] ==> done + Propagate(p, ahead) == done
  {
  }

  lemma Finished(all: set<Menu>, first: Menu?, done: Forest<Menu>, dp: Menu?, ahead: Forest<Menu>, tp: Menu?)
    requires Split(all, first, done, dp, null, ahead, tp)
    ensures ahead == [] && Linked(first, done, dp, null) && Nodes(done) == all && Distinct(done)
  {
  }

  /** The first loop: conditions are handed down to the entries of p. */
  method HandDownAll(p: Menu, ghost f: Forest<Menu>)
    requires p !in Nodes(f) && Distinct(f) && Linked(p.list, f, p, null)
    modifies Nodes(f)
    ensures Linked(p.list, Propagate(p.Fields(), f), p, null)
  {
    hide Conditioned, Linked, Distinct, Propagate;
    var info := p.Fields();
    var menu := p.list;
    ghost var done, ahead: Forest<Menu> := [], f;
    Start(p.list, f, p, p);
    while menu != null
      invariant Split(Nodes(f), p.list, done, p, menu, ahead, p)
      invariant Propagate(info, f) == done + Propagate(info, ahead)
      decreases |ahead|
    {
      Front(menu, ahead, p);
      ghost var t := ahead[0];
      ghost var t' := t.(info := Conditioned(info, t.info));
      Condition(menu, info);
      PropagateStep(info, done, ahead);
      Step(Nodes(f), p.list, done, p, menu, t', ahead[1..], p);
      done, ahead := done + [t'], ahead[1..];
      menu := menu.next;
    }
    PropagateStep(info, done, ahead);
    Finished(Nodes(f), p.list, done, p, ahead, p);
  }

  /** One entry of a chain gets a new parent. */
  method Adopt(m: Menu, ghost all: set<Menu>, ghost first: Menu, ghost done: Forest<Menu>, parent: Menu,
               ghost ahead: Forest<Menu>, ghost owner: Menu)
    requires Split(all, first, done, parent, m, ahead, owner)
    modifies m`parent
    ensures ahead != [] && m == ahead[0].key && m in all
    ensures Split(all, first, done + [ahead[0]], parent, m.next, ahead[1..], owner)
  {
    hide Linked, Distinct;
    Front(m, ahead, owner);
    m.parent := parent;
    Step(all, first, done, parent, m, ahead[0], ahead[1..], owner);
  }

  lemma AtCut(all: set<Menu>, first: Menu?, done: Forest<Menu>, dp: Menu?, m: Menu, ahead: Forest<Menu>, tp: Menu?)
    requires Split(all, first, done, dp, m, ahead, tp)
    ensures m in all && ahead != [] && m.Fields() == ahead[0].info
  {
    hide Distinct;
    Front(m, ahead, tp);
  }

  lemma Regroup<T>(f: seq<T>, done: seq<T>, ahead: seq<T>)
    requires f == done + ahead && ahead != []
    ensures f == (done + [ahead[0]]) + ahead[1..]
    ensures |ahead| == 1 ==> f[|f| - 1] == ahead[0]
  {
  }

  /** The entries of a chain get a new parent; the last one is returned. */
  method Reparent(first: Menu, ghost f: Forest<Menu>, ghost owner: Menu, parent: Menu) returns (last: Menu)
    requires Linked(first, f, owner, null) && Distinct(f)
    modifies Nodes(f)
    ensures Linked(first, f, parent, null) && f != [] && last == f[|f| - 1].key && last in Nodes(f)
  {
    hide Linked, Distinct, Split;
    Start(first, f, parent, owner);
    last := first;
    ghost var done, ahead: Forest<Menu> := [], f;
    while true
      invariant Split(Nodes(f), first, done, parent, last, ahead, owner)
      invariant f == done + ahead
      decreases |ahead|
    {
      AtCut(Nodes(f), first, done, parent, last, ahead, owner);
      Adopt(last, Nodes(f), first, done, parent, ahead, owner);
      Regroup(f, done, ahead);
      done, ahead := done + [ahead[0]], ahead[1..];
      if last.next == null {
        Finished(Nodes(f), first, done, parent, ahead, owner);
        assert done + [] == done;
        break;
      }
      last := last.next;
    }
  }

  /** The last entry of a chain. */
  lemma {:induction false} Tail(first: Menu?, f: Forest<Menu>, parent: Menu?, end: Menu?)
    requires f != [] && Linked(first, f, parent, end) && Distinct(f)
    ensures var (g, t) := (f[..|f| - 1], f[|f| - 1]);
            var m := t.key;
            && Linked(first, g, parent, m) && m.Fields() == t.info && m.parent == parent && m.next == end
            && Linked(m.list, t.kids, m, null)
            && m !in Nodes(g) && Nodes(g) !! Nodes(t.kids) && m !in Nodes(t.kids)
            && Nodes(f) == Nodes(g) + {m} + Nodes(t.kids)
    decreases |f|
  {
    var (g, t) := (f[..|f| - 1], f[|f| - 1]);
    if |f| > 1 {
      Tail(f[0].key.next, f[1..], parent, end);
      assert f[1..][..|f[1..]| - 1] == g[1..];
    } else {
      assert f[1..] == [];
    }
  }

  /** The last entry of a chain gets another successor. */
  method SetEnd(first: Menu, ghost f: Forest<Menu>, ghost parent: Menu?, ghost old_end: Menu?, last: Menu, end: Menu?)
    requires f != [] && Linked(first, f, parent, old_end) && Distinct(f) && last == f[|f| - 1].key
    modifies last`next
    ensures Linked(first, f, parent, end)
  {
    hide Linked, Distinct;
    ghost var g, t := f[..|f| - 1], f[|f| - 1];
    Allocated(f);
    Tail(first, f, parent, old_end);
    last.next := end;
    LinkedOne(last, t, parent, end);
    LinkedConcat(first, g, last, [t], parent, end);
    assert f == g + [t];
  }

  /** The third loop at one entry: the entries below menu move up behind it. */
  method MoveUp(p: Menu, menu: Menu, ghost t: Tree<Menu>, ghost rest: Forest<Menu>)
    requires menu == t.key && menu.Fields() == t.info && menu.parent == p && t.kids != []
    requires Linked(menu.list, t.kids, menu, null) && Linked(menu.next, rest, p, null)
    requires Distinct([t] + rest) && p !in Nodes([t] + rest)
    modifies menu, Nodes(t.kids)
    ensures menu.Fields() == t.info && menu.parent == p && menu.list == null
    ensures Linked(menu.next, t.kids + rest, p, null)
  {
    hide Linked, Distinct;
    ghost var kids := t.kids;
    assert ([t] + rest)[1..] == rest;
    DistinctConcat([t], rest);
    NodesOne(t);
    DistinctOne(t);
    Allocated(rest);
    Allocated(kids);
    NotEmpty(menu.list, kids, menu);
    var last := Reparent(menu.list, kids, menu, p);
    SetEnd(menu.list, kids, p, null, last, menu.next);
    LinkedConcat(menu.list, kids, menu.next, rest, p, null);
    NodesConcat(kids, rest);
    menu.next := menu.list;
    menu.list := null;
  }

  lemma NotEmpty(first: Menu?, f: Forest<Menu>, parent: Menu?)
    requires Linked(first, f, parent, null)
    ensures f != [] <==> first != null
  {
  }

  /** The third loop on trees: choice values are marked, and lists without a prompt move up. */
  function Third<K>(p: Info, f: Forest<K>, values: set<Sym>): (Forest<K>, set<Sym>)
  {
    MarkAll(p, Splice(f), values)
  }

  /** One turn of it. */
  function Turn<K>(p: Info, f: Forest<K>, values: set<Sym>): (Tree<K>, Forest<K>, set<Sym>)
    requires f != []
  {
    var (i, values') := Mark(p, f[0].info, values);
    if f[0].kids != [] && i.prompt.None? then (Node(f[0].key, i, []), f[0].kids + f[1..], values')
    else (f[0].(info := i), f[1..], values')
  }

  lemma TurnOne<K>(p: Info, f: Forest<K>, values: set<Sym>)
    requires f != []
    ensures var (t, rest, values') := Turn(p, f, values);
            && Sizes(rest) < Sizes(f)
            && Third(p, f, values) == ([t] + Third(p, rest, values').0, Third(p, rest, values').1)
  {
    hide Mark;
    SizesConcat(f[0].kids, f[1..]);
    var (t, rest, values') := Turn(p, f, values);
    assert Splice(f)[1..] == Splice(rest);
  }

  lemma TurnStep(p: Info, done: Forest<Menu>, ahead: Forest<Menu>, values: set<Sym>)
    requires ahead != []
    ensures var (t, rest, values') := Turn(p, ahead, values);
            && Sizes(rest) < Sizes(ahead)
            && (done + Third(p, ahead, values).0, Third(p, ahead, values).1)
               == ((done + [t]) + Third(p, rest, values').0, Third(p, rest, values').1)
  {
    hide Third, Turn, Sizes;
    var (t, rest, values') := Turn(p, ahead, values);
    TurnOne(p, ahead, values);
    assert done + ([t] + Third(p, rest, values').0) == (done + [t]) + Third(p, rest, values').0;
  }

  lemma NoTurn<K>(p: Info, values: set<Sym>)
    ensures Third<K>(p, [], values) == ([], values)
  {
  }

  /** The same condition is put before those of all other properties. */
  method GuardOthers(menu: Menu, y: Dep)
    modifies menu`others
    ensures menu.others == GuardedAll(y, old(menu.others))
  {
    var k := 0;
    while k < |menu.others|
      invariant k <= |menu.others| == |old(menu.others)|
      invariant forall j :: 0 <= j < k ==> menu.others[j] == AllocAnd(y, old(menu.others)[j])
      invariant forall j :: k <= j < |menu.others| ==> menu.others[j] == old(menu.others)[j]
    {
      menu.others := menu.others[k := AllocAnd(y, menu.others[k])];
      k := k + 1;
    }
  }

  /** What the third loop does to one entry of a choice. */
  method MarkEntry(p: Menu, menu: Menu, flags: Flags)
    modifies menu`dep, menu`prompt, menu`others, flags
    ensures (menu.Fields(), flags.values) == Mark(old(p.Fields()), old(menu.Fields()), old(flags.values))
  {
    if p.sym.Some? && p.sym.value.Choice? && menu.sym.Some? && menu.sym.value !in flags.values {
      flags.values := flags.values + {menu.sym.value};
      if p.sym.value.Type() == Tri && menu.sym.value.Type() != Tri {
        var y := Some(Comp(Equal, p.sym.value, ConstY));
        menu.dep := AllocAnd(y, menu.dep);
        if menu.prompt.Some? {
          menu.prompt := Some(AllocAnd(y, menu.prompt.value));
        }
        GuardOthers(menu, y);
      }
    }
  }

  /** One turn of the third loop. */
  method TurnAt(p: Menu, flags: Flags, ghost all: set<Menu>, ghost done: Forest<Menu>, menu: Menu,
                ghost ahead: Forest<Menu>)
    requires p !in all && Split(all, p.list, done, p, menu, ahead, p)
    modifies all, flags
    ensures ahead != [] && var (t, rest, values') := Turn(p.Fields(), ahead, old(flags.values));
            Split(all, p.list, done + [t], p, menu.next, rest, p) && flags.values == values'
  {
    hide Linked, Distinct, Mark;
    Front(menu, ahead, p);
    MarkEntry(p, menu, flags);
    ghost var t, rest := ahead[0].(info := menu.Fields()), ahead[1..];
    assert ahead == [ahead[0]] + ahead[1..];
    NotEmpty(menu.list, t.kids, menu);
    if menu.list != null && menu.prompt.None? {
      DistinctInfo(ahead[0], menu.Fields(), rest);
      MoveUp(p, menu, t, rest);
      t, rest := t.(kids := []), t.kids + rest;
      Lifted(ahead[0], ahead[1..]);
      None(null, menu);
    }
    Step(all, p.list, done, p, menu, t, rest, p);
  }

  lemma Lifted<K>(t: Tree<K>, rest: Forest<K>)
    requires Distinct([t] + rest)
    ensures Nodes(t.kids + rest) == Nodes(t.kids) + Nodes(rest)
    ensures Distinct(t.kids + rest) && t.key !in Nodes(t.kids + rest)
  {
    assert ([t] + rest)[1..] == rest;
    NodesConcat(t.kids, rest);
    DistinctConcat(t.kids, rest);
  }

  lemma DistinctInfo<K>(t: Tree<K>, i: Info, rest: Forest<K>)
    requires Distinct([t] + rest)
    ensures var u := t.(info := i); Distinct([u] + rest) && Nodes([u] + rest) == Nodes([t] + rest)
  {
    assert ([t] + rest)[1..] == rest && ([t.(info := i)] + rest)[1..] == rest;
  }

  /** The third loop. */
  method SpliceBelow(p: Menu, flags: Flags, ghost f: Forest<Menu>)
    requires p !in Nodes(f) && Distinct(f) && Linked(p.list, f, p, null)
    modifies Nodes(f), flags
    ensures var (f', values') := Third(p.Fields(), f, old(flags.values));
            Linked(p.list, f', p, null) && flags.values == values'
  {
    hide Linked, Distinct, Split, Third, Turn;
    ghost var info, values := p.Fields(), flags.values;
    var menu := p.list;
    ghost var done, ahead: Forest<Menu> := [], f;
    Start(p.list, f, p, p);
    assert [] + Third(info, f, values).0 == Third(info, f, values).0;
    while menu != null
      invariant Split(Nodes(f), p.list, done, p, menu, ahead, p)
      invariant Third(info, f, values) ==
                (done + Third(info, ahead, flags.values).0, Third(info, ahead, flags.values).1)
      decreases Sizes(ahead)
    {
      AtCut(Nodes(f), p.list, done, p, menu, ahead, p);
      TurnStep(info, done, ahead, flags.values);
      ghost var (t, rest, _) := Turn(info, ahead, flags.values);
      TurnAt(p, flags, Nodes(f), done, menu, ahead);
      done, ahead := done + [t], rest;
      menu := menu.next;
    }
    Finished(Nodes(f), p.list, done, p, ahead, p);
    NoTurn<Menu>(info, flags.values);
    assert done + [] == done;
  }

  lemma None(first: Menu?, parent: Menu?)
    ensures Linked(first, [], parent, first) && Nodes<Menu>([]) == {} && Distinct<Menu>([])
  {
  }

  // ----- the recursion -----

  function Keys<K>(s: seq<(K, Info)>): seq<K>
  {
    if s == [] then [] else [s[0].0] + Keys(s[1..])
  }

  lemma {:induction false} KeysConcat<K>(s: seq<(K, Info)>, u: seq<(K, Info)>)
    ensures Keys(s + u) == Keys(s) + Keys(u)
  {
    if s == [] {
      assert s + u == u;
    } else {
      assert (s + u)[1..] == s[1..] + u;
      KeysConcat(s[1..], u);
    }
  }

  /** The entries in preorder. */
  function Order<K>(f: Forest<K>): seq<K> { Keys(Entries(f)) }

  lemma OrderConcat<K>(f: Forest<K>, g: Forest<K>)
    ensures Order(f + g) == Order(f) + Order(g)
  {
    EntriesConcat(f, g);
    KeysConcat(Entries(f), Entries(g));
  }

  lemma NoOrder<K>()
    ensures Order<K>([]) == []
  {
  }

  lemma ThirdOrder<K>(p: Info, f: Forest<K>, values: set<Sym>)
    ensures Order(Third(p, f, values).0) == Order(f)
  {
    hide Entries, Splice, MarkAll, MarkedOne;
    SpliceKeeps(f);
    MarkAllMarked(p, Splice(f), values);
    KeysSame(Entries(Splice(f)), Entries(Third(p, f, values).0));
  }

  lemma {:induction false} KeysSame<K>(s: seq<(K, Info)>, u: seq<(K, Info)>)
    requires |s| == |u| && forall i :: 0 <= i < |s| ==> s[i].0 == u[i].0
    ensures Keys(s) == Keys(u)
  {
    if s != [] {
      KeysSame(s[1..], u[1..]);
    }
  }

  lemma OrderOne<K>(t: Tree<K>)
    ensures Order([t]) == [t.key] + Order(t.kids)
  {
    EntriesOne(t);
    assert Entries([t])[1..] == Entries(t.kids);
  }

  /** A sequence without repetitions. */
  ghost predicate Once<T>(s: seq<T>)
  {
    forall i, j :: 0 <= i < j < |s| ==> s[i] != s[j]
  }

  ghost function Members<T>(s: seq<T>): set<T>
  {
    set i | 0 <= i < |s| :: s[i]
  }

  lemma OnceConcat<T>(a: seq<T>, b: seq<T>)
    requires Once(a) && Once(b) && Members(a) !! Members(b)
    ensures Once(a + b) && Members(a + b) == Members(a) + Members(b)
  {
    var s := a + b;
    forall i, j | 0 <= i < j < |s|
      ensures s[i] != s[j]
    {
      if i < |a| <= j {
        assert s[i] in Members(a) && b[j - |a|] in Members(b);
      }
    }
    assert Members(s) <= Members(a) + Members(b);
    forall i | 0 <= i < |a|
      ensures a[i] in Members(s)
    {
      assert s[i] == a[i];
    }
    forall i | 0 <= i < |b|
      ensures b[i] in Members(s)
    {
      assert s[|a| + i] == b[i];
    }
  }

  lemma OrderStep<K>(f: Forest<K>)
    requires f != []
    ensures Order(f) == [f[0].key] + Order(f[0].kids) + Order(f[1..])
  {
    var one := [(f[0].key, f[0].info)];
    KeysConcat(one + Entries(f[0].kids), Entries(f[1..]));
    KeysConcat(one, Entries(f[0].kids));
    assert one[1..] == [];
  }

  /** Preorder names every entry of a forest, and none of them twice. */
  lemma {:induction false} OrderOnce<K>(f: Forest<K>)
    requires Distinct(f)
    ensures Once(Order(f)) && Members(Order(f)) == Nodes(f)
    decreases Sizes(f)
  {
    hide Order;
    if f == [] {
      NoOrder<K>();
    } else {
      OrderStep(f);
      OrderOnce(f[0].kids);
      OrderOnce(f[1..]);
      var one := [f[0].key];
      assert one[0] in Members(one) && Members(one) == {f[0].key};
      OnceConcat(one, Order(f[0].kids));
      OnceConcat(one + Order(f[0].kids), Order(f[1..]));
    }
  }

  lemma FinalizeAllStep(done: Forest<Menu>, ahead: Forest<Menu>, values: set<Sym>)
    ensures ahead == [] ==> done + FinalizeAll(ahead, values).0 == done && FinalizeAll(ahead, values).1 == values
    ensures ahead != [] ==>
      var (t, rest, values1) := Finalize(ahead[0], ahead[1..], values);
      && (done + FinalizeAll(ahead, values).0, FinalizeAll(ahead, values).1)
         == ((done + [t]) + FinalizeAll(rest, values1).0, FinalizeAll(rest, values1).1)
      && Sizes(rest) < Sizes(ahead)
      && Sizes(ahead) == MenuForest.Size(ahead[0]) + Sizes(ahead[1..])
  {
    hide Finalize;
    if ahead != [] {
      var (t, rest, values1) := Finalize(ahead[0], ahead[1..], values);
      assert FinalizeAll(ahead, values).0 == [t] + FinalizeAll(rest, values1).0;
      assert done + ([t] + FinalizeAll(rest, values1).0) == (done + [t]) + FinalizeAll(rest, values1).0;
    }
  }

  /** menu_finalize. It ends with the links of exactly the trees that Finalize computes, and it
      has been called once for every entry at or below p, in preorder. */
  method FinalizeMenu(p: Menu, flags: Flags, ghost t: Tree<Menu>, ghost rest: Forest<Menu>)
    returns (ghost calls: seq<Menu>)
    requires p == t.key && p.Fields() == t.info && Distinct([t] + rest)
    requires Linked(p.list, t.kids, p, null) && Linked(p.next, rest, p.parent, null)
    modifies Nodes([t] + rest), flags
    ensures var (t', rest', values') := Finalize(t, rest, old(flags.values));
            && p == t'.key && p.Fields() == t'.info && p.parent == old(p.parent)
            && Linked(p.list, t'.kids, p, null) && Linked(p.next, rest', p.parent, null)
            && calls == Order([t']) && flags.values == values'
    decreases MenuForest.Size(t) + Sizes(rest), 0
  {
    hide Linked, Distinct, Finalize, Third, FinalizeAll, Absorb, Propagate, Entries, NestsUnder, Order;
    ghost var below: Forest<Menu> := [];
    ghost var values := flags.values;
    assert ([t] + rest)[1..] == rest;
    DistinctConcat([t], rest);
    NodesConcat([t], rest);
    NodesOne(t);
    DistinctOne(t);
    NotEmpty(p.list, t.kids, p);
    Allocated(rest);
    FinalizeParts(t, rest, values);
    calls := [p];
    if p.list != null {
      ghost var more := FinalizeList(p, flags, t.kids);
      calls := calls + more;
      below := FinalizeAll(Propagate(t.info, t.kids), values).0;
    } else if p.sym.Some? {
      ghost var more := NestFollowing(p, flags, rest);
      calls := calls + more;
      below := Absorb(t.info, rest, values).0;
    } else {
      None(null, p);
      NoOrder<Menu>();
      NothingBelow<Menu>(t.info, values);
    }
    ThirdOrder(t.info, below, flags.values);
    SpliceBelow(p, flags, below);
    OrderOne(Finalize(t, rest, values).0);
  }

  /** The three cases of Finalize. */
  lemma FinalizeParts<K>(t: Tree<K>, rest: Forest<K>, values: set<Sym>)
    ensures t.kids != [] ==>
      var (kids, values1) := FinalizeAll(Propagate(t.info, t.kids), values);
      var (kids', values') := Third(t.info, kids, values1);
      Finalize(t, rest, values) == (t.(kids := kids'), rest, values')
    ensures t.kids == [] && t.info.sym.Some? ==>
      var (nested, rest', values1) := Absorb(t.info, rest, values);
      var (kids', values') := Third(t.info, nested, values1);
      Finalize(t, rest, values) == (t.(kids := kids'), rest', values')
    ensures t.kids == [] && t.info.sym.None? ==> Finalize(t, rest, values) == (t, rest, values)
  {
  }

  lemma NothingBelow<K>(p: Info, values: set<Sym>)
    ensures Third<K>(p, [], values) == ([], values)
  {
  }

  /** The first part of menu_finalize, for an entry with a list. */
  method FinalizeList(p: Menu, flags: Flags, ghost f: Forest<Menu>) returns (ghost calls: seq<Menu>)
    requires p !in Nodes(f) && Distinct(f) && Linked(p.list, f, p, null)
    modifies Nodes(f), flags
    ensures var (f', values') := FinalizeAll(Propagate(p.Fields(), f), old(flags.values));
            && Linked(p.list, f', p, null) && Nodes(f') == Nodes(f) && Distinct(f') && calls == Order(f')
            && flags.values == values'
    decreases Sizes(f), 3
  {
    hide Linked, Distinct, FinalizeAll, Propagate, Order;
    HandDownAll(p, f);
    PropagateNodes(p.Fields(), f);
    calls := FinalizeEntries(p, flags, Propagate(p.Fields(), f));
  }

  /** The second half of the first loop. */
  method FinalizeEntries(p: Menu, flags: Flags, ghost f: Forest<Menu>) returns (ghost calls: seq<Menu>)
    requires p !in Nodes(f) && Distinct(f) && Linked(p.list, f, p, null)
    modifies Nodes(f), flags
    ensures var (f', values') := FinalizeAll(f, old(flags.values));
            && Linked(p.list, f', p, null) && Nodes(f') == Nodes(f) && Distinct(f') && calls == Order(f')
            && flags.values == values'
    decreases Sizes(f), 2
  {
    hide Linked, Distinct, Split, Finalize, FinalizeAll, Order;
    ghost var values := flags.values;
    var menu := p.list;
    ghost var done, ahead: Forest<Menu> := [], f;
    calls := [];
    NoOrder<Menu>();
    Start(p.list, f, p, p);
    assert [] + FinalizeAll(f, values).0 == FinalizeAll(f, values).0;
    while menu != null
      invariant Split(Nodes(f), p.list, done, p, menu, ahead, p)
      invariant FinalizeAll(f, values) ==
                (done + FinalizeAll(ahead, flags.values).0, FinalizeAll(ahead, flags.values).1)
      invariant calls == Order(done)
      invariant Sizes(ahead) <= Sizes(f)
      decreases Sizes(ahead)
    {
      AtCut(Nodes(f), p.list, done, p, menu, ahead, p);
      FinalizeAllStep(done, ahead, flags.values);
      ghost var (t', rest', _) := Finalize(ahead[0], ahead[1..], flags.values);
      ghost var more := FinalizeAt(p, flags, Nodes(f), done, menu, ahead);
      OrderConcat(done, [t']);
      calls := calls + more;
      done, ahead := done + [t'], rest';
      menu := menu.next;
    }
    FinalizeAllStep(done, ahead, flags.values);
    Finished(Nodes(f), p.list, done, p, ahead, p);
  }

  /** One turn of it. */
  method FinalizeAt(p: Menu, flags: Flags, ghost all: set<Menu>, ghost done: Forest<Menu>, menu: Menu,
                    ghost ahead: Forest<Menu>)
    returns (ghost calls: seq<Menu>)
    requires p !in all && Split(all, p.list, done, p, menu, ahead, p)
    modifies all, flags
    ensures ahead != [] && var (t, rest, values') := Finalize(ahead[0], ahead[1..], old(flags.values));
            && Split(all, p.list, done + [t], p, menu.next, rest, p)
            && calls == Order([t]) && flags.values == values'
    decreases Sizes(ahead), 1
  {
    hide Linked, Distinct, Finalize, Order;
    Front(menu, ahead, p);
    assert ahead == [ahead[0]] + ahead[1..];
    FinalizeNodes(ahead[0], ahead[1..], flags.values);
    ghost var (t, rest, _) := Finalize(ahead[0], ahead[1..], flags.values);
    calls := FinalizeMenu(menu, flags, ahead[0], ahead[1..]);
    NodesOne(t);
    DistinctOne(t);
    Step(all, p.list, done, p, menu, t, rest, p);
  }

  /** One entry that belongs below p. */
  method NestOne(p: Menu, flags: Flags, menu: Menu, ghost t: Tree<Menu>, ghost rest: Forest<Menu>)
    returns (ghost calls: seq<Menu>)
    requires menu == t.key && menu.Fields() == t.info && Distinct([t] + rest)
    requires Linked(menu.list, t.kids, menu, null) && Linked(menu.next, rest, menu.parent, null)
    modifies Nodes([t] + rest), flags
    ensures var (t', rest', values') := Finalize(t, rest, old(flags.values));
            && menu == t'.key && menu.Fields() == t'.info && menu.parent == p
            && Linked(menu.list, t'.kids, menu, null) && Linked(menu.next, rest', old(menu.parent), null)
            && calls == Order([t']) && flags.values == values'
            && menu !in Nodes(t'.kids) && Distinct(t'.kids) && Distinct(rest')
            && {menu} + Nodes(t'.kids) !! Nodes(rest')
            && {menu} + Nodes(t'.kids) + Nodes(rest') == Nodes([t] + rest)
    decreases MenuForest.Size(t) + Sizes(rest), 1
  {
    hide Linked, Distinct, Finalize, Order;
    FinalizeNodes(t, rest, flags.values);
    ghost var (t', rest', _) := Finalize(t, rest, flags.values);
    calls := FinalizeMenu(menu, flags, t, rest);
    NodesOne(t');
    DistinctOne(t');
    Allocated(t'.kids);
    Allocated(rest');
    menu.parent := p;
  }

  /** The same, with the entries done so far and those that follow. */
  method NestAt(p: Menu, flags: Flags, ghost all: set<Menu>, ghost nested: Forest<Menu>, menu: Menu,
                ghost ahead: Forest<Menu>)
    returns (ghost calls: seq<Menu>)
    requires p !in all && Split(all, p.next, nested, p, menu, ahead, p.parent)
    modifies all, flags
    ensures ahead != [] && var (t, rest, values') := Finalize(ahead[0], ahead[1..], old(flags.values));
            && t.key == menu && Split(all, p.next, nested + [t], p, menu.next, rest, p.parent)
            && calls == Order([t]) && flags.values == values'
    decreases Sizes(ahead), 2
  {
    hide Linked, Distinct, Finalize, Order;
    Front(menu, ahead, p.parent);
    assert ahead == [ahead[0]] + ahead[1..];
    ghost var (t, rest, _) := Finalize(ahead[0], ahead[1..], flags.values);
    calls := NestOne(p, flags, menu, ahead[0], ahead[1..]);
    assert Linked(p.next, nested, p, menu);
    Step(all, p.next, nested, p, menu, t, rest, p.parent);
  }

  /** The second loop: the following entries that belong below p are finalised there. */
  method NestEntries(p: Menu, flags: Flags, ghost rest: Forest<Menu>)
    returns (last: Menu?, ghost nested: Forest<Menu>, ghost ahead: Forest<Menu>, ghost calls: seq<Menu>)
    requires p !in Nodes(rest) && Distinct(rest) && p.sym.Some? && Linked(p.next, rest, p.parent, null)
    modifies Nodes(rest), flags
    ensures Absorb(p.Fields(), rest, old(flags.values)) == (nested, ahead, flags.values) && calls == Order(nested)
    ensures if last == null then nested == [] else nested != [] && last == nested[|nested| - 1].key
    ensures Split(Nodes(rest), p.next, nested, p, if last == null then p.next else last.next, ahead, p.parent)
    decreases Sizes(rest), 3
  {
    hide Linked, Distinct, Split, Finalize, Absorb, Order, NestsUnder;
    calls := [];
    ghost var info, values := p.Fields(), flags.values;
    nested, ahead, last := [], rest, null;
    var menu := p.next;
    NoOrder<Menu>();
    Absorbing(info, rest, values);
    Start(p.next, rest, p, p.parent);
    while menu != null && NestsUnder(p.Fields(), menu.Fields())
      invariant Split(Nodes(rest), p.next, nested, p, menu, ahead, p.parent)
      invariant Absorb(info, rest, values) == Absorbed(info, nested, ahead, flags.values)
      invariant last == null ==> nested == [] && menu == p.next
      invariant last != null ==> nested != [] && last == nested[|nested| - 1].key
      invariant calls == Order(nested) && Sizes(ahead) <= Sizes(rest)
      decreases Sizes(ahead)
    {
      AtCut(Nodes(rest), p.next, nested, p, menu, ahead, p.parent);
      AbsorbStep(info, nested, ahead, flags.values);
      ghost var (t', others', _) := Finalize(ahead[0], ahead[1..], flags.values);
      ghost var more := NestAt(p, flags, Nodes(rest), nested, menu, ahead);
      OrderConcat(nested, [t']);
      calls := calls + more;
      nested, ahead := nested + [t'], others';
      last := menu;
      menu := menu.next;
    }
    AbsorbEnd(Nodes(rest), p, nested, ahead, flags.values, menu);
    if last != null {
      LastNext(Nodes(rest), p.next, nested, p, menu, ahead, p.parent);
    }
  }

  /** The second part of menu_finalize, for an entry without a list: what belongs below p goes
      there, and p takes over the chain up to the last of these entries. */
  method NestFollowing(p: Menu, flags: Flags, ghost rest: Forest<Menu>) returns (ghost calls: seq<Menu>)
    requires p !in Nodes(rest) && Distinct(rest) && p.sym.Some? && p.list == null
    requires Linked(p.next, rest, p.parent, null)
    modifies p`list, p`next, Nodes(rest), flags
    ensures var (nested, rest', values') := Absorb(p.Fields(), rest, old(flags.values));
            && Linked(p.list, nested, p, null) && Linked(p.next, rest', p.parent, null)
            && Nodes(nested) !! Nodes(rest') && Nodes(nested) + Nodes(rest') == Nodes(rest) && Distinct(nested)
            && calls == Order(nested) && flags.values == values'
    decreases Sizes(rest), 4
  {
    hide Linked, Distinct, Absorb, Order;
    var last;
    ghost var nested, ahead;
    last, nested, ahead, calls := NestEntries(p, flags, rest);
    if last != null {
      LastNode(nested);
      TakeOver(p, nested, ahead, last, last.next);
    } else {
      None(null, p);
    }
  }

  lemma LastNode(f: Forest<Menu>)
    requires f != []
    ensures f[|f| - 1].key in Nodes(f)
  {
    assert f == f[..|f| - 1] + [f[|f| - 1]];
    NodesConcat(f[..|f| - 1], [f[|f| - 1]]);
  }

  /** The chain after p up to last becomes the list of p. */
  method TakeOver(p: Menu, ghost nested: Forest<Menu>, ghost ahead: Forest<Menu>, last: Menu, ghost menu: Menu?)
    requires nested != [] && last == nested[|nested| - 1].key && p !in Nodes(nested) + Nodes(ahead)
    requires Split(Nodes(nested) + Nodes(ahead), p.next, nested, p, menu, ahead, p.parent)
    modifies p`list, p`next, last`next
    ensures Linked(p.list, nested, p, null) && Linked(p.next, ahead, p.parent, null)
  {
    hide Linked, Distinct;
    Allocated(nested);
    Allocated(ahead);
    NotEmptyUpTo(p.next, nested, p, menu);
    Tail(p.next, nested, p, menu);
    p.list := p.next;
    p.next := last.next;
    SetEnd(p.list, nested, p, menu, last, null);
  }

  lemma NotEmptyUpTo(first: Menu?, f: Forest<Menu>, parent: Menu?, end: Menu?)
    requires Linked(first, f, parent, end) && f != []
    ensures first != null
  {
  }

  /** What the second loop comes to when it has nested these entries and those are still ahead. */
  function Absorbed<K>(p: Info, nested: Forest<K>, ahead: Forest<K>, values: set<Sym>): (Forest<K>, Forest<K>, set<Sym>)
    requires p.sym.Some?
  {
    var (more, rest, values') := Absorb(p, ahead, values);
    (nested + more, rest, values')
  }

  lemma Absorbing(p: Info, rest: Forest<Menu>, values: set<Sym>)
    requires p.sym.Some?
    ensures Absorbed(p, [], rest, values) == Absorb(p, rest, values)
  {
    hide Absorb;
    assert [] + Absorb(p, rest, values).0 == Absorb(p, rest, values).0;
  }

  lemma AbsorbStep(p: Info, nested: Forest<Menu>, ahead: Forest<Menu>, values: set<Sym>)
    requires p.sym.Some? && ahead != [] && NestsUnder(p, ahead[0].info)
    ensures var (t, rest, values1) := Finalize(ahead[0], ahead[1..], values);
      && Absorbed(p, nested, ahead, values) == Absorbed(p, nested + [t], rest, values1)
      && Sizes(rest) < Sizes(ahead)
      && Sizes(ahead) == MenuForest.Size(ahead[0]) + Sizes(ahead[1..])
  {
    hide NestsUnder, Finalize;
    var (t, rest, values1) := Finalize(ahead[0], ahead[1..], values);
    assert Absorb(p, ahead, values).0 == [t] + Absorb(p, rest, values1).0;
    assert nested + ([t] + Absorb(p, rest, values1).0) == (nested + [t]) + Absorb(p, rest, values1).0;
  }

  lemma AbsorbEnd(all: set<Menu>, p: Menu, nested: Forest<Menu>, ahead: Forest<Menu>, values: set<Sym>, menu: Menu?)
    requires Split(all, p.next, nested, p, menu, ahead, p.parent)
    requires p.sym.Some? && (menu == null || !NestsUnder(p.Fields(), menu.Fields()))
    ensures Absorbed(p.Fields(), nested, ahead, values) == (nested, ahead, values)
  {
    hide NestsUnder;
    assert nested + Absorb(p.Fields(), ahead, values).0 == nested;
  }

  lemma LastNext(all: set<Menu>, first: Menu?, done: Forest<Menu>, dp: Menu?, mid: Menu?,
                 ahead: Forest<Menu>, tp: Menu?)
    requires Split(all, first, done, dp, mid, ahead, tp) && done != []
    ensures done[|done| - 1].key.next == mid
  {
    hide Distinct, Linked;
    Tail(first, done, dp, mid);
  }
}
