/** What menu_finalize (scripts/config/menu.c) makes of the menu tree, as a function on trees:
    conditions are handed down, entries that depend on the one before them become its submenu,
    and the entries of a menu without prompt move up behind it. */
module MenuForest {
  import opened Common
  import opened Expressions
  import opened Cancelling
  import opened Submenu

  /** The parts of struct menu that menu_finalize works on: the symbol, the dependency, the condition
      of the prompt if there is one, and those of the other properties written with the entry. A
      choice that is written without a type only gets the one of its values after its own conditions
      have been handed down. */
  datatype Info = Info(sym: Option<Sym>, typed: bool, dep: Dep, prompt: Option<Dep>, others: seq<Dep>)
  {
    /** The condition under which the entry is shown. */
    function Shown(): Dep { if prompt.Some? then prompt.value else dep }

    /** The condition its entries inherit. */
    function Inherited(): Dep
    {
      if sym.Some? && sym.value.Choice? then Some(Var(sym.value)) else Shown()
    }

    /** The condition under which the prompt itself is visible; none without a prompt. */
    function Visible(): Dep { if prompt.Some? then prompt.value else None }

    /** The symbol is known to be a tristate when conditions are handed down. */
    predicate Tristate() { sym.Some? ==> typed && sym.value.Type() == Tri }
  }

  /** A menu entry, identified by a key, with the entries below it. */
  datatype Tree<K> = Node(key: K, info: Info, kids: seq<Tree<K>>)

  type Forest<K> = seq<Tree<K>>

  /** Number of entries. */
  function Sizes<K>(f: Forest<K>): nat
  {
    if f == [] then 0 else 1 + Sizes(f[0].kids) + Sizes(f[1..])
  }

  function Size<K>(t: Tree<K>): nat { 1 + Sizes(t.kids) }

  lemma {:induction false} SizesConcat<K>(f: Forest<K>, g: Forest<K>)
    ensures Sizes(f + g) == Sizes(f) + Sizes(g)
  {
    if f == [] {
      assert f + g == g;
    } else {
      assert (f + g)[1..] == f[1..] + g;
      SizesConcat(f[1..], g);
    }
  }

  /** All entries in preorder, with their conditions. */
  function Entries<K>(f: Forest<K>): seq<(K, Info)>
    decreases Sizes(f)
  {
    if f == [] then [] else [(f[0].key, f[0].info)] + Entries(f[0].kids) + Entries(f[1..])
  }

  lemma {:induction false} EntriesConcat<K>(f: Forest<K>, g: Forest<K>)
    ensures Entries(f + g) == Entries(f) + Entries(g)
    decreases |f|
  {
    if f == [] {
      assert f + g == g;
    } else {
      assert (f + g)[1..] == f[1..] + g;
      EntriesConcat(f[1..], g);
    }
  }

  // ----- the parts of menu_finalize -----

  /** The first loop: the conditions of one entry below an entry with info p. */
  function Conditioned(p: Info, i: Info): Info
  {
    var dep := HandDown(p.Inherited(), i.dep);
    i.(dep := dep,
       prompt := if i.prompt.Some? then Some(HandDownProperty(dep, i.prompt.value, i.Tristate())) else None,
       others := ConditionedAll(dep, i.others, i.Tristate()))
  }

  /** The same for the other properties. */
  function ConditionedAll(dep: Dep, ds: seq<Dep>, tristate: bool): (r: seq<Dep>)
    ensures |r| == |ds| && forall k :: 0 <= k < |ds| ==> r[k] == HandDownProperty(dep, ds[k], tristate)
  {
    seq(|ds|, k requires 0 <= k < |ds| => HandDownProperty(dep, ds[k], tristate))
  }

  function Propagate<K>(p: Info, f: Forest<K>): (r: Forest<K>)
    ensures |r| == |f| && Sizes(r) == Sizes(f)
  {
    if f == [] then []
    else [f[0].(info := Conditioned(p, f[0].info))] + Propagate(p, f[1..])
  }

  /** The test of the second loop. */
  predicate NestsUnder(p: Info, i: Info)
    requires p.sym.Some?
  {
    Nests(p.sym.value, p.Visible(), i.Shown())
  }

  /** The third loop: the entries of an entry without prompt move up behind it. */
  function Splice<K>(f: Forest<K>): (r: Forest<K>)
    ensures Sizes(r) == Sizes(f)
    decreases Sizes(f)
  {
    if f == [] then []
    else if f[0].kids != [] && f[0].info.prompt.None? then
      SizesConcat(f[0].kids, f[1..]);
      [f[0].(kids := [])] + Splice(f[0].kids + f[1..])
    else [f[0]] + Splice(f[1..])
  }

  /** An entry that has to wait for the choice c to be y. */
  function Guarded(c: Sym, i: Info): Info
  {
    var y := Some(Comp(Equal, c, ConstY));
    i.(dep := AllocAnd(y, i.dep),
       prompt := if i.prompt.Some? then Some(AllocAnd(y, i.prompt.value)) else None,
       others := GuardedAll(y, i.others))
  }

  function GuardedAll(y: Dep, ds: seq<Dep>): (r: seq<Dep>)
    ensures |r| == |ds| && forall k :: 0 <= k < |ds| ==> r[k] == AllocAnd(y, ds[k])
  {
    seq(|ds|, k requires 0 <= k < |ds| => AllocAnd(y, ds[k]))
  }

  /** Such an entry has its own conditions while the choice is y, and is not available otherwise. */
  lemma GuardedMeaning(env: Env, c: Sym, i: Info)
    requires ValidEnv(env) && c.Choice?
    ensures var (j, y) := (Guarded(c, i), env.tri(c) == YES);
            && EvalDep(env, j.dep) == (if y then EvalDep(env, i.dep) else NO)
            && (i.prompt.Some? ==> EvalDep(env, j.prompt.value) == if y then EvalDep(env, i.prompt.value) else NO)
            && forall k :: 0 <= k < |i.others| ==>
                 EvalDep(env, j.others[k]) == if y then EvalDep(env, i.others[k]) else NO
  {
    hide Compare;
    LiteralValues(env);
    CompareLiteral(env, c, ConstY);
    assert Eval(env, Comp(Equal, c, ConstY)) == if env.tri(c) == YES then YES else NO;
  }

  /** The values of a tristate choice that are no tristates wait for it to be y. */
  predicate Waits(c: Sym, s: Sym) { c.Choice? && c.Type() == Tri && s.Type() != Tri }

  /** The third loop at one entry below an entry with info p, as far as choices go: below a choice
      the symbol becomes a choice value, unless it is one already. */
  function Mark(p: Info, i: Info, values: set<Sym>): (r: (Info, set<Sym>))
    ensures r.0.sym == i.sym && r.0.prompt.Some? == i.prompt.Some?
  {
    if p.sym.None? || !p.sym.value.Choice? || i.sym.None? || i.sym.value in values then (i, values)
    else (if Waits(p.sym.value, i.sym.value) then Guarded(p.sym.value, i) else i, values + {i.sym.value})
  }

  function MarkAll<K>(p: Info, f: Forest<K>, values: set<Sym>): (r: (Forest<K>, set<Sym>))
    ensures |r.0| == |f| && Sizes(r.0) == Sizes(f)
  {
    if f == [] then ([], values)
    else
      var (i, values1) := Mark(p, f[0].info, values);
      var (rest, values2) := MarkAll(p, f[1..], values1);
      ([f[0].(info := i)] + rest, values2)
  }

  /** menu_finalize on an entry and the entries that follow it: what the entry becomes, which of the
      others still follow it, and which symbols are choice values then. */
  function Finalize<K>(t: Tree<K>, rest: Forest<K>, values: set<Sym>): (r: (Tree<K>, Forest<K>, set<Sym>))
    ensures Size(r.0) + Sizes(r.1) == Size(t) + Sizes(rest)
    decreases Size(t) + Sizes(rest), 0
  {
    if t.kids != [] then
      var (kids, values1) := FinalizeAll(Propagate(t.info, t.kids), values);
      var (kids', values') := MarkAll(t.info, Splice(kids), values1);
      (t.(kids := kids'), rest, values')
    else if t.info.sym.Some? then
      var (nested, rest', values1) := Absorb(t.info, rest, values);
      var (kids', values') := MarkAll(t.info, Splice(nested), values1);
      (t.(kids := kids'), rest', values')
    else (t, rest, values)
  }

  /** The calls for the entries of a menu, each of which may take the next ones away. */
  function FinalizeAll<K>(f: Forest<K>, values: set<Sym>): (r: (Forest<K>, set<Sym>))
    ensures Sizes(r.0) == Sizes(f)
    decreases Sizes(f), 1
  {
    if f == [] then ([], values)
    else
      var (t, rest, values1) := Finalize(f[0], f[1..], values);
      var (rest', values') := FinalizeAll(rest, values1);
      ([t] + rest', values')
  }

  /** The second loop: the entries that become the submenu, and the remaining ones. */
  function Absorb<K>(p: Info, rest: Forest<K>, values: set<Sym>): (r: (Forest<K>, Forest<K>, set<Sym>))
    requires p.sym.Some?
    ensures Sizes(r.0) + Sizes(r.1) == Sizes(rest)
    decreases Sizes(rest), 1
  {
    if rest == [] || !NestsUnder(p, rest[0].info) then ([], rest, values)
    else
      var (t, rest1, values1) := Finalize(rest[0], rest[1..], values);
      var (nested, rest2, values2) := Absorb(p, rest1, values1);
      ([t] + nested, rest2, values2)
  }

  // ----- what every entry ends up with -----

  /** The tree as it was read, with the conditions that every entry ends up with: its own ones
      under those of the entry it was written in. */
  function Spread<K>(t: Tree<K>): (r: Tree<K>)
    ensures Size(r) == Size(t)
    decreases Size(t), 0
  {
    t.(kids := SpreadAll(Propagate(t.info, t.kids)))
  }

  function SpreadAll<K>(f: Forest<K>): (r: Forest<K>)
    ensures Sizes(r) == Sizes(f) && |r| == |f|
    decreases Sizes(f), 1
  {
    if f == [] then [] else [Spread(f[0])] + SpreadAll(f[1..])
  }

  lemma {:induction false} SpreadAllConcat<K>(f: Forest<K>, g: Forest<K>)
    ensures SpreadAll(f + g) == SpreadAll(f) + SpreadAll(g)
    decreases |f|
  {
    hide Spread;
    if f == [] {
      assert f + g == g;
    } else {
      assert (f + g)[1..] == f[1..] + g;
      SpreadAllConcat(f[1..], g);
    }
  }

  lemma {:induction false} SpliceKeeps<K>(f: Forest<K>)
    ensures Entries(Splice(f)) == Entries(f)
    decreases Sizes(f)
  {
    if f != [] {
      if f[0].kids != [] && f[0].info.prompt.None? {
        SizesConcat(f[0].kids, f[1..]);
        SpliceKeeps(f[0].kids + f[1..]);
        EntriesConcat(f[0].kids, f[1..]);
        assert Splice(f)[1..] == Splice(f[0].kids + f[1..]);
      } else {
        SpliceKeeps(f[1..]);
        assert Splice(f)[1..] == Splice(f[1..]);
      }
    }
  }

  // ----- choice values -----

  /** Entry for entry the same, but some have come to wait for a choice: only entries of symbols
      that became choice values in between, and at most one entry of each symbol. */
  ghost predicate Marked<K>(a: seq<(K, Info)>, before: set<Sym>, b: seq<(K, Info)>, after: set<Sym>)
  {
    && |a| == |b| && before <= after
    && (forall i :: 0 <= i < |a| ==> a[i].0 == b[i].0 && MarkedOne(a[i].1, before, b[i].1, after))
    && (forall i, j :: 0 <= i < j < |a| && a[i].1 != b[i].1 && a[j].1 != b[j].1 ==> a[i].1.sym != a[j].1.sym)
  }

  ghost predicate MarkedOne(x: Info, before: set<Sym>, y: Info, after: set<Sym>)
  {
    x == y ||
    (x.sym.Some? && x.sym.value in after - before && exists c: Sym :: Waits(c, x.sym.value) && y == Guarded(c, x))
  }

  lemma MarkedSelf<K>(a: seq<(K, Info)>, values: set<Sym>)
    ensures Marked(a, values, a, values)
  {
  }

  lemma MarkedConcat<K>(a: seq<(K, Info)>, v0: set<Sym>, b: seq<(K, Info)>, v1: set<Sym>,
                        c: seq<(K, Info)>, d: seq<(K, Info)>, v2: set<Sym>)
    requires Marked(a, v0, b, v1) && Marked(c, v1, d, v2)
    ensures Marked(a + c, v0, b + d, v2)
  {
    hide MarkedOne;
    var (x, y) := (a + c, b + d);
    forall i | 0 <= i < |x|
      ensures x[i].0 == y[i].0 && MarkedOne(x[i].1, v0, y[i].1, v2)
    {
      if i < |a| {
        MarkedWider(a[i].1, v0, v1, b[i].1, v0, v2);
      } else {
        MarkedWider(c[i - |a|].1, v1, v2, d[i - |a|].1, v0, v2);
      }
    }
    forall i, j | 0 <= i < j < |x| && x[i].1 != y[i].1 && x[j].1 != y[j].1
      ensures x[i].1.sym != x[j].1.sym
    {
      if i < |a| <= j {
        MarkedSym(a[i].1, v0, b[i].1, v1);
        MarkedSym(c[j - |a|].1, v1, d[j - |a|].1, v2);
      }
    }
  }

  lemma MarkedWider(x: Info, v0: set<Sym>, v1: set<Sym>, y: Info, w0: set<Sym>, w1: set<Sym>)
    requires MarkedOne(x, v0, y, v1) && w0 <= v0 <= v1 <= w1
    ensures MarkedOne(x, w0, y, w1)
  {
  }

  lemma MarkedSym(x: Info, v0: set<Sym>, y: Info, v1: set<Sym>)
    requires MarkedOne(x, v0, y, v1)
    ensures y.sym == x.sym
    ensures x != y ==> x.sym.Some? && x.sym.value in v1 && x.sym.value !in v0
  {
  }

  /** Two passes in a row. */
  lemma MarkedTwice<K>(a: seq<(K, Info)>, v0: set<Sym>, b: seq<(K, Info)>, v1: set<Sym>,
                       c: seq<(K, Info)>, v2: set<Sym>)
    requires Marked(a, v0, b, v1) && Marked(b, v1, c, v2)
    ensures Marked(a, v0, c, v2)
  {
    hide MarkedOne;
    forall i | 0 <= i < |a|
      ensures a[i].0 == c[i].0 && MarkedOne(a[i].1, v0, c[i].1, v2) && b[i].1.sym == a[i].1.sym
      ensures a[i].1 == b[i].1 || b[i].1 == c[i].1
    {
      MarkedSym(a[i].1, v0, b[i].1, v1);
      MarkedSym(b[i].1, v1, c[i].1, v2);
      if a[i].1 == b[i].1 {
        MarkedWider(b[i].1, v1, v2, c[i].1, v0, v2);
      } else {
        MarkedWider(a[i].1, v0, v1, b[i].1, v0, v2);
      }
    }
    forall i, j | 0 <= i < j < |a| && a[i].1 != c[i].1 && a[j].1 != c[j].1
      ensures a[i].1.sym != a[j].1.sym
    {
      MarkedSym(a[i].1, v0, b[i].1, v1);
      MarkedSym(b[i].1, v1, c[i].1, v2);
      MarkedSym(a[j].1, v0, b[j].1, v1);
      MarkedSym(b[j].1, v1, c[j].1, v2);
    }
  }

  lemma MarkOne<K>(k: K, p: Info, i: Info, values: set<Sym>)
    ensures var (j, values') := Mark(p, i, values); Marked([(k, i)], values, [(k, j)], values')
  {
  }

  /** The third loop marks entries of the list only, and leaves the lists below them alone. */
  lemma {:induction false} MarkAllMarked<K>(p: Info, f: Forest<K>, values: set<Sym>)
    ensures var (g, values') := MarkAll(p, f, values); Marked(Entries(f), values, Entries(g), values')
  {
    hide Marked, Mark;
    if f == [] {
      MarkedSelf<K>([], values);
    } else {
      var (i, values1) := Mark(p, f[0].info, values);
      var (rest, values2) := MarkAll(p, f[1..], values1);
      var kids := Entries(f[0].kids);
      MarkOne(f[0].key, p, f[0].info, values);
      MarkedSelf(kids, values1);
      MarkedConcat([(f[0].key, f[0].info)], values, [(f[0].key, i)], values1, kids, kids, values1);
      MarkAllMarked(p, f[1..], values1);
      MarkedConcat([(f[0].key, f[0].info)] + kids, values, [(f[0].key, i)] + kids, values1,
                   Entries(f[1..]), Entries(rest), values2);
      assert ([f[0].(info := i)] + rest)[1..] == rest;
    }
  }

  /** The symbols of the entries of a list. */
  function Symbols<K>(f: Forest<K>): set<Sym>
  {
    if f == [] then {} else (if f[0].info.sym.Some? then {f[0].info.sym.value} else {}) + Symbols(f[1..])
  }

  /** Below a choice every symbol of the list becomes a choice value, and its first entry waits for
      the choice if it has to and was not a choice value before; elsewhere nothing happens. */
  lemma {:induction false} MarkAllExact<K>(p: Info, f: Forest<K>, values: set<Sym>)
    ensures var (g, values') := MarkAll(p, f, values);
            && values' == (if p.sym.Some? && p.sym.value.Choice? then values + Symbols(f) else values)
            && forall i :: 0 <= i < |f| ==> g[i] == MarkedAt(p, f[i], values + Symbols(f[..i]))
  {
    hide MarkedAt;
    if f != [] {
      var (v, values1) := Mark(p, f[0].info, values);
      var (rest, values2) := MarkAll(p, f[1..], values1);
      MarkAllExact(p, f[1..], values1);
      forall i | 0 <= i < |f|
        ensures MarkAll(p, f, values).0[i] == MarkedAt(p, f[i], values + Symbols(f[..i]))
      {
        MarkFirst(p, f, values, i);
      }
    }
  }

  /** An entry of a list, when these symbols have been seen. */
  function MarkedAt<K>(p: Info, t: Tree<K>, seen: set<Sym>): Tree<K>
  {
    if t.info.sym.Some? && t.info.sym.value !in seen && p.sym.Some? && Waits(p.sym.value, t.info.sym.value)
    then t.(info := Guarded(p.sym.value, t.info)) else t
  }

  lemma MarkFirst<K>(p: Info, f: Forest<K>, values: set<Sym>, i: nat)
    requires i < |f|
    ensures var (v, values1) := Mark(p, f[0].info, values);
            && f[0].(info := v) == MarkedAt(p, f[0], values + Symbols(f[..0]))
            && (i > 0 ==> MarkedAt(p, f[i], values + Symbols(f[..i]))
                          == MarkedAt(p, f[1..][i - 1], values1 + Symbols(f[1..][..i - 1])))
  {
    assert f[..0] == [];
    if i > 0 { assert f[..i][1..] == f[1..][..i - 1]; }
  }

  // ----- nothing is lost, duplicated or reordered -----

  /** How many of the following entries were taken away. */
  function Taken<K>(rest: Forest<K>, rest': Forest<K>): int { |rest| - |rest'| }

  /** The result holds exactly the entry and the following ones it has taken away, in the order
      in which they were written, with the conditions handed down once, and choice values marked. */
  ghost predicate Keeps<K>(t: Tree<K>, rest: Forest<K>, values: set<Sym>,
                           t': Tree<K>, rest': Forest<K>, values': set<Sym>)
  {
    && |rest'| <= |rest| && rest' == rest[Taken(rest, rest')..]
    && Marked(Entries(SpreadAll([t] + rest[..Taken(rest, rest')])), values, Entries([t']), values')
  }

  lemma EntriesOne<K>(t: Tree<K>)
    ensures Entries([t]) == [(t.key, t.info)] + Entries(t.kids)
  {
  }

  /** The entry itself and its new list, spliced and marked. */
  lemma KeptBelow<K>(t: Tree<K>, kids: Forest<K>, entries: seq<(K, Info)>, values: set<Sym>, values1: set<Sym>)
    requires Marked(entries, values, Entries(kids), values1)
    ensures var (kids', values') := MarkAll(t.info, Splice(kids), values1);
            Marked([(t.key, t.info)] + entries, values, Entries([t.(kids := kids')]), values')
  {
    hide Marked, MarkAll, Splice, Entries;
    var (kids', values') := MarkAll(t.info, Splice(kids), values1);
    SpliceKeeps(kids);
    MarkAllMarked(t.info, Splice(kids), values1);
    MarkedTwice(entries, values, Entries(kids), values1, Entries(kids'), values');
    MarkedSelf([(t.key, t.info)], values);
    MarkedConcat([(t.key, t.info)], values, [(t.key, t.info)], values, entries, Entries(kids'), values');
    EntriesOne(t.(kids := kids'));
  }

  lemma {:induction false} FinalizeKeeps<K>(t: Tree<K>, rest: Forest<K>, values: set<Sym>)
    ensures var (t', rest', values') := Finalize(t, rest, values);
            Keeps(t, rest, values, t', rest', values') && t'.key == t.key && t'.info == t.info
    decreases Size(t) + Sizes(rest), 0
  {
    hide Marked, MarkAll, Splice, Entries, Propagate;
    var (t', rest', values') := Finalize(t, rest, values);
    EntriesOne(Spread(t));
    if t.kids != [] {
      var kids := Propagate(t.info, t.kids);
      FinalizeAllKeeps(kids, values);
      KeptBelow(t, FinalizeAll(kids, values).0, Entries(SpreadAll(kids)), values, FinalizeAll(kids, values).1);
      assert [t] + rest[..0] == [t] && SpreadAll([t]) == [Spread(t)];
    } else if t.info.sym.Some? {
      AbsorbKeeps(t.info, rest, values);
      var (nested, rest1, values1) := Absorb(t.info, rest, values);
      var n := Taken(rest, rest');
      KeptBelow(t, nested, Entries(SpreadAll(rest[..n])), values, values1);
      SpreadLeaf(t, rest[..n]);
    } else {
      assert [t] + rest[..0] == [t] && SpreadAll([t]) == [Spread(t)];
      SpreadLeaf(t, []);
      MarkedSelf(Entries([t]), values);
    }
  }

  lemma SpreadLeaf<K>(t: Tree<K>, rest: Forest<K>)
    requires t.kids == []
    ensures Spread(t) == t && Entries(SpreadAll([t] + rest)) == [(t.key, t.info)] + Entries(SpreadAll(rest))
  {
    assert ([t] + rest)[1..] == rest;
    assert SpreadAll([t] + rest) == [t] + SpreadAll(rest);
    EntriesConcat([t], SpreadAll(rest));
    EntriesOne(t);
  }

  /** Two neighbouring stretches of entries, each kept, are kept together. */
  lemma JoinKept<K>(front: Forest<K>, back: Forest<K>, v0: set<Sym>, front': Forest<K>, v1: set<Sym>,
                    back': Forest<K>, v2: set<Sym>)
    requires Marked(Entries(SpreadAll(front)), v0, Entries(front'), v1)
    requires Marked(Entries(SpreadAll(back)), v1, Entries(back'), v2)
    ensures Marked(Entries(SpreadAll(front + back)), v0, Entries(front' + back'), v2)
  {
    hide Marked, Entries, SpreadAll;
    EntriesConcat(front', back');
    SpreadAllConcat(front, back);
    EntriesConcat(SpreadAll(front), SpreadAll(back));
    MarkedConcat(Entries(SpreadAll(front)), v0, Entries(front'), v1, Entries(SpreadAll(back)), Entries(back'), v2);
  }

  lemma {:induction false} FinalizeAllKeeps<K>(f: Forest<K>, values: set<Sym>)
    ensures var (g, values') := FinalizeAll(f, values); Marked(Entries(SpreadAll(f)), values, Entries(g), values')
    decreases Sizes(f), 1
  {
    hide Entries, SpreadAll, Finalize, Marked;
    if f != [] {
      var (t, rest, values1) := Finalize(f[0], f[1..], values);
      FinalizeKeeps(f[0], f[1..], values);
      FinalizeAllKeeps(rest, values1);
      var front := [f[0]] + f[1..][..Taken(f[1..], rest)];
      assert f == front + rest;
      var (rest', values') := FinalizeAll(rest, values1);
      JoinKept(front, rest, values, [t], values1, rest', values');
    } else {
      NoEntries<K>();
      MarkedSelf<K>([], values);
    }
  }

  lemma NoEntries<K>()
    ensures SpreadAll<K>([]) == [] && Entries<K>([]) == []
  {
  }

  lemma TakenTwice<K>(rest: Forest<K>, rest1: Forest<K>, rest2: Forest<K>)
    requires rest != [] && |rest1| < |rest| && |rest2| <= |rest1|
    requires rest1 == rest[1..][Taken(rest[1..], rest1)..] && rest2 == rest1[Taken(rest1, rest2)..]
    ensures var n, m := Taken(rest[1..], rest1), Taken(rest1, rest2);
            rest[..Taken(rest, rest2)] == ([rest[0]] + rest[1..][..n]) + rest1[..m]
    ensures rest2 == rest[Taken(rest, rest2)..]
  {
  }

  lemma {:induction false} AbsorbKeeps<K>(p: Info, rest: Forest<K>, values: set<Sym>)
    requires p.sym.Some?
    ensures var (nested, rest', values') := Absorb(p, rest, values);
            && |rest'| <= |rest| && rest' == rest[Taken(rest, rest')..]
            && Marked(Entries(SpreadAll(rest[..Taken(rest, rest')])), values, Entries(nested), values')
    decreases Sizes(rest), 1
  {
    hide Entries, SpreadAll, Finalize, NestsUnder, Marked;
    if rest != [] && NestsUnder(p, rest[0].info) {
      var (t, rest1, values1) := Finalize(rest[0], rest[1..], values);
      var (nested, rest2, values2) := Absorb(p, rest1, values1);
      FinalizeKeeps(rest[0], rest[1..], values);
      AbsorbKeeps(p, rest1, values1);
      var n, m := Taken(rest[1..], rest1), Taken(rest1, rest2);
      var (front, back) := ([rest[0]] + rest[1..][..n], rest1[..m]);
      TakenTwice(rest, rest1, rest2);
      JoinKept(front, back, values, [t], values1, nested, values2);
    } else {
      assert rest[..0] == [];
      NoEntries<K>();
      MarkedSelf<K>([], values);
    }
  }

  /** The whole menu tree. */
  lemma FinalizeRoot<K>(root: Tree<K>, values: set<Sym>)
    ensures Finalize(root, [], values).1 == []
    ensures var (t, _, values') := Finalize(root, [], values);
            Marked(Entries([Spread(root)]), values, Entries([t]), values')
  {
    FinalizeKeeps(root, [], values);
    assert [root] + [] == [root] && SpreadAll([root]) == [Spread(root)];
  }

  // ----- what splicing leaves -----

  /** Every list belongs to an entry with a prompt, down to the leaves. */
  predicate Settled<K>(f: Forest<K>)
    decreases Sizes(f)
  {
    f != [] ==>
      && (f[0].kids != [] ==> f[0].info.prompt.Some?)
      && Settled(f[0].kids) && Settled(f[1..])
  }

  /** The same below the entries of a chain, but not yet for the entries themselves. */
  predicate SettledBelow<K>(f: Forest<K>)
  {
    f != [] ==> Settled(f[0].kids) && SettledBelow(f[1..])
  }

  lemma {:induction false} SettledConcat<K>(f: Forest<K>, g: Forest<K>)
    requires Settled(f) && SettledBelow(g)
    ensures SettledBelow(f + g)
    decreases |f|
  {
    if f == [] {
      assert f + g == g;
    } else {
      assert (f + g)[1..] == f[1..] + g;
      SettledConcat(f[1..], g);
    }
  }

  /** Splicing moves every list that has no prompt above it, and no other one. */
  lemma {:induction false} SpliceSettles<K>(f: Forest<K>)
    requires SettledBelow(f)
    ensures Settled(Splice(f)) && (Splice(f) == f <==> Settled(f))
    decreases Sizes(f)
  {
    if f != [] {
      if f[0].kids != [] && f[0].info.prompt.None? {
        SizesConcat(f[0].kids, f[1..]);
        SettledConcat(f[0].kids, f[1..]);
        SpliceSettles(f[0].kids + f[1..]);
        assert Splice(f)[1..] == Splice(f[0].kids + f[1..]);
        assert Splice(f)[0] != f[0];
      } else {
        SpliceSettles(f[1..]);
        assert Splice(f)[1..] == Splice(f[1..]);
      }
    }
  }

  /** After menu_finalize every list below an entry belongs to an entry with a prompt. */
  lemma {:induction false} FinalizeSettles<K>(t: Tree<K>, rest: Forest<K>, values: set<Sym>)
    ensures Settled(Finalize(t, rest, values).0.kids)
    decreases Size(t) + Sizes(rest), 0
  {
    hide Settled, Splice, MarkAll;
    if t.kids != [] {
      var (kids, values1) := FinalizeAll(Propagate(t.info, t.kids), values);
      FinalizeAllSettles(Propagate(t.info, t.kids), values);
      SpliceSettles(kids);
      MarkAllSettled(t.info, Splice(kids), values1);
    } else if t.info.sym.Some? {
      var (nested, rest', values1) := Absorb(t.info, rest, values);
      AbsorbSettles(t.info, rest, values);
      SpliceSettles(nested);
      MarkAllSettled(t.info, Splice(nested), values1);
    } else {
      NothingSettled<K>();
    }
  }

  lemma {:induction false} MarkAllSettled<K>(p: Info, f: Forest<K>, values: set<Sym>)
    ensures Settled(MarkAll(p, f, values).0) == Settled(f)
  {
    hide Mark;
    if f != [] {
      var (i, values1) := Mark(p, f[0].info, values);
      MarkAllSettled(p, f[1..], values1);
      assert MarkAll(p, f, values).0[1..] == MarkAll(p, f[1..], values1).0;
    }
  }

  lemma NothingSettled<K>()
    ensures Settled<K>([]) && SettledBelow<K>([])
  {
  }

  lemma {:induction false} FinalizeAllSettles<K>(f: Forest<K>, values: set<Sym>)
    ensures SettledBelow(FinalizeAll(f, values).0)
    decreases Sizes(f), 1
  {
    hide Settled, Finalize;
    if f != [] {
      var (t, rest, values1) := Finalize(f[0], f[1..], values);
      FinalizeSettles(f[0], f[1..], values);
      FinalizeAllSettles(rest, values1);
      assert FinalizeAll(f, values).0[1..] == FinalizeAll(rest, values1).0;
    }
  }

  lemma {:induction false} AbsorbSettles<K>(p: Info, rest: Forest<K>, values: set<Sym>)
    requires p.sym.Some?
    ensures SettledBelow(Absorb(p, rest, values).0)
    decreases Sizes(rest), 1
  {
    hide Settled, Finalize, NestsUnder;
    if rest != [] && NestsUnder(p, rest[0].info) {
      var (t, rest1, values1) := Finalize(rest[0], rest[1..], values);
      FinalizeSettles(rest[0], rest[1..], values);
      AbsorbSettles(p, rest1, values1);
      assert Absorb(p, rest, values).0[1..] == Absorb(p, rest1, values1).0;
    }
  }

  // ----- what nesting and conditions mean -----

  /** An entry becomes part of the submenu only if its condition says so, and the first entry
      that does not ends the submenu. */
  lemma {:induction false} AbsorbExact<K>(p: Info, rest: Forest<K>, values: set<Sym>)
    requires p.sym.Some?
    ensures var (nested, rest', _) := Absorb(p, rest, values);
            && (forall i :: 0 <= i < |nested| ==> NestsUnder(p, nested[i].info))
            && (rest' != [] ==> !NestsUnder(p, rest'[0].info))
    decreases Sizes(rest)
  {
    if rest != [] && NestsUnder(p, rest[0].info) {
      var (t, rest1, values1) := Finalize(rest[0], rest[1..], values);
      FinalizeKeeps(rest[0], rest[1..], values);
      AbsorbExact(p, rest1, values1);
    }
  }

  /** Automatic submenus are sound: an entry of the submenu can be shown only if the symbol it
      was nested under is set, or the prompt of that symbol is visible, depending on the test that
      took it in. The symbol may have any type. */
  lemma SubmenuSound<K>(env: Env, p: Info, rest: Forest<K>, values: set<Sym>, i: nat)
    requires ValidEnv(env) && p.sym.Some? && i < |Absorb(p, rest, values).0|
    requires EvalDep(env, Absorb(p, rest, values).0[i].info.Shown()) != NO
    ensures var (sym, shown) := (p.sym.value, Absorb(p, rest, values).0[i].info.Shown());
            && shown.Some?
            && (Depends(shown.value, sym) && Telling(sym) ==> env.tri(sym) != NO)
            && (!Depends(shown.value, sym) && Sharp(env, shown) && Sharp(env, p.Visible()) ==>
                  EvalDep(env, p.Visible()) != NO)
  {
    hide Absorb, Sharp, Depends, Contains;
    AbsorbExact(p, rest, values);
    NestsSound(env, p.sym.value, p.Visible(), Absorb(p, rest, values).0[i].info.Shown());
  }

  /** The same in every world at once, under a condition on the text of the two conditions. */
  lemma SubmenuSoundText<K>(p: Info, rest: Forest<K>, values: set<Sym>, i: nat)
    requires p.sym.Some? && i < |Absorb(p, rest, values).0|
    requires SharpText(Absorb(p, rest, values).0[i].info.Shown()) && SharpText(p.Visible())
    ensures var (sym, shown) := (p.sym.value, Absorb(p, rest, values).0[i].info.Shown());
            forall env: Env :: ValidEnv(env) && EvalDep(env, shown) != NO ==>
              && shown.Some?
              && if Depends(shown.value, sym) then Telling(sym) ==> env.tri(sym) != NO
                 else EvalDep(env, p.Visible()) != NO
  {
    hide Absorb, Sharp, SharpText, Depends;
    var shown := Absorb(p, rest, values).0[i].info.Shown();
    forall env: Env | ValidEnv(env) && EvalDep(env, shown) != NO
      ensures && shown.Some?
              && if Depends(shown.value, p.sym.value) then Telling(p.sym.value) ==> env.tri(p.sym.value) != NO
                 else EvalDep(env, p.Visible()) != NO
    {
      SubmenuSound(env, p, rest, values, i);
      SharpTextSharp(env, shown);
      SharpTextSharp(env, p.Visible());
    }
  }

  /** All conditions of an entry are well-typed. */
  predicate TypedInfo(i: Info)
  {
    && WellTyped(i.dep) && (i.prompt.Some? ==> WellTyped(i.prompt.value))
    && forall k :: 0 <= k < |i.others| ==> WellTyped(i.others[k])
  }

  /** All conditions written in a tree are well-typed. */
  predicate TypedForest<K>(f: Forest<K>)
    decreases Sizes(f)
  {
    f != [] ==>
      && TypedInfo(f[0].info)
      && TypedForest(f[0].kids) && TypedForest(f[1..])
  }

  /** An entry is available at most as much as the condition it inherits, and shown at most as much
      as it is available; and so are its other properties. */
  ghost predicate Ordered(env: Env, p: Info, i: Info)
  {
    && EvalDep(env, i.Shown()) <= EvalDep(env, i.dep) <= EvalDep(env, p.Inherited())
    && forall k :: 0 <= k < |i.others| ==> EvalDep(env, i.others[k]) <= EvalDep(env, i.dep)
  }

  /** So it is for every entry below an entry with info p, and so on further down. */
  ghost predicate Monotone<K>(env: Env, p: Info, f: Forest<K>)
    decreases Sizes(f)
  {
    f != [] ==>
      && Ordered(env, p, f[0].info)
      && Monotone(env, f[0].info, f[0].kids)
      && Monotone(env, p, f[1..])
  }

  lemma ConditionedMonotone(env: Env, p: Info, i: Info)
    requires ValidEnv(env) && ShallowDep(p.Inherited())
    requires TypedInfo(i)
    ensures var j := Conditioned(p, i); Ordered(env, p, j) && ShallowDep(j.Inherited())
  {
    hide HandDown, HandDownProperty, EvalDep, WellTyped, ShallowDep;
    forall k | 0 <= k < |i.others|
      ensures EvalDep(env, Conditioned(p, i).others[k]) <= EvalDep(env, Conditioned(p, i).dep)
    {
      HandDownMonotone(env, p.Inherited(), i.dep, i.others[k], i.Tristate());
    }
    NoCondition();
    VarShallow(i);
    HandDownMonotone(env, p.Inherited(), i.dep, if i.prompt.Some? then i.prompt.value else None, i.Tristate());
    HandDownMeaning(env, p.Inherited(), i.dep);
  }

  lemma NoCondition()
    ensures WellTyped(None)
  {
  }

  lemma VarShallow(i: Info)
    ensures i.sym.Some? ==> ShallowDep(Some(Var(i.sym.value)))
  {
  }

  /** Handing conditions down a tree keeps this order everywhere. */
  lemma {:induction false} SpreadMonotone<K>(env: Env, p: Info, f: Forest<K>)
    requires ValidEnv(env) && ShallowDep(p.Inherited()) && TypedForest(f)
    ensures Monotone(env, p, SpreadAll(Propagate(p, f)))
    decreases Sizes(f)
  {
    if f != [] {
      var i := Conditioned(p, f[0].info);
      var t := f[0].(info := i);
      ConditionedMonotone(env, p, f[0].info);
      SpreadMonotone(env, i, f[0].kids);
      SpreadMonotone(env, p, f[1..]);
      var g := SpreadAll(Propagate(p, f));
      assert Propagate(p, f)[1..] == Propagate(p, f[1..]);
      assert g[0] == Spread(t) && g[1..] == SpreadAll(Propagate(p, f[1..]));
    }
  }
}
