/** The walk over the menu tree in scripts/config/confdata.c: it follows list, next and parent
    without a stack, and writes every symbol that is to be written at its first entry. */
module MenuWalk {
  import opened Common
  import opened Expressions
  import opened MenuForest
  import opened MenuTree

  // ----- which symbols are written -----

  /** Symbols in the order they are written: each one at its first entry, unless it is a choice
      or not due to be written. */
  ghost function Written<K>(entries: seq<(K, Info)>, due: iset<Sym>): seq<Sym>
  {
    if entries == [] then []
    else if Writes(entries[0].1, due) then
      [entries[0].1.sym.value] + Written(entries[1..], due - iset{entries[0].1.sym.value})
    else Written(entries[1..], due)
  }

  /** Whether something is written for an entry. */
  ghost predicate Writes(i: Info, due: iset<Sym>)
  {
    i.sym.Some? && !i.sym.value.Choice? && i.sym.value in due
  }

  ghost predicate HasEntry<K>(entries: seq<(K, Info)>, s: Sym)
  {
    !s.Choice? && exists i :: 0 <= i < |entries| && entries[i].1.sym == Some(s)
  }

  lemma HasEntrySplit<K>(entries: seq<(K, Info)>, s: Sym)
    requires entries != []
    ensures HasEntry(entries, s) <==> (!s.Choice? && entries[0].1.sym == Some(s)) || HasEntry(entries[1..], s)
  {
    if HasEntry(entries[1..], s) {
      var i :| 0 <= i < |entries[1..]| && entries[1..][i].1.sym == Some(s);
      assert entries[i + 1] == entries[1..][i];
    }
    if HasEntry(entries, s) {
      var i :| 0 <= i < |entries| && entries[i].1.sym == Some(s);
      if i > 0 {
        assert entries[1..][i - 1] == entries[i];
      }
    }
  }

  /** However many entries a symbol has, it is written once if it is due and has one at all,
      and not at all otherwise. */
  lemma {:induction false} WrittenOnce<K>(entries: seq<(K, Info)>, due: iset<Sym>)
    ensures var out := Written(entries, due);
            && (forall s :: s in out <==> s in due && HasEntry(entries, s))
            && (forall i, j :: 0 <= i < j < |out| ==> out[i] != out[j])
    decreases |entries|
  {
    if entries != [] {
      var i := entries[0].1;
      WrittenOnce(entries[1..], if Writes(i, due) then due - iset{i.sym.value} else due);
      forall s {
        HasEntrySplit(entries, s);
      }
    }
  }

  /** The position of the first entry of a symbol. */
  function FirstEntry<K>(entries: seq<(K, Info)>, s: Sym): nat
  {
    if entries == [] || entries[0].1.sym == Some(s) then 0
    else 1 + FirstEntry(entries[1..], s)
  }

  /** Symbols are written in the order of their first entries. */
  lemma {:induction false} WrittenInOrder<K>(entries: seq<(K, Info)>, due: iset<Sym>)
    ensures var out := Written(entries, due);
            forall i, j :: 0 <= i < j < |out| ==> FirstEntry(entries, out[i]) < FirstEntry(entries, out[j])
    decreases |entries|
  {
    if entries != [] {
      var e := entries[0].1;
      var first := Writes(e, due);
      var left := if first then due - iset{e.sym.value} else due;
      var (out, rest) := (Written(entries, due), Written(entries[1..], left));
      WrittenInOrder(entries[1..], left);
      WrittenOnce(entries[1..], left);
      var k := if first then 1 else 0;
      forall i, j | 0 <= i < j < |out|
        ensures FirstEntry(entries, out[i]) < FirstEntry(entries, out[j])
      {
        assert out[j] == rest[j - k] && out[j] in rest;
        Later(entries, out[j]);
        if i >= k {
          assert out[i] == rest[i - k] && out[i] in rest;
          Later(entries, out[i]);
        }
      }
    }
  }

  lemma Later<K>(entries: seq<(K, Info)>, s: Sym)
    requires entries != [] && entries[0].1.sym != Some(s)
    ensures FirstEntry(entries, s) == 1 + FirstEntry(entries[1..], s)
  {
  }

  ghost function SymbolsIn(out: seq<Sym>): iset<Sym> { iset s | s in out }

  lemma {:induction false} WrittenConcat<K>(a: seq<(K, Info)>, b: seq<(K, Info)>, due: iset<Sym>)
    ensures var out := Written(a, due);
            Written(a + b, due) == out + Written(b, due - SymbolsIn(out))
    decreases |a|
  {
    if a == [] {
      assert a + b == b;
      assert due - SymbolsIn(Written(a, due)) == due;
    } else {
      var i := a[0].1;
      assert (a + b)[1..] == a[1..] + b;
      if Writes(i, due) {
        var left := due - iset{i.sym.value};
        WrittenConcat(a[1..], b, left);
        assert left - SymbolsIn(Written(a[1..], left)) == due - SymbolsIn(Written(a, due));
      } else {
        WrittenConcat(a[1..], b, due);
      }
    }
  }

  // ----- the walk -----

  /** What is still to come above an entry m: the entries after it, after its parent, and so on
      up to a root without parent and successor. */
  ghost predicate Above(all: set<Menu>, m: Menu, ups: seq<Forest<Menu>>)
    reads all
    decreases |ups|
  {
    && m in all
    && if ups == [] then m.next == null && m.parent == null
       else Nodes(ups[0]) <= all && Linked(m.next, ups[0], m.parent, null)
            && m.parent != null && Above(all, m.parent, ups[1..])
  }

  function Flat<K>(ups: seq<Forest<K>>): seq<(K, Info)>
  {
    if ups == [] then [] else Entries(ups[0]) + Flat(ups[1..])
  }

  /** The walk stands at menu, the first of the entries cur; nothing is left when it is null. */
  ghost predicate At(all: set<Menu>, menu: Menu?, cur: Forest<Menu>, ups: seq<Forest<Menu>>)
    reads all
  {
    if menu == null then cur == [] && ups == []
    else
      && cur != [] && Nodes(cur) <= all && menu in all && Linked(menu, cur, menu.parent, null)
      && menu.parent != null && Above(all, menu.parent, ups)
  }

  /** Once an entry has been visited, its list is to come and then what is above it. */
  lemma Visited(all: set<Menu>, m: Menu, cur: Forest<Menu>, ups: seq<Forest<Menu>>)
    requires At(all, m, cur, ups)
    ensures Linked(m.list, cur[0].kids, m, null) && Nodes(cur[0].kids) <= all
    ensures Above(all, m, [cur[1..]] + ups)
    ensures Entries(cur) + Flat(ups) == [(m, m.Fields())] + (Entries(cur[0].kids) + Flat([cur[1..]] + ups))
  {
    hide Entries, Flat;
    VisitedEntries(cur, ups);
    assert ([cur[1..]] + ups)[1..] == ups;
  }

  lemma VisitedEntries<K>(cur: Forest<K>, ups: seq<Forest<K>>)
    requires cur != []
    ensures Entries(cur) + Flat(ups) ==
            [(cur[0].key, cur[0].info)] + (Entries(cur[0].kids) + Flat([cur[1..]] + ups))
  {
    assert ([cur[1..]] + ups)[1..] == ups;
  }

  /** Going on with the entries after m. */
  lemma Right(all: set<Menu>, m: Menu, ups: seq<Forest<Menu>>)
    requires Above(all, m, ups) && m.next != null
    ensures ups != [] && At(all, m.next, ups[0], ups[1..])
    ensures Entries(ups[0]) + Flat(ups[1..]) == Flat(ups)
  {
    assert ups[0] != [] && ups[0][0].key in Nodes(ups[0]);
  }

  /** Going up when there are none. */
  lemma Up(all: set<Menu>, m: Menu, ups: seq<Forest<Menu>>)
    requires Above(all, m, ups) && m.next == null
    ensures if ups == [] then m.parent == null
            else m.parent != null && Above(all, m.parent, ups[1..]) && Flat(ups) == Flat(ups[1..])
  {
    if ups != [] {
      NotEmpty(m.next, ups[0], m.parent);
    }
  }

  lemma NothingLeft()
    ensures Entries<Menu>([]) == [] && Flat<Menu>([]) == []
  {
  }

  /** One step of the walk: into the list, on to the next entry, or up until there is one. */
  method Next(ghost all: set<Menu>, m: Menu, ghost cur: Forest<Menu>, ghost ups: seq<Forest<Menu>>)
    returns (menu: Menu?, ghost cur': Forest<Menu>, ghost ups': seq<Forest<Menu>>)
    requires At(all, m, cur, ups)
    ensures At(all, menu, cur', ups')
    ensures Entries(cur) + Flat(ups) == [(m, m.Fields())] + (Entries(cur') + Flat(ups'))
    ensures menu == Following(Entries(cur) + Flat(ups))
  {
    hide Above, Linked, Flat, Entries, Nodes;
    menu := m;
    Visited(all, m, cur, ups);
    NotEmpty(m.list, cur[0].kids, m);
    NothingLeft();
    cur', ups' := cur[0].kids, [cur[1..]] + ups;
    if menu.list != null {
      Down(all, m, cur', ups');
      menu := menu.list;
    } else if menu.next != null {
      Right(all, menu, ups');
      menu := menu.next;
      cur', ups' := ups'[0], ups'[1..];
    } else {
      ghost var left := Flat(ups');
      Up(all, menu, ups');
      ups' := ups'[1..];
      menu := menu.parent;
      while menu != null
        invariant if menu == null then ups' == [] else Above(all, menu, ups')
        invariant Flat(ups') == left
        decreases |ups'|, if menu == null then 0 else 1
      {
        if menu.next != null {
          Right(all, menu, ups');
          menu := menu.next;
          cur', ups' := ups'[0], ups'[1..];
          break;
        }
        Up(all, menu, ups');
        ups' := if ups' == [] then [] else ups'[1..];
        menu := menu.parent;
      }
    }
    FollowingAt(all, m, menu, cur', ups');
  }

  /** The entry after the first one, if there is one. */
  ghost function Following(entries: seq<(Menu, Info)>): Menu?
  {
    if |entries| < 2 then null else entries[1].0
  }

  lemma FollowingAt(all: set<Menu>, m: Menu, menu: Menu?, cur: Forest<Menu>, ups: seq<Forest<Menu>>)
    requires At(all, menu, cur, ups)
    ensures Following([(m, m.Fields())] + (Entries(cur) + Flat(ups))) == menu
  {
    var rest := Entries(cur) + Flat(ups);
    if menu != null {
      assert rest[0].0 == menu;
    }
  }

  /** Going on with the list of m. */
  lemma Down(all: set<Menu>, m: Menu, kids: Forest<Menu>, ups: seq<Forest<Menu>>)
    requires m.list != null && Linked(m.list, kids, m, null) && Nodes(kids) <= all && Above(all, m, ups)
    ensures At(all, m.list, kids, ups)
  {
    assert kids != [] && kids[0].key in Nodes(kids);
  }

  /** The symbols: which of them have been calculated, and which of those are flagged to be
      written. The values themselves do not change during the walk, so what calculating a symbol
      decides about its flag is fixed, and so are the symbols that it calculates on the way. */
  class Configuration {
    const writable: Sym -> bool
    const needs: Sym -> set<Sym>
    var valid: set<Sym>
    var flagged: set<Sym>

    constructor (writable: Sym -> bool, needs: Sym -> set<Sym>)
      ensures this.writable == writable && this.needs == needs && valid == {} && flagged == {}
    {
      this.writable, this.needs := writable, needs;
      valid, flagged := {}, {};
    }

    /** The symbols that will be written when the walk comes to them. */
    ghost function Due(): iset<Sym>
      reads this
    {
      iset s: Sym | if s in valid then s in flagged else writable(s)
    }

    /** sym_calc_value, as far as the flags go. */
    method CalcValue(s: Sym)
      modifies this
      ensures s in valid && Due() == old(Due())
    {
      if s !in valid {
        var more := needs(s) + {s} - valid;
        flagged := (flagged - more) + (set d | d in more && writable(d));
        valid := valid + more;
      }
    }

    /** What conf_write does at one entry: the symbol is calculated, and written if it is flagged
        then. */
    method WriteSymbol(menu: Menu) returns (out: seq<Sym>)
      modifies this
      ensures out == if Writes(menu.Fields(), old(Due())) then [menu.sym.value] else []
      ensures Due() == old(Due()) - SymbolsIn(out)
    {
      out := [];
      if menu.sym.Some? && !menu.sym.value.Choice? {
        CalcValue(menu.sym.value);
        if menu.sym.value in flagged {
          flagged := flagged - {menu.sym.value};
          out := [menu.sym.value];
        }
      }
    }

    /** conf_write, reduced to its walk: what it visits, and which symbols it writes. If nothing
        has been changed since the last time, everything is calculated anew. */
    method Write(root: Menu, ghost kids: Forest<Menu>, changed: bool) returns (visits: seq<Menu>, out: seq<Sym>)
      requires root.next == null && root.parent == null && Linked(root.list, kids, root, null)
      modifies this
      ensures visits == Order(kids)
      ensures out == Written(Entries(kids), DueAtStart(old(Due()), changed))
      ensures Due() == DueAtStart(old(Due()), changed) - SymbolsIn(out)
    {
      hide Above, At, Linked, Flat, Entries, Nodes, Written, Keys, SymbolsIn, Writes;
      if !changed {
        valid := {};
      }
      ghost var due := Due();
      assert due == DueAtStart(old(Due()), changed);
      ghost var all := Nodes(kids) + {root};
      Allocated(kids);
      NothingLeft();
      visits, out := [], [];
      ghost var cur, ups := kids, [];
      ghost var seen: seq<(Menu, Info)> := [];
      var menu := root.list;
      Begin(all, root, kids);
      SeenNothing(due);
      while menu != null
        invariant At(all, menu, cur, ups)
        invariant Entries(kids) == seen + (Entries(cur) + Flat(ups))
        invariant visits == Keys(seen) && out == Written(seen, due)
        invariant Due() == due - SymbolsIn(out)
        decreases |Entries(cur) + Flat(ups)|
      {
        SeenOne(seen, menu, menu.Fields(), due);
        visits := visits + [menu];
        var more := WriteSymbol(menu);
        SymbolsInConcat(due, out, more);
        out := out + more;
        seen := seen + [(menu, menu.Fields())];
        menu, cur, ups := Next(all, menu, cur, ups);
      }
      AtEnd(all, cur, ups);
      assert seen == Entries(kids);
    }

    ghost function DueAtStart(due: iset<Sym>, changed: bool): iset<Sym>
    {
      if changed then due else iset s: Sym | writable(s)
    }
  }

  lemma SymbolsInConcat(due: iset<Sym>, a: seq<Sym>, b: seq<Sym>)
    ensures due - SymbolsIn(a) - SymbolsIn(b) == due - SymbolsIn(a + b)
  {
  }

  lemma AtEnd(all: set<Menu>, cur: Forest<Menu>, ups: seq<Forest<Menu>>)
    requires At(all, null, cur, ups)
    ensures Entries(cur) + Flat(ups) == []
  {
  }

  lemma SeenNothing(due: iset<Sym>)
    ensures Keys<Menu>([]) == [] && Written<Menu>([], due) == [] && due - SymbolsIn([]) == due
  {
  }

  /** One more entry has been visited. */
  lemma SeenOne(seen: seq<(Menu, Info)>, m: Menu, i: Info, due: iset<Sym>)
    ensures Keys(seen + [(m, i)]) == Keys(seen) + [m]
    ensures var out := Written(seen, due);
            Written(seen + [(m, i)], due) == out + (if Writes(i, due - SymbolsIn(out)) then [i.sym.value] else [])
  {
    WrittenConcat(seen, [(m, i)], due);
    KeysConcat(seen, [(m, i)]);
    WrittenOne(m, i, due - SymbolsIn(Written(seen, due)));
  }

  lemma WrittenOne(m: Menu, i: Info, due: iset<Sym>)
    ensures Keys([(m, i)]) == [m]
    ensures Written([(m, i)], due) == if Writes(i, due) then [i.sym.value] else []
  {
    assert [(m, i)][1..] == [];
  }

  lemma Begin(all: set<Menu>, root: Menu, kids: Forest<Menu>)
    requires all == Nodes(kids) + {root}
    requires root.next == null && root.parent == null && Linked(root.list, kids, root, null)
    ensures At(all, root.list, kids, [])
  {
    NotEmpty(root.list, kids, root);
    if kids != [] {
      assert kids[0].key in Nodes(kids);
    }
  }

  // ----- finalising and writing -----

  /** Entry for entry the same names and symbols; only conditions may differ. */
  ghost predicate Alike<K>(a: seq<(K, Info)>, b: seq<(K, Info)>)
  {
    |a| == |b| &&
    forall i :: 0 <= i < |a| ==> a[i].0 == b[i].0 && a[i].1.sym == b[i].1.sym
  }

  lemma {:induction false} AlikeSame<K>(a: seq<(K, Info)>, b: seq<(K, Info)>, due: iset<Sym>)
    requires Alike(a, b)
    ensures Keys(a) == Keys(b) && Written(a, due) == Written(b, due)
    decreases |a|
  {
    if a != [] {
      AlikeSame(a[1..], b[1..], due);
      if a[0].1.sym.Some? {
        AlikeSame(a[1..], b[1..], due - iset{a[0].1.sym.value});
      }
    }
  }

  lemma {:induction false} PropagateAlike<K>(p: Info, f: Forest<K>)
    ensures Alike(Entries(Propagate(p, f)), Entries(f))
    decreases |f|
  {
    if f != [] {
      PropagateAlike(p, f[1..]);
      assert Propagate(p, f)[1..] == Propagate(p, f[1..]);
    }
  }

  lemma {:induction false} SpreadAlike<K>(f: Forest<K>)
    ensures Alike(Entries(SpreadAll(f)), Entries(f))
    decreases Sizes(f)
  {
    if f != [] {
      var kids := Propagate(f[0].info, f[0].kids);
      PropagateAlike(f[0].info, f[0].kids);
      SpreadAlike(kids);
      SpreadAlike(f[1..]);
      assert SpreadAll(f)[0] == Spread(f[0]) && SpreadAll(f)[1..] == SpreadAll(f[1..]);
    }
  }

  lemma MarkedAlike<K>(a: seq<(K, Info)>, v0: set<Sym>, b: seq<(K, Info)>, v1: set<Sym>)
    requires Marked(a, v0, b, v1)
    ensures Alike(b, a)
  {
    hide MarkedOne;
    forall i | 0 <= i < |a|
      ensures b[i].1.sym == a[i].1.sym
    {
      MarkedSym(a[i].1, v0, b[i].1, v1);
    }
  }

  /** Finalising changes neither which entries a walk below the root visits nor their order. */
  lemma FinalizeAlike<K>(root: Tree<K>, values: set<Sym>)
    ensures Alike(Entries(Finalize(root, [], values).0.kids), Entries(root.kids))
  {
    hide Finalize, Marked;
    var (t, _, values') := Finalize(root, [], values);
    FinalizeRoot(root, values);
    MarkedAlike(Entries([Spread(root)]), values, Entries([t]), values');
    EntriesOne(t);
    EntriesOne(Spread(root));
    assert Entries([t])[1..] == Entries(t.kids);
    assert Entries([Spread(root)])[1..] == Entries(Spread(root).kids);
    PropagateAlike(root.info, root.kids);
    SpreadAlike(Propagate(root.info, root.kids));
  }

  /** The menu tree of a whole configuration is finalised and then written: every entry that was
      read is visited once, in the order of the files, and every symbol that is due and has an
      entry is written once, at the first one. */
  method FinalizeAndWrite(root: Menu, flags: Flags, ghost t: Tree<Menu>, config: Configuration, changed: bool)
    returns (visits: seq<Menu>, out: seq<Sym>)
    requires root == t.key && root.Fields() == t.info && root.next == null && root.parent == null
    requires Linked(root.list, t.kids, root, null) && Distinct([t])
    modifies Nodes([t]), flags, config
    ensures visits == Order(t.kids)
    ensures out == Written(Entries(t.kids), config.DueAtStart(old(config.Due()), changed))
  {
    hide Linked, Entries, Written, Finalize, Marked;
    NotFollowed(root);
    assert [t] + [] == [t];
    ghost var values := flags.values;
    var _ := FinalizeMenu(root, flags, t, []);
    FinalizeRoot(t, values);
    ghost var kids := Finalize(t, [], values).0.kids;
    NotEmpty(root.next, [], null);
    visits, out := config.Write(root, kids, changed);
    FinalizeAlike(t, values);
    AlikeSame(Entries(kids), Entries(t.kids), config.DueAtStart(old(config.Due()), changed));
  }

  lemma NotFollowed(root: Menu)
    requires root.next == null
    ensures Linked(root.next, [], root.parent, null)
  {
  }
}
