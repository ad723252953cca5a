/** The search for recursive dependencies (dep_stack, sym_check_print_recursive and the
    sym_check_deps family in scripts/config/symbol.c), on symbols outside choice groups. */
module Recursion {
  import opened Common
  import opened Expressions

  datatype PropKind = Prompt | Default | Choice | Select | OtherKind

  datatype Prop = Prop(kind: PropKind, visible: Dep, expr: Dep)

  /** What a symbol's value is computed from. */
  datatype Entry = Entry(revDep: Dep, props: seq<Prop>)

  type Graph = map<Sym, Entry>

  /** The symbols in a condition, from left to right. */
  function Mentions(e: Expr): seq<Sym>
  {
    match e
    case Join(_, l, r) => Mentions(l) + Mentions(r)
    case Not(a) => Mentions(a)
    case Comp(_, a, b) => [a, b]
    case Var(s) => [s]
  }

  function MentionsDep(d: Dep): seq<Sym>
  {
    match d case None => [] case Some(e) => Mentions(e)
  }

  function PropMentions(p: Prop): seq<Sym>
  {
    if p.kind == PropKind.Choice || p.kind == Select then []
    else MentionsDep(p.visible) + (if p.kind == Default then MentionsDep(p.expr) else [])
  }

  function PropsMention(ps: seq<Prop>): seq<Sym>
  {
    if ps == [] then [] else PropMentions(ps[0]) + PropsMention(ps[1..])
  }

  /** All symbols a symbol depends on. */
  function Refs(g: Graph, s: Sym): seq<Sym>
  {
    if s !in g then [] else MentionsDep(g[s].revDep) + PropsMention(g[s].props)
  }

  /** The set contains everything its members depend on. */
  ghost predicate Closed(g: Graph, all: set<Sym>)
  {
    forall s, m :: s in all && m in Refs(g, s) ==> m in all
  }

  /** Every symbol of the sequence depends on the next one. */
  ghost predicate Chain(g: Graph, p: seq<Sym>)
  {
    forall i :: 0 <= i < |p| - 1 ==> p[i + 1] in Refs(g, p[i])
  }

  ghost predicate Cycle(g: Graph, p: seq<Sym>)
  {
    p != [] && Chain(g, p) && p[0] in Refs(g, p[|p| - 1])
  }

  /** A numbering under which every symbol only depends on symbols with a smaller number. */
  ghost predicate Ranked(g: Graph, rank: map<Sym, nat>)
  {
    forall s, m :: s in rank && m in Refs(g, s) ==> m in rank && rank[m] < rank[s]
  }

  lemma {:induction false} RankedAcyclic(g: Graph, rank: map<Sym, nat>, p: seq<Sym>)
    requires Ranked(g, rank) && p != [] && p[0] in rank
    ensures !Cycle(g, p)
  {
    if Chain(g, p) {
      var i := 0;
      while i < |p| - 1
        invariant 0 <= i < |p| && p[i] in rank && rank[p[i]] <= rank[p[0]]
      {
        assert p[i + 1] in Refs(g, p[i]);
        i := i + 1;
      }
    }
  }

  /** The flags and the output of a search: the symbols with SYMBOL_CHECK and with
      SYMBOL_CHECKED, and the recursive dependencies printed so far. */
  datatype State = State(check: set<Sym>, checked: set<Sym>, reports: seq<seq<Sym>>)

  /** The search is exploring the symbols of st, in this order. As long as nothing was
      reported, the finished symbols can be numbered. */
  ghost predicate Valid(g: Graph, all: set<Sym>, st: seq<Sym>, s: State, rank: map<Sym, nat>)
  {
    && Closed(g, all) && s.checked <= all
    && (forall x :: x in s.check <==> x in st) && s.check <= s.checked
    && (forall i, j :: 0 <= i < j < |st| ==> st[i] != st[j])
    && Chain(g, st)
    && (forall r :: r in s.reports ==> Cycle(g, r) && r[0] in all)
    && (s.reports == [] ==>
          && rank.Keys == s.checked - s.check && Ranked(g, rank)
          && forall x :: x in rank ==> rank[x] < |rank|)
  }

  /** What exploring the symbols in list leads to. */
  ghost predicate Explored(list: seq<Sym>, found: Option<Sym>, before: State, after: State, rank: map<Sym, nat>)
  {
    && after.check == before.check && before.checked <= after.checked
    && before.reports <= after.reports
    && (found.Some? ==> found.value in before.check && after.reports != [])
    && (found.None? && after.reports == [] ==> forall m :: m in list ==> m in rank)
  }

  lemma ExploredConcat(a: seq<Sym>, b: seq<Sym>, found: Option<Sym>, s0: State, s1: State, s2: State,
                       rank1: map<Sym, nat>, rank2: map<Sym, nat>, g: Graph, all: set<Sym>, st: seq<Sym>)
    requires Explored(a, None, s0, s1, rank1) && Explored(b, found, s1, s2, rank2)
    requires Valid(g, all, st, s1, rank1) && Valid(g, all, st, s2, rank2)
    ensures Explored(a + b, found, s0, s2, rank2)
  {
    if s2.reports == [] {
      assert s1.reports == [];
      assert rank1.Keys <= rank2.Keys;
    }
  }

  /** Finding a symbol on the stack ends the exploration early. */
  lemma ExploredShort(a: seq<Sym>, b: seq<Sym>, found: Option<Sym>, s0: State, s1: State, rank: map<Sym, nat>)
    requires Explored(a, found, s0, s1, rank) && found.Some?
    ensures Explored(b, found, s0, s1, rank)
  {
  }

  lemma RefsKnown(g: Graph, all: set<Sym>, st: seq<Sym>, s: State, rank: map<Sym, nat>, x: Sym)
    requires Valid(g, all, st, s, rank) && x in all
    ensures forall m :: m in Refs(g, x) ==> m in all
  {
  }

  lemma NotChecked(g: Graph, all: set<Sym>, st: seq<Sym>, s: State, rank: map<Sym, nat>, x: Sym)
    requires Valid(g, all, st, s, rank) && x in all && x !in s.checked
    ensures x !in s.check && all - (s.checked + {x}) < all - s.checked
  {
    assert x in all - s.checked;
  }

  lemma ExploredNothing(s: State, rank: map<Sym, nat>)
    ensures Explored([], None, s, s, rank)
  {
  }

  /** A new symbol comes onto the stack. */
  lemma EnterValid(g: Graph, all: set<Sym>, st: seq<Sym>, s: State, rank: map<Sym, nat>, x: Sym)
    requires Valid(g, all, st, s, rank) && x in all && x !in s.checked
    requires st != [] ==> x in Refs(g, st[|st| - 1])
    ensures Valid(g, all, st + [x], s.(check := s.check + {x}, checked := s.checked + {x}), rank)
  {
    hide Refs, Closed, Ranked, Cycle;
    var t := s.(check := s.check + {x}, checked := s.checked + {x});
    assert t.checked - t.check == s.checked - s.check;
  }

  /** The stack without its top symbol. */
  lemma PopStack(g: Graph, st: seq<Sym>, x: Sym)
    requires Chain(g, st + [x]) && forall i, j :: 0 <= i < j < |st + [x]| ==> (st + [x])[i] != (st + [x])[j]
    ensures Chain(g, st) && forall i, j :: 0 <= i < j < |st| ==> st[i] != st[j]
    ensures forall y :: y in st + [x] && y != x <==> y in st
  {
    hide Refs;
    var t := st + [x];
    assert forall i :: 0 <= i < |st| ==> t[i] == st[i];
    assert t[|st|] == x;
  }

  /** The next number for a symbol all of whose dependencies are numbered. */
  lemma RankNext(g: Graph, rank: map<Sym, nat>, x: Sym)
    requires Ranked(g, rank) && x !in rank && forall y :: y in rank ==> rank[y] < |rank|
    requires forall m :: m in Refs(g, x) ==> m in rank
    ensures var r := rank[x := |rank|];
            r.Keys == rank.Keys + {x} && Ranked(g, r) && forall y :: y in r ==> r[y] < |r|
  {
    hide Refs, Ranked;
    var r := rank[x := |rank|];
    MapGrows(rank, x);
    RankExtends(g, rank, r, x);
    RankBound(rank, r, x);
  }

  lemma KeysGrow(s: set<Sym>, x: Sym)
    requires x !in s
    ensures |s + {x}| == |s| + 1
  {
  }

  lemma MapGrows(rank: map<Sym, nat>, x: Sym)
    requires x !in rank
    ensures var r := rank[x := |rank|]; r.Keys == rank.Keys + {x} && |r| == |rank| + 1
  {
    var r := rank[x := |rank|];
    assert r.Keys == rank.Keys + {x};
    KeysGrow(rank.Keys, x);
    assert |r| == |r.Keys| && |rank| == |rank.Keys|;
  }

  lemma RankBound(rank: map<Sym, nat>, r: map<Sym, nat>, x: Sym)
    requires r.Keys == rank.Keys + {x} && x in r && x !in rank && |r| == |rank| + 1 && r[x] == |rank|
    requires forall y :: y in rank ==> r[y] == rank[y] < |rank|
    ensures forall y :: y in r ==> r[y] < |r|
  {
    forall y | y in r
      ensures r[y] < |r|
    {
      if y != x { assert y in rank.Keys; }
    }
  }

  lemma RankExtends(g: Graph, rank: map<Sym, nat>, r: map<Sym, nat>, x: Sym)
    requires Ranked(g, rank) && r.Keys == rank.Keys + {x} && x in r && forall m :: m in Refs(g, x) ==> m in rank
    requires forall y :: y in rank ==> r[y] == rank[y] < r[x]
    requires x !in rank
    ensures Ranked(g, r)
  {
    hide Refs;
    forall y, m | y in r && m in Refs(g, y)
      ensures m in r && r[m] < r[y]
    {
      if y != x {
        assert y in rank && m in rank && rank[m] < rank[y];
      }
    }
  }

  /** The top symbol is finished: unless something was reported, it gets the next number. */
  lemma LeaveValid(g: Graph, all: set<Sym>, st: seq<Sym>, s: State, rank: map<Sym, nat>, x: Sym)
    requires Valid(g, all, st + [x], s, rank)
    requires s.reports == [] ==> forall m :: m in Refs(g, x) ==> m in rank
    ensures Valid(g, all, st, s.(check := s.check - {x}), if s.reports == [] then rank[x := |rank|] else rank)
  {
    hide Refs, Closed, Cycle, Chain, Ranked;
    PopStack(g, st, x);
    assert x in st + [x] by { assert (st + [x])[|st|] == x; }
    if s.reports == [] {
      RankNext(g, rank, x);
      assert s.checked - (s.check - {x}) == (s.checked - s.check) + {x};
    }
  }

  /** The upper part of the stack is a circle once its top depends on its lowest symbol. */
  lemma StackCycle(g: Graph, st: seq<Sym>, i: nat)
    requires i < |st| && Chain(g, st) && st[i] in Refs(g, st[|st| - 1])
    ensures Cycle(g, st[i..]) && st[i..][0] == st[i]
  {
    hide Refs;
    var r := st[i..];
    assert forall k :: 0 <= k < |r| ==> r[k] == st[i + k];
  }

  class Checker {
    const graph: Graph
    ghost const all: set<Sym>
    var stack: seq<Sym>            // the dep_stack entries, bottom first
    var state: State
    ghost var rank: map<Sym, nat>

    ghost predicate Inv(st: seq<Sym>)
      reads this
    {
      Valid(graph, all, st, state, rank)
    }

    constructor (g: Graph, ghost universe: set<Sym>)
      requires Closed(g, universe)
      ensures Inv([]) && graph == g && all == universe && stack == [] && state == State({}, {}, [])
    {
      graph, all := g, universe;
      stack, state, rank := [], State({}, {}, []), map[];
    }

    /** sym_check_print_recursive: prints the part of the stack from the symbol upwards, which
        is a circle of dependencies. */
    method PrintRecursive(s: Sym)
      requires Inv(stack) && s in state.check && s in Refs(graph, stack[|stack| - 1])
      modifies this`state
      ensures Inv(stack)
      ensures exists r :: Cycle(graph, r) && r[0] == s
                && state == old(state).(reports := old(state.reports) + [r])
    {
      hide Refs, Closed, Ranked, Chain, Cycle;
      var i := |stack|;
      while stack[i - 1] != s
        invariant 0 < i <= |stack| && s in stack[..i]
        decreases i
      {
        assert stack[..i] == stack[..i - 1] + [stack[i - 1]];
        i := i - 1;
      }
      var r := stack[i - 1..];
      StackCycle(graph, stack, i - 1);
      state := state.(reports := state.reports + [r]);
    }

    /** sym_check_deps. */
    method CheckDeps(s: Sym) returns (r: Option<Sym>)
      requires Inv(stack) && s in all
      requires stack != [] ==> s in Refs(graph, stack[|stack| - 1])
      modifies this
      ensures stack == old(stack) && old(state.checked) <= state.checked && Inv(stack)
      ensures Explored([s], r, old(state), state, rank) && s in state.checked
      decreases all - state.checked, 0, 1
    {
      hide Refs, Closed, Ranked, Chain, Cycle;
      if s in state.check {
        PrintRecursive(s);
        return Some(s);
      }
      if s in state.checked {
        return None;
      }
      r := CheckNew(s);
    }

    /** The branch of sym_check_deps for a symbol that has not been checked yet. */
    method CheckNew(s: Sym) returns (r: Option<Sym>)
      requires Inv(stack) && s in all && s !in state.checked
      requires stack != [] ==> s in Refs(graph, stack[|stack| - 1])
      modifies this
      ensures stack == old(stack) && old(state.checked) <= state.checked && Inv(stack)
      ensures Explored([s], r, old(state), state, rank) && s in state.checked
      decreases all - state.checked, 0, 0
    {
      hide Valid, Refs;
      ghost var s0 := state;
      EnterValid(graph, all, stack, state, rank, s);
      state := state.(check := state.check + {s}, checked := state.checked + {s});
      ghost var s1 := state;
      assert s !in s0.check && all - s1.checked < all - s0.checked by { NotChecked(graph, all, stack, s0, rank, s); }
      r := CheckSymDeps(s);
      LeaveValid(graph, all, stack, state, rank, s);
      state := state.(check := state.check - {s});
      assert state.check == s0.check;
      if r == Some(s) {
        r := None;
      }
      if state.reports == [] {
        rank := rank[s := |rank|];
      }
    }

    /** sym_check_sym_deps: the flags of the symbol are set already. */
    method CheckSymDeps(s: Sym) returns (r: Option<Sym>)
      requires Inv(stack + [s]) && s in all
      modifies this
      ensures stack == old(stack) && old(state.checked) <= state.checked
      ensures Inv(stack + [s]) && Explored(Refs(graph, s), r, old(state), state, rank)
      decreases all - state.checked, 4, 0
    {
      hide Valid, MentionsDep, PropsMention, Explored;
      stack := stack + [s];                // dep_stack_insert
      r := None;
      ghost var s0 := state;
      if s in graph {
        ghost var (a, b) := (MentionsDep(graph[s].revDep), PropsMention(graph[s].props));
        r := CheckExprDeps(s, graph[s].revDep);
        if r.Some? {
          ExploredShort(a, a + b, r, s0, state, rank);
        } else {
          ghost var s1, rank1 := state, rank;
          r := CheckProps(s, graph[s].props);
          ExploredConcat(a, b, r, s0, s1, state, rank1, rank, graph, all, stack);
        }
      } else {
        ExploredNothing(state, rank);
      }
      stack := stack[..|stack| - 1];       // dep_stack_remove
    }

    /** The loop over the properties of a symbol. */
    method CheckProps(s: Sym, props: seq<Prop>) returns (r: Option<Sym>)
      requires Inv(stack) && stack != [] && stack[|stack| - 1] == s && s in all
      requires forall m :: m in PropsMention(props) ==> m in Refs(graph, s)
      modifies this
      ensures stack == old(stack) && old(state.checked) <= state.checked
      ensures Inv(stack) && Explored(PropsMention(props), r, old(state), state, rank)
      decreases all - state.checked, 3, |props|
    {
      hide Valid, Refs, MentionsDep, Explored;
      r := None;
      if props == [] {
        ExploredNothing(state, rank);
        return;
      }
      var p := props[0];
      ghost var (a, b) := (PropMentions(p), PropsMention(props[1..]));
      ghost var s0 := state;
      r := CheckProp(s, p);
      if r.Some? {
        ExploredShort(a, a + b, r, s0, state, rank);
      } else {
        ghost var s1, rank1 := state, rank;
        r := CheckProps(s, props[1..]);
        ExploredConcat(a, b, r, s0, s1, state, rank1, rank, graph, all, stack);
      }
    }

    /** The body of that loop. */
    method CheckProp(s: Sym, p: Prop) returns (r: Option<Sym>)
      requires Inv(stack) && stack != [] && stack[|stack| - 1] == s && s in all
      requires forall m :: m in PropMentions(p) ==> m in Refs(graph, s)
      modifies this
      ensures stack == old(stack) && old(state.checked) <= state.checked
      ensures Inv(stack) && Explored(PropMentions(p), r, old(state), state, rank)
      decreases all - state.checked, 2, 1
    {
      hide Valid, Refs, MentionsDep, Explored;
      r := None;
      ghost var s0 := state;
      if p.kind == PropKind.Choice || p.kind == Select {
        ExploredNothing(state, rank);
        return;
      }
      ghost var (a, b) := (MentionsDep(p.visible), MentionsDep(p.expr));
      r := CheckExprDeps(s, p.visible);
      if r.Some? {
        ExploredShort(a, PropMentions(p), r, s0, state, rank);
      } else if p.kind == Default {
        ghost var s1, rank1 := state, rank;
        r := CheckExprDeps(s, p.expr);
        ExploredConcat(a, b, r, s0, s1, state, rank1, rank, graph, all, stack);
      } else {
        assert PropMentions(p) == a;
      }
    }

    /** sym_check_expr_deps. */
    method CheckExprDeps(s: Sym, d: Dep) returns (r: Option<Sym>)
      requires Inv(stack) && stack != [] && stack[|stack| - 1] == s && s in all
      requires forall m :: m in MentionsDep(d) ==> m in Refs(graph, s)
      modifies this
      ensures stack == old(stack) && old(state.checked) <= state.checked
      ensures Inv(stack) && Explored(MentionsDep(d), r, old(state), state, rank)
      decreases all - state.checked, 2, 0
    {
      r := None;
      if d.Some? {
        r := CheckExpr(s, d.value);
      }
    }

    method CheckExpr(s: Sym, e: Expr) returns (r: Option<Sym>)
      requires Inv(stack) && stack != [] && stack[|stack| - 1] == s && s in all
      requires forall m :: m in Mentions(e) ==> m in Refs(graph, s)
      modifies this
      ensures stack == old(stack) && old(state.checked) <= state.checked
      ensures Inv(stack) && Explored(Mentions(e), r, old(state), state, rank)
      decreases all - state.checked, 1, e
    {
      hide Valid, Refs, Explored;
      ghost var s0 := state;
      RefsKnown(graph, all, stack, state, rank, s);
      match e
      case Join(_, left, right) =>
        r := CheckExpr(s, left);
        if r.Some? {
          ExploredShort(Mentions(left), Mentions(e), r, s0, state, rank);
        } else {
          ghost var s1, rank1 := state, rank;
          r := CheckExpr(s, right);
          ExploredConcat(Mentions(left), Mentions(right), r, s0, s1, state, rank1, rank, graph, all, stack);
        }
      case Not(a) => r := CheckExpr(s, a);
      case Comp(_, a, b) =>
        r := CheckDeps(a);
        if r.Some? {
          ExploredShort([a], Mentions(e), r, s0, state, rank);
        } else {
          ghost var s1, rank1 := state, rank;
          r := CheckDeps(b);
          ExploredConcat([a], [b], r, s0, s1, state, rank1, rank, graph, all, stack);
          assert [a] + [b] == Mentions(e);
        }
      case Var(a) => r := CheckDeps(a);
    }

    /** A pass over all symbols, as it is made after a configuration has been read in. Something
        is reported exactly if there is a circle of dependencies; every report is one; the
        stack is empty again; and because no call hands a symbol to its caller, the
        configuration is not rejected even then. */
    method CheckAll(symbols: seq<Sym>) returns (failed: bool)
      requires state == State({}, {}, []) && stack == [] && Closed(graph, all)
      requires Covers(graph, all, symbols)
      modifies this
      ensures !failed && stack == [] && state.check == {}
      ensures state.reports != [] <==> exists p :: Cycle(graph, p) && p[0] in all
      ensures forall r :: r in state.reports ==> Cycle(graph, r)
    {
      hide Refs, Chain, Ranked, Cycle;
      rank := map[];
      failed := false;
      var i := 0;
      assert Inv([]) by { EmptyValid(graph, all); }
      while i < |symbols|
        invariant i <= |symbols| && !failed && stack == [] && state.check == {} && Inv([])
        invariant forall k :: 0 <= k < i ==> symbols[k] in state.checked
      {
        var found := CheckDeps(symbols[i]);
        failed := failed || found.Some?;
        i := i + 1;
      }
      PassComplete(graph, all, state, rank, symbols);
    }
  }

  /** A pass over these symbols misses at most symbols without dependencies: for_all_symbols goes
      through the hash table, which does not hold the literals. */
  ghost predicate Covers(g: Graph, all: set<Sym>, symbols: seq<Sym>)
  {
    && (forall x :: x in symbols ==> x in all)
    && (forall x :: x in all && x !in symbols ==> Refs(g, x) == [])
  }

  lemma EmptyValid(g: Graph, all: set<Sym>)
    requires Closed(g, all)
    ensures Valid(g, all, [], State({}, {}, []), map[])
  {
  }

  lemma PassComplete(g: Graph, all: set<Sym>, s: State, rank: map<Sym, nat>, symbols: seq<Sym>)
    requires Valid(g, all, [], s, rank) && s.check == {}
    requires Covers(g, all, symbols)
    requires forall k :: 0 <= k < |symbols| ==> symbols[k] in s.checked
    ensures s.reports != [] <==> exists p :: Cycle(g, p) && p[0] in all
  {
    if s.reports != [] { assert s.reports[0] in s.reports; }
    if s.reports == [] {
      forall p | p != [] && p[0] in all
        ensures !Cycle(g, p)
      {
        if p[0] in symbols {
          RankedAcyclic(g, rank, p);
        } else {
          assert Refs(g, p[0]) == [];
          if |p| > 1 { assert p[1] !in Refs(g, p[0]); }
        }
      }
    }
  }
}
