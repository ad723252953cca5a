/** What conditions say about each other when entries are nested and when conditions are
    handed down the menu tree (expr_trans_bool, expr_trans_compare, expr_contains_symbol and
    expr_depends_symbol in scripts/config/expr.c, and their use in menu_finalize in
    scripts/config/menu.c). */
module Submenu {
  import opened Common
  import opened Expressions
  import opened Cancelling
  import opened Joining
  import opened Dups
  import opened Transforming

  // ----- mentions of a symbol -----

  /** expr_contains_symbol on a non-null condition. */
  predicate Contains(e: Expr, s: Sym)
  {
    match e
    case Join(_, l, r) => Contains(l, s) || Contains(r, s)
    case Not(a) => Contains(a, s)
    case Comp(_, a, b) => a == s || b == s
    case Var(a) => a == s
  }

  /** expr_depends_symbol on a non-null condition. */
  predicate Depends(e: Expr, s: Sym)
  {
    match e
    case Join(AND, l, r) => Depends(l, s) || Depends(r, s)
    case Comp(Equal, a, b) => a == s && (b == ConstY || b == ConstM)
    case Comp(Unequal, a, b) => a == s && b == ConstN
    case Var(a) => a == s
    case _ => false
  }

  /** A symbol without a value of its own, which prints as its name. */
  predicate Nameless(s: Sym) { !s.Literal() && (s.Type() == Unknown || s.Type() == Other) }

  /** A symbol whose string value tells its truth value. */
  predicate Telling(s: Sym)
  {
    s.Logical() || s.Literal() || (Nameless(s) && s.Text() == "n")
  }

  /** Comparing a symbol that is not logical with y, m or n compares strings. */
  lemma CompareText(env: Env, s: Sym, c: Sym)
    requires ValidEnv(env) && !s.Logical() && c.Literal()
    ensures Compare(env, s, c).res == 0 <==> env.str(s) == TriString(c.Denotes())
  {
    hide Numeral;
    assert Fits(c, env.tri(c), env.str(c));
    LiteralNoNumeral(c.Denotes());
    StrCmpZero(env.str(s), env.str(c));
  }

  lemma TellingTest(env: Env, op: CompOp, s: Sym, c: Sym)
    requires ValidEnv(env) && Telling(s) && Depends(Comp(op, s, c), s)
    ensures Eval(env, Comp(op, s, c)) != NO ==> env.tri(s) != NO
  {
    hide Compare;
    assert Fits(s, env.tri(s), env.str(s));
    if s.Logical() { EvalLiteral(env, s, c); } else { CompareText(env, s, c); }
  }

  /** A condition that depends on a telling symbol can only hold if the symbol is m or y. */
  lemma {:induction false} DependsSound(env: Env, e: Expr, s: Sym)
    requires ValidEnv(env) && Telling(s) && Depends(e, s)
    ensures Eval(env, e) != NO ==> env.tri(s) != NO
  {
    match e
    case Join(_, l, r) =>
      if Depends(l, s) { DependsSound(env, l, s); } else { DependsSound(env, r, s); }
    case Comp(op, _, c) => TellingTest(env, op, s, c);
    case Var(_) =>
  }

  /** A world in which every integer, hexadecimal number and string is the text t. */
  function Printing(t: string): Env
  {
    Env((s: Sym) => if s.Literal() then s.Denotes() else NO,
        (s: Sym) => if s.Literal() then TriString(s.Denotes())
                    else if s.Logical() then "n" else if Nameless(s) then s.Text() else t)
  }

  lemma FitsHere(env: Env, s: Sym)
    requires ValidEnv(env)
    ensures Fits(s, env.tri(s), env.str(s))
  {
  }

  /** The three tests that expr_depends_symbol trusts. Each one shows that a symbol is set exactly
      if the symbol is logical (or a literal), or it has no type and its name decides the test. */
  lemma DependsTestExact(op: CompOp, s: Sym, c: Sym)
    requires Depends(Comp(op, s, c), s)
    ensures (forall env: Env :: ValidEnv(env) ==> Eval(env, Comp(op, s, c)) != NO ==> env.tri(s) != NO)
            <==> s.Logical() || s.Literal()
                 || (Nameless(s) && (s.Text() == TriString(c.Denotes())) == (op == Unequal))
  {
    hide Compare, ValidEnv;
    var good := s.Logical() || s.Literal() || (Nameless(s) && (s.Text() == TriString(c.Denotes())) == (op == Unequal));
    if good {
      forall env: Env | ValidEnv(env)
        ensures Eval(env, Comp(op, s, c)) != NO ==> env.tri(s) != NO
      {
        FitsHere(env, s);
        if s.Logical() { EvalLiteral(env, s, c); } else { CompareText(env, s, c); }
      }
    } else {
      TestMisled(op, s, c);
    }
  }

  lemma PrintingValid(t: string)
    ensures ValidEnv(Printing(t))
  {
  }

  /** The test of a symbol that it does not determine can hold while the symbol is n. */
  lemma TestMisled(op: CompOp, s: Sym, c: Sym)
    requires (op == Equal && (c == ConstY || c == ConstM)) || (op == Unequal && c == ConstN)
    requires !s.Logical() && !s.Literal()
    requires Nameless(s) ==> (s.Text() == TriString(c.Denotes())) == (op == Equal)
    ensures exists env: Env :: ValidEnv(env) && Eval(env, Comp(op, s, c)) == YES && env.tri(s) == NO
  {
    hide Compare;
    var env := Printing(if op == Equal then TriString(c.Denotes()) else "");
    PrintingValid(if op == Equal then TriString(c.Denotes()) else "");
    CompareText(env, s, c);
    assert ValidEnv(env) && Eval(env, Comp(op, s, c)) == YES && env.tri(s) == NO;
  }

  /** expr_depends_symbol can be trusted on every condition exactly for telling symbols: logical
      ones, and none that reads n or has a value of another kind. */
  lemma DependsExact(s: Sym)
    ensures (forall env: Env, e: Expr :: ValidEnv(env) && Depends(e, s) && Eval(env, e) != NO ==> env.tri(s) != NO)
            <==> Telling(s)
  {
    hide Eval, ValidEnv;
    if Telling(s) {
      forall env: Env, e: Expr | ValidEnv(env) && Depends(e, s) && Eval(env, e) != NO
        ensures env.tri(s) != NO
      {
        DependsSound(env, e, s);
      }
    } else {
      TestMisled(Unequal, s, ConstN);
      var env: Env :| ValidEnv(env) && Eval(env, Comp(Unequal, s, ConstN)) == YES && env.tri(s) == NO;
      var e := Comp(Unequal, s, ConstN);
      assert Depends(e, s);
      assert ValidEnv(env) && Depends(e, s) && Eval(env, e) != NO;
    }
  }

  // ----- turning a condition into a test -----

  /** expr_trans_compare on a non-null condition: the test "e = sym", or "e != sym" if eq is
      false. For a join and the literal m the code keeps the condition itself; for a
      comparison and a symbol other than y, m and n it returns a null pointer. */
  function TransCompare(e: Expr, eq: bool, sym: Sym): (d: Dep)
    ensures sym.Literal() ==> d.Some?
  {
    match e
    case Join(ty, l, r) =>
      var body :=
        if sym == ConstY then Join(ty, TransCompare(l, true, sym).value, TransCompare(r, true, sym).value)
        else if sym == ConstN then Join(Dual(ty), TransCompare(l, true, sym).value, TransCompare(r, true, sym).value)
        else e;
      Some(if eq then body else Not(body))
    case Not(a) => TransCompare(a, !eq, sym)
    case Comp(_, _, _) =>
      if !sym.Literal() then None
      else if sym == ConstM then Some(Var(if eq then ConstN else ConstY))
      else Some(if eq == (sym == ConstY) then e else Not(e))
    case Var(s) => Some(Comp(if eq then Equal else Unequal, s, sym))
  }

  /** expr_trans_compare(d, E_UNEQUAL, n), the form menu_finalize uses. */
  function NotNo(d: Dep): Expr
  {
    match d
    case None => Not(Var(ConstN))
    case Some(e) => TransCompare(e, false, ConstN).value
  }

  /** Symbols used as truth values have one. */
  predicate TruthTyped(e: Expr)
  {
    match e
    case Join(_, l, r) => TruthTyped(l) && TruthTyped(r)
    case Not(a) => TruthTyped(a)
    case Comp(_, _, _) => true
    case Var(s) => s.Logical() || s.Literal()
  }

  /** No negated operand evaluates to m. */
  predicate NegationsSharp(env: Env, e: Expr)
  {
    match e
    case Join(_, l, r) => NegationsSharp(env, l) && NegationsSharp(env, r)
    case Not(a) => NegationsSharp(env, a) && Eval(env, a) != MOD
    case Comp(_, _, _) => true
    case Var(_) => true
  }

  /** Every symbol used as a truth value below a negation is boolean, y or n. */
  predicate NegationsBoolean(e: Expr, negated: bool)
  {
    match e
    case Join(_, l, r) => NegationsBoolean(l, negated) && NegationsBoolean(r, negated)
    case Not(a) => NegationsBoolean(a, true)
    case Comp(_, _, _) => true
    case Var(s) => negated ==> s.Type() == Boolean || s == ConstY || s == ConstN
  }

  lemma {:induction false} BooleanNegationsSharp(env: Env, e: Expr, negated: bool)
    requires ValidEnv(env) && NegationsBoolean(e, negated)
    ensures NegationsSharp(env, e)
    ensures negated ==> Eval(env, e) != MOD
  {
    match e
    case Join(_, l, r) =>
      BooleanNegationsSharp(env, l, negated);
      BooleanNegationsSharp(env, r, negated);
    case Not(a) => BooleanNegationsSharp(env, a, true);
    case Comp(_, _, _) =>
    case Var(s) => assert env.tri(ConstN) == NO && env.tri(ConstY) == YES;
  }

  /** The test decides whether the condition has the given value. */
  lemma {:induction false} TransCompareExact(env: Env, e: Expr, eq: bool, sym: Sym)
    requires ValidEnv(env) && TruthTyped(e) && NegationsSharp(env, e)
    requires sym == ConstY || sym == ConstN
    ensures Eval(env, TransCompare(e, eq, sym).value) == Truth((Eval(env, e) == sym.Denotes()) == eq)
  {
    hide Compare, ValidEnv;
    match e
    case Join(ty, l, r) =>
      TransCompareExact(env, l, true, sym);
      TransCompareExact(env, r, true, sym);
    case Not(a) => TransCompareExact(env, a, !eq, sym);
    case Comp(_, _, _) =>
    case Var(s) => CompareLiteral(env, s, sym);
  }

  lemma NotNoExact(env: Env, d: Dep)
    requires ValidEnv(env)
    requires d.Some? ==> TruthTyped(d.value) && NegationsSharp(env, d.value)
    ensures Eval(env, NotNo(d)) == Truth(EvalDep(env, d) != NO)
  {
    assert env.tri(ConstN) == NO;
    if d.Some? { TransCompareExact(env, d.value, false, ConstN); }
  }

  /** Under a negation the test is right exactly in the worlds in which the operand is not m: the
      code reads "not A is n" as "A is not n". */
  lemma NegatedTestExact(env: Env, a: Expr, eq: bool, sym: Sym)
    requires ValidEnv(env) && TruthTyped(a) && NegationsSharp(env, a)
    requires sym == ConstY || sym == ConstN
    ensures Eval(env, TransCompare(Not(a), eq, sym).value) == Truth((Eval(env, Not(a)) == sym.Denotes()) == eq)
            <==> Eval(env, a) != MOD
  {
    TransCompareExact(env, a, !eq, sym);
  }

  /** So for a single negated symbol it is right in every world exactly if the symbol is boolean,
      or y or n. */
  lemma NegatedSymbolExact(s: Sym)
    requires s.Logical() || s.Literal()
    ensures (forall env: Env :: ValidEnv(env) ==>
              Eval(env, TransCompare(Not(Var(s)), true, ConstN).value) == Truth(Eval(env, Not(Var(s))) == NO))
            <==> s.Type() == Boolean || s == ConstY || s == ConstN
  {
    hide TransCompare, Compare;
    forall env: Env | ValidEnv(env)
      ensures Eval(env, TransCompare(Not(Var(s)), true, ConstN).value) == Truth(Eval(env, Not(Var(s))) == NO)
              <==> env.tri(s) != MOD
    {
      NegatedTestExact(env, Var(s), true, ConstN);
      assert Eval(env, Var(s)) == env.tri(s);
    }
    forall env: Env | ValidEnv(env)
      ensures s.Type() == Boolean || s == ConstY || s == ConstN ==> env.tri(s) != MOD
    {
      assert Fits(s, env.tri(s), env.str(s));
    }
    assert ValidEnv(Uniform(MOD));
    assert !(s.Type() == Boolean || s == ConstY || s == ConstN) ==> Uniform(MOD).tri(s) == MOD;
  }

  // ----- what tests and normal forms inherit -----

  lemma {:induction false} TransComparePlain(e: Expr, eq: bool, sym: Sym)
    requires Plain(e) && sym.Literal()
    ensures Plain(TransCompare(e, eq, sym).value)
  {
    match e
    case Join(ty, l, r) =>
      TransComparePlain(l, true, sym);
      TransComparePlain(r, true, sym);
    case Not(a) => TransComparePlain(a, !eq, sym);
    case Comp(_, _, _) =>
    case Var(s) =>
  }

  lemma {:induction false} TransCompareComparable(e: Expr, eq: bool, sym: Sym)
    requires Comparable(e) && sym.Literal()
    ensures Comparable(TransCompare(e, eq, sym).value)
  {
    match e
    case Join(ty, l, r) =>
      TransCompareComparable(l, true, sym);
      TransCompareComparable(r, true, sym);
    case Not(a) => TransCompareComparable(a, !eq, sym);
    case Comp(_, _, _) =>
    case Var(s) =>
  }

  lemma {:induction false} TransformPlain(e: Expr)
    requires Plain(e)
    ensures Plain(Transform(e))
    decreases Weight(e)
  {
    match e
    case Comp(_, _, _) =>
    case Var(_) =>
    case Join(ty, l, r) =>
      TransformPlain(l);
      TransformPlain(r);
    case Not(a) =>
      TransformPlain(a);
      match Transform(a)
      case Not(b) => TransformPlain(b);
      case Comp(op, s1, s2) =>
      case Join(ty, l, r) => TransformPlain(PushNot(ty, l, r));
      case Var(s) =>
  }

  // ----- automatic submenus -----

  /** What the theorems assume of a condition: its constants, orderings and truth values are
      the ones the three-valued reading is meant for. */
  predicate WellTyped(d: Dep)
  {
    d.Some? ==> Plain(d.value) && Comparable(d.value) && TruthTyped(d.value)
  }

  /** The simplified test that a condition is not n. */
  function Test(d: Dep): Expr
  {
    EliminateDups(Transform(NotNo(d)))
  }

  /** Whether menu_finalize nests an entry with condition dep under the entry of symbol sym
      whose prompt is shown under the condition vis. */
  predicate Nests(sym: Sym, vis: Dep, dep: Dep)
  {
    && dep.Some? && Contains(dep.value, sym)
    && (Depends(dep.value, sym) || EliminateEq(Test(dep), Test(vis)).1 == Var(ConstY))
  }

  lemma TestExact(env: Env, d: Dep)
    requires ValidEnv(env) && Sharp(env, d)
    ensures Eval(env, Test(d)) == Truth(EvalDep(env, d) != NO)
  {
    NotNoExact(env, d);
    if d.Some? {
      TransComparePlain(d.value, false, ConstN);
      TransCompareComparable(d.value, false, ConstN);
    }
    TransformSound(env, NotNo(d));
    TransformPlain(NotNo(d));
    EliminateDupsSound(env, Transform(NotNo(d)));
  }

  /** A nested entry can be available only if the symbol above it is set, or the prompt above it
      is shown, depending on which of the two tests nested it. Only the first test needs a symbol
      with a truth value. */
  lemma NestsSound(env: Env, sym: Sym, vis: Dep, dep: Dep)
    requires ValidEnv(env) && Nests(sym, vis, dep) && EvalDep(env, dep) != NO
    ensures Depends(dep.value, sym) && Telling(sym) ==> env.tri(sym) != NO
    ensures !Depends(dep.value, sym) && Sharp(env, vis) && Sharp(env, dep) ==> EvalDep(env, vis) != NO
  {
    if Depends(dep.value, sym) {
      if Telling(sym) { DependsSound(env, dep.value, sym); }
    } else if Sharp(env, vis) && Sharp(env, dep) {
      TestExact(env, vis);
      TestExact(env, dep);
      EliminateEqImplies(env, Test(dep), Test(vis));
    }
  }

  /** What the second test needs of a condition in a world. */
  predicate Sharp(env: Env, d: Dep)
  {
    WellTyped(d) && (d.Some? ==> NegationsSharp(env, d.value))
  }

  /** A condition that can be seen to be sharp in every world from its text alone: below negations
      only boolean symbols, y and n are used as truth values. */
  predicate SharpText(d: Dep)
  {
    WellTyped(d) && (d.Some? ==> NegationsBoolean(d.value, false))
  }

  lemma SharpTextSharp(env: Env, d: Dep)
    requires ValidEnv(env) && SharpText(d)
    ensures Sharp(env, d)
  {
    if d.Some? { BooleanNegationsSharp(env, d.value, false); }
  }

  // ----- conditions handed down the tree -----

  /** expr_trans_bool on a non-null condition. */
  function TransBool(e: Expr): Expr
  {
    match e
    case Join(ty, l, r) => Join(ty, TransBool(l), TransBool(r))
    case Not(a) => Not(TransBool(a))
    case Comp(op, a, b) => if Rewritten(op, a, b) then Var(a) else e
    case Var(_) => e
  }

  /** Negations stand over symbols only. */
  predicate Shallow(e: Expr)
  {
    match e
    case Join(_, l, r) => Shallow(l) && Shallow(r)
    case Not(a) => a.Var?
    case Comp(_, _, _) => true
    case Var(_) => true
  }

  function Promote(v: Tristate): Tristate { if v == MOD then YES else v }

  /** The comparison that expr_trans_bool rewrites. */
  predicate Rewritten(op: CompOp, a: Sym, b: Sym) { op == Unequal && a.Type() == Tri && b == ConstN }

  /** No such comparison stands below a negation. */
  predicate TestsPositive(e: Expr, negated: bool)
  {
    match e
    case Join(_, l, r) => TestsPositive(l, negated) && TestsPositive(r, negated)
    case Not(a) => TestsPositive(a, true)
    case Comp(op, a, b) => negated ==> !Rewritten(op, a, b)
    case Var(_) => true
  }

  lemma {:induction false} NothingRewritten(e: Expr)
    requires TestsPositive(e, true)
    ensures TransBool(e) == e
  {
    if e.Join? {
      NothingRewritten(e.left);
      NothingRewritten(e.right);
    } else if e.Not? {
      NothingRewritten(e.arg);
    }
  }

  /** Without negated tests the rewriting can only lower a value, and only from y to m. */
  lemma {:induction false} TransBoolPromoted(env: Env, e: Expr)
    requires ValidEnv(env) && TestsPositive(e, false)
    ensures Eval(env, TransBool(e)) <= Eval(env, e)
    ensures Promote(Eval(env, TransBool(e))) == Promote(Eval(env, e))
  {
    match e
    case Join(_, l, r) =>
      TransBoolPromoted(env, l);
      TransBoolPromoted(env, r);
    case Not(a) => NothingRewritten(a);
    case Comp(op, a, b) => if Rewritten(op, a, b) { EvalLiteral(env, a, b); }
    case Var(_) =>
  }

  /** In one world, the rewriting keeps the value of a comparison, and the promoted value of a
      negated one, unless it rewrites it and the symbol is m. */
  lemma TransBoolAt(env: Env, op: CompOp, a: Sym, b: Sym)
    requires ValidEnv(env)
    ensures var e := Comp(op, a, b);
            && (Eval(env, TransBool(e)) == Eval(env, e) <==> !(Rewritten(op, a, b) && env.tri(a) == MOD))
            && (Promote(Eval(env, TransBool(Not(e)))) == Promote(Eval(env, Not(e)))
                <==> !(Rewritten(op, a, b) && env.tri(a) == MOD))
  {
    hide Compare;
    if Rewritten(op, a, b) {
      EvalLiteral(env, a, b);
    }
  }

  /** In every world, the value of a comparison is kept before m is promoted exactly if the
      comparison is not rewritten, and so is the promoted value of a negated comparison. In the
      normal forms that menu_finalize passes to expr_trans_bool no comparison is negated. */
  lemma TransBoolExact(op: CompOp, a: Sym, b: Sym)
    ensures var e := Comp(op, a, b);
            && ((forall env: Env :: ValidEnv(env) ==> Eval(env, TransBool(e)) == Eval(env, e))
                <==> !Rewritten(op, a, b))
            && ((forall env: Env :: ValidEnv(env) ==>
                  Promote(Eval(env, TransBool(Not(e)))) == Promote(Eval(env, Not(e))))
                <==> !Rewritten(op, a, b))
  {
    hide TransBool, Compare, Promote;
    forall env: Env | ValidEnv(env)
      ensures var e := Comp(op, a, b);
              && (Eval(env, TransBool(e)) == Eval(env, e) <==> !(Rewritten(op, a, b) && env.tri(a) == MOD))
              && (Promote(Eval(env, TransBool(Not(e)))) == Promote(Eval(env, Not(e)))
                  <==> !(Rewritten(op, a, b) && env.tri(a) == MOD))
    {
      TransBoolAt(env, op, a, b);
    }
    assert ValidEnv(Uniform(MOD));
    assert Rewritten(op, a, b) ==> Uniform(MOD).tri(a) == MOD;
  }

  lemma {:induction false} ShallowPositive(e: Expr)
    requires Shallow(e)
    ensures TestsPositive(e, false) && Shallow(TransBool(e))
  {
    if e.Join? {
      ShallowPositive(e.left);
      ShallowPositive(e.right);
    }
  }

  lemma ShallowClosed()
    ensures Closed(Shallow)
  {
    forall ty: JoinType, e1: Expr, e2: Expr | Shallow(e1) && Shallow(e2) && Joined(ty, e1, e2).Some?
      ensures Shallow(Joined(ty, e1, e2).value)
    {
    }
  }

  lemma {:induction false} NormalShallow(e: Expr)
    requires NormalForm(e)
    ensures Shallow(e)
  {
    if e.Join? {
      NormalShallow(e.left);
      NormalShallow(e.right);
    }
  }

  /** The condition menu_finalize stores for an entry or a property: its own one, normalised,
      under the inherited one. */
  function HandDown(inherited: Dep, own: Dep): Dep
  {
    var own' := match own case None => None case Some(e) => Some(Transform(e));
    match AllocAnd(inherited, own') case None => None case Some(e) => Some(EliminateDups(e))
  }

  /** The condition stored for a property, which loses tests of tristate symbols if the symbol
      of the entry is not a tristate. */
  function HandDownProperty(inherited: Dep, own: Dep, tristate: bool): Dep
  {
    match HandDown(inherited, own)
    case None => None
    case Some(e) => Some(if tristate then e else TransBool(e))
  }

  predicate ShallowDep(d: Dep) { d.Some? ==> Shallow(d.value) && Plain(d.value) }

  /** A stored condition is the conjunction of the inherited one and the entry's own. */
  lemma HandDownMeaning(env: Env, inherited: Dep, own: Dep)
    requires ValidEnv(env) && ShallowDep(inherited) && WellTyped(own)
    ensures EvalDep(env, HandDown(inherited, own)) == TriAnd(EvalDep(env, inherited), EvalDep(env, own))
    ensures ShallowDep(HandDown(inherited, own))
  {
    if own.Some? {
      TransformSound(env, own.value);
      TransformPlain(own.value);
      TransformNormal(own.value);
      NormalShallow(Transform(own.value));
    }
    var d := AllocAnd(inherited, if own.Some? then Some(Transform(own.value)) else None);
    if d.Some? {
      EliminateDupsSound(env, d.value);
      PlainClosed();
      ShallowClosed();
      ClosedEliminateDups(Plain, d.value);
      ClosedEliminateDups(Shallow, d.value);
    }
  }

  lemma {:induction false} TransBoolPlain(e: Expr)
    requires Plain(e)
    ensures Plain(TransBool(e))
  {
    if e.Join? { TransBoolPlain(e.left); TransBoolPlain(e.right); }
    if e.Not? { TransBoolPlain(e.arg); }
  }

  /** Down the tree conditions only get stronger: a property is available at most as much as
      its entry, and the entry at most as much as the prompt that contains it. For a symbol
      that is not a tristate the rewriting is invisible once m is promoted to y. */
  lemma HandDownMonotone(env: Env, prompt: Dep, dep: Dep, visible: Dep, tristate: bool)
    requires ValidEnv(env) && ShallowDep(prompt) && WellTyped(dep) && WellTyped(visible)
    ensures var entry := HandDown(prompt, dep);
            var prop := HandDownProperty(entry, visible, tristate);
            var exact := TriAnd(TriAnd(EvalDep(env, prompt), EvalDep(env, dep)), EvalDep(env, visible));
            && EvalDep(env, prop) <= EvalDep(env, entry) <= EvalDep(env, prompt)
            && Promote(EvalDep(env, prop)) == Promote(exact)
            && (tristate ==> EvalDep(env, prop) == exact)
            && ShallowDep(prop)
  {
    var entry := HandDown(prompt, dep);
    HandDownMeaning(env, prompt, dep);
    HandDownMeaning(env, entry, visible);
    var d := HandDown(entry, visible);
    if d.Some? {
      ShallowPositive(d.value);
      TransBoolPromoted(env, d.value);
      TransBoolPlain(d.value);
    }
  }

  /** The visibility sym_calc_visibility computes from the conditions of the prompts. */
  function Visibility(env: Env, prompts: seq<Dep>): Tristate
  {
    if prompts == [] then NO else TriOr(EvalDep(env, prompts[0]), Visibility(env, prompts[1..]))
  }

  function StripBool(prompts: seq<Dep>): (r: seq<Dep>)
    ensures |r| == |prompts|
  {
    seq(|prompts|, i requires 0 <= i < |prompts| =>
      match prompts[i] case None => None case Some(e) => Some(TransBool(e)))
  }

  /** Rewriting the conditions of all prompts leaves the visibility of a boolean symbol alone. */
  lemma {:induction false} VisibilityUnchanged(env: Env, prompts: seq<Dep>)
    requires ValidEnv(env) && forall d :: d in prompts ==> ShallowDep(d)
    ensures Promote(Visibility(env, StripBool(prompts))) == Promote(Visibility(env, prompts))
  {
    if prompts != [] {
      VisibilityUnchanged(env, prompts[1..]);
      assert StripBool(prompts)[1..] == StripBool(prompts[1..]);
      assert ShallowDep(prompts[0]) by { assert prompts[0] in prompts; }
      if prompts[0].Some? {
        ShallowPositive(prompts[0].value);
        TransBoolPromoted(env, prompts[0].value);
      }
    }
  }
}
