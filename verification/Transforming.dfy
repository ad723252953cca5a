/** Bringing a condition into negation normal form (expr_transform in scripts/config/expr.c). */
module Transforming {
  import opened Common
  import opened Expressions
  import opened Cancelling
  import opened Joining

  /** The operator that negates a comparison. */
  function Flip(op: CompOp): CompOp
  {
    match op
    case Equal => Unequal
    case Unequal => Equal
    case Leq => Gth
    case Geq => Lth
    case Lth => Geq
    case Gth => Leq
  }

  /** The measure that shrinks although negated joins are taken apart and transformed again:
      a negation doubles its operand, and a comparison may become a negated symbol. */
  function Weight(e: Expr): (w: nat)
    ensures w >= 1
  {
    match e
    case Join(_, l, r) => 1 + Weight(l) + Weight(r)
    case Not(a) => 2 * Weight(a)
    case Comp(_, _, _) => 2
    case Var(_) => 1
  }

  function Dual(ty: JoinType): JoinType { if ty == OR then AND else OR }

  /** A comparison of a boolean symbol with y, m or n is the symbol, its negation or fixed. */
  function SimplifyComp(e: Expr): (r: Expr)
    requires e.Comp?
    ensures Weight(r) <= Weight(e)
  {
    if e.op.IsOrdering() || e.lhs.Type() != Boolean then e
    else if e.op == Equal then
      if e.rhs == ConstN then Not(Var(e.lhs))
      else if e.rhs == ConstM then Var(ConstN)
      else if e.rhs == ConstY then Var(e.lhs)
      else e
    else
      if e.rhs == ConstN then Var(e.lhs)
      else if e.rhs == ConstM then Var(ConstY)
      else if e.rhs == ConstY then Not(Var(e.lhs))
      else e
  }

  /** The negation of y, m and n. */
  function NegateVar(s: Sym): Expr
  {
    if s == ConstY then Var(ConstN)
    else if s == ConstM then Var(ConstM)
    else if s == ConstN then Var(ConstY)
    else Not(Var(s))
  }

  /** De Morgan: what the negation of a join is rewritten into before it is transformed again. */
  function PushNot(ty: JoinType, l: Expr, r: Expr): (e: Expr)
    ensures Weight(e) < Weight(Not(Join(ty, l, r)))
  {
    assert Weight(Not(Join(ty, l, r))) == 2 * (1 + Weight(l) + Weight(r));
    Join(Dual(ty), Not(l), Not(r))
  }

  /** expr_transform on a non-null expression. */
  function Transform(e: Expr): (r: Expr)
    ensures Weight(r) <= Weight(e)
    decreases Weight(e)
  {
    match e
    case Comp(_, _, _) => SimplifyComp(e)
    case Var(_) => e
    case Join(ty, l, r) => Join(ty, Transform(l), Transform(r))
    case Not(a) =>
      match Transform(a)
      case Not(b) => Transform(b)
      case Comp(op, s1, s2) => Comp(Flip(op), s1, s2)
      case Join(ty, l, r) => Transform(PushNot(ty, l, r))
      case Var(s) => NegateVar(s)
  }

  /** Negation normal form: a negation stands only over a symbol other than y, m and n, and no
      boolean symbol is compared with y, m or n. */
  predicate NormalForm(e: Expr)
  {
    match e
    case Join(_, l, r) => NormalForm(l) && NormalForm(r)
    case Not(a) => a.Var? && !a.sym.Literal()
    case Comp(op, a, b) => !op.IsOrdering() && a.Type() == Boolean ==> !b.Literal()
    case Var(_) => true
  }

  lemma {:induction false} TransformNormal(e: Expr)
    ensures NormalForm(Transform(e))
    decreases Weight(e)
  {
    match e
    case Comp(_, _, _) =>
    case Var(_) =>
    case Join(ty, l, r) =>
      TransformNormal(l);
      TransformNormal(r);
    case Not(a) =>
      TransformNormal(a);
      match Transform(a)
      case Not(b) => TransformNormal(b);
      case Comp(op, s1, s2) =>
      case Join(ty, l, r) => TransformNormal(PushNot(ty, l, r));
      case Var(s) =>
  }

  lemma {:induction false} NormalFixed(e: Expr)
    requires NormalForm(e)
    ensures Transform(e) == e
  {
    match e
    case Comp(_, _, _) =>
    case Var(_) =>
    case Join(ty, l, r) =>
      NormalFixed(l);
      NormalFixed(r);
    case Not(a) =>
  }

  /** An expression is in normal form exactly when transforming it changes nothing. */
  lemma {:induction false} TransformFixedPoints(e: Expr)
    ensures Transform(e) == e <==> NormalForm(e)
  {
    TransformNormal(e);
    if NormalForm(e) { NormalFixed(e); }
  }

  lemma TransformIdempotent(e: Expr)
    ensures Transform(Transform(e)) == Transform(e)
  {
    TransformNormal(e);
    NormalFixed(Transform(e));
  }

  // ----- the value is kept -----

  /** A symbol that is always compared as text: it has no type, and its name is no numeral. */
  predicate Wordy(s: Sym) { s.Type() == Unknown && Numeral(s.Text(), 0, false).None? }

  /** An operand of type S_OTHER has no order, except against a word. */
  predicate HaveOrder(a: Sym, b: Sym)
  {
    (a.Type() != Other && b.Type() != Other) || Wordy(a) || Wordy(b)
  }

  /** The operands of all ordering comparisons have an order. */
  predicate Comparable(e: Expr)
  {
    match e
    case Join(_, l, r) => Comparable(l) && Comparable(r)
    case Not(a) => Comparable(a)
    case Comp(op, a, b) => op.IsOrdering() ==> HaveOrder(a, b)
    case Var(_) => true
  }

  lemma FlipNegates(env: Env, op: CompOp, a: Sym, b: Sym)
    requires ValidEnv(env) && Comparable(Comp(op, a, b))
    ensures Eval(env, Comp(Flip(op), a, b)) == TriNot(Eval(env, Comp(op, a, b)))
  {
    hide Numeral;
    assert Fits(a, env.tri(a), env.str(a)) && Fits(b, env.tri(b), env.str(b));
  }

  lemma SimplifyCompSound(env: Env, e: Expr)
    requires ValidEnv(env) && e.Comp?
    ensures Eval(env, SimplifyComp(e)) == Eval(env, e)
  {
    if !e.op.IsOrdering() && e.lhs.Type() == Boolean && e.rhs.Literal() {
      EvalLiteral(env, e.lhs, e.rhs);
      assert env.tri(e.lhs) != MOD;
      assert env.tri(ConstN) == NO && env.tri(ConstY) == YES;
    }
  }

  lemma NegateVarSound(env: Env, s: Sym)
    requires ValidEnv(env)
    ensures Eval(env, NegateVar(s)) == TriNot(env.tri(s))
  {
    assert env.tri(ConstN) == NO && env.tri(ConstM) == MOD && env.tri(ConstY) == YES;
  }

  lemma DeMorgan(env: Env, ty: JoinType, l: Expr, r: Expr)
    ensures Eval(env, PushNot(ty, l, r)) == TriNot(Eval(env, Join(ty, l, r)))
  {
  }

  lemma {:induction false} TransformComparable(e: Expr)
    requires Comparable(e)
    ensures Comparable(Transform(e))
    decreases Weight(e)
  {
    match e
    case Comp(_, _, _) =>
    case Var(_) =>
    case Join(ty, l, r) =>
      TransformComparable(l);
      TransformComparable(r);
    case Not(a) =>
      TransformComparable(a);
      match Transform(a)
      case Not(b) => TransformComparable(b);
      case Comp(op, s1, s2) =>
      case Join(ty, l, r) => TransformComparable(PushNot(ty, l, r));
      case Var(s) =>
  }

  /** The normal form has the value of the input, in every world. */
  lemma {:induction false} TransformSound(env: Env, e: Expr)
    requires ValidEnv(env) && Comparable(e)
    ensures Eval(env, Transform(e)) == Eval(env, e)
    decreases Weight(e)
  {
    match e
    case Comp(_, _, _) => SimplifyCompSound(env, e);
    case Var(_) =>
    case Join(ty, l, r) =>
      TransformSound(env, l);
      TransformSound(env, r);
    case Not(a) =>
      TransformSound(env, a);
      TransformComparable(a);
      match Transform(a)
      case Not(b) => TransformSound(env, b);
      case Comp(op, s1, s2) => FlipNegates(env, op, s1, s2);
      case Join(ty, l, r) =>
        DeMorgan(env, ty, l, r);
        TransformSound(env, PushNot(ty, l, r));
      case Var(s) => NegateVarSound(env, s);
  }

  /** A world in which every symbol with a value of its own reads as 0. */
  function Numeric(): Env
  {
    Env((s: Sym) => if s.Literal() then s.Denotes() else NO,
        (s: Sym) => if s.Literal() then TriString(s.Denotes())
                    else if s.Logical() then "n"
                    else if s.Type() == Unknown || s.Type() == Other then s.Text() else "0")
  }

  lemma NumericValid()
    ensures ValidEnv(Numeric())
    ensures Numeral("0", 0, false) == Numeral("0", 10, false) == Numeral("0", 16, true) == Some(0)
  {
    var s := "0";
    assert SkipSpace(s) == s && s[..|s| - 1] == "" && DigitValue(s[0]) == 0;
    assert Magnitude(s, 8) == Magnitude(s, 10) == Magnitude(s, 16) == Some(0);
  }

  /** Rewriting a negated ordering comparison into the opposite one keeps the value in every
      world exactly when the operands have an order: unless one of them has type S_OTHER and the
      other one is not a word. */
  lemma FlipExact(op: CompOp, a: Sym, b: Sym)
    requires op.IsOrdering()
    ensures (forall env: Env :: ValidEnv(env) ==>
              Eval(env, Comp(Flip(op), a, b)) == Eval(env, Not(Comp(op, a, b))))
            <==> HaveOrder(a, b)
  {
    hide Numeral;
    if HaveOrder(a, b) {
      forall env: Env | ValidEnv(env)
        ensures Eval(env, Comp(Flip(op), a, b)) == Eval(env, Not(Comp(op, a, b)))
      {
        FlipNegates(env, op, a, b);
      }
    } else {
      var env := Numeric();
      NumericValid();
      assert Compare(env, a, b).Unordered?;
      assert Eval(env, Comp(Flip(op), a, b)) == NO && Eval(env, Comp(op, a, b)) == NO;
    }
  }
}
