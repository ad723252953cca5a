/** Cancelling common operands of two expressions, and the equality test built on it
    (expr_eliminate_yn, __expr_eliminate_eq, expr_eliminate_eq and expr_eq in
    scripts/config/expr.c). */
module Cancelling {
  import opened Expressions

  /** Folds y and n out of every AND and OR on the spine of an expression. */
  function EliminateYn(e: Expr): (r: Expr)
    ensures Size(r) <= Size(e)
  {
    match e
    case Join(ty, l, r) => Fold(ty, EliminateYn(l), EliminateYn(r))
    case _ => e
  }

  /** The join of two operands, or what it comes to if one of them is y or n. */
  function Fold(ty: JoinType, l: Expr, r: Expr): (f: Expr)
    ensures Size(f) <= Size(Join(ty, l, r))
    ensures l in {Var(ConstY), Var(ConstN)} || r in {Var(ConstY), Var(ConstN)} ==> Size(f) < Size(Join(ty, l, r))
  {
    if l == Var(ty.Zero()) then Var(ty.Zero())
    else if l == Var(ty.Unit()) then r
    else if r == Var(ty.Zero()) then Var(ty.Zero())
    else if r == Var(ty.Unit()) then l
    else Join(ty, l, r)
  }

  predicate IsJoin(ty: JoinType, e: Expr) { e.Join? && e.ty == ty }

  /** __expr_eliminate_eq: every leaf of the first group against every leaf of the second. */
  function CancelGroups(ty: JoinType, e1: Expr, e2: Expr): (r: (Expr, Expr))
    ensures Size(r.0) <= Size(e1) && Size(r.1) <= Size(e2)
    ensures (IsJoin(ty, e1) ==> IsJoin(ty, r.0)) && (IsJoin(ty, e2) ==> IsJoin(ty, r.1))
    decreases Size(e1) + Size(e2), if IsJoin(ty, e1) || IsJoin(ty, e2) then 0 else 4
  {
    if IsJoin(ty, e1) then
      var (l, e2') := CancelGroups(ty, e1.left, e2);
      var (r, e2'') := CancelGroups(ty, e1.right, e2');
      (Join(ty, l, r), e2'')
    else if IsJoin(ty, e2) then
      var (e1', l) := CancelGroups(ty, e1, e2.left);
      var (e1'', r) := CancelGroups(ty, e1', e2.right);
      (e1'', Join(ty, l, r))
    else if e1 == e2 && (e1 == Var(ConstY) || e1 == Var(ConstN)) then (e1, e2)
    else if !ExprEq(e1, e2) then (e1, e2)
    else (Var(ty.Unit()), Var(ty.Unit()))
  }

  /** The two passes of expr_eliminate_eq, before its final folding. */
  function CancelBoth(e1: Expr, e2: Expr): (r: (Expr, Expr))
    ensures Size(r.0) <= Size(e1) && Size(r.1) <= Size(e2)
    decreases Size(e1) + Size(e2), 1
  {
    var (a1, a2) := if e1.Join? then CancelGroups(e1.ty, e1, e2) else (e1, e2);
    if a2.Join? && !IsJoin(a2.ty, a1) then CancelGroups(a2.ty, a1, a2) else (a1, a2)
  }

  /** expr_eliminate_eq on two non-null expressions. */
  function EliminateEq(e1: Expr, e2: Expr): (r: (Expr, Expr))
    decreases Size(e1) + Size(e2), 2
  {
    var (b1, b2) := CancelBoth(e1, e2);
    (EliminateYn(b1), EliminateYn(b2))
  }

  /** expr_eq. */
  predicate ExprEq(e1: Expr, e2: Expr)
    decreases Size(e1) + Size(e2), 3
  {
    match (e1, e2)
    case (Join(t1, _, _), Join(t2, _, _)) =>
      t1 == t2 &&
      var (r1, r2) := EliminateEq(e1, e2);
      r1.Var? && r1 == r2
    case (Not(a1), Not(a2)) => ExprEq(a1, a2)
    case (Comp(_, _, _), Comp(_, _, _)) => e1 == e2
    case (Var(_), Var(_)) => e1 == e2
    case _ => false
  }

  // ----- folding keeps the value -----

  lemma {:induction false} EliminateYnSound(env: Env, e: Expr)
    requires ValidEnv(env)
    ensures Eval(env, EliminateYn(e)) == Eval(env, e)
  {
    hide ValidEnv, Compare, Fold;
    if e.Join? {
      EliminateYnSound(env, e.left);
      EliminateYnSound(env, e.right);
      FoldSound(env, e.ty, EliminateYn(e.left), EliminateYn(e.right));
    }
  }

  lemma FoldSound(env: Env, ty: JoinType, l: Expr, r: Expr)
    requires ValidEnv(env)
    ensures Eval(env, Fold(ty, l, r)) == ty.Combine(Eval(env, l), Eval(env, r))
  {
    hide ValidEnv, Compare;
    LiteralValues(env);
  }

  // ----- cancelled operands -----

  /** What cancelling removed from both expressions: the join of the cancelled operands of
      the first one, in the order in which they were cancelled. */
  function Factor(ty: JoinType, e1: Expr, e2: Expr): Expr
    decreases Size(e1) + Size(e2)
  {
    if IsJoin(ty, e1) then
      var (_, e2') := CancelGroups(ty, e1.left, e2);
      Join(ty, Factor(ty, e1.left, e2), Factor(ty, e1.right, e2'))
    else if IsJoin(ty, e2) then
      var (e1', _) := CancelGroups(ty, e1, e2.left);
      Join(ty, Factor(ty, e1, e2.left), Factor(ty, e1', e2.right))
    else if CancelGroups(ty, e1, e2) == (e1, e2) then Var(ty.Unit())
    else e1
  }

  /** The values v1 and v2 share the factor m, with r1 and r2 left over. */
  ghost predicate Shares(ty: JoinType, v1: Tristate, v2: Tristate, m: Tristate, r1: Tristate, r2: Tristate)
  {
    v1 == ty.Combine(m, r1) && v2 == ty.Combine(m, r2)
  }

  ghost predicate HasFactor(env: Env, ty: JoinType, e1: Expr, e2: Expr)
  {
    var (r1, r2) := CancelGroups(ty, e1, e2);
    Shares(ty, Eval(env, e1), Eval(env, e2), Eval(env, Factor(ty, e1, e2)), Eval(env, r1), Eval(env, r2))
  }

  /** Two successive cancellations against the same expression combine. */
  lemma SharesTwice(ty: JoinType, a: Tristate, b: Tristate, c: Tristate, m: Tristate, n: Tristate,
                    a': Tristate, b': Tristate, c': Tristate, c'': Tristate)
    requires Shares(ty, a, c, m, a', c')
    requires Shares(ty, b, c', n, b', c'')
    ensures Shares(ty, ty.Combine(a, b), c, ty.Combine(m, n), ty.Combine(a', b'), c'')
  {
  }

  /** Both inputs are the common factor joined with what is left of them, and equality holds
      only between expressions of equal value. The two statements need each other. */
  lemma {:induction false} CancelGroupsFactor(env: Env, ty: JoinType, e1: Expr, e2: Expr)
    requires ValidEnv(env)
    ensures HasFactor(env, ty, e1, e2)
    decreases Size(e1) + Size(e2), if IsJoin(ty, e1) || IsJoin(ty, e2) then 0 else 4
  {
    if IsJoin(ty, e1) {
      var (l, e2') := CancelGroups(ty, e1.left, e2);
      var (r, e2'') := CancelGroups(ty, e1.right, e2');
      CancelGroupsFactor(env, ty, e1.left, e2);
      CancelGroupsFactor(env, ty, e1.right, e2');
      SharesTwice(ty, Eval(env, e1.left), Eval(env, e1.right), Eval(env, e2),
                  Eval(env, Factor(ty, e1.left, e2)), Eval(env, Factor(ty, e1.right, e2')),
                  Eval(env, l), Eval(env, r), Eval(env, e2'), Eval(env, e2''));
    } else if IsJoin(ty, e2) {
      var (e1', l) := CancelGroups(ty, e1, e2.left);
      var (e1'', r) := CancelGroups(ty, e1', e2.right);
      CancelGroupsFactor(env, ty, e1, e2.left);
      CancelGroupsFactor(env, ty, e1', e2.right);
      SharesTwice(ty, Eval(env, e2.left), Eval(env, e2.right), Eval(env, e1),
                  Eval(env, Factor(ty, e1, e2.left)), Eval(env, Factor(ty, e1', e2.right)),
                  Eval(env, l), Eval(env, r), Eval(env, e1'), Eval(env, e1''));
    } else {
      if ExprEq(e1, e2) { ExprEqSound(env, e1, e2); }
      CancelLeaves(env, ty, e1, e2);
    }
  }

  lemma CancelLeaves(env: Env, ty: JoinType, e1: Expr, e2: Expr)
    requires ValidEnv(env)
    requires !IsJoin(ty, e1) && !IsJoin(ty, e2)
    requires ExprEq(e1, e2) ==> Eval(env, e1) == Eval(env, e2)
    ensures HasFactor(env, ty, e1, e2)
  {
    hide ValidEnv, Compare, ExprEq;
    LiteralValues(env);
  }

  lemma {:induction false} ExprEqSound(env: Env, e1: Expr, e2: Expr)
    requires ValidEnv(env)
    requires ExprEq(e1, e2)
    ensures Eval(env, e1) == Eval(env, e2)
    decreases Size(e1) + Size(e2), 3
  {
    if e1.Join? {
      var (a1, a2) := CancelGroups(e1.ty, e1, e2);
      assert (a1, a2) == CancelBoth(e1, e2);
      CancelGroupsFactor(env, e1.ty, e1, e2);
      EliminateYnSound(env, a1);
      EliminateYnSound(env, a2);
    } else if e1.Not? {
      ExprEqSound(env, e1.arg, e2.arg);
    }
  }

  /** Cancelling does not change which of two values is the smaller one, once what is left
      of them is ordered. */
  lemma CancelGroupsOrder(env: Env, ty: JoinType, e1: Expr, e2: Expr)
    requires ValidEnv(env)
    requires var (r1, r2) := CancelGroups(ty, e1, e2); Eval(env, r1) <= Eval(env, r2)
    ensures Eval(env, e1) <= Eval(env, e2)
  {
    CancelGroupsFactor(env, ty, e1, e2);
  }

  lemma CancelBothOrder(env: Env, e1: Expr, e2: Expr)
    requires ValidEnv(env)
    requires var (b1, b2) := CancelBoth(e1, e2); Eval(env, b1) <= Eval(env, b2)
    ensures Eval(env, e1) <= Eval(env, e2)
  {
    hide Eval, ValidEnv, CancelGroups;
    if e1.Join? {
      var (a1, a2) := CancelGroups(e1.ty, e1, e2);
      SecondOrder(env, a1, a2);
      CancelGroupsOrder(env, e1.ty, e1, e2);
    } else {
      SecondOrder(env, e1, e2);
    }
  }

  /** The second pass alone. */
  lemma SecondOrder(env: Env, a1: Expr, a2: Expr)
    requires ValidEnv(env)
    requires var (b1, b2) := if a2.Join? && !IsJoin(a2.ty, a1) then CancelGroups(a2.ty, a1, a2) else (a1, a2);
             Eval(env, b1) <= Eval(env, b2)
    ensures Eval(env, a1) <= Eval(env, a2)
  {
    hide Eval, ValidEnv, CancelGroups;
    if a2.Join? && !IsJoin(a2.ty, a1) { CancelGroupsOrder(env, a2.ty, a1, a2); }
  }

  /** When the second expression cancels down to y, the first one implies it. This is what
      the submenu decision of menu_finalize relies on. */
  lemma EliminateEqImplies(env: Env, e1: Expr, e2: Expr)
    requires ValidEnv(env)
    requires EliminateEq(e1, e2).1 == Var(ConstY)
    ensures Eval(env, e1) <= Eval(env, e2)
  {
    hide ValidEnv, CancelBoth, EliminateYn;
    LiteralValues(env);
    var (b1, b2) := CancelBoth(e1, e2);
    EliminateYnSound(env, b2);
    CancelBothOrder(env, e1, e2);
  }

  // ----- nothing left to cancel -----

  /** Equal leaves that cancelling leaves alone: both y, or both n. */
  predicate SameLiteral(e1: Expr, e2: Expr) { e1 == e2 && (e1 == Var(ConstY) || e1 == Var(ConstN)) }

  /** No leaf of the first group equals a leaf of the second, apart from the literals. */
  predicate Coprime(ty: JoinType, e1: Expr, e2: Expr)
    decreases Size(e1) + Size(e2)
  {
    if IsJoin(ty, e1) then Coprime(ty, e1.left, e2) && Coprime(ty, e1.right, e2)
    else if IsJoin(ty, e2) then Coprime(ty, e1, e2.left) && Coprime(ty, e1, e2.right)
    else SameLiteral(e1, e2) || !ExprEq(e1, e2)
  }

  /** b is a with some of its leaves replaced by the unit. */
  predicate Blanked(ty: JoinType, a: Expr, b: Expr)
  {
    if IsJoin(ty, a) then IsJoin(ty, b) && Blanked(ty, a.left, b.left) && Blanked(ty, a.right, b.right)
    else b == a || b == Var(ty.Unit())
  }

  lemma {:induction false} BlankedTrans(ty: JoinType, a: Expr, b: Expr, c: Expr)
    requires Blanked(ty, a, b) && Blanked(ty, b, c)
    ensures Blanked(ty, a, c)
  {
    if IsJoin(ty, a) {
      BlankedTrans(ty, a.left, b.left, c.left);
      BlankedTrans(ty, a.right, b.right, c.right);
    }
  }

  lemma {:induction false} BlankedSelf(ty: JoinType, a: Expr)
    ensures Blanked(ty, a, a)
  {
    if IsJoin(ty, a) {
      BlankedSelf(ty, a.left);
      BlankedSelf(ty, a.right);
    }
  }

  /** Cancelling keeps the shape of both groups and only blanks leaves. */
  lemma {:induction false} CancelGroupsBlanks(ty: JoinType, e1: Expr, e2: Expr)
    ensures Blanked(ty, e1, CancelGroups(ty, e1, e2).0)
    ensures Blanked(ty, e2, CancelGroups(ty, e1, e2).1)
    decreases Size(e1) + Size(e2)
  {
    if IsJoin(ty, e1) {
      var (l, e2') := CancelGroups(ty, e1.left, e2);
      var (r, e2'') := CancelGroups(ty, e1.right, e2');
      CancelGroupsBlanks(ty, e1.left, e2);
      CancelGroupsBlanks(ty, e1.right, e2');
      BlankedTrans(ty, e2, e2', e2'');
    } else if IsJoin(ty, e2) {
      var (e1', l) := CancelGroups(ty, e1, e2.left);
      var (e1'', r) := CancelGroups(ty, e1', e2.right);
      CancelGroupsBlanks(ty, e1, e2.left);
      CancelGroupsBlanks(ty, e1', e2.right);
      BlankedTrans(ty, e1, e1', e1'');
    }
  }

  lemma {:induction false} CoprimeBlanked(ty: JoinType, e1: Expr, e2: Expr, b1: Expr, b2: Expr)
    requires Coprime(ty, e1, e2)
    requires Blanked(ty, e1, b1) && Blanked(ty, e2, b2)
    ensures Coprime(ty, b1, b2)
    decreases Size(e1) + Size(e2)
  {
    if IsJoin(ty, e1) {
      CoprimeBlanked(ty, e1.left, e2, b1.left, b2);
      CoprimeBlanked(ty, e1.right, e2, b1.right, b2);
    } else if IsJoin(ty, e2) {
      CoprimeBlanked(ty, e1, e2.left, b1, b2.left);
      CoprimeBlanked(ty, e1, e2.right, b1, b2.right);
    }
  }

  /** Cancelling is exhaustive: afterwards no two operands can be cancelled any more. */
  lemma {:induction false} CancelGroupsComplete(ty: JoinType, e1: Expr, e2: Expr)
    ensures var (r1, r2) := CancelGroups(ty, e1, e2); Coprime(ty, r1, r2)
    decreases Size(e1) + Size(e2)
  {
    hide ExprEq;
    if IsJoin(ty, e1) {
      var (l, e2') := CancelGroups(ty, e1.left, e2);
      var (r, e2'') := CancelGroups(ty, e1.right, e2');
      CancelGroupsComplete(ty, e1.left, e2);
      CancelGroupsComplete(ty, e1.right, e2');
      CancelGroupsBlanks(ty, e1.right, e2');
      BlankedSelf(ty, l);
      CoprimeBlanked(ty, l, e2', l, e2'');
    } else if IsJoin(ty, e2) {
      var (e1', l) := CancelGroups(ty, e1, e2.left);
      var (e1'', r) := CancelGroups(ty, e1', e2.right);
      CancelGroupsComplete(ty, e1, e2.left);
      CancelGroupsComplete(ty, e1', e2.right);
      CancelGroupsBlanks(ty, e1, e2.left);
      CancelGroupsBlanks(ty, e1', e2.right);
      BlankedSelf(ty, l);
      CoprimeBlanked(ty, e1', l, e1'', l);
    }
  }
}
