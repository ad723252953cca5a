/** Joining two operands of an AND or OR into one (expr_join_or and expr_join_and in
    scripts/config/expr.c). */
module Joining {
  import opened Common
  import opened Expressions
  import opened Cancelling

  /** E_EQUAL, E_UNEQUAL or E_SYMBOL. */
  predicate Atomic(e: Expr) { e.Var? || (e.Comp? && !e.op.IsOrdering()) }

  function Subject(e: Expr): Sym
    requires Atomic(e)
  {
    if e.Var? then e.sym else e.lhs
  }

  /** The symbol both operands are about, if they have the shapes the two functions handle.
      A negation may hide a comparison in the first operand, but not in the second. */
  function CommonSubject(e1: Expr, e2: Expr): Option<Sym>
  {
    var a1 := if e1.Not? then e1.arg else e1;
    var a2 := if e2.Not? then e2.arg else e2;
    if !Atomic(a1) || !Atomic(a2) || (e2.Not? && !a2.Var?) then None
    else if Subject(a1) != Subject(a2) || !Subject(a1).Logical() then None
    else Some(Subject(a1))
  }

  predicate IsComp(op: CompOp, e: Expr) { e.Comp? && e.op == op }

  predicate Is(op: CompOp, e: Expr, c: Sym) { IsComp(op, e) && e.rhs == c }

  /** One operand compares with c and the other with d. */
  predicate Both(op: CompOp, e1: Expr, e2: Expr, c: Sym, d: Sym)
  {
    (Is(op, e1, c) && Is(op, e2, d)) || (Is(op, e1, d) && Is(op, e2, c))
  }

  /** One operand is the bare symbol and the other compares it with c. */
  predicate WithVar(op: CompOp, e1: Expr, e2: Expr, c: Sym)
  {
    (e1.Var? && Is(op, e2, c)) || (e2.Var? && Is(op, e1, c))
  }

  predicate NegatedVar(e: Expr) { e.Not? && e.arg.Var? }

  /** What two different operands about the symbol a are joined into by a disjunction. */
  function OrRule(a: Sym, e1: Expr, e2: Expr): Dep
  {
    if a.Type() == Tri then
      if Both(Equal, e1, e2, ConstY, ConstM) then Some(Comp(Unequal, a, ConstN))
      else if Both(Equal, e1, e2, ConstY, ConstN) then Some(Comp(Unequal, a, ConstM))
      else if Both(Equal, e1, e2, ConstM, ConstN) then Some(Comp(Unequal, a, ConstY))
      else None
    else if (NegatedVar(e1) && e2.Var?) || (NegatedVar(e2) && e1.Var?) then Some(Var(ConstY))
    else None
  }

  /** expr_join_or. */
  function JoinOr(e1: Expr, e2: Expr): Dep
  {
    if ExprEq(e1, e2) then Some(e1) else
    match CommonSubject(e1, e2) case None => None case Some(a) => OrRule(a, e1, e2)
  }

  /** The value that (a = b) && (a != c) is joined into. */
  function Distinguish(a: Sym, b: Sym, c: Sym): Expr
  {
    if b != c then Comp(Equal, a, b) else Var(ConstN)
  }

  /** What two different operands about the symbol a are joined into by a conjunction. */
  function AndRule(a: Sym, e1: Expr, e2: Expr): Dep
  {
    if WithVar(Equal, e1, e2, ConstY) then Some(Comp(Equal, a, ConstY))
    else if WithVar(Unequal, e1, e2, ConstN) then Some(Var(a))
    else if WithVar(Unequal, e1, e2, ConstM) then Some(Comp(Equal, a, ConstY))
    else if a.Type() != Tri then None
    else if IsComp(Equal, e1) && IsComp(Unequal, e2) && e1.rhs.Const() && e2.rhs.Const()
    then Some(Distinguish(a, e1.rhs, e2.rhs))
    else if IsComp(Unequal, e1) && IsComp(Equal, e2) && e1.rhs.Const() && e2.rhs.Const()
    then Some(Distinguish(a, e2.rhs, e1.rhs))
    else if Both(Unequal, e1, e2, ConstY, ConstN) then Some(Comp(Equal, a, ConstM))
    else if Both(Unequal, e1, e2, ConstY, ConstM) then Some(Comp(Equal, a, ConstN))
    else if Both(Unequal, e1, e2, ConstM, ConstN) then Some(Comp(Equal, a, ConstY))
    else None
  }

  /** expr_join_and. */
  function JoinAnd(e1: Expr, e2: Expr): Dep
  {
    if ExprEq(e1, e2) then Some(e1) else
    match CommonSubject(e1, e2) case None => None case Some(a) => AndRule(a, e1, e2)
  }

  function Joined(ty: JoinType, e1: Expr, e2: Expr): Dep
  {
    if ty == OR then JoinOr(e1, e2) else JoinAnd(e1, e2)
  }

  /** Tristate symbols are not compared with a numeral 0, 1 or 2, which would read as a truth
      value without being y, m or n. Any other constant is different from every truth value. */
  predicate Plain(e: Expr)
  {
    match e
    case Join(_, l, r) => Plain(l) && Plain(r)
    case Not(a) => Plain(a)
    case Comp(op, a, b) => a.Type() == Tri && b.Const() && !op.IsOrdering() ==> PlainConst(b)
    case Var(_) => true
  }

  predicate PlainConst(c: Sym)
    requires c.Const()
  {
    c.Literal() || Reading(c).None?
  }

  /** No truth value is equal to both constants. */
  predicate Apart(b: Sym, c: Sym)
    requires b.Const() && c.Const()
  {
    Reading(b).None? || Reading(b) != Reading(c)
  }

  lemma PlainApart(b: Sym, c: Sym)
    requires b.Const() && c.Const() && PlainConst(b) && PlainConst(c) && b != c
    ensures Apart(b, c)
  {
    hide Reading;
    if b.Literal() { ReadingLiteral(b); }
    if c.Literal() { ReadingLiteral(c); }
  }

  // ----- every rule keeps the value -----

  /** The truth value of (a = c) and (a != c) for a logical symbol and y, m or n. */
  lemma EvalLiteral(env: Env, a: Sym, c: Sym)
    requires ValidEnv(env) && a.Logical() && c.Literal()
    ensures Eval(env, Comp(Equal, a, c)) == Truth(env.tri(a) == c.Denotes())
    ensures Eval(env, Comp(Unequal, a, c)) == Truth(env.tri(a) != c.Denotes())
  {
    CompareLiteral(env, a, c);
  }

  lemma OrEqualSound(env: Env, a: Sym, c: Sym, d: Sym, e1: Expr, e2: Expr)
    requires ValidEnv(env) && a.Logical() && c.Literal() && d.Literal()
    requires CommonSubject(e1, e2) == Some(a) && Both(Equal, e1, e2, c, d)
    ensures TriOr(Eval(env, e1), Eval(env, e2)) == Truth(env.tri(a) == c.Denotes() || env.tri(a) == d.Denotes())
  {
    EvalLiteral(env, a, c);
    EvalLiteral(env, a, d);
  }

  lemma OrRuleSound(env: Env, a: Sym, e1: Expr, e2: Expr)
    requires ValidEnv(env)
    requires CommonSubject(e1, e2) == Some(a) && OrRule(a, e1, e2).Some?
    ensures Eval(env, OrRule(a, e1, e2).value) == TriOr(Eval(env, e1), Eval(env, e2))
  {
    if a.Type() == Tri && Both(Equal, e1, e2, ConstY, ConstM) {
      OrEqualSound(env, a, ConstY, ConstM, e1, e2);
      EvalLiteral(env, a, ConstN);
    } else if a.Type() == Tri && Both(Equal, e1, e2, ConstY, ConstN) {
      OrEqualSound(env, a, ConstY, ConstN, e1, e2);
      EvalLiteral(env, a, ConstM);
    } else if a.Type() == Tri {
      OrEqualSound(env, a, ConstM, ConstN, e1, e2);
      EvalLiteral(env, a, ConstY);
    } else {
      LiteralValues(env);
      assert env.tri(a) != MOD;
    }
  }

  /** The truth value of (a = c) and (a != c) for a logical symbol and a constant. */
  lemma EvalConst(env: Env, a: Sym, c: Sym)
    requires ValidEnv(env) && a.Logical() && c.Const()
    ensures Eval(env, Comp(Equal, a, c)) == Truth(Reading(c) == Some(env.tri(a)))
    ensures Eval(env, Comp(Unequal, a, c)) == Truth(Reading(c) != Some(env.tri(a)))
  {
    hide Reading, Compare;
    CompareConst(env, a, c);
  }

  /** In one world, the rule for (a = b) && (a != c) keeps the value unless a is equal to both
      constants. */
  lemma DistinguishAt(env: Env, a: Sym, b: Sym, c: Sym)
    requires ValidEnv(env) && a.Logical() && b.Const() && c.Const()
    ensures Eval(env, Distinguish(a, b, c)) == TriAnd(Eval(env, Comp(Equal, a, b)), Eval(env, Comp(Unequal, a, c)))
            <==> b == c || !(Reading(b) == Reading(c) == Some(env.tri(a)))
  {
    hide Reading, Compare;
    EvalConst(env, a, b);
    EvalConst(env, a, c);
    assert env.tri(ConstN) == NO;
  }

  lemma DistinguishSound(env: Env, a: Sym, b: Sym, c: Sym)
    requires ValidEnv(env) && a.Logical() && b.Const() && c.Const() && PlainConst(b) && PlainConst(c)
    ensures Eval(env, Distinguish(a, b, c)) == TriAnd(Eval(env, Comp(Equal, a, b)), Eval(env, Comp(Unequal, a, c)))
  {
    hide Reading, Compare;
    DistinguishAt(env, a, b, c);
    if b != c { PlainApart(b, c); }
  }

  lemma AndWithVarSound(env: Env, a: Sym, op: CompOp, c: Sym, e1: Expr, e2: Expr)
    requires ValidEnv(env) && a.Logical() && c.Literal() && !op.IsOrdering()
    requires CommonSubject(e1, e2) == Some(a) && WithVar(op, e1, e2, c)
    ensures TriAnd(Eval(env, e1), Eval(env, e2)) ==
            if (op == Equal) == (env.tri(a) == c.Denotes()) then env.tri(a) else NO
  {
    EvalLiteral(env, a, c);
  }

  lemma AndUnequalSound(env: Env, a: Sym, c: Sym, d: Sym, e1: Expr, e2: Expr)
    requires ValidEnv(env) && a.Logical() && c.Literal() && d.Literal()
    requires CommonSubject(e1, e2) == Some(a) && Both(Unequal, e1, e2, c, d)
    ensures TriAnd(Eval(env, e1), Eval(env, e2)) == Truth(env.tri(a) != c.Denotes() && env.tri(a) != d.Denotes())
  {
    EvalLiteral(env, a, c);
    EvalLiteral(env, a, d);
  }

  lemma AndRuleSound(env: Env, a: Sym, e1: Expr, e2: Expr)
    requires ValidEnv(env) && Plain(e1) && Plain(e2)
    requires CommonSubject(e1, e2) == Some(a) && AndRule(a, e1, e2).Some?
    ensures Eval(env, AndRule(a, e1, e2).value) == TriAnd(Eval(env, e1), Eval(env, e2))
  {
    hide Compare, ValidEnv, Reading;
    if WithVar(Equal, e1, e2, ConstY) {
      AndWithVarSound(env, a, Equal, ConstY, e1, e2);
      EvalLiteral(env, a, ConstY);
    } else if WithVar(Unequal, e1, e2, ConstN) {
      AndWithVarSound(env, a, Unequal, ConstN, e1, e2);
    } else if WithVar(Unequal, e1, e2, ConstM) {
      AndWithVarSound(env, a, Unequal, ConstM, e1, e2);
      EvalLiteral(env, a, ConstY);
    } else {
      AndTriSound(env, a, e1, e2);
    }
  }

  /** The rules for two comparisons of a tristate. */
  lemma AndTriSound(env: Env, a: Sym, e1: Expr, e2: Expr)
    requires ValidEnv(env) && Plain(e1) && Plain(e2)
    requires CommonSubject(e1, e2) == Some(a) && AndRule(a, e1, e2).Some?
    requires !WithVar(Equal, e1, e2, ConstY) && !WithVar(Unequal, e1, e2, ConstN) && !WithVar(Unequal, e1, e2, ConstM)
    ensures Eval(env, AndRule(a, e1, e2).value) == TriAnd(Eval(env, e1), Eval(env, e2))
  {
    hide Compare, ValidEnv, Reading, WithVar;
    if IsComp(Equal, e1) && IsComp(Unequal, e2) && e1.rhs.Const() && e2.rhs.Const() {
      DistinguishSound(env, a, e1.rhs, e2.rhs);
    } else if IsComp(Unequal, e1) && IsComp(Equal, e2) && e1.rhs.Const() && e2.rhs.Const() {
      DistinguishSound(env, a, e2.rhs, e1.rhs);
    } else if Both(Unequal, e1, e2, ConstY, ConstN) {
      AndUnequalSound(env, a, ConstY, ConstN, e1, e2);
      EvalLiteral(env, a, ConstM);
    } else if Both(Unequal, e1, e2, ConstY, ConstM) {
      AndUnequalSound(env, a, ConstY, ConstM, e1, e2);
      EvalLiteral(env, a, ConstN);
    } else {
      AndUnequalSound(env, a, ConstM, ConstN, e1, e2);
      EvalLiteral(env, a, ConstY);
    }
  }

  /** Whatever two operands are joined into has the value of their conjunction or
      disjunction. */
  lemma JoinedSound(env: Env, ty: JoinType, e1: Expr, e2: Expr)
    requires ValidEnv(env)
    requires Joined(ty, e1, e2).Some? && Plain(e1) && Plain(e2)
    ensures Eval(env, Joined(ty, e1, e2).value) == ty.Combine(Eval(env, e1), Eval(env, e2))
  {
    if ExprEq(e1, e2) {
      ExprEqSound(env, e1, e2);
    } else if ty == OR {
      OrRuleSound(env, CommonSubject(e1, e2).value, e1, e2);
    } else {
      AndRuleSound(env, CommonSubject(e1, e2).value, e1, e2);
    }
  }

  // ----- constants that read alike -----

  /** A world in which every tristate symbol has the value v. */
  function Uniform(v: Tristate): Env
  {
    Env((s: Sym) => if s.Literal() then s.Denotes() else if s.Type() == Tri then v else NO,
        (s: Sym) => if s.Literal() then TriString(s.Denotes()) else if s.Type() == Tri then TriString(v)
                    else if s.Logical() then "n" else s.Text())
  }

  /** The rule that joins (a = b) && (a != c) for constants keeps the value in every world exactly
      when they are the same constant or do not read as the same truth value. */
  lemma DistinguishExact(a: Sym, b: Sym, c: Sym)
    requires a.Type() == Tri && b.Const() && c.Const()
    ensures (forall env: Env :: ValidEnv(env) ==>
              Eval(env, Distinguish(a, b, c)) == Eval(env, Join(AND, Comp(Equal, a, b), Comp(Unequal, a, c))))
            <==> b == c || Apart(b, c)
  {
    hide Reading, Compare;
    forall env: Env | ValidEnv(env)
      ensures Eval(env, Distinguish(a, b, c)) == Eval(env, Join(AND, Comp(Equal, a, b), Comp(Unequal, a, c)))
              <==> b == c || !(Reading(b) == Reading(c) == Some(env.tri(a)))
    {
      DistinguishAt(env, a, b, c);
    }
    if b != c && !Apart(b, c) {
      var env := Uniform(Reading(b).value);
      assert ValidEnv(env);
      assert env.tri(a) == Reading(b).value;
    }
  }

  /** An input on which it fails: (a = "0") && (a != n) can never hold, but is simplified to
      a = "0", which holds when a is n. */
  lemma DistinguishFails(a: Sym)
    requires a.Type() == Tri
    ensures var (e1, e2) := (Comp(Equal, a, Constant("0")), Comp(Unequal, a, ConstN));
            && JoinAnd(e1, e2) == Some(e1)
            && (forall env: Env :: ValidEnv(env) ==> Eval(env, Join(AND, e1, e2)) == NO)
            && ValidEnv(Uniform(NO)) && Eval(Uniform(NO), e1) == YES
  {
    hide Reading, Compare;
    ReadingZero();
    ReadingLiteral(ConstN);
    forall env: Env | ValidEnv(env)
      ensures Eval(env, Join(AND, Comp(Equal, a, Constant("0")), Comp(Unequal, a, ConstN))) == NO
    {
      EvalConst(env, a, Constant("0"));
      EvalConst(env, a, ConstN);
    }
    EvalConst(Uniform(NO), a, Constant("0"));
  }

  lemma ReadingZero()
    ensures Reading(Constant("0")) == Some(NO)
  {
    var s := "0";
    assert SkipSpace(s) == s && s[..|s| - 1] == "" && DigitValue(s[0]) == 0;
    assert Magnitude(s, 8) == Some(0);
  }
}
