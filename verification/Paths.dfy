/** Positions inside an expression. A pointer to an operand slot of a tree is the path that
    leads to it from the root of the tree; writing through it replaces the subtree there. */
module Paths {
  import opened Expressions
  import opened Cancelling

  /** One step: into the left (false) or right (true) operand of a join, or into the operand
      of a negation (false). */
  type Path = seq<bool>

  predicate HasChild(e: Expr, right: bool) { e.Join? || (e.Not? && !right) }

  function Child(e: Expr, right: bool): Expr
    requires HasChild(e, right)
  {
    if e.Not? then e.arg else if right then e.right else e.left
  }

  function WithChild(e: Expr, right: bool, x: Expr): Expr
    requires HasChild(e, right)
  {
    if e.Not? then Not(x) else if right then Join(e.ty, e.left, x) else Join(e.ty, x, e.right)
  }

  predicate ValidPath(e: Expr, p: Path)
  {
    p == [] || (HasChild(e, p[0]) && ValidPath(Child(e, p[0]), p[1..]))
  }

  function Get(e: Expr, p: Path): Expr
    requires ValidPath(e, p)
  {
    if p == [] then e else Get(Child(e, p[0]), p[1..])
  }

  function Put(e: Expr, p: Path, x: Expr): Expr
    requires ValidPath(e, p)
  {
    if p == [] then x else WithChild(e, p[0], Put(Child(e, p[0]), p[1..], x))
  }

  /** The path stays inside the group of joins of one type at the root. */
  predicate InGroup(ty: JoinType, e: Expr, p: Path): (b: bool)
    ensures b ==> ValidPath(e, p)
  {
    p == [] || (IsJoin(ty, e) && InGroup(ty, Child(e, p[0]), p[1..]))
  }

  /** The path leads to an operand of the flattened group. */
  predicate IsLeaf(ty: JoinType, e: Expr, p: Path): (b: bool)
    ensures b ==> InGroup(ty, e, p) && !IsJoin(ty, Get(e, p))
  {
    if IsJoin(ty, e) then p != [] && IsLeaf(ty, Child(e, p[0]), p[1..]) else p == []
  }

  /** Both groups have the same joins; only their operands may differ. */
  predicate SameGroup(ty: JoinType, a: Expr, b: Expr)
  {
    if IsJoin(ty, a) then IsJoin(ty, b) && SameGroup(ty, a.left, b.left) && SameGroup(ty, a.right, b.right)
    else !IsJoin(ty, b)
  }

  /** Number of operands of the flattened group. */
  function Operands(ty: JoinType, e: Expr): (n: nat)
    ensures n >= 1
  {
    if IsJoin(ty, e) then Operands(ty, e.left) + Operands(ty, e.right) else 1
  }

  lemma {:induction false} LeafHere(ty: JoinType, e: Expr, p: Path)
    requires InGroup(ty, e, p)
    ensures IsLeaf(ty, e, p) <==> !IsJoin(ty, Get(e, p))
  {
    if p != [] { LeafHere(ty, Child(e, p[0]), p[1..]); }
  }

  /** Going one step further down. */
  lemma {:induction false} Extend(ty: JoinType, e: Expr, p: Path, d: bool)
    requires InGroup(ty, e, p) && IsJoin(ty, Get(e, p))
    ensures InGroup(ty, e, p + [d])
    ensures Get(e, p + [d]) == Child(Get(e, p), d)
  {
    if p != [] {
      assert (p + [d])[0] == p[0] && (p + [d])[1..] == p[1..] + [d];
      Extend(ty, Child(e, p[0]), p[1..], d);
    } else {
      assert (p + [d])[1..] == [];
    }
  }

  lemma {:induction false} GetConcat(e: Expr, p: Path, q: Path)
    requires ValidPath(e, p)
    ensures ValidPath(e, p + q) <==> ValidPath(Get(e, p), q)
    ensures ValidPath(e, p + q) ==> Get(e, p + q) == Get(Get(e, p), q)
  {
    if p != [] {
      assert (p + q)[0] == p[0] && (p + q)[1..] == p[1..] + q;
      GetConcat(Child(e, p[0]), p[1..], q);
    } else {
      assert p + q == q;
    }
  }

  lemma {:induction false} PutConcat(e: Expr, p: Path, q: Path, x: Expr)
    requires ValidPath(e, p) && ValidPath(Get(e, p), q)
    ensures ValidPath(e, p + q)
    ensures Put(e, p + q, x) == Put(e, p, Put(Get(e, p), q, x))
  {
    GetConcat(e, p, q);
    if p != [] {
      assert (p + q)[0] == p[0] && (p + q)[1..] == p[1..] + q;
      PutConcat(Child(e, p[0]), p[1..], q, x);
    } else {
      assert p + q == q;
    }
  }

  lemma {:induction false} GetPut(e: Expr, p: Path, x: Expr)
    requires ValidPath(e, p)
    ensures ValidPath(Put(e, p, x), p) && Get(Put(e, p, x), p) == x
  {
    if p != [] { GetPut(Child(e, p[0]), p[1..], x); }
  }

  lemma {:induction false} PutPut(e: Expr, p: Path, x: Expr, y: Expr)
    requires ValidPath(e, p)
    ensures ValidPath(Put(e, p, x), p) && Put(Put(e, p, x), p, y) == Put(e, p, y)
  {
    if p != [] { PutPut(Child(e, p[0]), p[1..], x, y); }
  }

  lemma {:induction false} PutGet(e: Expr, p: Path)
    requires ValidPath(e, p)
    ensures Put(e, p, Get(e, p)) == e
  {
    if p != [] { PutGet(Child(e, p[0]), p[1..]); }
  }

  /** Writing one operand leaves the others alone. */
  lemma {:induction false} GetPutOther(ty: JoinType, e: Expr, p: Path, q: Path, x: Expr)
    requires IsLeaf(ty, e, p) && IsLeaf(ty, e, q) && p != q
    ensures ValidPath(Put(e, p, x), q) && Get(Put(e, p, x), q) == Get(e, q)
  {
    hide Compare;
    if p[0] == q[0] {
      assert p == [p[0]] + p[1..] && q == [q[0]] + q[1..];
      GetPutOther(ty, Child(e, p[0]), p[1..], q[1..], x);
    }
  }

  lemma {:induction false} PutLeafSameGroup(ty: JoinType, e: Expr, p: Path, x: Expr)
    requires IsLeaf(ty, e, p) && !IsJoin(ty, x)
    ensures SameGroup(ty, e, Put(e, p, x))
    ensures Size(Put(e, p, x)) == Size(e) - Size(Get(e, p)) + Size(x)
  {
    if p != [] {
      PutLeafSameGroup(ty, Child(e, p[0]), p[1..], x);
      SameGroupSelf(ty, Child(e, !p[0]));
    }
  }

  lemma {:induction false} SameGroupSelf(ty: JoinType, e: Expr)
    ensures SameGroup(ty, e, e)
  {
    if IsJoin(ty, e) {
      SameGroupSelf(ty, e.left);
      SameGroupSelf(ty, e.right);
    }
  }

  lemma {:induction false} SameGroupTrans(ty: JoinType, a: Expr, b: Expr, c: Expr)
    requires SameGroup(ty, a, b) && SameGroup(ty, b, c)
    ensures SameGroup(ty, a, c)
  {
    if IsJoin(ty, a) {
      SameGroupTrans(ty, a.left, b.left, c.left);
      SameGroupTrans(ty, a.right, b.right, c.right);
    }
  }

  /** Groups of the same shape have the same cursors. */
  lemma {:induction false} SameGroupPath(ty: JoinType, a: Expr, b: Expr, p: Path)
    requires SameGroup(ty, a, b) && InGroup(ty, a, p)
    ensures InGroup(ty, b, p)
    ensures SameGroup(ty, Get(a, p), Get(b, p))
    ensures Operands(ty, Get(a, p)) == Operands(ty, Get(b, p))
    ensures IsLeaf(ty, a, p) <==> IsLeaf(ty, b, p)
  {
    if p != [] { SameGroupPath(ty, Child(a, p[0]), Child(b, p[0]), p[1..]); }
    else { SameGroupOperands(ty, a, b); }
  }

  lemma {:induction false} SameGroupOperands(ty: JoinType, a: Expr, b: Expr)
    requires SameGroup(ty, a, b)
    ensures Operands(ty, a) == Operands(ty, b)
  {
    if IsJoin(ty, a) {
      SameGroupOperands(ty, a.left, b.left);
      SameGroupOperands(ty, a.right, b.right);
    }
  }

  // ----- values of groups -----

  lemma CombineLaws(ty: JoinType, a: Tristate, b: Tristate, c: Tristate)
    ensures ty.Combine(a, b) == ty.Combine(b, a)
    ensures ty.Combine(ty.Combine(a, b), c) == ty.Combine(a, ty.Combine(b, c))
  {
  }

  /** The joint value of all operands of a group but the one at p. */
  function Others(env: Env, ty: JoinType, e: Expr, p: Path): Tristate
    requires IsLeaf(ty, e, p)
  {
    if p == [] then (if ty == OR then NO else YES)
    else ty.Combine(Others(env, ty, Child(e, p[0]), p[1..]), Eval(env, Child(e, !p[0])))
  }

  lemma {:induction false} EvalPut(env: Env, ty: JoinType, e: Expr, p: Path, x: Expr)
    requires IsLeaf(ty, e, p)
    ensures Eval(env, Put(e, p, x)) == ty.Combine(Eval(env, x), Others(env, ty, e, p))
  {
    if p != [] {
      EvalPut(env, ty, Child(e, p[0]), p[1..], x);
      CombineLaws(ty, Eval(env, x), Others(env, ty, Child(e, p[0]), p[1..]), Eval(env, Child(e, !p[0])));
      CombineLaws(ty, Eval(env, e.left), Eval(env, Put(e, p, x).right), NO);
    }
  }

  /** Rewriting two operands into two others of the same joint value keeps the value. */
  lemma {:induction false} EvalPutTwo(env: Env, ty: JoinType, e: Expr, p: Path, q: Path, x: Expr, y: Expr)
    requires IsLeaf(ty, e, p) && IsLeaf(ty, e, q) && p != q
    requires !IsJoin(ty, x)
    requires ty.Combine(Eval(env, x), Eval(env, y)) == ty.Combine(Eval(env, Get(e, p)), Eval(env, Get(e, q)))
    ensures ValidPath(Put(e, p, x), q)
    ensures Eval(env, Put(Put(e, p, x), q, y)) == Eval(env, e)
  {
    hide Compare;
    if p[0] == q[0] {
      assert p == [p[0]] + p[1..] && q == [q[0]] + q[1..];
      EvalPutTwo(env, ty, Child(e, p[0]), p[1..], q[1..], x, y);
    } else {
      EvalPutApart(env, ty, e, p, q, x, y);
    }
  }

  lemma EvalPutApart(env: Env, ty: JoinType, e: Expr, p: Path, q: Path, x: Expr, y: Expr)
    requires IsLeaf(ty, e, p) && IsLeaf(ty, e, q) && IsJoin(ty, e) && p[0] != q[0]
    requires ty.Combine(Eval(env, x), Eval(env, y)) == ty.Combine(Eval(env, Get(e, p)), Eval(env, Get(e, q)))
    ensures ValidPath(Put(e, p, x), q)
    ensures Eval(env, Put(Put(e, p, x), q, y)) == Eval(env, e)
  {
    hide Eval, Put;
    var (ep, eq) := (Child(e, p[0]), Child(e, q[0]));
    var (op, oq) := (Others(env, ty, ep, p[1..]), Others(env, ty, eq, q[1..]));
    EvalPut(env, ty, ep, p[1..], x);
    EvalPut(env, ty, ep, p[1..], Get(e, p));
    PutGet(ep, p[1..]);
    EvalPut(env, ty, eq, q[1..], y);
    EvalPut(env, ty, eq, q[1..], Get(e, q));
    PutGet(eq, q[1..]);
    Shuffle(ty, Eval(env, x), op, Eval(env, y), oq);
    Shuffle(ty, Eval(env, Get(e, p)), op, Eval(env, Get(e, q)), oq);
    PutApart(ty, e, p, q, x, y);
    EvalChildren(env, ty, e, p[0]);
    EvalChildren(env, ty, Put(Put(e, p, x), q, y), p[0]);
  }

  lemma EvalChildren(env: Env, ty: JoinType, e: Expr, d: bool)
    requires IsJoin(ty, e)
    ensures Eval(env, e) == ty.Combine(Eval(env, Child(e, d)), Eval(env, Child(e, !d)))
  {
    hide Compare;
  }

  lemma PutApart(ty: JoinType, e: Expr, p: Path, q: Path, x: Expr, y: Expr)
    requires IsLeaf(ty, e, p) && IsLeaf(ty, e, q) && IsJoin(ty, e) && p[0] != q[0]
    ensures ValidPath(Put(e, p, x), q)
    ensures var both := Put(Put(e, p, x), q, y);
            && IsJoin(ty, both)
            && Child(both, p[0]) == Put(Child(e, p[0]), p[1..], x)
            && Child(both, q[0]) == Put(Child(e, q[0]), q[1..], y)
  {
  }

  lemma Shuffle(ty: JoinType, a: Tristate, b: Tristate, c: Tristate, d: Tristate)
    ensures ty.Combine(ty.Combine(a, b), ty.Combine(c, d)) == ty.Combine(ty.Combine(a, c), ty.Combine(b, d))
  {
  }
}
