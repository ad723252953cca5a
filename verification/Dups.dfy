/** Removing redundant operands (expr_eliminate_dups1 and expr_eliminate_dups in
    scripts/config/expr.c). Two cursors walk over the same tree; every pair of different
    operands they meet is joined if possible, which overwrites both operands in place. */
module Dups {
  import opened Common
  import opened Expressions
  import opened Cancelling
  import opened Joining
  import opened Paths

  /** The tree after joining the operands at p and q, and the number of joins made (0 or 1). */
  function JoinAt(ty: JoinType, e: Expr, p: Path, q: Path): (r: (Expr, nat))
    requires IsLeaf(ty, e, p) && IsLeaf(ty, e, q) && p != q
  {
    match Joined(ty, Get(e, p), Get(e, q))
    case None => (e, 0)
    case Some(t) =>
      GetPutOther(ty, e, p, q, Var(ty.Unit()));
      (Put(Put(e, p, Var(ty.Unit())), q, t), 1)
  }

  lemma JoinedShape(ty: JoinType, e1: Expr, e2: Expr)
    requires !IsJoin(ty, e1) && Joined(ty, e1, e2).Some?
    ensures !IsJoin(ty, Joined(ty, e1, e2).value)
    ensures Size(Joined(ty, e1, e2).value) + 1 <= Size(e1) + Size(e2)
  {
  }

  lemma JoinAtShape(ty: JoinType, e: Expr, p: Path, q: Path)
    requires IsLeaf(ty, e, p) && IsLeaf(ty, e, q) && p != q
    ensures SameGroup(ty, e, JoinAt(ty, e, p, q).0)
    ensures Size(JoinAt(ty, e, p, q).0) <= Size(e)
  {
    var j := Joined(ty, Get(e, p), Get(e, q));
    if j.None? {
      SameGroupSelf(ty, e);
    } else {
      JoinedShape(ty, Get(e, p), Get(e, q));
      var u := Put(e, p, Var(ty.Unit()));
      PutLeafSameGroup(ty, e, p, Var(ty.Unit()));
      GetPutOther(ty, e, p, q, Var(ty.Unit()));
      SameGroupPath(ty, e, u, q);
      PutLeafSameGroup(ty, u, q, j.value);
      SameGroupTrans(ty, e, u, Put(u, q, j.value));
    }
  }

  /** expr_eliminate_dups1 with its cursors at p and q of the group e: the new group, and how
      much the count of joins grew. */
  function Dups1(ty: JoinType, e: Expr, p: Path, q: Path): (r: (Expr, nat))
    requires InGroup(ty, e, p) && InGroup(ty, e, q)
    ensures SameGroup(ty, e, r.0) && Size(r.0) <= Size(e)
    decreases Size(e), Operands(ty, Get(e, p)) + Operands(ty, Get(e, q)), 1
  {
    if IsJoin(ty, Get(e, p)) then
      Extend(ty, e, p, false);
      Extend(ty, e, p, true);
      var (e1, n1) := Dups1(ty, e, p + [false], q);
      Moved(ty, e, e1, p + [true], q);
      var (e2, n2) := Dups1(ty, e1, p + [true], q);
      SameGroupTrans(ty, e, e1, e2);
      (e2, n1 + n2)
    else if IsJoin(ty, Get(e, q)) then
      Extend(ty, e, q, false);
      Extend(ty, e, q, true);
      var (e1, n1) := Dups1(ty, e, p, q + [false]);
      Moved(ty, e, e1, p, q + [true]);
      var (e2, n2) := Dups1(ty, e1, p, q + [true]);
      SameGroupTrans(ty, e, e1, e2);
      (e2, n1 + n2)
    else if p == q then
      SameGroupSelf(ty, e);
      (e, 0)
    else
      LeafHere(ty, e, p);
      LeafHere(ty, e, q);
      var (e1, n1) := DupsInside(ty, e, p);
      SameGroupPath(ty, e, e1, p);
      SameGroupPath(ty, e, e1, q);
      var (e2, n2) := JoinAt(ty, e1, p, q);
      JoinAtShape(ty, e1, p, q);
      SameGroupTrans(ty, e, e1, e2);
      (e2, n1 + n2)
  }

  /** The recursive call on an operand that is itself a group of the other type. */
  function DupsInside(ty: JoinType, e: Expr, p: Path): (r: (Expr, nat))
    requires IsLeaf(ty, e, p) && IsJoin(ty, e)
    ensures SameGroup(ty, e, r.0) && Size(r.0) <= Size(e)
    decreases Size(e), 0, 0
  {
    var e1 := Get(e, p);
    if e1.Join? then
      PutLeafSameGroup(ty, e, p, e1);
      LeafSmaller(ty, e, p);
      var (x, n) := Dups1(e1.ty, e1, [], []);
      PutLeafSameGroup(ty, e, p, x);
      (Put(e, p, x), n)
    else
      SameGroupSelf(ty, e);
      (e, 0)
  }

  lemma {:induction false} LeafSmaller(ty: JoinType, e: Expr, p: Path)
    requires IsLeaf(ty, e, p) && IsJoin(ty, e)
    ensures Size(Get(e, p)) < Size(e)
  {
    if IsJoin(ty, Child(e, p[0])) { LeafSmaller(ty, Child(e, p[0]), p[1..]); }
  }

  /** Cursors survive what happened to the other operands. */
  lemma Moved(ty: JoinType, e: Expr, e': Expr, p: Path, q: Path)
    requires SameGroup(ty, e, e') && InGroup(ty, e, p) && InGroup(ty, e, q)
    ensures InGroup(ty, e', p) && InGroup(ty, e', q)
    ensures Operands(ty, Get(e, p)) == Operands(ty, Get(e', p))
    ensures Operands(ty, Get(e, q)) == Operands(ty, Get(e', q))
  {
    SameGroupPath(ty, e, e', p);
    SameGroupPath(ty, e, e', q);
  }

  // ----- properties that every join keeps -----

  /** A property of expressions that joins of operands inherit and cannot break. */
  ghost predicate Closed(ok: Expr -> bool)
  {
    && (forall ty: JoinType, l: Expr, r: Expr :: ok(Join(ty, l, r)) <==> ok(l) && ok(r))
    && ok(Var(ConstY)) && ok(Var(ConstN))
    && (forall ty: JoinType, e1: Expr, e2: Expr ::
          ok(e1) && ok(e2) && Joined(ty, e1, e2).Some? ==> ok(Joined(ty, e1, e2).value))
  }

  lemma {:induction false} ClosedPut(ok: Expr -> bool, ty: JoinType, e: Expr, p: Path, x: Expr)
    requires Closed(ok) && ok(e) && InGroup(ty, e, p)
    ensures ok(Get(e, p))
    ensures ok(x) ==> ok(Put(e, p, x))
  {
    if p != [] {
      assert e == Join(e.ty, e.left, e.right);
      ClosedPut(ok, ty, Child(e, p[0]), p[1..], x);
    }
  }

  lemma {:induction false} ClosedYn(ok: Expr -> bool, e: Expr)
    requires Closed(ok) && ok(e)
    ensures ok(EliminateYn(e))
  {
    if e.Join? {
      assert e == Join(e.ty, e.left, e.right);
      ClosedYn(ok, e.left);
      ClosedYn(ok, e.right);
    }
  }

  lemma ClosedJoinAt(ok: Expr -> bool, ty: JoinType, e: Expr, p: Path, q: Path)
    requires IsLeaf(ty, e, p) && IsLeaf(ty, e, q) && p != q
    requires Closed(ok) && ok(e)
    ensures ok(JoinAt(ty, e, p, q).0)
  {
    var j := Joined(ty, Get(e, p), Get(e, q));
    if j.Some? {
      ClosedPut(ok, ty, e, p, Var(ty.Unit()));
      ClosedPut(ok, ty, e, q, e);
      GetPutOther(ty, e, p, q, Var(ty.Unit()));
      PutLeafSameGroup(ty, e, p, Var(ty.Unit()));
      SameGroupPath(ty, e, Put(e, p, Var(ty.Unit())), q);
      ClosedPut(ok, ty, Put(e, p, Var(ty.Unit())), q, j.value);
    }
  }

  lemma {:induction false} ClosedDups1(ok: Expr -> bool, ty: JoinType, e: Expr, p: Path, q: Path)
    requires InGroup(ty, e, p) && InGroup(ty, e, q)
    requires Closed(ok) && ok(e)
    ensures ok(Dups1(ty, e, p, q).0)
    decreases Size(e), Operands(ty, Get(e, p)) + Operands(ty, Get(e, q))
  {
    if IsJoin(ty, Get(e, p)) {
      Extend(ty, e, p, false);
      Extend(ty, e, p, true);
      var e1 := Dups1(ty, e, p + [false], q).0;
      Moved(ty, e, e1, p + [true], q);
      ClosedDups1(ok, ty, e, p + [false], q);
      ClosedDups1(ok, ty, e1, p + [true], q);
    } else if IsJoin(ty, Get(e, q)) {
      Extend(ty, e, q, false);
      Extend(ty, e, q, true);
      var e1 := Dups1(ty, e, p, q + [false]).0;
      Moved(ty, e, e1, p, q + [true]);
      ClosedDups1(ok, ty, e, p, q + [false]);
      ClosedDups1(ok, ty, e1, p, q + [true]);
    } else if p != q {
      LeafHere(ty, e, p);
      LeafHere(ty, e, q);
      ClosedPut(ok, ty, e, p, e);
      var x := Get(e, p);
      if x.Join? {
        LeafSmaller(ty, e, p);
        ClosedDups1(ok, x.ty, x, [], []);
        ClosedPut(ok, ty, e, p, Dups1(x.ty, x, [], []).0);
      }
      var e1 := DupsInside(ty, e, p).0;
      SameGroupPath(ty, e, e1, p);
      SameGroupPath(ty, e, e1, q);
      ClosedJoinAt(ok, ty, e1, p, q);
    }
  }

  // ----- the value is kept -----

  lemma PlainJoined(ty: JoinType, e1: Expr, e2: Expr)
    requires Plain(e1) && Plain(e2) && Joined(ty, e1, e2).Some?
    ensures Plain(Joined(ty, e1, e2).value)
  {
    hide ExprEq, Reading;
    if !ExprEq(e1, e2) {
      var a := CommonSubject(e1, e2).value;
      if ty == OR { assert OrRule(a, e1, e2).Some?; } else { assert AndRule(a, e1, e2).Some?; }
    }
  }

  lemma PlainClosed()
    ensures Closed(Plain)
  {
    hide Joined, PlainConst;
    forall ty: JoinType, e1: Expr, e2: Expr | Plain(e1) && Plain(e2) && Joined(ty, e1, e2).Some?
      ensures Plain(Joined(ty, e1, e2).value)
    {
      PlainJoined(ty, e1, e2);
    }
  }

  lemma JoinAtSound(env: Env, ty: JoinType, e: Expr, p: Path, q: Path)
    requires IsLeaf(ty, e, p) && IsLeaf(ty, e, q) && p != q
    requires ValidEnv(env) && Plain(e)
    ensures Eval(env, JoinAt(ty, e, p, q).0) == Eval(env, e)
  {
    var j := Joined(ty, Get(e, p), Get(e, q));
    if j.Some? {
      PlainClosed();
      ClosedPut(Plain, ty, e, p, e);
      ClosedPut(Plain, ty, e, q, e);
      JoinedSound(env, ty, Get(e, p), Get(e, q));
      assert Eval(env, Var(ty.Unit())) == if ty == OR then NO else YES by {
        assert env.tri(ConstN) == NO && env.tri(ConstY) == YES;
      }
      EvalPutTwo(env, ty, e, p, q, Var(ty.Unit()), j.value);
    }
  }

  /** A pass of the two cursors keeps the value of the group. */
  lemma {:induction false} Dups1Sound(env: Env, ty: JoinType, e: Expr, p: Path, q: Path)
    requires InGroup(ty, e, p) && InGroup(ty, e, q)
    requires ValidEnv(env) && Plain(e)
    ensures Eval(env, Dups1(ty, e, p, q).0) == Eval(env, e)
    decreases Size(e), Operands(ty, Get(e, p)) + Operands(ty, Get(e, q))
  {
    hide Plain, Joined, SameGroup, ValidEnv, Compare, JoinAt;
    PlainClosed();
    if IsJoin(ty, Get(e, p)) {
      Extend(ty, e, p, false);
      Extend(ty, e, p, true);
      var e1 := Dups1(ty, e, p + [false], q).0;
      Moved(ty, e, e1, p + [true], q);
      ClosedDups1(Plain, ty, e, p + [false], q);
      Dups1Sound(env, ty, e, p + [false], q);
      Dups1Sound(env, ty, e1, p + [true], q);
    } else if IsJoin(ty, Get(e, q)) {
      Extend(ty, e, q, false);
      Extend(ty, e, q, true);
      var e1 := Dups1(ty, e, p, q + [false]).0;
      Moved(ty, e, e1, p, q + [true]);
      ClosedDups1(Plain, ty, e, p, q + [false]);
      Dups1Sound(env, ty, e, p, q + [false]);
      Dups1Sound(env, ty, e1, p, q + [true]);
    } else if p != q {
      LeafHere(ty, e, p);
      LeafHere(ty, e, q);
      ClosedPut(Plain, ty, e, p, e);
      var x := Get(e, p);
      if x.Join? {
        LeafSmaller(ty, e, p);
        Dups1Sound(env, x.ty, x, [], []);
        ClosedDups1(Plain, x.ty, x, [], []);
        var x' := Dups1(x.ty, x, [], []).0;
        ClosedPut(Plain, ty, e, p, x');
        EvalPut(env, ty, e, p, x');
        EvalPut(env, ty, e, p, x);
        PutGet(e, p);
      }
      var e1 := DupsInside(ty, e, p).0;
      SameGroupPath(ty, e, e1, p);
      SameGroupPath(ty, e, e1, q);
      JoinAtSound(env, ty, e1, p, q);
    }
  }

  // ----- progress: a pass either changes nothing or leaves something to fold -----

  predicate YesOrNo(e: Expr) { e == Var(ConstY) || e == Var(ConstN) }

  /** Somewhere on the spine of joins, y or n is an operand. */
  predicate Foldable(e: Expr)
  {
    e.Join? && (YesOrNo(e.left) || YesOrNo(e.right) || Foldable(e.left) || Foldable(e.right))
  }

  lemma {:induction false} FoldingShrinks(e: Expr)
    requires Foldable(e)
    ensures Size(EliminateYn(e)) < Size(e)
  {
    hide Fold;
    if Foldable(e.left) { FoldingShrinks(e.left); }
    if Foldable(e.right) { FoldingShrinks(e.right); }
  }

  lemma {:induction false} FoldableAt(ty: JoinType, e: Expr, p: Path)
    requires IsLeaf(ty, e, p) && IsJoin(ty, e)
    requires YesOrNo(Get(e, p)) || Foldable(Get(e, p))
    ensures Foldable(e)
  {
    if IsJoin(ty, Child(e, p[0])) { FoldableAt(ty, Child(e, p[0]), p[1..]); }
  }

  /** No two operands of the group can be joined, nor of any group among its operands. */
  ghost predicate Stuck(e: Expr)
    decreases Size(e), 0
  {
    e.Join? ==>
      && StuckLeaves(e.ty, e.left) && StuckLeaves(e.ty, e.right)
      && forall p: Path, q: Path :: IsLeaf(e.ty, e, p) && IsLeaf(e.ty, e, q) && p != q ==>
           Joined(e.ty, Get(e, p), Get(e, q)).None?
  }

  ghost predicate StuckLeaves(ty: JoinType, e: Expr)
    decreases Size(e), 1
  {
    if IsJoin(ty, e) then StuckLeaves(ty, e.left) && StuckLeaves(ty, e.right) else Stuck(e)
  }

  lemma {:induction false} EveryLeafStuck(ty: JoinType, e: Expr)
    requires forall a: Path :: IsLeaf(ty, e, a) ==> Stuck(Get(e, a))
    ensures StuckLeaves(ty, e)
  {
    if IsJoin(ty, e) {
      forall d: bool, a: Path | IsLeaf(ty, Child(e, d), a)
        ensures Stuck(Get(Child(e, d), a))
      {
        assert ([d] + a)[1..] == a;
        assert IsLeaf(ty, e, [d] + a);
      }
      assert Child(e, false) == e.left && Child(e, true) == e.right;
      EveryLeafStuck(ty, e.left);
      EveryLeafStuck(ty, e.right);
    } else {
      assert IsLeaf(ty, e, []);
    }
  }

  /** Every pair of different operands below the two cursors cannot be joined, and the first
      of them has nothing to join inside. */
  ghost predicate StuckBelow(ty: JoinType, e: Expr, p: Path, q: Path)
  {
    forall a: Path, b: Path :: IsLeaf(ty, e, a) && IsLeaf(ty, e, b) && p <= a && q <= b && a != b ==>
      Joined(ty, Get(e, a), Get(e, b)).None? && Stuck(Get(e, a))
  }

  lemma {:induction false} SomeLeaf(ty: JoinType, e: Expr) returns (a: Path)
    ensures IsLeaf(ty, e, a)
  {
    if IsJoin(ty, e) {
      var b := SomeLeaf(ty, e.left);
      a := [false] + b;
      assert a[1..] == b;
    } else {
      a := [];
    }
  }

  lemma StuckBelowRoot(e: Expr)
    requires e.Join? && StuckBelow(e.ty, e, [], [])
    ensures Stuck(e)
  {
    forall d: bool, a: Path | IsLeaf(e.ty, Child(e, d), a)
      ensures Stuck(Get(Child(e, d), a))
    {
      var b := SomeLeaf(e.ty, Child(e, !d));
      assert ([d] + a)[1..] == a && ([!d] + b)[1..] == b;
      assert [d] + a != [!d] + b by { assert ([d] + a)[0] != ([!d] + b)[0]; }
      assert IsLeaf(e.ty, e, [d] + a) && IsLeaf(e.ty, e, [!d] + b);
    }
    assert Child(e, false) == e.left && Child(e, true) == e.right;
    EveryLeafStuck(e.ty, e.left);
    EveryLeafStuck(e.ty, e.right);
  }

  /** An operand below a cursor at a join lies below one of its two children. */
  lemma BelowSplit(ty: JoinType, e: Expr, p: Path, a: Path)
    requires InGroup(ty, e, p) && IsJoin(ty, Get(e, p)) && IsLeaf(ty, e, a) && p <= a
    ensures p + [false] <= a || p + [true] <= a
  {
    assert p != a;
    assert a[..|p|] == p;
    assert |p| < |a|;
    assert a[..|p| + 1] == p + [a[|p|]];
  }

  lemma StuckBelowFirst(ty: JoinType, e: Expr, p: Path, q: Path)
    requires InGroup(ty, e, p) && IsJoin(ty, Get(e, p))
    requires StuckBelow(ty, e, p + [false], q) && StuckBelow(ty, e, p + [true], q)
    ensures StuckBelow(ty, e, p, q)
  {
    forall a: Path | IsLeaf(ty, e, a) && p <= a
      ensures p + [false] <= a || p + [true] <= a
    {
      BelowSplit(ty, e, p, a);
    }
  }

  lemma StuckBelowSecond(ty: JoinType, e: Expr, p: Path, q: Path)
    requires InGroup(ty, e, q) && IsJoin(ty, Get(e, q))
    requires StuckBelow(ty, e, p, q + [false]) && StuckBelow(ty, e, p, q + [true])
    ensures StuckBelow(ty, e, p, q)
  {
    forall b: Path | IsLeaf(ty, e, b) && q <= b
      ensures q + [false] <= b || q + [true] <= b
    {
      BelowSplit(ty, e, q, b);
    }
  }

  lemma LeafOnlyBelowItself(ty: JoinType, e: Expr, p: Path, a: Path)
    requires IsLeaf(ty, e, p) && IsLeaf(ty, e, a) && p <= a
    ensures a == p
    decreases |p|
  {
    if p != [] { LeafOnlyBelowItself(ty, Child(e, p[0]), p[1..], a[1..]); assert a == [a[0]] + a[1..]; }
  }

  lemma JoinAtProgress(ty: JoinType, e: Expr, p: Path, q: Path)
    requires IsLeaf(ty, e, p) && IsLeaf(ty, e, q) && p != q
    ensures JoinAt(ty, e, p, q).1 > 0 ==> Foldable(JoinAt(ty, e, p, q).0)
    ensures JoinAt(ty, e, p, q).1 == 0 ==> JoinAt(ty, e, p, q).0 == e && Joined(ty, Get(e, p), Get(e, q)).None?
  {
    var j := Joined(ty, Get(e, p), Get(e, q));
    if j.Some? {
      var u := Put(e, p, Var(ty.Unit()));
      GetPut(e, p, Var(ty.Unit()));
      PutLeafSameGroup(ty, e, p, Var(ty.Unit()));
      SameGroupPath(ty, e, u, p);
      SameGroupPath(ty, e, u, q);
      JoinedShape(ty, Get(e, p), Get(e, q));
      GetPutOther(ty, e, p, q, Var(ty.Unit()));
      GetPutOther(ty, u, q, p, j.value);
      PutLeafSameGroup(ty, u, q, j.value);
      SameGroupPath(ty, u, Put(u, q, j.value), p);
      FoldableAt(ty, Put(u, q, j.value), p);
    }
  }

  /** A pass that joins nothing changes nothing and has tried every pair; a pass that joins
      something leaves a literal behind for the folding to remove. */
  lemma {:induction false} Dups1Progress(ty: JoinType, e: Expr, p: Path, q: Path)
    requires InGroup(ty, e, p) && InGroup(ty, e, q)
    ensures Dups1(ty, e, p, q).1 > 0 ==> Foldable(Dups1(ty, e, p, q).0)
    ensures Dups1(ty, e, p, q).1 == 0 ==> Dups1(ty, e, p, q).0 == e && StuckBelow(ty, e, p, q)
    decreases Size(e), Operands(ty, Get(e, p)) + Operands(ty, Get(e, q))
  {
    hide Joined, JoinAt, DupsInside, Foldable, Stuck, StuckBelow, SameGroup;
    if IsJoin(ty, Get(e, p)) {
      Extend(ty, e, p, false);
      Extend(ty, e, p, true);
      var e1 := Dups1(ty, e, p + [false], q).0;
      Moved(ty, e, e1, p + [true], q);
      Dups1Progress(ty, e, p + [false], q);
      Dups1Progress(ty, e1, p + [true], q);
      if Dups1(ty, e, p, q).1 == 0 { StuckBelowFirst(ty, e, p, q); }
    } else if IsJoin(ty, Get(e, q)) {
      Extend(ty, e, q, false);
      Extend(ty, e, q, true);
      var e1 := Dups1(ty, e, p, q + [false]).0;
      Moved(ty, e, e1, p, q + [true]);
      Dups1Progress(ty, e, p, q + [false]);
      Dups1Progress(ty, e1, p, q + [true]);
      if Dups1(ty, e, p, q).1 == 0 { StuckBelowSecond(ty, e, p, q); }
    } else {
      Dups1LeafProgress(ty, e, p, q);
    }
  }

  lemma {:induction false} Dups1LeafProgress(ty: JoinType, e: Expr, p: Path, q: Path)
    requires InGroup(ty, e, p) && InGroup(ty, e, q) && !IsJoin(ty, Get(e, p)) && !IsJoin(ty, Get(e, q))
    ensures Dups1(ty, e, p, q).1 > 0 ==> Foldable(Dups1(ty, e, p, q).0)
    ensures Dups1(ty, e, p, q).1 == 0 ==> Dups1(ty, e, p, q).0 == e && StuckBelow(ty, e, p, q)
    decreases Size(e), 1
  {
    hide Joined, JoinAt, DupsInside, Foldable, Stuck, SameGroup;
    LeafHere(ty, e, p);
    LeafHere(ty, e, q);
    forall a: Path | IsLeaf(ty, e, a)
      ensures (p <= a ==> a == p) && (q <= a ==> a == q)
    {
      if p <= a { LeafOnlyBelowItself(ty, e, p, a); }
      if q <= a { LeafOnlyBelowItself(ty, e, q, a); }
    }
    if p != q { Dups1PairProgress(ty, e, p, q); }
  }

  lemma {:induction false} Dups1PairProgress(ty: JoinType, e: Expr, p: Path, q: Path)
    requires IsLeaf(ty, e, p) && IsLeaf(ty, e, q) && p != q
    ensures Dups1(ty, e, p, q).1 > 0 ==> Foldable(Dups1(ty, e, p, q).0)
    ensures Dups1(ty, e, p, q).1 == 0 ==>
              Dups1(ty, e, p, q).0 == e && Joined(ty, Get(e, p), Get(e, q)).None? && Stuck(Get(e, p))
    decreases Size(e), 0
  {
    var x := Get(e, p);
    var (e1, n1) := DupsInside(ty, e, p);
    if x.Join? {
      LeafSmaller(ty, e, p);
      Dups1Progress(x.ty, x, [], []);
      var x' := Dups1(x.ty, x, [], []).0;
      GetPut(e, p, x');
      if n1 > 0 {
        SameGroupPath(ty, e, e1, p);
        FoldableAt(ty, e1, p);
      } else {
        PutGet(e, p);
        StuckBelowRoot(x);
      }
    }
    SameGroupPath(ty, e, e1, p);
    SameGroupPath(ty, e, e1, q);
    JoinAtProgress(ty, e1, p, q);
  }

  // ----- the whole loop -----

  /** expr_eliminate_dups on a non-null expression: passes and foldings until a pass joins
      nothing. */
  function EliminateDups(e: Expr): Expr
    decreases Size(e)
  {
    if !e.Join? then e
    else
      var (e', n) := Dups1(e.ty, e, [], []);
      if n == 0 then e'
      else
        Dups1Progress(e.ty, e, [], []);
        FoldingShrinks(e');
        EliminateDups(EliminateYn(e'))
  }

  /** The result has the value of the input, in every world. */
  lemma {:induction false} EliminateDupsSound(env: Env, e: Expr)
    requires ValidEnv(env) && Plain(e)
    ensures Eval(env, EliminateDups(e)) == Eval(env, e)
    decreases Size(e)
  {
    if e.Join? {
      var (e', n) := Dups1(e.ty, e, [], []);
      Dups1Sound(env, e.ty, e, [], []);
      if n != 0 {
        Dups1Progress(e.ty, e, [], []);
        FoldingShrinks(e');
        PlainClosed();
        ClosedDups1(Plain, e.ty, e, [], []);
        ClosedYn(Plain, e');
        EliminateYnSound(env, e');
        EliminateDupsSound(env, EliminateYn(e'));
      }
    }
  }

  /** At the end no two operands of any AND or OR on the spine can be joined any more. */
  lemma {:induction false} EliminateDupsComplete(e: Expr)
    ensures Stuck(EliminateDups(e))
    decreases Size(e)
  {
    if e.Join? {
      var (e', n) := Dups1(e.ty, e, [], []);
      Dups1Progress(e.ty, e, [], []);
      if n == 0 {
        StuckBelowRoot(e);
      } else {
        FoldingShrinks(e');
        EliminateDupsComplete(EliminateYn(e'));
      }
    }
  }

  /** Every property that joins keep holds of the result. */
  lemma {:induction false} ClosedEliminateDups(ok: Expr -> bool, e: Expr)
    requires Closed(ok) && ok(e)
    ensures ok(EliminateDups(e))
    decreases Size(e)
  {
    if e.Join? {
      var (e', n) := Dups1(e.ty, e, [], []);
      ClosedDups1(ok, e.ty, e, [], []);
      if n != 0 {
        Dups1Progress(e.ty, e, [], []);
        FoldingShrinks(e');
        ClosedYn(ok, e');
        ClosedEliminateDups(ok, EliminateYn(e'));
      }
    }
  }
}
