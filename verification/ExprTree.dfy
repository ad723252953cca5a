/** The rewriting functions of scripts/config/expr.c in the form they have there: they walk over
    one mutable tree through pointers to its operand slots and overwrite those slots. Every
    method is proved against the function of the same name. */
module ExprTree {
  import opened Common
  import opened Expressions
  import opened Cancelling
  import opened Joining
  import opened Paths
  import opened Dups
  import opened Transforming
  import opened Submenu

  /** Whatever happens below p, a later write at p hides it. */
  ghost predicate Hides(e: Expr, p: Path, e': Expr)
    requires ValidPath(e, p)
  {
    ValidPath(e', p) && forall y: Expr :: Put(e', p, y) == Put(e, p, y)
  }

  lemma PutHides(e: Expr, p: Path, x: Expr)
    requires ValidPath(e, p)
    ensures Hides(e, p, Put(e, p, x)) && Get(Put(e, p, x), p) == x
  {
    GetPut(e, p, x);
    forall y: Expr
      ensures Put(Put(e, p, x), p, y) == Put(e, p, y)
    {
      PutPut(e, p, x, y);
    }
  }

  lemma OneStep(e: Expr, d: bool, x: Expr)
    requires HasChild(e, d)
    ensures ValidPath(e, [d]) && Get(e, [d]) == Child(e, d) && Put(e, [d], x) == WithChild(e, d, x)
  {
    var p: Path := [d];
    assert p[1..] == [];
    assert Put(e, p, x) == WithChild(e, p[0], Put(Child(e, p[0]), p[1..], x));
  }

  /** Writing a child of the slot at p. */
  lemma UpdateChild(e: Expr, p: Path, d: bool, x: Expr)
    requires ValidPath(e, p) && HasChild(Get(e, p), d)
    ensures ValidPath(e, p + [d]) && Get(e, p + [d]) == Child(Get(e, p), d)
    ensures Put(e, p + [d], x) == Put(e, p, WithChild(Get(e, p), d, x))
    ensures Hides(e, p, Put(e, p + [d], x)) && Get(Put(e, p + [d], x), p) == WithChild(Get(e, p), d, x)
  {
    OneStep(Get(e, p), d, x);
    PutConcat(e, p, [d], x);
    GetConcat(e, p, [d]);
    PutHides(e, p, WithChild(Get(e, p), d, x));
  }

  class Tree {
    var root: Expr
    var transCount: nat

    constructor (e: Expr, count: nat)
      ensures root == e && transCount == count
    {
      root := e;
      transCount := count;
    }

    /** Overwrites the slot at p. */
    method Write(p: Path, x: Expr)
      requires ValidPath(root, p)
      modifies this`root
      ensures root == Put(old(root), p, x)
      ensures Hides(old(root), p, root) && Get(root, p) == x
    {
      PutHides(root, p, x);
      root := Put(root, p, x);
    }

    /** expr_eliminate_yn. */
    method FoldAt(p: Path)
      requires ValidPath(root, p)
      modifies this`root
      ensures root == Put(old(root), p, EliminateYn(Get(old(root), p)))
      decreases Size(Get(root, p))
    {
      var e := Get(root, p);
      PutGet(root, p);
      if e.Join? {
        UpdateChild(root, p, false, EliminateYn(e.left));
        FoldAt(p + [false]);
        UpdateChild(root, p, true, EliminateYn(e.right));
        FoldAt(p + [true]);
        var f := Get(root, p);
        if f.left == Var(f.ty.Zero()) {
          Write(p, Var(f.ty.Zero()));
        } else if f.left == Var(f.ty.Unit()) {
          Write(p, f.right);
        } else if f.right == Var(f.ty.Zero()) {
          Write(p, Var(f.ty.Zero()));
        } else if f.right == Var(f.ty.Unit()) {
          Write(p, f.left);
        }
      }
    }

    /** expr_trans_bool. */
    method TransBoolAt(p: Path)
      requires ValidPath(root, p)
      modifies this`root
      ensures root == Put(old(root), p, TransBool(Get(old(root), p)))
      decreases Size(Get(root, p))
    {
      var e := Get(root, p);
      PutGet(root, p);
      match e
      case Join(_, l, r) =>
        UpdateChild(root, p, false, TransBool(l));
        TransBoolAt(p + [false]);
        UpdateChild(root, p, true, TransBool(r));
        TransBoolAt(p + [true]);
      case Not(a) =>
        UpdateChild(root, p, false, TransBool(a));
        TransBoolAt(p + [false]);
      case Comp(op, a, b) =>
        if op == Unequal && a.Type() == Tri && b == ConstN { Write(p, Var(a)); }
      case Var(_) =>
    }

    /** expr_transform: first the operands, then the slot itself, which may send the rewritten
        slot through the whole function again. */
    method TransformAt(p: Path)
      requires ValidPath(root, p)
      modifies this`root
      ensures root == Put(old(root), p, Transform(Get(old(root), p)))
      decreases Weight(Get(root, p))
    {
      var e := Get(root, p);
      PutGet(root, p);
      match e
      case Join(_, l, r) =>
        UpdateChild(root, p, false, Transform(l));
        TransformAt(p + [false]);
        UpdateChild(root, p, true, Transform(r));
        TransformAt(p + [true]);
      case Comp(_, _, _) => Write(p, SimplifyComp(e));
      case Var(_) =>
      case Not(a) =>
        UpdateChild(root, p, false, Transform(a));
        TransformAt(p + [false]);
        match Get(root, p).arg
        case Not(b) =>
          Write(p, b);
          TransformAt(p);
        case Comp(op, s1, s2) => Write(p, Comp(Flip(op), s1, s2));
        case Join(ty, l, r) =>
          Write(p, PushNot(ty, l, r));
          TransformAt(p);
        case Var(s) => Write(p, NegateVar(s));
    }

    /** expr_eliminate_dups1: both cursors point into the group at base. */
    method JoinOperands(ty: JoinType, base: Path, p: Path, q: Path)
      requires ValidPath(root, base)
      requires InGroup(ty, Get(root, base), p) && InGroup(ty, Get(root, base), q)
      modifies this
      ensures var (e, n) := Dups1(ty, Get(old(root), base), p, q);
              root == Put(old(root), base, e) && transCount == old(transCount) + n
      decreases Size(Get(root, base)), Operands(ty, Get(Get(root, base), p)) + Operands(ty, Get(Get(root, base), q))
    {
      hide Joined, JoinAt, DupsInside, Put, Get, SameGroup;
      ghost var g := Get(root, base);
      GetConcat(root, base, p);
      GetConcat(root, base, q);
      PutGet(root, base);
      if IsJoin(ty, Get(root, base + p)) {
        Extend(ty, g, p, false);
        Extend(ty, g, p, true);
        Moved(ty, g, Dups1(ty, g, p + [false], q).0, p + [true], q);
        PutHides(root, base, Dups1(ty, g, p + [false], q).0);
        JoinOperands(ty, base, p + [false], q);
        JoinOperands(ty, base, p + [true], q);
      } else if IsJoin(ty, Get(root, base + q)) {
        Extend(ty, g, q, false);
        Extend(ty, g, q, true);
        Moved(ty, g, Dups1(ty, g, p, q + [false]).0, p, q + [true]);
        PutHides(root, base, Dups1(ty, g, p, q + [false]).0);
        JoinOperands(ty, base, p, q + [false]);
        JoinOperands(ty, base, p, q + [true]);
      } else if p != q {
        JoinPair(ty, base, p, q);
      }
    }

    method JoinPair(ty: JoinType, base: Path, p: Path, q: Path)
      requires ValidPath(root, base)
      requires InGroup(ty, Get(root, base), p) && InGroup(ty, Get(root, base), q) && p != q
      requires !IsJoin(ty, Get(Get(root, base), p)) && !IsJoin(ty, Get(Get(root, base), q))
      modifies this
      ensures var (e, n) := Dups1(ty, Get(old(root), base), p, q);
              root == Put(old(root), base, e) && transCount == old(transCount) + n
      decreases Size(Get(root, base)), 0
    {
      ghost var g := Get(root, base);
      LeafHere(ty, g, p);
      LeafHere(ty, g, q);
      PutGet(root, base);
      GetConcat(root, base, p);
      var x := Get(root, base + p);
      if x.Join? {
        LeafSmaller(ty, g, p);
        PutConcat(root, base, p, Dups1(x.ty, x, [], []).0);
        JoinOperands(x.ty, base + p, [], []);
      }
      ghost var g1 := DupsInside(ty, g, p).0;
      PutHides(old(root), base, g1);
      assert root == Put(old(root), base, g1);
      SameGroupPath(ty, g, g1, p);
      SameGroupPath(ty, g, g1, q);
      GetConcat(root, base, p);
      GetConcat(root, base, q);
      var tmp := Joined(ty, Get(root, base + p), Get(root, base + q));
      if tmp.Some? {
        ghost var g2 := Put(g1, p, Var(ty.Unit()));
        PutConcat(root, base, p, Var(ty.Unit()));
        Write(base + p, Var(ty.Unit()));
        GetPutOther(ty, g1, p, q, Var(ty.Unit()));
        assert root == Put(old(root), base, g2);
        PutHides(old(root), base, g2);
        PutConcat(root, base, q, tmp.value);
        Write(base + q, tmp.value);
        transCount := transCount + 1;
      }
    }

    /** expr_eliminate_dups; the caller's count of joins is restored at the end. */
    method RemoveDuplicates()
      modifies this
      ensures root == EliminateDups(old(root)) && transCount == old(transCount)
    {
      var oldCount := transCount;
      while true
        invariant EliminateDups(root) == EliminateDups(old(root))
        decreases Size(root)
      {
        transCount := 0;
        ghost var e := root;
        if root.Join? {
          JoinOperands(root.ty, [], [], []);
          Dups1Progress(e.ty, e, [], []);
        }
        if transCount == 0 {
          break;
        }
        FoldingShrinks(root);
        FoldAt([]);
      }
      transCount := oldCount;
    }

    /** __expr_eliminate_eq: the group at p against the group at q of another tree. */
    method CancelAt(ty: JoinType, p: Path, other: Tree, q: Path)
      requires other != this && ValidPath(root, p) && ValidPath(other.root, q)
      modifies this`root, other`root
      ensures var (e1, e2) := CancelGroups(ty, Get(old(root), p), Get(old(other.root), q));
              root == Put(old(root), p, e1) && other.root == Put(old(other.root), q, e2)
      decreases Size(Get(root, p)) + Size(Get(other.root, q))
    {
      var (e1, e2) := (Get(root, p), Get(other.root, q));
      PutGet(root, p);
      PutGet(other.root, q);
      if IsJoin(ty, e1) {
        var (l, e2') := CancelGroups(ty, e1.left, e2);
        UpdateChild(root, p, false, l);
        PutHides(other.root, q, e2');
        CancelAt(ty, p + [false], other, q);
        UpdateChild(root, p, true, CancelGroups(ty, e1.right, e2').0);
        CancelAt(ty, p + [true], other, q);
      } else if IsJoin(ty, e2) {
        var (e1', l) := CancelGroups(ty, e1, e2.left);
        UpdateChild(other.root, q, false, l);
        PutHides(root, p, e1');
        CancelAt(ty, p, other, q + [false]);
        UpdateChild(other.root, q, true, CancelGroups(ty, e1', e2.right).1);
        CancelAt(ty, p, other, q + [true]);
      } else if e1 == e2 && (e1 == Var(ConstY) || e1 == Var(ConstN)) {
      } else if ExprEq(e1, e2) {
        Write(p, Var(ty.Unit()));
        other.Write(q, Var(ty.Unit()));
      }
    }

    /** expr_eliminate_eq. */
    method CancelCommon(other: Tree)
      requires other != this
      modifies this`root, other`root
      ensures (root, other.root) == EliminateEq(old(root), old(other.root))
    {
      if root.Join? {
        CancelAt(root.ty, [], other, []);
      }
      if other.root.Join? && !IsJoin(other.root.ty, root) {
        CancelAt(other.root.ty, [], other, []);
      }
      FoldAt([]);
      other.FoldAt([]);
    }
  }
}
