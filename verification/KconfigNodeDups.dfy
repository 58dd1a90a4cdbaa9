/** expr_eliminate_dups on trees in memory: the two passes, the slots their pointers name holding nodes, and the loop
    that runs them until neither finds anything. */
module KconfigNodeDups {
  import opened KconfigExpr
  import opened KconfigEq
  import opened KconfigSlots
  import opened KconfigDups
  import opened KconfigNodes
  import opened KconfigSettled
  import opened Options

  function Child(n: Node, d: Dir): Node?
    reads n
  {
    if d.L? then n.left else n.right
  }

  /** The node in a slot. */
  ghost function NodeAt(n: Node, p: Path): (x: Node)
    requires n.Valid() && IsSlot(n.Tree(), p)
    reads n, n.repr
    ensures x in n.repr && x.repr <= n.repr && x.Valid() && x.Tree() == At(n.Tree(), p)
    ensures p != [] ==> n !in x.repr
    decreases |p|
  {
    if p == [] then n else NodeAt(Child(n, p[0]), p[1..])
  }

  /** Different slots hold different nodes. */
  lemma {:induction false} NodesDiffer(n: Node, p: Path, q: Path)
    requires n.Valid() && IsSlot(n.Tree(), p) && IsSlot(n.Tree(), q) && p != q
    ensures NodeAt(n, p) != NodeAt(n, q)
    decreases |p|
  {
    if p != [] && q != [] {
      var x, y := NodeAt(Child(n, p[0]), p[1..]), NodeAt(Child(n, q[0]), q[1..]);
      if p[0] == q[0] {
        assert p == [p[0]] + p[1..] && q == [q[0]] + q[1..];
        NodesDiffer(Child(n, p[0]), p[1..], q[1..]);
      } else {
        assert n.left.repr !! n.right.repr && x in Child(n, p[0]).repr && y in Child(n, q[0]).repr;
      }
    }
  }

  method Deref(n: Node, p: Path) returns (x: Node)
    requires n.Valid() && IsSlot(n.Tree(), p)
    ensures x == NodeAt(n, p)
    decreases |p|
  {
    if p == [] { return n; }
    x := Deref(if p[0].L? then n.left else n.right, p[1..]);
  }

  /** A store below a node of the tree: only the node that holds the slot changes. */
  method StoreBelow(n: Node, p: Path, x: Node)
    requires n.Valid() && p != [] && IsSlot(n.Tree(), p) && x.Valid() && x.repr !! n.repr
    modifies n.repr
    ensures n.Valid() && n.Tree() == Put(old(n.Tree()), p, old(x.Tree())) && n.repr <= old(n.repr) + x.repr
    decreases |p|, 1
  {
    hide Put;
    PutStep(n.Tree(), p, x.Tree());
    if p[0].L? { StoreLeft(n, p[1..], x); } else { StoreRight(n, p[1..], x); }
  }

  lemma PutStep(e: Expr, p: Path, x: Expr)
    requires p != [] && IsSlot(e, p)
    ensures e.Bin? && IsSlot(if p[0].L? then e.left else e.right, p[1..])
    ensures Put(e, p, x) == if p[0].L? then Bin(e.op, Put(e.left, p[1..], x), e.right)
                            else Bin(e.op, e.left, Put(e.right, p[1..], x))
  {}

  lemma PutHere(e: Expr, x: Expr)
    ensures IsSlot(e, []) && Put(e, [], x) == x
  {}

  method StoreLeft(n: Node, p: Path, x: Node)
    requires n.Valid() && n.IsBin() && IsSlot(n.Tree().left, p) && x.Valid() && x.repr !! n.repr
    modifies n.repr
    ensures n.Valid() && n.repr <= old(n.repr) + x.repr
    ensures n.Tree() == var t := old(n.Tree()); Bin(t.op, Put(t.left, p, old(x.Tree())), t.right)
    decreases |p|, 2
  {
    hide Put, IsSlot;
    ghost var t, kept := n.Tree(), n.right.repr;
    assert n.left.Tree() == t.left && n.right.Tree() == t.right && n !in kept && kept !! n.left.repr;
    PutHere(t.left, x.Tree());
    var child := x;
    if p != [] {
      child := n.left;
      StoreBelow(child, p, x);
    }
    assert n.right.Valid() && n.right.Tree() == t.right && n.right.repr == kept;
    n.SetBin(OpOf(n.tag), child, n.right);
  }

  method StoreRight(n: Node, p: Path, x: Node)
    requires n.Valid() && n.IsBin() && IsSlot(n.Tree().right, p) && x.Valid() && x.repr !! n.repr
    modifies n.repr
    ensures n.Valid() && n.repr <= old(n.repr) + x.repr
    ensures n.Tree() == var t := old(n.Tree()); Bin(t.op, t.left, Put(t.right, p, old(x.Tree())))
    decreases |p|, 2
  {
    hide Put, IsSlot;
    ghost var t, kept := n.Tree(), n.left.repr;
    assert n.left.Tree() == t.left && n.right.Tree() == t.right && n !in kept && kept !! n.right.repr;
    PutHere(t.right, x.Tree());
    var child := x;
    if p != [] {
      child := n.right;
      StoreBelow(child, p, x);
    }
    assert n.left.Valid() && n.left.Tree() == t.left && n.left.repr == kept;
    n.SetBin(OpOf(n.tag), n.left, child);
  }

  /** The expression of a tree, and a tree for an expression. */
  method ValueOf(n: Node) returns (e: Expr)
    requires n.Valid()
    ensures e == n.Tree()
    decreases n.repr
  {
    match n.tag {
      case SymTag => e := Sym(n.lsym);
      case EqualTag => e := Equal(n.lsym, n.rsym);
      case UnequalTag => e := Unequal(n.lsym, n.rsym);
      case NotTag =>
        var x := ValueOf(n.left);
        e := Not(x);
      case _ =>
        var l := ValueOf(n.left);
        var r := ValueOf(n.right);
        e := Bin(OpOf(n.tag), l, r);
    }
  }

  method TreeFor(e: Expr) returns (n: Node)
    ensures n.Valid() && n.Tree() == e && fresh(n.repr)
  {
    if e.Sym? {
      n := new Node.Symbol(e.sym);
    } else if e.Equal? {
      n := new Node.Leaf(EqualTag, e.lhs, e.rhs);
    } else if e.Unequal? {
      n := new Node.Leaf(UnequalTag, e.lhs, e.rhs);
    } else if e.Not? {
      var m := TreeFor(e.arg);
      n := new Node.Negation(m);
    } else {
      var x := TreeFor(e.left);
      var y := TreeFor(e.right);
      n := new Node.Binary(e.op, x, y);
    }
  }

  lemma TagIs(n: Node, t: Op)
    requires n.Valid()
    ensures n.tag == TagOf(t) <==> KconfigEq.IsBin(n.Tree(), t)
    ensures n.IsBin() <==> n.Tree().Bin?
    ensures n.IsBin() ==> OpOf(n.tag) == n.Tree().op
  {}

  /** expr_join_or or expr_join_and: a tree of its own for the joined pair, if a rule applies. */
  method JoinNodes(t: Op, x: Node, y: Node, ghost e: Expr, ghost f: Expr) returns (tmp: Node?)
    requires x.Valid() && y.Valid() && x.Tree() == e && y.Tree() == f
    ensures tmp == null <==> Join(t, e, f).None?
    ensures tmp != null ==> tmp.Valid() && fresh(tmp.repr) && tmp.Tree() == Join(t, e, f).value
  {
    hide Join;
    var v := ValueOf(x);
    var w := ValueOf(y);
    var j := Join(t, v, w);
    tmp := null;
    if j.Some? { tmp := TreeFor(j.value); }
  }

  /** The test of the second pass: the negation of a copy of x, transformed, against a copy of y. */
  method StruckOnCopies(t: Op, x: Node, y: Node, ghost e: Expr, ghost f: Expr) returns (struck: bool)
    requires x.Valid() && y.Valid() && x.Tree() == e && y.Tree() == f
    ensures struck == Struck(t, e, f)
  {
    hide ExtractEq, Transform;
    var e1 := NegationOf(x, e);
    var e2 := ValueOf(y);
    struck := ExtractEq(t, e1, e2).1 == Unit(t);
  }

  method NegationOf(x: Node, ghost e: Expr) returns (e1: Expr)
    requires x.Valid() && x.Tree() == e
    ensures e1 == Transform(Not(e))
  {
    hide Transform;
    var c := Node.Copy(x);
    var n := new Node.Negation(c);
    var tmp := Node.Transform(n);
    e1 := ValueOf(tmp);
  }

  /** The tree being optimised, e for short, and the count of rewrites made in the current round. */
  class Optimiser {
    var root: Node
    var transCount: nat
    ghost var e: Expr

    ghost predicate Valid()
      reads `root, `e, root, root.repr
    {
      root.Valid() && root.Tree() == e
    }

    constructor (n: Node)
      requires n.Valid()
      ensures Valid() && root == n && e == n.Tree() && transCount == 0
    {
      root, transCount, e := n, 0, n.Tree();
    }

    /** Whether the node in a slot is an AND or OR of the given kind. */
    method Has(p: Path, t: Op) returns (b: bool)
      requires Valid() && IsSlot(e, p)
      ensures b <==> IsBin(At(e, p), t)
    {
      var x := Deref(root, p);
      TagIs(x, t);
      b := x.tag == TagOf(t);
    }

    /** Whether two slots hold the same node. */
    method Same(p: Path, q: Path) returns (b: bool)
      requires Valid() && IsSlot(e, p) && IsSlot(e, q)
      ensures b <==> p == q
    {
      hide At, IsSlot, NodeAt;
      var x := Deref(root, p);
      var y := Deref(root, q);
      if p != q { NodesDiffer(root, p, q); }
      b := x == y;
    }

    method Store(p: Path, x: Node)
      requires Valid() && IsSlot(e, p) && x.Valid() && x.repr !! root.repr
      modifies `root, `e, root.repr
      ensures Valid() && e == Put(old(e), p, old(x.Tree())) && root.repr <= old(root.repr) + x.repr
    {
      ghost var e' := Put(e, p, x.Tree());
      if p == [] { root := x; } else { StoreBelow(root, p, x); }
      e := e';
    }

    /** expr_eliminate_dups1: joins every operand at or below the slot p1 with every other operand at or below p2. The
        slots lie in the t-spine whose top is p0; q1 and q2 are their places in it. */
    method EliminateDups1(t: Op, p1: Path, p2: Path, ghost p0: Path, ghost q1: Path, ghost q2: Path)
      requires Valid() && InSpineAt(t, e, p0, q1, q2) && p1 == p0 + q1 && p2 == p0 + q2
      modifies this, root.repr
      ensures Valid() && fresh(root.repr - old(root.repr))
      ensures Joined(t, old(e), e, p0, q1, q2, transCount - old(transCount))
      ensures transCount >= old(transCount) && IsSlot(e, p0)
      decreases Size(At(e, p0)), Work(t, e, p0, q1, q2), 2
    {
      hide Joined, Work, LeafSlot, At, Put, AtSpine, InSpine, Valid;
      SpineAt(t, e, p0, q1, q2);
      ghost var e0, n := e, transCount;
      var left := Has(p1, t);
      if left {
        LeftSlotChildren(t, e, p0, q1, q2);
        EliminateDups1(t, p1 + [L], p2, p0, q1 + [L], q2);
        ghost var e1, n1 := e, transCount;
        JoinedKeepsSlots(t, e0, e1, p0, q1 + [L], q2, q1 + [R], q2, n1 - n);
        EliminateDups1(t, p1 + [R], p2, p0, q1 + [R], q2);
        JoinedLeftThenRight(t, e0, e1, e, p0, q1, q2, n1 - n, transCount - n1);
        return;
      }
      var right := Has(p2, t);
      if right {
        JoinBelow(t, p1, p2, p0, q1, q2);
        return;
      }
      var same := Same(p1, p2);
      if same {
        assert q1 == p1[|p0|..] == q2;
        JoinedNothing(t, e, p0, q1);
        return;
      }
      JoinOperands(t, p1, p2, p0, q1, q2);
    }

    /** An operand with what is below a node of the spine. */
    method JoinBelow(t: Op, p1: Path, p2: Path, ghost p0: Path, ghost q1: Path, ghost q2: Path)
      requires Valid() && InSpineAt(t, e, p0, q1, q2) && p1 == p0 + q1 && p2 == p0 + q2
      requires IsSlot(e, p1) && !IsBin(At(e, p1), t) && IsSlot(e, p2) && IsBin(At(e, p2), t)
      modifies this, root.repr
      ensures Valid() && fresh(root.repr - old(root.repr))
      ensures Joined(t, old(e), e, p0, q1, q2, transCount - old(transCount))
      ensures transCount >= old(transCount) && IsSlot(e, p0)
      decreases Size(At(e, p0)), Work(t, e, p0, q1, q2), 1
    {
      hide Joined, Work, LeafSlot, At, Put, AtSpine, InSpine, Valid;
      SpineAt(t, e, p0, q1, q2);
      ghost var e0, n := e, transCount;
      RightSlotChildren(t, e, p0, q1, q2);
      EliminateDups1(t, p1, p2 + [L], p0, q1, q2 + [L]);
      ghost var e1, n1 := e, transCount;
      JoinedKeepsSlots(t, e0, e1, p0, q1, q2 + [L], q1, q2 + [R], n1 - n);
      EliminateDups1(t, p1, p2 + [R], p0, q1, q2 + [R]);
      JoinedWithLeftThenRight(t, e0, e1, e, p0, q1, q2, n1 - n, transCount - n1);
    }

    /** The end of the first pass: works inside the operand at p1, then joins it with the one at p2 if a rule
        applies. */
    method JoinOperands(t: Op, p1: Path, p2: Path, ghost p0: Path, ghost q1: Path, ghost q2: Path)
      requires Valid() && InSpineAt(t, e, p0, q1, q2) && p1 == p0 + q1 && p2 == p0 + q2 && q1 != q2
      requires LeafSlot(t, At(e, p0), q1) && LeafSlot(t, At(e, p0), q2)
      modifies this, root.repr
      ensures Valid() && fresh(root.repr - old(root.repr))
      ensures Joined(t, old(e), e, p0, q1, q2, transCount - old(transCount))
      ensures transCount >= old(transCount) && IsSlot(e, p0)
      decreases Size(At(e, p0)), Work(t, e, p0, q1, q2), 0
    {
      hide Joined, Work, At, Put, AtSpine, InSpine, Join, Valid;
      SpineAt(t, e, p0, q1, q2);
      ghost var e0, n := e, transCount;
      var op := OpAt(p1);
      if op.Some? {
        assert p1 + [] == p1;
        OperandTop(op.value, e, p1);
        EliminateDups1(op.value, p1, p1, p1, [], []);
      }
      JoinedLeafPair(t, e0, e, p0, q1, q2, transCount - n);
      JoinPairAt(t, p1, p2);
    }

    /** The operator of the node in a slot, if it is an AND or OR. */
    method OpAt(p: Path) returns (op: Option<Op>)
      requires Valid() && IsSlot(e, p)
      ensures op == if At(e, p).Bin? then Some(At(e, p).op) else None
    {
      var x := Deref(root, p);
      TagIs(x, AndOp);
      op := if x.IsBin() then Some(OpOf(x.tag)) else None;
    }

    /** The pair at two slots is joined if a rule applies. */
    method JoinPairAt(t: Op, p1: Path, p2: Path)
      requires Valid() && IsSlot(e, p1) && IsSlot(e, p2)
      requires Join(t, At(e, p1), At(e, p2)).Some? ==> IsSlot(Put(e, p1, Unit(t)), p2)
      modifies this, root.repr
      ensures Valid() && fresh(root.repr - old(root.repr))
      ensures var j := Join(t, At(old(e), p1), At(old(e), p2));
              if j.Some? then
                e == Put(Put(old(e), p1, Unit(t)), p2, j.value) && transCount == old(transCount) + 1
              else e == old(e) && transCount == old(transCount)
    {
      hide Join, At, Put, IsSlot;
      var tmp := JoinedAt(t, p1, p2);
      if tmp != null {
        hide Valid;
        StoreUnit(t, p1);
        Store(p2, tmp);
        transCount := transCount + 1;
      }
    }

    method JoinedAt(t: Op, p1: Path, p2: Path) returns (tmp: Node?)
      requires Valid() && IsSlot(e, p1) && IsSlot(e, p2)
      ensures var j := Join(t, At(e, p1), At(e, p2));
              && (tmp == null <==> j.None?)
              && (tmp != null ==> tmp.Valid() && fresh(tmp.repr) && tmp.Tree() == j.value)
    {
      hide Join, At, IsSlot, NodeAt;
      var x := Deref(root, p1);
      var y := Deref(root, p2);
      tmp := JoinNodes(t, x, y, At(e, p1), At(e, p2));
    }

    method StoreUnit(t: Op, p: Path)
      requires Valid() && IsSlot(e, p)
      modifies `root, `e, root.repr
      ensures Valid() && e == Put(old(e), p, Unit(t)) && fresh(root.repr - old(root.repr))
    {
      hide At, Put, IsSlot, Valid;
      var unit := new Node.Symbol(if t.AndOp? then SYM_YES else SYM_NO);
      Store(p, unit);
    }

    /** expr_eliminate_dups2: strikes every operand at or below p1 whose negation is found among the operands of a node
        or operand at or below p2, as a constant that decides the spine. */
    method EliminateDups2(t: Op, p1: Path, p2: Path, ghost p0: Path, ghost q1: Path, ghost q2: Path)
      requires Valid() && InSpineAt(t, e, p0, q1, q2) && p1 == p0 + q1 && p2 == p0 + q2
      modifies this, root.repr
      ensures Valid() && fresh(root.repr - old(root.repr))
      ensures Swept(t, old(e), e, p0, q1, q2, transCount - old(transCount))
      ensures transCount >= old(transCount) && IsSlot(e, p0)
      decreases Size(At(e, p0)), Work(t, e, p0, q1, q2), 2
    {
      hide Swept, SweptOnce, Work, LeafSlot, At, Put, AtSpine, InSpine, Valid;
      SpineAt(t, e, p0, q1, q2);
      ghost var e0, n := e, transCount;
      var left := Has(p1, t);
      if left {
        LeftSlotChildren(t, e, p0, q1, q2);
        EliminateDups2(t, p1 + [L], p2, p0, q1 + [L], q2);
        ghost var e1, n1 := e, transCount;
        SweptKeepsSlots(t, e0, e1, p0, q1 + [L], q2, q1 + [R], q2, n1 - n);
        EliminateDups2(t, p1 + [R], p2, p0, q1 + [R], q2);
        SweptLeftThenRight(t, e0, e1, e, p0, q1, q2, n1 - n, transCount - n1);
        return;
      }
      var right := Has(p2, t);
      if right {
        StrikeNode(t, p1, p2, p0, q1, q2);
        return;
      }
      var same := Same(p1, p2);
      if same {
        assert q1 == p1[|p0|..] == q2;
        SweptNothing(t, e, p0, q1);
        return;
      }
      StrikeOperand(t, p1, p2, p0, q1, q2);
      SweptOperands(t, e0, e, p0, q1, q2, transCount - n);
    }

    /** An operand against a node of the spine: against what is below it, then against the node. */
    method StrikeNode(t: Op, p1: Path, p2: Path, ghost p0: Path, ghost q1: Path, ghost q2: Path)
      requires Valid() && InSpineAt(t, e, p0, q1, q2) && p1 == p0 + q1 && p2 == p0 + q2
      requires IsSlot(e, p1) && !IsBin(At(e, p1), t) && IsSlot(e, p2) && IsBin(At(e, p2), t)
      modifies this, root.repr
      ensures Valid() && fresh(root.repr - old(root.repr))
      ensures Swept(t, old(e), e, p0, q1, q2, transCount - old(transCount))
      ensures transCount >= old(transCount) && IsSlot(e, p0)
      decreases Size(At(e, p0)), Work(t, e, p0, q1, q2), 1
    {
      hide Swept, SweptOnce, Work, LeafSlot, At, Put, AtSpine, InSpine, Valid;
      SpineAt(t, e, p0, q1, q2);
      ghost var e0, n := e, transCount;
      RightSlotChildren(t, e, p0, q1, q2);
      EliminateDups2(t, p1, p2 + [L], p0, q1, q2 + [L]);
      ghost var e1, n1 := e, transCount;
      SweptKeepsSlots(t, e0, e1, p0, q1, q2 + [L], q1, q2 + [R], n1 - n);
      EliminateDups2(t, p1, p2 + [R], p0, q1, q2 + [R]);
      ghost var e2, n2 := e, transCount;
      SweptKeepsBoth(t, e0, e1, e2, p0, q1, q2, n1 - n, n2 - n1);
      StrikeOperand(t, p1, p2, p0, q1, q2);
      SweptNode(t, e0, e1, e2, e, p0, q1, q2, n1 - n, n2 - n1, transCount - n2);
    }

    /** The end of the second pass: sweeps inside the operand at p1, then strikes it if its negation is found among the
        operands at p2. */
    method StrikeOperand(t: Op, p1: Path, p2: Path, ghost p0: Path, ghost q1: Path, ghost q2: Path)
      requires Valid() && InSpineAt(t, e, p0, q1, q2) && p1 == p0 + q1 && p2 == p0 + q2
      requires q1 != q2 && !IsBin(AtSpine(t, At(e, p0), q1), t)
      modifies this, root.repr
      ensures Valid() && fresh(root.repr - old(root.repr))
      ensures SweptOnce(t, old(e), e, p0, q1, q2, transCount - old(transCount))
      ensures transCount >= old(transCount) && IsSlot(e, p0)
      decreases Size(At(e, p0)), Work(t, e, p0, q1, q2), 0
    {
      hide Swept, SweptOnce, Work, At, Put, AtSpine, ExtractEq, Transform, Valid, Struck;
      SpineAt(t, e, p0, q1, q2);
      ghost var e0, n := e, transCount;
      var op := OpAt(p1);
      if op.Some? {
        assert p1 + [] == p1;
        EliminateDups2(op.value, p1, p1, p1, [], []);
        SweptStrike(t, e0, e, p0, q1, q2, transCount - n);
        StrikeAt(t, p1, p2);
      } else {
        SweptAtom(t, e, p0, q1, q2);
      }
    }

    /** The operand at p1 is struck if its negation is found among the operands at p2. */
    method StrikeAt(t: Op, p1: Path, p2: Path)
      requires Valid() && IsSlot(e, p1) && IsSlot(e, p2)
      modifies this, root.repr
      ensures Valid() && fresh(root.repr - old(root.repr))
      ensures if Struck(t, At(old(e), p1), At(old(e), p2)) then
                e == Put(old(e), p1, Zero(t)) && transCount == old(transCount) + 1
              else e == old(e) && transCount == old(transCount)
    {
      hide Struck, At, Put, IsSlot, NodeAt;
      var x := Deref(root, p1);
      var y := Deref(root, p2);
      var struck := StruckOnCopies(t, x, y, At(e, p1), At(e, p2));
      if struck {
        hide Valid;
        StoreZero(t, p1);
        transCount := transCount + 1;
      }
    }

    method StoreZero(t: Op, p: Path)
      requires Valid() && IsSlot(e, p)
      modifies `root, `e, root.repr
      ensures Valid() && e == Put(old(e), p, Zero(t)) && fresh(root.repr - old(root.repr))
    {
      hide At, Put, IsSlot, Valid;
      var zero := new Node.Symbol(if t.AndOp? then SYM_NO else SYM_YES);
      Store(p, zero);
    }

    /** expr_eliminate_dups: runs both passes until a round counts nothing. A value of n or y never changes, what is
        left is settled, has no constant operand unless nothing was done at all, and nothing is done exactly when the
        tree was settled to begin with. */
    method EliminateDups()
      requires Valid()
      modifies this, root.repr
      ensures Valid() && fresh(root.repr - old(root.repr))
      ensures forall a: Assignment {:trigger Typed(a)} :: Typed(a) ==> Refines(Eval(old(e), a), Eval(e, a))
      ensures Settled(e) && NothingToJoin(e)
      ensures e == old(e) <==> Settled(old(e))
      ensures e == old(e) || (NoYnOperand(e) && Size(e) < Size(old(e)))
      ensures Normal(old(e)) ==> Normal(e)
      ensures transCount == old(transCount)
    {
      var oldcount := transCount;
      while true
        invariant Valid() && fresh(root.repr - old(root.repr))
        invariant forall a: Assignment {:trigger Typed(a)} :: Typed(a) ==> Refines(Eval(old(e), a), Eval(e, a))
        invariant e == old(e) || (NoYnOperand(e) && Size(e) < Size(old(e)) && !Settled(old(e)))
        invariant Normal(old(e)) ==> Normal(e)
        decreases Size(e)
      {
        hide Valid, Settled, NoYnOperand, Normal;
        ghost var e0 := e;
        Round();
        if transCount == 0 { break; }
        FoldAll();
      }
      SettledJoined(e);
      transCount := oldcount;
    }

    /** Both passes, counted from nothing. */
    method Round()
      requires Valid()
      modifies this, root.repr
      ensures Valid() && fresh(root.repr - old(root.repr))
      ensures if transCount == 0 then e == old(e) && Settled(e) else !Settled(old(e))
      ensures transCount > 0 ==> Size(EliminateYn(e)) < Size(old(e)) && NoYnOperand(EliminateYn(e))
      ensures transCount > 0 ==> (Normal(old(e)) ==> Normal(EliminateYn(e)))
      ensures transCount > 0 ==> forall a: Assignment {:trigger Typed(a)} :: Typed(a) ==>
                Refines(Eval(old(e), a), Eval(EliminateYn(e), a))
    {
      hide Joined, Swept, PairsJoined, PairsUnstruck, Valid, EliminateYn;
      transCount := 0;
      ghost var e0 := e;
      var op := OpAt([]);
      if op.Some? {
        ghost var t := op.value;
        EliminateDups1(op.value, [], [], [], [], []);
        ghost var e1, n1 := e, transCount;
        JoinedKeepsSlots(t, e0, e1, [], [], [], [], [], n1);
        JoinedKeepsTop(t, e0, e1, n1);
        EliminateDups2(op.value, [], [], [], [], []);
        RoundProgress(t, e0, e1, e, n1, transCount - n1);
      }
    }

    method FoldAll()
      requires Valid()
      modifies `e, root.repr
      ensures Valid() && e == EliminateYn(old(e)) && root.repr <= old(root.repr)
    {
      hide EliminateYn;
      root.EliminateYn();
      e := EliminateYn(e);
    }
  }
}
