/** What is left to do in a settled expression: nothing that the duplicate passes are for. */
module KconfigSettled {
  import opened KconfigExpr
  import opened KconfigEq
  import opened KconfigSlots
  import opened KconfigDups
  import opened KconfigOperands
  import opened Options

  // ----- the pairs the join rules unite -----

  /** An operand of x and one of y about the symbol s that a rule unites, in this order. */
  predicate UnitedBy(t: Op, s: Symbol, x: Expr, y: Expr) {
    match t
    case OrOp =>
      || (s.kind.Tristate? && x == Equal(s, SYM_YES) && y == Equal(s, SYM_MOD))
      || (s.kind.Tristate? && x == Equal(s, SYM_YES) && y == Equal(s, SYM_NO))
      || (s.kind.Tristate? && x == Equal(s, SYM_MOD) && y == Equal(s, SYM_NO))
      || (s.kind.Boolean? && x == Sym(s) && y == Not(Sym(s)))
    case AndOp =>
      || (s.kind in {Boolean, Tristate} && x == Sym(s)
          && (y == Equal(s, SYM_YES) || y == Unequal(s, SYM_NO) || y == Unequal(s, SYM_MOD)))
      || (s.kind.Tristate? && x == Unequal(s, SYM_YES) && y == Unequal(s, SYM_NO))
      || (s.kind.Tristate? && x == Unequal(s, SYM_YES) && y == Unequal(s, SYM_MOD))
      || (s.kind.Tristate? && x == Unequal(s, SYM_MOD) && y == Unequal(s, SYM_NO))
      || (s.kind.Tristate? && x.Equal? && y.Unequal? && x.lhs == s == y.lhs && x.rhs.isConst && y.rhs.isConst)
  }

  ghost predicate United(t: Op, x: Expr, y: Expr) {
    exists s: Symbol :: UnitedBy(t, s, x, y) || UnitedBy(t, s, y, x)
  }

  /** A pair is joined exactly when its expressions are found equal or a rule unites them. */
  lemma JoinedExactly(t: Op, x: Expr, y: Expr)
    ensures Join(t, x, y).Some? <==> ExprEq(x, y) || United(t, x, y)
  {
    hide ExprEq;
    if ExprEq(x, y) {
    } else if t.OrOp? {
      JoinedOrExactly(x, y);
    } else {
      JoinedAndExactly(x, y);
    }
  }

  lemma JoinedOrExactly(x: Expr, y: Expr)
    requires !ExprEq(x, y)
    ensures Join(OrOp, x, y).Some? <==> United(OrOp, x, y)
  {
    hide ExprEq, JoinAnd;
    if Join(OrOp, x, y).Some? {
      var s := LeftSubject(x).value;
      assert UnitedBy(OrOp, s, x, y) || UnitedBy(OrOp, s, y, x);
    }
  }

  lemma JoinedAndExactly(x: Expr, y: Expr)
    requires !ExprEq(x, y)
    ensures Join(AndOp, x, y).Some? <==> United(AndOp, x, y)
  {
    hide ExprEq, JoinOr;
    if Join(AndOp, x, y).Some? {
      var s := LeftSubject(x).value;
      assert UnitedBy(AndOp, s, x, y) || UnitedBy(AndOp, s, y, x);
    }
  }

  // ----- settled operands, at any depth -----

  /** Operands of a settled spine are settled. */
  lemma SettledOperand(t: Op, e: Expr, p: Path)
    requires IsBin(e, t) && Settled(e) && LeafSlot(t, e, p)
    ensures Settled(AtSpine(t, e, p))
  {
    hide Join, Struck, AtSpine, InSpine, LeafSlot;
    var q := OtherLeaf(t, e, p);
    RootNoLeaf(t, e);
    assert PairJoined(t, AtSpine(t, e, p), AtSpine(t, e, q));
    assert PairUnstruck(t, AtSpine(t, e, p), AtSpine(t, e, []));
  }

  lemma OtherLeaf(t: Op, e: Expr, p: Path) returns (q: Path)
    requires IsBin(e, t) && LeafSlot(t, e, p)
    ensures LeafSlot(t, e, q) && InSpine(t, e, q) && InSpine(t, e, p) && p != q && p != []
  {
    q := if p[0].L? then [R] + SomeLeaf(t, e.right) else [L] + SomeLeaf(t, e.left);
    assert q[1..] == (if p[0].L? then SomeLeaf(t, e.right) else SomeLeaf(t, e.left));
  }

  function SomeLeaf(t: Op, e: Expr): (p: Path)
    ensures LeafSlot(t, e, p)
  {
    if IsBin(e, t) then
      var p := SomeLeaf(t, e.left);
      assert ([L] + p)[1..] == p;
      [L] + p
    else []
  }

  lemma RootNoLeaf(t: Op, e: Expr)
    requires IsBin(e, t)
    ensures InSpine(t, e, []) && AtSpine(t, e, []) == e && !LeafSlot(t, e, [])
  {}

  lemma SpineBelow(t: Op, e: Expr, d: Dir, r: Path)
    requires IsBin(e, t)
    ensures var c := if d.L? then e.left else e.right;
            && (InSpine(t, e, [d] + r) <==> InSpine(t, c, r))
            && (InSpine(t, c, r) ==> AtSpine(t, e, [d] + r) == AtSpine(t, c, r))
            && (LeafSlot(t, e, [d] + r) <==> LeafSlot(t, c, r))
  {
    assert ([d] + r)[1..] == r;
  }

  /** The part of a settled spine below one of its nodes is settled. */
  lemma SettledBelow(t: Op, e: Expr, d: Dir)
    requires IsBin(e, t) && Settled(e)
    ensures Settled(if d.L? then e.left else e.right)
  {
    var c := if d.L? then e.left else e.right;
    if IsBin(c, t) {
      JoinedBelow(t, e, d);
      UnstruckBelow(t, e, d);
    } else {
      SpineBelow(t, e, d, []);
      ChildLeaf(t, e, d);
      SettledOperand(t, e, [d]);
    }
  }

  lemma JoinedBelow(t: Op, e: Expr, d: Dir)
    requires IsBin(e, t) && PairsJoined(t, e, [], [])
    ensures PairsJoined(t, if d.L? then e.left else e.right, [], [])
  {
    var c := if d.L? then e.left else e.right;
    hide Join, Struck, AtSpine, InSpine, LeafSlot, PairJoined;
    forall r1: Path, r2: Path | LeafSlot(t, c, r1) && LeafSlot(t, c, r2) && r1 != r2 && r1 != []
      ensures InSpine(t, c, r1) && InSpine(t, c, r2) && PairJoined(t, AtSpine(t, c, r1), AtSpine(t, c, r2))
    {
      LeafInSpine(t, c, r1);
      LeafInSpine(t, c, r2);
      SpineBelow(t, e, d, r1);
      SpineBelow(t, e, d, r2);
      DifferBelow(d, r1, r2);
      assert LeafSlot(t, e, [d] + r1) && LeafSlot(t, e, [d] + r2);
    }
  }

  lemma UnstruckBelow(t: Op, e: Expr, d: Dir)
    requires IsBin(e, t) && PairsUnstruck(t, e, [], [])
    ensures PairsUnstruck(t, if d.L? then e.left else e.right, [], [])
  {
    var c := if d.L? then e.left else e.right;
    hide Join, Struck, AtSpine, InSpine, LeafSlot, PairUnstruck;
    forall r1: Path, r2: Path | LeafSlot(t, c, r1) && InSpine(t, c, r2) && r1 != r2 && r1 != []
      ensures InSpine(t, c, r1) && PairUnstruck(t, AtSpine(t, c, r1), AtSpine(t, c, r2))
    {
      LeafInSpine(t, c, r1);
      SpineBelow(t, e, d, r1);
      SpineBelow(t, e, d, r2);
      DifferBelow(d, r1, r2);
      assert LeafSlot(t, e, [d] + r1) && InSpine(t, e, [d] + r2);
    }
  }

  lemma LeafInSpine(t: Op, e: Expr, r: Path)
    requires LeafSlot(t, e, r)
    ensures InSpine(t, e, r)
  {}

  lemma DifferBelow(d: Dir, r1: Path, r2: Path)
    requires r1 != r2
    ensures [d] + r1 != [d] + r2 && [d] + r1 != []
  {
    assert ([d] + r1)[1..] == r1 && ([d] + r2)[1..] == r2;
  }

  lemma ChildLeaf(t: Op, e: Expr, d: Dir)
    requires IsBin(e, t) && !IsBin(if d.L? then e.left else e.right, t)
    ensures LeafSlot(t, e, [d]) && AtSpine(t, e, [d]) == if d.L? then e.left else e.right
  {
    assert [d][1..] == [];
  }

  /** Every part of a settled expression is settled. */
  lemma {:induction false} SettledAt(e: Expr, p: Path)
    requires Settled(e) && IsSlot(e, p)
    ensures Settled(At(e, p))
    decreases |p|
  {
    if p != [] {
      hide Settled;
      SettledBelow(e.op, e, p[0]);
      SettledAt(if p[0].L? then e.left else e.right, p[1..]);
    }
  }

  /** At no depth are two operands of one spine found equal, or united by a rule. */
  lemma NoDuplicates(e: Expr, p: Path, i: nat, j: nat)
    requires Settled(e) && IsSlot(e, p) && At(e, p).Bin?
    requires var n := |Operands(At(e, p).op, At(e, p))|; i < n && j < n && i != j
    ensures var x := At(e, p);
            var y, z := Operands(x.op, x)[i], Operands(x.op, x)[j];
            !ExprEq(y, z) && !United(x.op, y, z)
  {
    hide Join, ExprEq, United, SlotOf, Operands;
    var x := At(e, p);
    SettledAt(e, p);
    SlotsDiffer(x.op, x, i, j);
    var r1, r2 := SlotOf(x.op, x, i), SlotOf(x.op, x, j);
    RootNoLeaf(x.op, x);
    assert PairJoined(x.op, AtSpine(x.op, x, r1), AtSpine(x.op, x, r2));
    JoinedExactly(x.op, Operands(x.op, x)[i], Operands(x.op, x)[j]);
  }

  /** At no depth are two operands of one spine found equal, or such that a rule unites them. */
  ghost predicate NothingToJoin(e: Expr) {
    forall p: Path, i: nat, j: nat {:trigger PairApart(e, p, i, j)} :: PairApart(e, p, i, j)
  }

  ghost predicate PairApart(e: Expr, p: Path, i: nat, j: nat) {
    IsSlot(e, p) && At(e, p).Bin? ==>
      var s := Operands(At(e, p).op, At(e, p));
      i < |s| && j < |s| && i != j ==> !ExprEq(s[i], s[j]) && !United(At(e, p).op, s[i], s[j])
  }

  lemma SettledJoined(e: Expr)
    requires Settled(e)
    ensures NothingToJoin(e)
  {
    hide Settled, ExprEq, United, Operands, At, IsSlot;
    forall p: Path, i: nat, j: nat ensures PairApart(e, p, i, j) {
      if IsSlot(e, p) && At(e, p).Bin? {
        if i < |Operands(At(e, p).op, At(e, p))| && j < |Operands(At(e, p).op, At(e, p))| && i != j {
          NoDuplicates(e, p, i, j);
        }
      }
    }
  }

  // ----- strikes -----

  function Negated(s: seq<Expr>): (r: seq<Expr>)
    ensures |r| == |s|
  {
    seq(|s|, i requires 0 <= i < |s| => Transform(Not(s[i])))
  }

  lemma NegatedBoth(l: seq<Expr>, r: seq<Expr>)
    ensures Negated(l + r) == Negated(l) + Negated(r)
  {
    hide Transform;
  }

  /** The operands of a negated spine are the negations of its operands. */
  lemma {:induction false} NegatedOperands(t: Op, x: Expr)
    requires Normal(x)
    ensures Operands(t, Transform(Not(x))) == Negated(Operands(Dual(t), x))
  {
    if IsBin(x, Dual(t)) {
      PushedThrough(x.op, x.left, x.right);
      NegatedOperands(t, x.left);
      NegatedOperands(t, x.right);
      hide Transform, Negated;
      NegatedBoth(Operands(Dual(t), x.left), Operands(Dual(t), x.right));
    } else {
      NegatedLeaf(t, x);
    }
  }

  lemma NegatedLeaf(t: Op, x: Expr)
    requires Normal(x) && !IsBin(x, Dual(t))
    ensures !IsBin(Transform(Not(x)), t)
  {
    match x
    case Bin(op, l, r) => PushedThrough(op, l, r);
    case Not(y) => assert Transform(x) == x;
    case _ => NormalIsFixed(x);
  }

  /** An operand is struck when the negations of all its operands, which differ, are among the operands it stands
      against: an OR among the operands of an AND, an AND among those of an OR. */
  lemma StruckWhenNegated(t: Op, x: Expr, y: Expr)
    requires Normal(x) && IsBin(x, Dual(t)) && Distinct(t, Negated(Operands(Dual(t), x)))
    requires forall z <- Negated(Operands(Dual(t), x)) :: z != Unit(t) && z in Operands(t, y)
    ensures Struck(t, x, y)
  {
    NegatedOperands(t, x);
    ExtractFound(t, Transform(Not(x)), y);
  }

  /** In a settled expression no such operand is left. */
  lemma NoneStruck(e: Expr, p: Path, i: nat)
    requires Settled(e) && IsSlot(e, p) && At(e, p).Bin? && i < |Operands(At(e, p).op, At(e, p))|
    ensures var x := At(e, p);
            var t, y := x.op, Operands(x.op, x)[i];
            Normal(y) && IsBin(y, Dual(t)) && Distinct(t, Negated(Operands(Dual(t), y))) ==>
              exists z <- Negated(Operands(Dual(t), y)) :: z == Unit(t) || z !in Operands(t, x)
  {
    hide Join, Struck, SlotOf, Operands, Negated, Distinct;
    var x := At(e, p);
    var t, y := x.op, Operands(x.op, x)[i];
    SettledAt(e, p);
    var r := SlotOf(t, x, i);
    RootNoLeaf(t, x);
    assert PairUnstruck(t, AtSpine(t, x, r), AtSpine(t, x, []));
    if Normal(y) && IsBin(y, Dual(t)) && Distinct(t, Negated(Operands(Dual(t), y)))
       && forall z <- Negated(Operands(Dual(t), y)) :: z != Unit(t) && z in Operands(t, x) {
      StruckWhenNegated(t, y, x);
      assert false;
    }
  }
}
