/** The operands of a spine, and which of them the comparison and the extraction of common operands find. */
module KconfigOperands {
  import opened KconfigExpr
  import opened KconfigEq
  import opened KconfigSlots
  import opened Options

  /** The operands of a spine, left to right. */
  function Operands(t: Op, e: Expr): (s: seq<Expr>)
    ensures |s| > 0
  {
    if IsBin(e, t) then Operands(t, e.left) + Operands(t, e.right) else [e]
  }

  /** Every operand is kept or becomes the unit. */
  predicate Thinned(t: Op, s: seq<Expr>, s': seq<Expr>) {
    |s'| == |s| && forall i :: 0 <= i < |s| ==> s'[i] == s[i] || s'[i] == Unit(t)
  }

  /** No operand other than the unit equals another one. */
  predicate Distinct(t: Op, s: seq<Expr>) {
    forall i, j :: 0 <= i < |s| && 0 <= j < |s| && i != j && s[i] != Unit(t) ==> !ExprEq(s[i], s[j])
  }

  lemma ThinnedTwice(t: Op, r: seq<Expr>, s: seq<Expr>, u: seq<Expr>)
    requires Thinned(t, r, s) && Thinned(t, s, u)
    ensures Thinned(t, r, u)
  {}

  lemma ThinnedBoth(t: Op, r: seq<Expr>, r': seq<Expr>, s: seq<Expr>, s': seq<Expr>)
    requires Thinned(t, r, r') && Thinned(t, s, s')
    ensures Thinned(t, r + s, r' + s')
  {}

  lemma {:induction false} ElimThins(t: Op, x: Expr, y: Expr)
    ensures Thinned(t, Operands(t, y), Operands(t, ElimSpine(t, x, y).1))
    decreases Size(x) + Size(y)
  {
    hide ExprEq;
    if IsBin(x, t) {
      var y1 := ElimSpine(t, x.left, y).1;
      hide Thinned, Operands;
      ElimThins(t, x.left, y);
      ElimThins(t, x.right, y1);
      ThinnedTwice(t, Operands(t, y), Operands(t, y1), Operands(t, ElimSpine(t, x.right, y1).1));
    } else if IsBin(y, t) {
      var (x1, l) := ElimSpine(t, x, y.left);
      var r := ElimSpine(t, x1, y.right).1;
      hide Thinned;
      ElimThins(t, x, y.left);
      ElimThins(t, x1, y.right);
      ThinnedBoth(t, Operands(t, y.left), Operands(t, l), Operands(t, y.right), Operands(t, r));
    }
  }

  lemma {:induction false} ElimMisses(t: Op, x: Expr, y: Expr)
    requires !IsBin(x, t) && forall z <- Operands(t, y) :: !ExprEq(x, z)
    ensures ElimSpine(t, x, y) == (x, y)
    decreases y
  {
    if IsBin(y, t) {
      ElimMisses(t, x, y.left);
      ElimMisses(t, x, y.right);
    } else {
      assert y in Operands(t, y);
    }
  }

  lemma {:induction false} ElimHits(t: Op, x: Expr, y: Expr, i: nat)
    requires !IsBin(x, t) && !IsYn(x) && i < |Operands(t, y)| && Operands(t, y)[i] == x
    requires forall j :: 0 <= j < i ==> !ExprEq(x, Operands(t, y)[j])
    ensures ElimThinnedAt(t, x, y, i)
    decreases y
  {
    ElimThins(t, x, y);
    if IsBin(y, t) {
      var l, r := Operands(t, y.left), Operands(t, y.right);
      if i < |l| {
        forall j | 0 <= j < i ensures !ExprEq(x, l[j]) {
          assert Operands(t, y)[j] == l[j];
        }
        ElimHits(t, x, y.left, i);
        ElimThins(t, x, y.left);
        ElimThins(t, ElimSpine(t, x, y.left).0, y.right);
      } else {
        forall z <- l ensures !ExprEq(x, z) {
          var j :| 0 <= j < |l| && l[j] == z;
          assert Operands(t, y)[j] == z;
        }
        ElimMisses(t, x, y.left);
        forall j | 0 <= j < i - |l| ensures !ExprEq(x, r[j]) {
          assert Operands(t, y)[|l| + j] == r[j];
        }
        ElimHits(t, x, y.right, i - |l|);
      }
    } else {
      ExprEqReflexive(x);
    }
  }

  predicate ElimThinnedAt(t: Op, x: Expr, y: Expr, i: nat) {
    var s := Operands(t, ElimSpine(t, x, y).1);
    i < |s| && s[i] == Unit(t)
  }

  /** Against a spine with distinct operands, every operand of it that is also one of x is eliminated. */
  lemma {:induction false} ElimAll(t: Op, x: Expr, y: Expr, i: nat)
    requires Distinct(t, Operands(t, y)) && i < |Operands(t, y)|
    requires var z := Operands(t, y)[i]; z == Unit(t) || (z in Operands(t, x) && !IsYn(z))
    ensures ElimThinnedAt(t, x, y, i)
    decreases x
  {
    var ys := Operands(t, y);
    ElimThins(t, x, y);
    if ys[i] == Unit(t) {
    } else if IsBin(x, t) {
      var y1 := ElimSpine(t, x.left, y).1;
      ElimThins(t, x.left, y);
      DistinctThinned(t, ys, Operands(t, y1));
      if ys[i] in Operands(t, x.left) {
        ElimAll(t, x.left, y, i);
      }
      ElimAll(t, x.right, y1, i);
    } else {
      ElimHits(t, x, y, i);
    }
  }

  lemma DistinctThinned(t: Op, s: seq<Expr>, s': seq<Expr>)
    requires Distinct(t, s) && Thinned(t, s, s')
    ensures Distinct(t, s')
  {
    forall i, j | 0 <= i < |s| && 0 <= j < |s| && i != j && s'[i] != Unit(t) ensures !ExprEq(s'[i], s'[j]) {
      assert !ExprEq(s[i], s[j]);
    }
  }

  lemma {:induction false} AllUnits(t: Op, e: Expr)
    requires forall i :: 0 <= i < |Operands(t, e)| ==> Operands(t, e)[i] == Unit(t)
    ensures EliminateYn(e) == Unit(t)
  {
    if IsBin(e, t) {
      var l, r := Operands(t, e.left), Operands(t, e.right);
      forall i | 0 <= i < |l| ensures l[i] == Unit(t) { assert Operands(t, e)[i] == l[i]; }
      forall i | 0 <= i < |r| ensures r[i] == Unit(t) { assert Operands(t, e)[|l| + i] == r[i]; }
      AllUnits(t, e.left);
      AllUnits(t, e.right);
    } else {
      assert Operands(t, e)[0] == e;
    }
  }

  /** A condition that is a conjunction of the parent's conjuncts and at least one other is recognised. */
  lemma ConjunctsRecognised(dep: Expr, base: Expr)
    requires IsBin(dep, AndOp) && Distinct(AndOp, Operands(AndOp, base))
    requires forall z <- Operands(AndOp, base) :: z in Operands(AndOp, dep) && !IsYn(z)
    ensures EliminateEq(dep, base).1 == YES_EXPR
  {
    var y1 := ElimSpine(AndOp, dep, base).1;
    ElimThins(AndOp, dep, base);
    forall i | 0 <= i < |Operands(AndOp, y1)| ensures Operands(AndOp, y1)[i] == YES_EXPR {
      ElimAll(AndOp, dep, base, i);
    }
    AllUnits(AndOp, y1);
    assert Operands(AndOp, y1)[0] == YES_EXPR;
  }

  lemma {:induction false} OperandAt(t: Op, e: Expr, p: Path)
    requires LeafSlot(t, e, p)
    ensures AtSpine(t, e, p) in Operands(t, e)
    ensures Normal(e) ==> Normal(AtSpine(t, e, p))
    decreases |p|
  {
    if p != [] { OperandAt(t, if p[0].L? then e.left else e.right, p[1..]); }
  }

  // ----- operands and slots -----

  lemma SlotBelow(t: Op, e: Expr, d: Dir, p: Path)
    requires IsBin(e, t) && LeafSlot(t, if d.L? then e.left else e.right, p)
    ensures LeafSlot(t, e, [d] + p)
    ensures AtSpine(t, e, [d] + p) == AtSpine(t, if d.L? then e.left else e.right, p)
  {
    assert ([d] + p)[1..] == p;
  }

  /** The slot of the i-th operand. */
  function SlotOf(t: Op, e: Expr, i: nat): (p: Path)
    requires i < |Operands(t, e)|
    ensures LeafSlot(t, e, p) && AtSpine(t, e, p) == Operands(t, e)[i]
  {
    if !IsBin(e, t) then []
    else
      var n := |Operands(t, e.left)|;
      if i < n then
        SlotBelow(t, e, L, SlotOf(t, e.left, i));
        [L] + SlotOf(t, e.left, i)
      else
        SlotBelow(t, e, R, SlotOf(t, e.right, i - n));
        [R] + SlotOf(t, e.right, i - n)
  }

  /** Where a slot leads determines the operand. */
  function IndexOf(t: Op, e: Expr, p: Path): (i: nat)
    requires LeafSlot(t, e, p)
    ensures i < |Operands(t, e)|
  {
    if !IsBin(e, t) then 0
    else if p[0].L? then IndexOf(t, e.left, p[1..])
    else |Operands(t, e.left)| + IndexOf(t, e.right, p[1..])
  }

  lemma SlotStep(t: Op, e: Expr, i: nat)
    requires i < |Operands(t, e)| && IsBin(e, t)
    ensures var n := |Operands(t, e.left)|;
            && |Operands(t, e)| == n + |Operands(t, e.right)|
            && SlotOf(t, e, i) == if i < n then [L] + SlotOf(t, e.left, i) else [R] + SlotOf(t, e.right, i - n)
  {
    hide AtSpine, LeafSlot, Operands;
    OperandsStep(t, e);
  }

  lemma OperandsStep(t: Op, e: Expr)
    requires IsBin(e, t)
    ensures Operands(t, e) == Operands(t, e.left) + Operands(t, e.right)
  {}

  lemma IndexStep(t: Op, e: Expr, d: Dir, p: Path)
    requires IsBin(e, t) && LeafSlot(t, if d.L? then e.left else e.right, p)
    ensures LeafSlot(t, e, [d] + p)
    ensures IndexOf(t, e, [d] + p)
            == if d.L? then IndexOf(t, e.left, p) else |Operands(t, e.left)| + IndexOf(t, e.right, p)
  {
    assert ([d] + p)[1..] == p;
  }

  lemma OneSlot(t: Op, e: Expr)
    requires !IsBin(e, t)
    ensures |Operands(t, e)| == 1 && IndexOf(t, e, SlotOf(t, e, 0)) == 0
  {
    hide AtSpine;
  }

  lemma {:induction false} IndexOfSlot(t: Op, e: Expr, i: nat)
    requires i < |Operands(t, e)|
    ensures IndexOf(t, e, SlotOf(t, e, i)) == i
  {
    hide SlotOf, IndexOf, LeafSlot, Operands, AtSpine;
    if !IsBin(e, t) {
      OneSlot(t, e);
    } else {
      SlotStep(t, e, i);
      var n := |Operands(t, e.left)|;
      if i < n {
        IndexOfSlot(t, e.left, i);
        IndexStep(t, e, L, SlotOf(t, e.left, i));
      } else {
        IndexOfSlot(t, e.right, i - n);
        IndexStep(t, e, R, SlotOf(t, e.right, i - n));
      }
    }
  }

  lemma SlotsDiffer(t: Op, e: Expr, i: nat, j: nat)
    requires i < |Operands(t, e)| && j < |Operands(t, e)| && i != j
    ensures SlotOf(t, e, i) != SlotOf(t, e, j)
  {
    IndexOfSlot(t, e, i);
    IndexOfSlot(t, e, j);
  }

  // ----- what elimination finds -----

  /** An operand that has a copy in y, and every operand of x if they are distinct, is eliminated from x. */
  lemma {:induction false} ElimLeaf(t: Op, x: Expr, y: Expr)
    requires !IsBin(x, t) && !IsYn(x)
    ensures var (x', y') := ElimSpine(t, x, y);
            && (x in Operands(t, y) ==> x' == Unit(t))
            && (x' == x || x' == Unit(t))
            && forall w <- Operands(t, y) :: !ExprEq(x, w) ==> w in Operands(t, y')
    decreases y
  {
    if IsBin(y, t) {
      ElimLeaf(t, x, y.left);
      var (x1, l) := ElimSpine(t, x, y.left);
      if x1 == x {
        ElimLeaf(t, x, y.right);
      } else {
        ElimNothing(t, x1, y.right);
      }
    } else if x == y {
      ExprEqReflexive(x);
    }
  }

  lemma {:induction false} ElimNothing(t: Op, x: Expr, y: Expr)
    requires x == Unit(t)
    ensures ElimSpine(t, x, y) == (x, y)
    decreases y
  {
    if IsBin(y, t) {
      ElimNothing(t, x, y.left);
      ElimNothing(t, x, y.right);
    } else if ExprEq(x, y) {
      UnitEqual(t, y);
    }
  }

  lemma UnitEqual(t: Op, y: Expr)
    requires ExprEq(Unit(t), y)
    ensures y == Unit(t)
  {}

  /** An operand on its own is eliminated against a spine that has it, on either side and whatever the spine. */
  lemma SingleEliminated(x: Expr, y: Expr)
    requires !x.Bin? && !IsYn(x) && y.Bin? && x in Operands(y.op, y)
    ensures EliminateEq(x, y).0 == Unit(y.op) && EliminateEq(y, x).1 == Unit(y.op)
  {
    var t := y.op;
    ElimLeaf(t, x, y);
    var x' := ElimSpine(t, y, x).1;
    ElimThins(t, y, x);
    assert Operands(t, x) == [x];
    ElimAll(t, y, x, 0);
    assert Operands(t, x')[0] == Unit(t) && x' == Unit(t);
  }

  lemma {:induction false} ElimKeeps(t: Op, x: Expr, y: Expr, w: Expr)
    requires w in Operands(t, y) && forall z <- Operands(t, x) :: !IsYn(z) && !ExprEq(z, w)
    ensures w in Operands(t, ElimSpine(t, x, y).1)
    decreases x
  {
    if IsBin(x, t) {
      forall z <- Operands(t, x.left) ensures z in Operands(t, x) {}
      forall z <- Operands(t, x.right) ensures z in Operands(t, x) {}
      ElimKeeps(t, x.left, y, w);
      ElimKeeps(t, x.right, ElimSpine(t, x.left, y).1, w);
    } else {
      assert x in Operands(t, x);
      ElimLeaf(t, x, y);
    }
  }

  lemma {:induction false} ElimAllFound(t: Op, x: Expr, y: Expr)
    requires forall z <- Operands(t, x) :: !IsYn(z) && z in Operands(t, y)
    requires Distinct(t, Operands(t, x))
    ensures forall z <- Operands(t, ElimSpine(t, x, y).0) :: z == Unit(t)
    decreases x
  {
    if IsBin(x, t) {
      var l, r, y1 := Operands(t, x.left), Operands(t, x.right), ElimSpine(t, x.left, y).1;
      DistinctParts(t, l, r);
      forall z <- l ensures !IsYn(z) && z in Operands(t, y) { assert z in l + r; }
      ElimAllFound(t, x.left, y);
      forall z <- r ensures !IsYn(z) && z in Operands(t, y1) {
        assert z in l + r;
        forall u <- l ensures !IsYn(u) && !ExprEq(u, z) { assert u in l + r; }
        ElimKeeps(t, x.left, y, z);
      }
      ElimAllFound(t, x.right, y1);
    } else {
      assert x in Operands(t, x);
      ElimLeaf(t, x, y);
    }
  }

  lemma DistinctParts(t: Op, l: seq<Expr>, r: seq<Expr>)
    requires Distinct(t, l + r) && forall z <- l + r :: z != Unit(t)
    ensures Distinct(t, l) && Distinct(t, r)
    ensures forall u, z :: u in l && z in r ==> !ExprEq(u, z)
  {
    var s := l + r;
    forall i, j | 0 <= i < |l| && 0 <= j < |l| && i != j ensures !ExprEq(l[i], l[j]) {
      assert s[i] == l[i] && s[j] == l[j] && s[i] in s;
    }
    forall i, j | 0 <= i < |r| && 0 <= j < |r| && i != j ensures !ExprEq(r[i], r[j]) {
      assert s[|l| + i] == r[i] && s[|l| + j] == r[j] && s[|l| + i] in s;
    }
    forall u, z | u in l && z in r ensures !ExprEq(u, z) {
      var i :| 0 <= i < |l| && l[i] == u;
      var j :| 0 <= j < |r| && r[j] == z;
      assert s[i] == u && s[|l| + j] == z && s[i] in s;
    }
  }

  /** Spines with the same distinct operands, in any order and grouping, are found equal. */
  lemma PermutedEqual(t: Op, x: Expr, y: Expr)
    requires IsBin(x, t) && IsBin(y, t) && Distinct(t, Operands(t, x)) && Distinct(t, Operands(t, y))
    requires forall z <- Operands(t, x) :: !IsYn(z) && z in Operands(t, y)
    requires forall z <- Operands(t, y) :: !IsYn(z) && z in Operands(t, x)
    ensures ExprEq(x, y)
  {
    hide ElimSpine, ExprEq, EliminateEq;
    EqualByUnits(t, x, y);
    ElimAllFound(t, x, y);
    AllUnitsIn(t, ElimSpine(t, x, y).0);
    forall i | 0 <= i < |Operands(t, y)| ensures ElimThinnedAt(t, x, y, i) { ElimAll(t, x, y, i); }
    ElimThins(t, x, y);
    AllThinned(t, x, y);
  }

  lemma EqualByUnits(t: Op, x: Expr, y: Expr)
    requires IsBin(x, t) && IsBin(y, t)
    ensures var (x1, y1) := ElimSpine(t, x, y);
            EliminateYn(x1) == Unit(t) == EliminateYn(y1) ==> ExprEq(x, y)
  {
    var (x1, y1) := ElimSpine(t, x, y);
    SpineStays(t, x, y);
    assert EliminateEq(x, y) == (EliminateYn(x1), EliminateYn(y1));
  }

  lemma {:induction false} SpineStays(t: Op, x: Expr, y: Expr)
    ensures IsBin(x, t) ==> IsBin(ElimSpine(t, x, y).0, t)
    ensures IsBin(y, t) ==> IsBin(ElimSpine(t, x, y).1, t)
    decreases x
  {
    if IsBin(x, t) {
      SpineStays(t, x.left, y);
      SpineStays(t, x.right, ElimSpine(t, x.left, y).1);
    }
  }

  lemma AllUnitsIn(t: Op, e: Expr)
    requires forall z <- Operands(t, e) :: z == Unit(t)
    ensures EliminateYn(e) == Unit(t)
  {
    forall i | 0 <= i < |Operands(t, e)| ensures Operands(t, e)[i] == Unit(t) {
      assert Operands(t, e)[i] in Operands(t, e);
    }
    AllUnits(t, e);
  }

  lemma AllThinned(t: Op, x: Expr, y: Expr)
    requires Thinned(t, Operands(t, y), Operands(t, ElimSpine(t, x, y).1))
    requires forall i :: 0 <= i < |Operands(t, y)| ==> ElimThinnedAt(t, x, y, i)
    ensures EliminateYn(ElimSpine(t, x, y).1) == Unit(t)
  {
    hide ElimSpine;
    var y1 := ElimSpine(t, x, y).1;
    forall i | 0 <= i < |Operands(t, y1)| ensures Operands(t, y1)[i] == Unit(t) {
      assert ElimThinnedAt(t, x, y, i);
    }
    AllUnits(t, y1);
  }

  // ----- what extraction finds -----

  lemma {:induction false} ExtractGrows(t: Op, acc: Option<Expr>, x: Expr, y: Expr)
    requires acc.Some?
    ensures ExtractEqRec(t, acc, x, y).0.Some?
    decreases Size(x) + Size(y)
  {
    if IsBin(x, t) {
      var (acc1, l, y1) := ExtractEqRec(t, acc, x.left, y);
      ExtractGrows(t, acc, x.left, y);
      ExtractGrows(t, acc1, x.right, y1);
    } else if IsBin(y, t) {
      var (acc1, x1, l) := ExtractEqRec(t, acc, x, y.left);
      ExtractGrows(t, acc, x, y.left);
      ExtractGrows(t, acc1, x1, y.right);
    }
  }

  lemma {:induction false} ExtractLeaf(t: Op, acc: Option<Expr>, x: Expr, y: Expr)
    requires !IsBin(x, t)
    ensures var (acc', x', y') := ExtractEqRec(t, acc, x, y);
            && (x in Operands(t, y) ==> x' == Unit(t) && acc'.Some?)
            && (x' == x || (x' == Unit(t) && acc'.Some?))
    decreases y
  {
    if IsBin(y, t) {
      var (acc1, x1, l) := ExtractEqRec(t, acc, x, y.left);
      ExtractLeaf(t, acc, x, y.left);
      ExtractLeaf(t, acc1, x1, y.right);
      if acc1.Some? { ExtractGrows(t, acc1, x1, y.right); }
    } else if x == y {
      ExprEqReflexive(x);
    }
  }

  lemma {:induction false} ExtractLeafKeeps(t: Op, acc: Option<Expr>, x: Expr, y: Expr, w: Expr)
    requires !IsBin(x, t) && w in Operands(t, y) && (!ExprEq(x, w) || x == Unit(t))
    ensures w in Operands(t, ExtractEqRec(t, acc, x, y).2)
    decreases y
  {
    if IsBin(y, t) {
      var (acc1, x1, l) := ExtractEqRec(t, acc, x, y.left);
      ExtractLeaf(t, acc, x, y.left);
      if w in Operands(t, y.left) {
        ExtractLeafKeeps(t, acc, x, y.left, w);
      } else {
        ExtractLeafKeeps(t, acc1, x1, y.right, w);
      }
    } else if ExprEq(x, y) {
      UnitEqual(t, y);
    }
  }

  lemma {:induction false} ExtractKeeps(t: Op, acc: Option<Expr>, x: Expr, y: Expr, w: Expr)
    requires w in Operands(t, y) && forall z <- Operands(t, x) :: !ExprEq(z, w)
    ensures w in Operands(t, ExtractEqRec(t, acc, x, y).2)
    decreases x
  {
    if IsBin(x, t) {
      forall z <- Operands(t, x.left) ensures z in Operands(t, x) {}
      forall z <- Operands(t, x.right) ensures z in Operands(t, x) {}
      var (acc1, l, y1) := ExtractEqRec(t, acc, x.left, y);
      ExtractKeeps(t, acc, x.left, y, w);
      ExtractKeeps(t, acc1, x.right, y1, w);
    } else {
      assert x in Operands(t, x);
      ExtractLeafKeeps(t, acc, x, y, w);
    }
  }

  lemma {:induction false} ExtractAllFound(t: Op, acc: Option<Expr>, x: Expr, y: Expr)
    requires forall z <- Operands(t, x) :: z != Unit(t) && z in Operands(t, y)
    requires Distinct(t, Operands(t, x))
    ensures var (acc', x', _) := ExtractEqRec(t, acc, x, y);
            acc'.Some? && forall z <- Operands(t, x') :: z == Unit(t)
    decreases x
  {
    if IsBin(x, t) {
      var l, r := Operands(t, x.left), Operands(t, x.right);
      var (acc1, x1, y1) := ExtractEqRec(t, acc, x.left, y);
      DistinctParts(t, l, r);
      forall z <- l ensures z != Unit(t) && z in Operands(t, y) { assert z in l + r; }
      ExtractAllFound(t, acc, x.left, y);
      forall z <- r ensures z != Unit(t) && z in Operands(t, y1) {
        assert z in l + r;
        ExtractKeeps(t, acc, x.left, y, z);
      }
      ExtractAllFound(t, acc1, x.right, y1);
    } else {
      assert x in Operands(t, x);
      ExtractLeaf(t, acc, x, y);
    }
  }

  /** When all operands of x, distinct and none the unit, are among those of y, nothing but the unit is left of x. */
  lemma ExtractFound(t: Op, x: Expr, y: Expr)
    requires forall z <- Operands(t, x) :: z != Unit(t) && z in Operands(t, y)
    requires Distinct(t, Operands(t, x))
    ensures ExtractEq(t, x, y).1 == Unit(t)
  {
    ExtractAllFound(t, None, x, y);
    hide ExtractEqRec;
    AllUnitsIn(t, ExtractEqRec(t, None, x, y).1);
  }
}
