/** expr_eliminate_dups on slots: what each step of the two passes over all pairs of operands does to the tree it is
    stored in, and to the value of that tree. */
module KconfigDups {
  import opened KconfigExpr
  import opened KconfigEq
  import opened KconfigSlots
  import opened Options

  // ----- first pass: what one call does to the spine it works in -----

  /** The spine x has become y: same value under every typed assignment, no larger, and either untouched
      or, when pairs were joined, left with a constant operand for constant folding to remove. */
  ghost predicate JoinedInto(t: Op, x: Expr, y: Expr, changed: bool) {
    && SameSpine(t, x, y)
    && Size(y) <= Size(x)
    && (forall a: Assignment {:trigger Eval(y, a)} :: Typed(a) ==> Eval(y, a) == Eval(x, a))
    && (Normal(x) ==> Normal(y))
    && (if changed then !NoYnOperand(y) else y == x)
  }

  /** No pair of distinct operands below the two slots joins, and the left ones are themselves joined out. */
  ghost predicate PairsJoined(t: Op, x: Expr, q1: Path, q2: Path)
    decreases Size(x), 1
  {
    forall r1: Path, r2: Path {:trigger LeafSlot(t, x, r1), LeafSlot(t, x, r2)} ::
      LeafSlot(t, x, r1) && LeafSlot(t, x, r2) && q1 <= r1 && q2 <= r2 && r1 != r2 && r1 != [] ==>
        PairJoined(t, AtSpine(t, x, r1), AtSpine(t, x, r2))
  }

  ghost predicate PairJoined(t: Op, y: Expr, z: Expr)
    decreases Size(y), 2
  {
    (y.Bin? ==> PairsJoined(y.op, y, [], [])) && Join(t, y, z).None?
  }

  lemma JoinedSplitLeft(t: Op, x: Expr, q1: Path, q2: Path)
    requires InSpine(t, x, q1) && IsBin(AtSpine(t, x, q1), t)
    ensures PairsJoined(t, x, q1, q2) <==> PairsJoined(t, x, q1 + [L], q2) && PairsJoined(t, x, q1 + [R], q2)
  {
    forall r: Path | LeafSlot(t, x, r) && q1 <= r ensures q1 + [L] <= r || q1 + [R] <= r {
      PrefixExtends(q1, r);
    }
  }

  lemma JoinedSplitRight(t: Op, x: Expr, q1: Path, q2: Path)
    requires InSpine(t, x, q2) && IsBin(AtSpine(t, x, q2), t)
    ensures PairsJoined(t, x, q1, q2) <==> PairsJoined(t, x, q1, q2 + [L]) && PairsJoined(t, x, q1, q2 + [R])
  {
    forall r: Path | LeafSlot(t, x, r) && q2 <= r ensures q2 + [L] <= r || q2 + [R] <= r {
      PrefixExtends(q2, r);
    }
  }

  lemma PrefixExtends(q: Path, r: Path)
    requires q <= r && q != r
    ensures q + [L] <= r || q + [R] <= r
  {
    assert r == q + r[|q|..];
    assert r[|q|..] == [r[|q|]] + r[|q| + 1..];
    assert r == (q + [r[|q|]]) + r[|q| + 1..];
    match r[|q|] case L => case R =>
  }

  lemma JoinedAtLeaves(t: Op, x: Expr, q1: Path, q2: Path)
    requires LeafSlot(t, x, q1) && LeafSlot(t, x, q2) && q1 != q2
    ensures PairsJoined(t, x, q1, q2) <==> PairJoined(t, AtSpine(t, x, q1), AtSpine(t, x, q2))
  {
    forall r: Path, q: Path | LeafSlot(t, x, q) && LeafSlot(t, x, r) && q <= r ensures r == q {
      if r != q { LeavesApart(t, x, q, r); }
    }
    assert q1 != [];
  }

  lemma JoinedSameLeaf(t: Op, x: Expr, q: Path)
    requires LeafSlot(t, x, q)
    ensures PairsJoined(t, x, q, q)
  {
    forall r: Path | LeafSlot(t, x, r) && q <= r ensures r == q {
      if r != q { LeavesApart(t, x, q, r); }
    }
  }

  lemma JoinedIntoTwice(t: Op, x: Expr, y: Expr, z: Expr, c1: bool, c2: bool)
    requires JoinedInto(t, x, y, c1) && JoinedInto(t, y, z, c2)
    ensures JoinedInto(t, x, z, c1 || c2)
  {
    SameSpineTrans(t, x, y, z);
    forall a: Assignment | Typed(a) ensures Eval(z, a) == Eval(x, a) {
      assert Eval(y, a) == Eval(x, a);
    }
  }

  /** Joining inside an operand joins the spine around it. */
  lemma NestedJoinedInto(t: Op, x: Expr, q: Path, y: Expr, changed: bool)
    requires LeafSlot(t, x, q) && IsSlot(x, q) && q != []
    requires At(x, q).Bin? && JoinedInto(At(x, q).op, At(x, q), y, changed)
    ensures JoinedInto(t, x, Put(x, q, y), changed)
  {
    PutKeepsSpine(t, x, q, y);
    PutPut(x, q, y, y);
    if Normal(x) { PutNormal(x, q, y); }
    if changed { YnOperandAbove(Put(x, q, y), q); }
    forall a: Assignment | Typed(a) ensures Eval(Put(x, q, y), a) == Eval(x, a) {
      PutSameValue(x, q, y, a);
    }
  }

  /** The tree after the pair at the two operands has been replaced by a unit and its join. */
  function JoinPair(t: Op, x: Expr, q1: Path, q2: Path, j: Expr): Expr
    requires IsSlot(x, q1) && IsSlot(Put(x, q1, Unit(t)), q2)
  {
    Put(Put(x, q1, Unit(t)), q2, j)
  }

  lemma JoinPairInto(t: Op, x: Expr, q1: Path, q2: Path)
    requires LeafSlot(t, x, q1) && LeafSlot(t, x, q2) && q1 != q2
    requires IsSlot(x, q1) && IsSlot(x, q2) && Join(t, At(x, q1), At(x, q2)).Some?
    ensures IsSlot(Put(x, q1, Unit(t)), q2) && At(Put(x, q1, Unit(t)), q2) == At(x, q2)
    ensures JoinedInto(t, x, JoinPair(t, x, q1, q2, Join(t, At(x, q1), At(x, q2)).value), true)
  {
    var u, j := Unit(t), Join(t, At(x, q1), At(x, q2)).value;
    LeavesApart(t, x, q1, q2);
    AtApart(x, q1, q2, u);
    JoinShape(t, At(x, q1), At(x, q2));
    PutKeepsSpine(t, x, q1, u);
    var y := Put(x, q1, u);
    SameSpineSlot(t, x, y, q2);
    PutKeepsSpine(t, y, q2, j);
    var z := Put(y, q2, j);
    SameSpineTrans(t, x, y, z);
    if Normal(x) { PutNormal(x, q1, u); PutNormal(x, q2, u); PutNormal(y, q2, j); }
    AtApart(y, q2, q1, j);
    YnOperandAbove(z, q1);
    forall a: Assignment | Typed(a) ensures Eval(z, a) == Eval(x, a) {
      JoinExact(t, At(x, q1), At(x, q2), a);
      PairReplaced(t, x, q1, q2, u, j, a);
    }
  }

  // ----- first pass, seen from the root of the tree -----

  /** Slots p0 + q1 and p0 + q2 lie in the t-spine whose top is the slot p0. */
  predicate InSpineAt(t: Op, e: Expr, p0: Path, q1: Path, q2: Path) {
    IsSlot(e, p0) && InSpine(t, At(e, p0), q1) && InSpine(t, At(e, p0), q2)
  }

  /** The termination measure of a call on two slots of one spine. */
  ghost function Work(t: Op, e: Expr, p0: Path, q1: Path, q2: Path): nat
    requires InSpineAt(t, e, p0, q1, q2)
  {
    SpineSize(t, AtSpine(t, At(e, p0), q1)) + SpineSize(t, AtSpine(t, At(e, p0), q2))
  }

  /** The slots name the nodes they are meant to. */
  lemma SpineAt(t: Op, e: Expr, p0: Path, q1: Path, q2: Path)
    requires InSpineAt(t, e, p0, q1, q2)
    ensures IsSlot(e, p0 + q1) && At(e, p0 + q1) == AtSpine(t, At(e, p0), q1)
    ensures IsSlot(e, p0 + q2) && At(e, p0 + q2) == AtSpine(t, At(e, p0), q2)
    ensures !IsBin(At(e, p0 + q1), t) && p0 + q1 != p0 + q2 ==>
              && q1 != q2 && q1 != [] && LeafSlot(t, At(e, p0), q1) && Size(At(e, p0 + q1)) < Size(At(e, p0))
              && (!IsBin(At(e, p0 + q2), t) ==> LeafSlot(t, At(e, p0), q2))
  {
    var y, z := AtSpine(t, At(e, p0), q1), AtSpine(t, At(e, p0), q2);
    SlotAppend(e, p0, q1);
    SlotAppend(e, p0, q2);
  }

  lemma ChildSlots(t: Op, x: Expr, q: Path)
    requires InSpine(t, x, q) && IsBin(AtSpine(t, x, q), t)
    ensures InSpine(t, x, q + [L]) && SpineSize(t, AtSpine(t, x, q + [L])) < SpineSize(t, AtSpine(t, x, q))
    ensures InSpine(t, x, q + [R]) && SpineSize(t, AtSpine(t, x, q + [R])) < SpineSize(t, AtSpine(t, x, q))
  {
    SpineChildren(t, x, q);
  }

  lemma OperandTop(t: Op, e: Expr, p: Path)
    requires IsSlot(e, p)
    ensures InSpineAt(t, e, p, [], [])
  {}

  lemma AppendAppend(p: Path, q: Path, d: Dir)
    ensures p + q + [d] == p + (q + [d])
  {}

  /** The first slot may be moved to the children of its node, and so may the second. */
  lemma LeftSlotChildren(t: Op, e: Expr, p0: Path, q1: Path, q2: Path)
    requires InSpineAt(t, e, p0, q1, q2) && IsBin(AtSpine(t, At(e, p0), q1), t)
    ensures InSpineAt(t, e, p0, q1 + [L], q2) && Work(t, e, p0, q1 + [L], q2) < Work(t, e, p0, q1, q2)
    ensures InSpineAt(t, e, p0, q1 + [R], q2) && Work(t, e, p0, q1 + [R], q2) < Work(t, e, p0, q1, q2)
    ensures p0 + q1 + [L] == p0 + (q1 + [L]) && p0 + q1 + [R] == p0 + (q1 + [R])
  {
    ChildSlots(t, At(e, p0), q1);
    AppendAppend(p0, q1, L);
    AppendAppend(p0, q1, R);
  }

  lemma RightSlotChildren(t: Op, e: Expr, p0: Path, q1: Path, q2: Path)
    requires InSpineAt(t, e, p0, q1, q2) && IsBin(AtSpine(t, At(e, p0), q2), t)
    ensures InSpineAt(t, e, p0, q1, q2 + [L]) && Work(t, e, p0, q1, q2 + [L]) < Work(t, e, p0, q1, q2)
    ensures InSpineAt(t, e, p0, q1, q2 + [R]) && Work(t, e, p0, q1, q2 + [R]) < Work(t, e, p0, q1, q2)
    ensures p0 + q2 + [L] == p0 + (q2 + [L]) && p0 + q2 + [R] == p0 + (q2 + [R])
  {
    ChildSlots(t, At(e, p0), q2);
    AppendAppend(p0, q2, L);
    AppendAppend(p0, q2, R);
  }

  /** Going from e to e', the pass over the operands below the two slots counted `count` rewrites: only the
      spine at p0 changed, it was joined, and nothing was counted exactly when no pair joins. */
  ghost predicate Joined(t: Op, e: Expr, e': Expr, p0: Path, q1: Path, q2: Path, count: int) {
    && InSpineAt(t, e, p0, q1, q2)
    && IsSlot(e', p0) && e' == Put(e, p0, At(e', p0))
    && count >= 0
    && JoinedInto(t, At(e, p0), At(e', p0), count > 0)
    && (count == 0 <==> PairsJoined(t, At(e, p0), q1, q2))
  }

  lemma JoinedKeepsSlots(t: Op, e: Expr, e': Expr, p0: Path, q1: Path, q2: Path, r1: Path, r2: Path, count: int)
    requires Joined(t, e, e', p0, q1, q2, count) && InSpineAt(t, e, p0, r1, r2)
    ensures InSpineAt(t, e', p0, r1, r2) && Work(t, e', p0, r1, r2) == Work(t, e, p0, r1, r2)
    ensures Size(At(e', p0)) <= Size(At(e, p0))
  {
    SameSpineSlot(t, At(e, p0), At(e', p0), r1);
    SameSpineSlot(t, At(e, p0), At(e', p0), r2);
  }

  lemma JoinedInSequence(t: Op, e: Expr, e1: Expr, e2: Expr, p0: Path, q1: Path, q2: Path, r1: Path, r2: Path,
                         s1: Path, s2: Path, c1: int, c2: int)
    requires Joined(t, e, e1, p0, r1, r2, c1) && Joined(t, e1, e2, p0, s1, s2, c2)
    requires InSpineAt(t, e, p0, q1, q2)
    requires var x := At(e, p0); PairsJoined(t, x, q1, q2) <==> PairsJoined(t, x, r1, r2) && PairsJoined(t, x, s1, s2)
    ensures Joined(t, e, e2, p0, q1, q2, c1 + c2)
  {
    var x, y, z := At(e, p0), At(e1, p0), At(e2, p0);
    PutPut(e, p0, y, z);
    JoinedIntoTwice(t, x, y, z, c1 > 0, c2 > 0);
  }

  lemma JoinedLeftThenRight(t: Op, e: Expr, e1: Expr, e2: Expr, p0: Path, q1: Path, q2: Path, c1: int, c2: int)
    requires InSpineAt(t, e, p0, q1, q2) && IsBin(AtSpine(t, At(e, p0), q1), t)
    requires Joined(t, e, e1, p0, q1 + [L], q2, c1) && Joined(t, e1, e2, p0, q1 + [R], q2, c2)
    ensures Joined(t, e, e2, p0, q1, q2, c1 + c2)
  {
    JoinedSplitLeft(t, At(e, p0), q1, q2);
    JoinedInSequence(t, e, e1, e2, p0, q1, q2, q1 + [L], q2, q1 + [R], q2, c1, c2);
  }

  lemma JoinedWithLeftThenRight(t: Op, e: Expr, e1: Expr, e2: Expr, p0: Path, q1: Path, q2: Path, c1: int, c2: int)
    requires InSpineAt(t, e, p0, q1, q2) && IsBin(AtSpine(t, At(e, p0), q2), t)
    requires Joined(t, e, e1, p0, q1, q2 + [L], c1) && Joined(t, e1, e2, p0, q1, q2 + [R], c2)
    ensures Joined(t, e, e2, p0, q1, q2, c1 + c2)
  {
    JoinedSplitRight(t, At(e, p0), q1, q2);
    JoinedInSequence(t, e, e1, e2, p0, q1, q2, q1, q2 + [L], q1, q2 + [R], c1, c2);
  }

  lemma JoinedNothing(t: Op, e: Expr, p0: Path, q: Path)
    requires InSpineAt(t, e, p0, q, q) && !IsBin(AtSpine(t, At(e, p0), q), t)
    ensures Joined(t, e, e, p0, q, q, 0)
  {
    PutPut(e, p0, e, e);
    SameSpineRefl(t, At(e, p0));
    JoinedSameLeaf(t, At(e, p0), q);
  }

  /** The pass inside an operand, seen from the spine that holds it. */
  lemma JoinedOperand(t: Op, e: Expr, e1: Expr, p0: Path, q1: Path, q2: Path, c: int)
    requires InSpineAt(t, e, p0, q1, q2) && q1 != q2
    requires LeafSlot(t, At(e, p0), q1) && LeafSlot(t, At(e, p0), q2)
    requires IsSlot(e, p0 + q1) && IsSlot(e, p0 + q2)
    requires var y := At(e, p0 + q1);
             if y.Bin? then Joined(y.op, e, e1, p0 + q1, [], [], c) else e1 == e && c == 0
    ensures InSpineAt(t, e1, p0, q1, q2) && LeafSlot(t, At(e1, p0), q1) && LeafSlot(t, At(e1, p0), q2)
    ensures e1 == Put(e, p0, At(e1, p0)) && JoinedInto(t, At(e, p0), At(e1, p0), c > 0)
    ensures IsSlot(e1, p0 + q2) && At(e1, p0 + q2) == At(e, p0 + q2)
  {
    var x, y := At(e, p0), At(e, p0 + q1);
    SlotAppend(e, p0, q1);
    SlotAppend(e, p0, q2);
    SameSpineRefl(t, x);
    PutPut(e, p0, x, x);
    if y.Bin? {
      var y1 := At(e1, p0 + q1);
      var x1 := Put(x, q1, y1);
      assert e1 == Put(e, p0, x1);
      LeavesApart(t, x, q1, q2);
      NestedJoinedInto(t, x, q1, y1, c > 0);
      SameSpineSlot(t, x, x1, q1);
      SameSpineSlot(t, x, x1, q2);
      AtApart(x, q1, q2, y1);
      SlotAppend(e1, p0, q2);
    }
  }

  /** Storing the unit and the join through the two slots. */
  lemma JoinedPair(t: Op, e: Expr, p0: Path, q1: Path, q2: Path)
    requires InSpineAt(t, e, p0, q1, q2) && q1 != q2
    requires LeafSlot(t, At(e, p0), q1) && LeafSlot(t, At(e, p0), q2)
    requires IsSlot(e, p0 + q1) && IsSlot(e, p0 + q2)
    requires Join(t, At(e, p0 + q1), At(e, p0 + q2)).Some?
    ensures IsSlot(Put(e, p0 + q1, Unit(t)), p0 + q2)
    ensures var e' := Put(Put(e, p0 + q1, Unit(t)), p0 + q2, Join(t, At(e, p0 + q1), At(e, p0 + q2)).value);
            IsSlot(e', p0) && e' == Put(e, p0, At(e', p0)) && JoinedInto(t, At(e, p0), At(e', p0), true)
  {
    var x, u := At(e, p0), Unit(t);
    var j := Join(t, At(e, p0 + q1), At(e, p0 + q2)).value;
    SlotAppend(e, p0, q1);
    SlotAppend(e, p0, q2);
    JoinPairInto(t, x, q1, q2);
    var x1 := Put(x, q1, u);
    var e1 := Put(e, p0 + q1, u);
    assert e1 == Put(e, p0, x1);
    SlotAppend(e1, p0, q2);
    PutPut(e, p0, x1, Put(x1, q2, j));
    assert Put(e1, p0 + q2, j) == Put(e, p0, Put(x1, q2, j));
  }

  /** What the last stretch of the pass has done once both slots name distinct operands. */
  lemma JoinedLeafPair(t: Op, e: Expr, e1: Expr, p0: Path, q1: Path, q2: Path, c: int)
    requires InSpineAt(t, e, p0, q1, q2) && q1 != q2
    requires LeafSlot(t, At(e, p0), q1) && LeafSlot(t, At(e, p0), q2)
    requires IsSlot(e, p0 + q1) && IsSlot(e, p0 + q2) && IsSlot(e1, p0 + q1)
    requires var y := At(e, p0 + q1);
             if y.Bin? then Joined(y.op, e, e1, p0 + q1, [], [], c) else e1 == e && c == 0
    ensures IsSlot(e1, p0 + q2) && IsSlot(Put(e1, p0 + q1, Unit(t)), p0 + q2)
    ensures var j := Join(t, At(e1, p0 + q1), At(e1, p0 + q2));
            if j.None? then Joined(t, e, e1, p0, q1, q2, c)
            else Joined(t, e, Put(Put(e1, p0 + q1, Unit(t)), p0 + q2, j.value), p0, q1, q2, c + 1)
  {
    JoinedOperand(t, e, e1, p0, q1, q2, c);
    JoinedAtLeaves(t, At(e, p0), q1, q2);
    SlotAppend(e, p0, q1);
    SlotAppend(e, p0, q2);
    var j := Join(t, At(e1, p0 + q1), At(e1, p0 + q2));
    if j.None? {
      StorableAt(e1, p0, q1, q2, t);
    } else {
      JoinedPair(t, e1, p0, q1, q2);
      var e2 := Put(Put(e1, p0 + q1, Unit(t)), p0 + q2, j.value);
      PutPut(e, p0, At(e1, p0), At(e2, p0));
      JoinedIntoTwice(t, At(e, p0), At(e1, p0), At(e2, p0), c > 0, true);
    }
  }

  lemma ApartBelow(p0: Path, q1: Path, q2: Path)
    requires Apart(q1, q2)
    ensures Apart(p0 + q1, p0 + q2)
  {
    assert (p0 + q1)[|p0|..] == q1 && (p0 + q2)[|p0|..] == q2;
    assert forall p: Path, q: Path :: p0 + p <= p0 + q ==> (p0 + p)[|p0|..] <= (p0 + q)[|p0|..];
  }

  lemma StorableAt(e: Expr, p0: Path, q1: Path, q2: Path, t: Op)
    requires InSpineAt(t, e, p0, q1, q2) && q1 != q2
    requires LeafSlot(t, At(e, p0), q1) && LeafSlot(t, At(e, p0), q2)
    requires IsSlot(e, p0 + q1) && IsSlot(e, p0 + q2)
    ensures IsSlot(Put(e, p0 + q1, Unit(t)), p0 + q2)
  {
    LeavesApart(t, At(e, p0), q1, q2);
    ApartBelow(p0, q1, q2);
    AtApart(e, p0 + q1, p0 + q2, Unit(t));
  }

  // ----- second pass -----

  /** The operand x may be struck against y: every operand of its negation is among the operands of y. */
  predicate Struck(t: Op, x: Expr, y: Expr) {
    ExtractEq(t, Transform(Not(x)), y).1 == Unit(t)
  }

  /** An AND of x and y struck is never y, an OR never n; so striking changes the value exactly when the
      spine that holds both is worth m. */
  lemma StruckExactlyMod(t: Op, e: Expr, q1: Path, q2: Path, a: Assignment)
    requires Typed(a) && InSpine(t, e, q1) && InSpine(t, e, q2) && IsSlot(e, q1)
    requires Struck(t, AtSpine(t, e, q1), AtSpine(t, e, q2))
    ensures Eval(Put(e, q1, Zero(t)), a) == Eval(Zero(t), a)
    ensures Eval(Put(e, q1, Zero(t)), a) == Eval(e, a) <==> Eval(e, a) != MOD
  {
    hide Typed, Combine, Transform, ExtractEq, Put, AtSpine, Zero, Unit;
    var x, y := AtSpine(t, e, q1), AtSpine(t, e, q2);
    ExtractEqExact(t, Transform(Not(x)), y, a);
    TransformExact(Not(x), a);
    var y' := ExtractEq(t, Transform(Not(x)), y).2;
    var c := OptEval(t, ExtractEq(t, Transform(Not(x)), y).0, a);
    UnitValue(t, c, a);
    Absorbed(t, e, q1, a);
    Absorbed(t, e, q2, a);
    PullOut(t, e, q1, Zero(t), a);
    ZeroValue(t, Eval(Put(e, q1, Unit(t)), a), a);
    StruckValues(t, Eval(e, a), Eval(x, a), Eval(y', a), a);
  }

  lemma StruckValues(t: Op, v: Tri, x: Tri, y: Tri, a: Assignment)
    requires Typed(a) && Combine(t, v, x) == v == Combine(t, v, Combine(t, y, 2 - x))
    ensures Eval(Zero(t), a) == v <==> v != MOD
  {}

  /** `(x || y) && (!x && !y)` */
  function Contradiction(x: Symbol, y: Symbol): Expr {
    Bin(AndOp, Bin(OrOp, Sym(x), Sym(y)), Bin(AndOp, Not(Sym(x)), Not(Sym(y))))
  }

  lemma ContradictionStruck(x: Symbol, y: Symbol)
    requires !x.isConst && !y.isConst && x != y
    ensures Struck(AndOp, Contradiction(x, y).left, Contradiction(x, y).right)
  {
    var nx, ny := Not(Sym(x)), Not(Sym(y));
    var n := Bin(AndOp, nx, ny);
    PushedThrough(OrOp, Sym(x), Sym(y));
    assert Transform(nx) == nx && Transform(ny) == ny;
    assert !ExprEq(Sym(x), Sym(y));
    assert !ExprEq(nx, ny);
    ExprEqReflexive(nx);
    ExprEqReflexive(ny);
    assert ExtractEqRec(AndOp, None, nx, nx) == (Some(nx), YES_EXPR, YES_EXPR);
    assert ExtractEqRec(AndOp, Some(nx), YES_EXPR, ny) == (Some(nx), YES_EXPR, ny);
    assert ExtractEqRec(AndOp, None, nx, n) == (Some(nx), YES_EXPR, Bin(AndOp, YES_EXPR, ny));
    assert ExtractEqRec(AndOp, Some(nx), ny, YES_EXPR) == (Some(nx), ny, YES_EXPR);
    assert ExtractEqRec(AndOp, Some(nx), ny, ny) == (Some(n), YES_EXPR, YES_EXPR);
    assert ExtractEqRec(AndOp, Some(nx), ny, Bin(AndOp, YES_EXPR, ny))
        == (Some(n), YES_EXPR, Bin(AndOp, YES_EXPR, YES_EXPR));
    assert ExtractEqRec(AndOp, None, n, n) == (Some(n), Bin(AndOp, YES_EXPR, YES_EXPR), Bin(AndOp, YES_EXPR, YES_EXPR));
  }

  /** A strike that changes a value: with x worth m and y worth n or m, the tree is worth m and is struck to n. */
  lemma StrikeSharpens(x: Symbol, y: Symbol, a: Assignment)
    requires Typed(a) && !x.isConst && !y.isConst && x != y && a.tri(x) == MOD && a.tri(y) != YES
    ensures var e := Contradiction(x, y);
            && InSpine(AndOp, e, [L]) && InSpine(AndOp, e, [R]) && LeafSlot(AndOp, e, [L]) && IsSlot(e, [L])
            && Struck(AndOp, AtSpine(AndOp, e, [L]), AtSpine(AndOp, e, [R])) && !Settled(e)
            && Eval(e, a) == MOD && Eval(Put(e, [L], Zero(AndOp)), a) == NO
  {
    var e := Contradiction(x, y);
    ContradictionStruck(x, y);
    assert [L][1..] == [] && [R][1..] == [];
    assert InSpine(AndOp, e.left, []) && InSpine(AndOp, e.right, []);
    assert Eval(e.left, a) == MOD && Eval(e.right, a) == MOD by {
      assert Eval(Not(Sym(x)), a) == MOD;
    }
    StruckExactlyMod(AndOp, e, [L], [R], a);
    NotUnstruck(AndOp, e, [L], [R]);
  }

  lemma NotUnstruck(t: Op, e: Expr, r1: Path, r2: Path)
    requires LeafSlot(t, e, r1) && InSpine(t, e, r2) && r1 != r2 && r1 != []
    requires AtSpine(t, e, r1).Bin? && Struck(t, AtSpine(t, e, r1), AtSpine(t, e, r2))
    ensures !PairsUnstruck(t, e, [], []) && IsBin(e, t)
  {
    assert !PairUnstruck(t, AtSpine(t, e, r1), AtSpine(t, e, r2));
  }

  /** The spine x has become y: only values of m were changed, and unless untouched it is smaller. */
  ghost predicate StruckInto(t: Op, x: Expr, y: Expr, changed: bool) {
    && SameSpine(t, x, y)
    && (forall a: Assignment {:trigger Eval(y, a)} :: Typed(a) ==> Refines(Eval(x, a), Eval(y, a)))
    && (Normal(x) ==> Normal(y))
    && (if changed then Size(y) < Size(x) else y == x)
  }

  /** No operand below the first slot can be struck against a node or operand below the second. */
  ghost predicate PairsUnstruck(t: Op, x: Expr, q1: Path, q2: Path)
    decreases Size(x), 1
  {
    forall r1: Path, r2: Path {:trigger LeafSlot(t, x, r1), InSpine(t, x, r2)} ::
      LeafSlot(t, x, r1) && InSpine(t, x, r2) && q1 <= r1 && q2 <= r2 && r1 != r2 && r1 != [] ==>
        PairUnstruck(t, AtSpine(t, x, r1), AtSpine(t, x, r2))
  }

  ghost predicate PairUnstruck(t: Op, y: Expr, z: Expr)
    decreases Size(y), 2
  {
    y.Bin? ==> PairsUnstruck(y.op, y, [], []) && !Struck(t, y, z)
  }

  ghost predicate Swept(t: Op, e: Expr, e': Expr, p0: Path, q1: Path, q2: Path, count: int) {
    && InSpineAt(t, e, p0, q1, q2)
    && IsSlot(e', p0) && e' == Put(e, p0, At(e', p0))
    && count >= 0
    && StruckInto(t, At(e, p0), At(e', p0), count > 0)
    && (count == 0 <==> PairsUnstruck(t, At(e, p0), q1, q2))
  }

  lemma StruckIntoTwice(t: Op, x: Expr, y: Expr, z: Expr, c1: bool, c2: bool)
    requires StruckInto(t, x, y, c1) && StruckInto(t, y, z, c2)
    ensures StruckInto(t, x, z, c1 || c2)
  {
    SameSpineTrans(t, x, y, z);
    forall a: Assignment | Typed(a) ensures Refines(Eval(x, a), Eval(z, a)) {
      assert Refines(Eval(x, a), Eval(y, a));
    }
  }

  lemma SweptKeepsSlots(t: Op, e: Expr, e': Expr, p0: Path, q1: Path, q2: Path, r1: Path, r2: Path, count: int)
    requires Swept(t, e, e', p0, q1, q2, count) && InSpineAt(t, e, p0, r1, r2)
    ensures InSpineAt(t, e', p0, r1, r2) && Work(t, e', p0, r1, r2) == Work(t, e, p0, r1, r2)
    ensures Size(At(e', p0)) <= Size(At(e, p0))
    ensures IsBin(AtSpine(t, At(e, p0), r1), t) == IsBin(AtSpine(t, At(e', p0), r1), t)
  {
    SameSpineSlot(t, At(e, p0), At(e', p0), r1);
    SameSpineSlot(t, At(e, p0), At(e', p0), r2);
  }

  lemma SweptInSequence(t: Op, e: Expr, e1: Expr, e2: Expr, p0: Path, q1: Path, q2: Path, r1: Path, r2: Path,
                        s1: Path, s2: Path, c1: int, c2: int)
    requires Swept(t, e, e1, p0, r1, r2, c1) && Swept(t, e1, e2, p0, s1, s2, c2)
    requires InSpineAt(t, e, p0, q1, q2)
    requires var x := At(e, p0);
             PairsUnstruck(t, x, q1, q2) <==> PairsUnstruck(t, x, r1, r2) && PairsUnstruck(t, x, s1, s2)
    ensures Swept(t, e, e2, p0, q1, q2, c1 + c2)
  {
    var x, y, z := At(e, p0), At(e1, p0), At(e2, p0);
    PutPut(e, p0, y, z);
    StruckIntoTwice(t, x, y, z, c1 > 0, c2 > 0);
  }

  lemma SweptSplitLeft(t: Op, x: Expr, q1: Path, q2: Path)
    requires InSpine(t, x, q1) && IsBin(AtSpine(t, x, q1), t)
    ensures PairsUnstruck(t, x, q1, q2) <==> PairsUnstruck(t, x, q1 + [L], q2) && PairsUnstruck(t, x, q1 + [R], q2)
  {
    forall r: Path | LeafSlot(t, x, r) && q1 <= r ensures q1 + [L] <= r || q1 + [R] <= r {
      PrefixExtends(q1, r);
    }
  }

  lemma SweptLeftThenRight(t: Op, e: Expr, e1: Expr, e2: Expr, p0: Path, q1: Path, q2: Path, c1: int, c2: int)
    requires InSpineAt(t, e, p0, q1, q2) && IsBin(AtSpine(t, At(e, p0), q1), t)
    requires Swept(t, e, e1, p0, q1 + [L], q2, c1) && Swept(t, e1, e2, p0, q1 + [R], q2, c2)
    ensures Swept(t, e, e2, p0, q1, q2, c1 + c2)
  {
    SweptSplitLeft(t, At(e, p0), q1, q2);
    SweptInSequence(t, e, e1, e2, p0, q1, q2, q1 + [L], q2, q1 + [R], q2, c1, c2);
  }

  /** The operand at q1 against the single slot q2. */
  ghost predicate SweptOnce(t: Op, e: Expr, e': Expr, p0: Path, q1: Path, q2: Path, count: int) {
    && InSpineAt(t, e, p0, q1, q2) && q1 != q2 && LeafSlot(t, At(e, p0), q1)
    && IsSlot(e', p0) && e' == Put(e, p0, At(e', p0))
    && count >= 0
    && StruckInto(t, At(e, p0), At(e', p0), count > 0)
    && (count == 0 <==> PairUnstruck(t, AtSpine(t, At(e, p0), q1), AtSpine(t, At(e, p0), q2)))
  }

  /** Against an operand q2 that is all; against a node the two sweeps over its children came before. */
  lemma SweptOperands(t: Op, e: Expr, e': Expr, p0: Path, q1: Path, q2: Path, count: int)
    requires SweptOnce(t, e, e', p0, q1, q2, count) && LeafSlot(t, At(e, p0), q2)
    ensures Swept(t, e, e', p0, q1, q2, count)
  {
    var x := At(e, p0);
    forall q: Path, r: Path | LeafSlot(t, x, q) && InSpine(t, x, r) && q <= r ensures r == q {
      InsideLeaf(t, x, q, r);
    }
  }

  lemma {:induction false} InsideLeaf(t: Op, x: Expr, q: Path, r: Path)
    requires LeafSlot(t, x, q) && InSpine(t, x, r) && q <= r
    ensures r == q
  {
    if q != [] {
      assert q == [q[0]] + q[1..] && r == [r[0]] + r[1..];
      InsideLeaf(t, if q[0].L? then x.left else x.right, q[1..], r[1..]);
    }
  }

  lemma SweptNode(t: Op, e: Expr, e1: Expr, e2: Expr, e3: Expr, p0: Path, q1: Path, q2: Path, c1: int, c2: int, c3: int)
    requires InSpineAt(t, e, p0, q1, q2) && LeafSlot(t, At(e, p0), q1) && IsBin(AtSpine(t, At(e, p0), q2), t)
    requires Swept(t, e, e1, p0, q1, q2 + [L], c1) && Swept(t, e1, e2, p0, q1, q2 + [R], c2)
    requires SweptOnce(t, e2, e3, p0, q1, q2, c3)
    ensures Swept(t, e, e3, p0, q1, q2, c1 + c2 + c3)
  {
    var x, y, z, w := At(e, p0), At(e1, p0), At(e2, p0), At(e3, p0);
    forall r: Path | InSpine(t, x, r) && q2 <= r && q2 != r ensures q2 + [L] <= r || q2 + [R] <= r {
      PrefixExtends(q2, r);
    }
    SweptNodePairs(t, x, q1, q2);
    PutPut(e, p0, y, z);
    PutPut(e, p0, z, w);
    StruckIntoTwice(t, x, y, z, c1 > 0, c2 > 0);
    StruckIntoTwice(t, x, z, w, c1 + c2 > 0, c3 > 0);
  }

  lemma SweptNodePairs(t: Op, x: Expr, q1: Path, q2: Path)
    requires LeafSlot(t, x, q1) && InSpine(t, x, q2) && IsBin(AtSpine(t, x, q2), t)
    ensures PairsUnstruck(t, x, q1, q2) <==>
              && PairsUnstruck(t, x, q1, q2 + [L]) && PairsUnstruck(t, x, q1, q2 + [R])
              && PairUnstruck(t, AtSpine(t, x, q1), AtSpine(t, x, q2))
  {
    forall r: Path | InSpine(t, x, r) && q2 <= r && q2 != r ensures q2 + [L] <= r || q2 + [R] <= r {
      PrefixExtends(q2, r);
    }
    forall r: Path | LeafSlot(t, x, r) && q1 <= r ensures r == q1 {
      InsideLeaf(t, x, q1, r);
    }
    assert q1 != q2 && q1 != [];
  }

  lemma SweptNothing(t: Op, e: Expr, p0: Path, q: Path)
    requires InSpineAt(t, e, p0, q, q) && !IsBin(AtSpine(t, At(e, p0), q), t)
    ensures Swept(t, e, e, p0, q, q, 0)
  {
    PutPut(e, p0, e, e);
    SameSpineRefl(t, At(e, p0));
    forall r: Path | InSpine(t, At(e, p0), r) && q <= r ensures r == q {
      InsideLeaf(t, At(e, p0), q, r);
    }
  }

  /** The sweep inside an operand, seen from the spine that holds it. */
  lemma SweptOperand(t: Op, e: Expr, e1: Expr, p0: Path, q1: Path, q2: Path, c: int)
    requires InSpineAt(t, e, p0, q1, q2) && q1 != q2 && q1 != [] && LeafSlot(t, At(e, p0), q1)
    requires IsSlot(e, p0 + q1) && At(e, p0 + q1).Bin?
    requires Swept(At(e, p0 + q1).op, e, e1, p0 + q1, [], [], c)
    ensures InSpineAt(t, e1, p0, q1, q2) && LeafSlot(t, At(e1, p0), q1)
    ensures e1 == Put(e, p0, At(e1, p0)) && StruckInto(t, At(e, p0), At(e1, p0), c > 0)
    ensures AtSpine(t, At(e1, p0), q1) == At(e1, p0 + q1) && At(e1, p0 + q1).Bin?
  {
    var x, y := At(e, p0), At(e, p0 + q1);
    SlotAppend(e, p0, q1);
    PutPut(e, p0, x, x);
    var y1 := At(e1, p0 + q1);
    var x1 := Put(x, q1, y1);
    PutPut(x, q1, y, y);
    assert e1 == Put(e, p0, x1);
    PutKeepsSpine(t, x, q1, y1);
    SameSpineSlot(t, x, x1, q1);
    SameSpineSlot(t, x, x1, q2);
    if Normal(x) { PutNormal(x, q1, y1); }
    forall a: Assignment | Typed(a) ensures Refines(Eval(x, a), Eval(x1, a)) {
      PutRefines(x, q1, y1, a);
    }
  }

  lemma StrikeInto(t: Op, x: Expr, q1: Path, q2: Path)
    requires LeafSlot(t, x, q1) && InSpine(t, x, q2) && AtSpine(t, x, q1).Bin?
    requires Struck(t, AtSpine(t, x, q1), AtSpine(t, x, q2))
    ensures IsSlot(x, q1) && StruckInto(t, x, Put(x, q1, Zero(t)), true)
  {
    var y := Put(x, q1, Zero(t));
    PutKeepsSpine(t, x, q1, Zero(t));
    if Normal(x) { PutNormal(x, q1, Zero(t)); }
    forall a: Assignment | Typed(a) ensures Refines(Eval(x, a), Eval(y, a)) {
      StruckExactlyMod(t, x, q1, q2, a);
    }
  }

  /** A strike after the sweep inside the operand. */
  lemma SweptStruck(t: Op, e: Expr, e1: Expr, p0: Path, q1: Path, q2: Path, c: int)
    requires InSpineAt(t, e, p0, q1, q2) && q1 != q2 && LeafSlot(t, At(e, p0), q1)
    requires AtSpine(t, At(e, p0), q1).Bin? && c >= 0
    requires InSpineAt(t, e1, p0, q1, q2) && LeafSlot(t, At(e1, p0), q1) && AtSpine(t, At(e1, p0), q1).Bin?
    requires e1 == Put(e, p0, At(e1, p0)) && StruckInto(t, At(e, p0), At(e1, p0), c > 0)
    requires c == 0 ==> e1 == e
    requires Struck(t, AtSpine(t, At(e1, p0), q1), AtSpine(t, At(e1, p0), q2))
    requires c > 0 ==> !PairUnstruck(t, AtSpine(t, At(e, p0), q1), AtSpine(t, At(e, p0), q2))
    ensures IsSlot(e1, p0 + q1) && SweptOnce(t, e, Put(e1, p0 + q1, Zero(t)), p0, q1, q2, c + 1)
  {
    hide Struck, PairsUnstruck;
    var x, x1 := At(e, p0), At(e1, p0);
    SlotAppend(e1, p0, q1);
    StrikeInto(t, x1, q1, q2);
    var x2 := Put(x1, q1, Zero(t));
    assert Put(e1, p0 + q1, Zero(t)) == Put(e1, p0, x2);
    PutPut(e, p0, x1, x2);
    StruckIntoTwice(t, x, x1, x2, c > 0, true);
  }

  /** What the last stretch of the pass has done: the sweep inside the operand and the strike, if any. */
  lemma SweptStrike(t: Op, e: Expr, e1: Expr, p0: Path, q1: Path, q2: Path, c: int)
    requires InSpineAt(t, e, p0, q1, q2) && q1 != q2 && q1 != [] && LeafSlot(t, At(e, p0), q1)
    requires IsSlot(e, p0 + q1) && At(e, p0 + q1).Bin?
    requires Swept(At(e, p0 + q1).op, e, e1, p0 + q1, [], [], c)
    ensures IsSlot(e1, p0 + q1) && IsSlot(e1, p0 + q2) && IsSlot(e1, p0)
    ensures IsSlot(Put(e1, p0 + q1, Zero(t)), p0)
    ensures if Struck(t, At(e1, p0 + q1), At(e1, p0 + q2))
            then SweptOnce(t, e, Put(e1, p0 + q1, Zero(t)), p0, q1, q2, c + 1)
            else SweptOnce(t, e, e1, p0, q1, q2, c)
  {
    hide Struck, PairsUnstruck, At, AtSpine, StruckInto;
    SweptOperand(t, e, e1, p0, q1, q2, c);
    SpineAt(t, e, p0, q1, q2);
    SpineAt(t, e1, p0, q1, q2);
    SlotAppend(e1, p0, q1);
    SweptCount(t, e, e1, p0, q1, q2, c);
    if Struck(t, At(e1, p0 + q1), At(e1, p0 + q2)) {
      SweptStruck(t, e, e1, p0, q1, q2, c);
    }
  }

  /** The sweep inside an operand counts nothing exactly when it leaves the tree alone. */
  lemma SweptCount(t: Op, e: Expr, e1: Expr, p0: Path, q1: Path, q2: Path, c: int)
    requires InSpineAt(t, e, p0, q1, q2) && IsSlot(e, p0 + q1) && At(e, p0 + q1) == AtSpine(t, At(e, p0), q1)
    requires At(e, p0 + q1).Bin? && Swept(At(e, p0 + q1).op, e, e1, p0 + q1, [], [], c)
    ensures c >= 0 && (c == 0 ==> e1 == e)
    ensures c > 0 ==> !PairUnstruck(t, AtSpine(t, At(e, p0), q1), AtSpine(t, At(e, p0), q2))
    ensures c == 0 ==> (PairUnstruck(t, AtSpine(t, At(e, p0), q1), AtSpine(t, At(e, p0), q2))
                        <==> !Struck(t, AtSpine(t, At(e, p0), q1), AtSpine(t, At(e, p0), q2)))
  {
    PutPut(e, p0 + q1, At(e, p0 + q1), At(e, p0 + q1));
  }

  lemma SweptKeepsBoth(t: Op, e: Expr, e1: Expr, e2: Expr, p0: Path, q1: Path, q2: Path, c1: int, c2: int)
    requires InSpineAt(t, e, p0, q1, q2)
    requires Swept(t, e, e1, p0, q1, q2 + [L], c1) && Swept(t, e1, e2, p0, q1, q2 + [R], c2)
    ensures InSpineAt(t, e2, p0, q1, q2) && Work(t, e2, p0, q1, q2) == Work(t, e, p0, q1, q2)
    ensures Size(At(e2, p0)) <= Size(At(e, p0))
    ensures IsBin(AtSpine(t, At(e2, p0), q1), t) == IsBin(AtSpine(t, At(e, p0), q1), t)
  {
    SweptKeepsSlots(t, e, e1, p0, q1, q2 + [L], q1, q2, c1);
    SweptKeepsSlots(t, e1, e2, p0, q1, q2 + [R], q1, q2, c2);
  }

  lemma SweptAtom(t: Op, e: Expr, p0: Path, q1: Path, q2: Path)
    requires InSpineAt(t, e, p0, q1, q2) && q1 != q2 && LeafSlot(t, At(e, p0), q1)
    requires !AtSpine(t, At(e, p0), q1).Bin?
    ensures SweptOnce(t, e, e, p0, q1, q2, 0)
  {
    PutPut(e, p0, e, e);
    SameSpineRefl(t, At(e, p0));
  }

  // ----- the whole elimination -----

  /** Neither pass finds anything to do at the root. */
  ghost predicate Settled(e: Expr) {
    e.Bin? ==> PairsJoined(e.op, e, [], []) && PairsUnstruck(e.op, e, [], [])
  }

  /** One counted round and the constant folding after it shrink the tree and keep n and y. */
  lemma RoundProgress(t: Op, e: Expr, e1: Expr, e2: Expr, c1: int, c2: int)
    requires Joined(t, e, e1, [], [], [], c1) && Swept(t, e1, e2, [], [], [], c2)
    ensures c1 + c2 == 0 ==> e2 == e && PairsJoined(t, e, [], []) && PairsUnstruck(t, e, [], [])
    ensures c1 + c2 > 0 ==> Size(EliminateYn(e2)) < Size(e)
    ensures c1 + c2 > 0 ==> !(PairsJoined(t, e, [], []) && PairsUnstruck(t, e, [], []))
    ensures NoYnOperand(EliminateYn(e2)) && (Normal(e) ==> Normal(EliminateYn(e2)))
    ensures forall a: Assignment {:trigger Typed(a)} :: Typed(a) ==> Refines(Eval(e, a), Eval(EliminateYn(e2), a))
  {
    EliminateYnCorrect(e2);
    if Normal(e) { EliminateYnNormal(e2); }
    forall a: Assignment | Typed(a) ensures Refines(Eval(e, a), Eval(EliminateYn(e2), a)) {
      assert Eval(e1, a) == Eval(e, a);
      assert Refines(Eval(e1, a), Eval(e2, a));
      assert Eval(EliminateYn(e2), a) == Eval(e2, a);
    }
  }

  lemma JoinedKeepsTop(t: Op, e: Expr, e1: Expr, c: int)
    requires Joined(t, e, e1, [], [], [], c) && IsBin(e, t)
    ensures IsBin(e1, t)
  {}

  lemma {:induction false} EliminateYnNormal(e: Expr)
    requires Normal(e)
    ensures Normal(EliminateYn(e))
  {
    if e.Bin? { EliminateYnNormal(e.left); EliminateYnNormal(e.right); }
  }
}
