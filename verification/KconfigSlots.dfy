/** Slots: the places `struct expr **` pointers name inside a tree, as paths through its AND and OR nodes. */
module KconfigSlots {
  import opened KconfigExpr
  import opened KconfigEq

  type Path = seq<Dir>

  predicate IsSlot(e: Expr, p: Path) {
    p == [] || (e.Bin? && IsSlot(if p[0].L? then e.left else e.right, p[1..]))
  }

  function At(e: Expr, p: Path): (x: Expr)
    requires IsSlot(e, p)
    ensures Size(x) <= Size(e)
    ensures p != [] ==> Size(x) < Size(e)
  {
    if p == [] then e else At(if p[0].L? then e.left else e.right, p[1..])
  }

  /** The tree after storing x through the slot. */
  function Put(e: Expr, p: Path, x: Expr): (e': Expr)
    requires IsSlot(e, p)
    ensures IsSlot(e', p) && At(e', p) == x
    ensures Size(e') == Size(e) - Size(At(e, p)) + Size(x)
  {
    if p == [] then x
    else if p[0].L? then Bin(e.op, Put(e.left, p[1..], x), e.right)
    else Bin(e.op, e.left, Put(e.right, p[1..], x))
  }

  /** The slot is a node or operand of the t-spine that starts at the root. */
  predicate InSpine(t: Op, e: Expr, p: Path) {
    p == [] || (IsBin(e, t) && InSpine(t, if p[0].L? then e.left else e.right, p[1..]))
  }

  predicate LeafSlot(t: Op, e: Expr, p: Path) {
    InSpine(t, e, p) && !IsBin(AtSpine(t, e, p), t)
  }

  function AtSpine(t: Op, e: Expr, p: Path): (x: Expr)
    requires InSpine(t, e, p)
    ensures IsSlot(e, p) && x == At(e, p)
  {
    if p == [] then e else AtSpine(t, if p[0].L? then e.left else e.right, p[1..])
  }

  /** The two trees have the same t-spine nodes. */
  predicate SameSpine(t: Op, x: Expr, y: Expr) {
    IsBin(x, t) == IsBin(y, t)
    && (IsBin(x, t) ==> SameSpine(t, x.left, y.left) && SameSpine(t, x.right, y.right))
  }

  function SpineSize(t: Op, e: Expr): (n: nat)
    ensures n >= 1
  {
    if IsBin(e, t) then 1 + SpineSize(t, e.left) + SpineSize(t, e.right) else 1
  }

  // ----- slot algebra -----

  lemma {:induction false} SlotAppend(e: Expr, p: Path, q: Path)
    requires IsSlot(e, p)
    ensures IsSlot(e, p + q) <==> IsSlot(At(e, p), q)
    ensures IsSlot(e, p + q) ==> At(e, p + q) == At(At(e, p), q)
    ensures IsSlot(e, p + q) ==> forall x :: Put(e, p + q, x) == Put(e, p, Put(At(e, p), q, x))
  {
    if p == [] {
      assert p + q == q;
    } else {
      assert (p + q)[1..] == p[1..] + q;
      SlotAppend(if p[0].L? then e.left else e.right, p[1..], q);
    }
  }

  lemma {:induction false} SpineAppend(t: Op, e: Expr, p: Path, q: Path)
    requires InSpine(t, e, p)
    ensures InSpine(t, e, p + q) <==> InSpine(t, AtSpine(t, e, p), q)
    ensures InSpine(t, e, p + q) ==> AtSpine(t, e, p + q) == AtSpine(t, AtSpine(t, e, p), q)
  {
    if p == [] {
      assert p + q == q;
    } else {
      assert (p + q)[1..] == p[1..] + q;
      SpineAppend(t, if p[0].L? then e.left else e.right, p[1..], q);
    }
  }

  lemma SpineChildren(t: Op, e: Expr, p: Path)
    requires InSpine(t, e, p) && IsBin(AtSpine(t, e, p), t)
    ensures InSpine(t, e, p + [L]) && AtSpine(t, e, p + [L]) == AtSpine(t, e, p).left
    ensures InSpine(t, e, p + [R]) && AtSpine(t, e, p + [R]) == AtSpine(t, e, p).right
  {
    SpineAppend(t, e, p, [L]);
    SpineAppend(t, e, p, [R]);
  }

  lemma {:induction false} PutPut(e: Expr, p: Path, x: Expr, y: Expr)
    requires IsSlot(e, p)
    ensures Put(Put(e, p, x), p, y) == Put(e, p, y)
    ensures Put(e, p, At(e, p)) == e
  {
    if p != [] { PutPut(if p[0].L? then e.left else e.right, p[1..], x, y); }
  }

  predicate Apart(p: Path, q: Path) { !(p <= q) && !(q <= p) }

  lemma {:induction false} AtApart(e: Expr, p: Path, q: Path, x: Expr)
    requires IsSlot(e, p) && IsSlot(e, q) && Apart(p, q)
    ensures IsSlot(Put(e, p, x), q) && At(Put(e, p, x), q) == At(e, q)
  {
    if p[0] == q[0] {
      assert p == [p[0]] + p[1..] && q == [q[0]] + q[1..];
      AtApart(if p[0].L? then e.left else e.right, p[1..], q[1..], x);
    }
  }

  /** Stores through slots neither of which is inside the other do not interfere. */
  lemma PutFirst(e: Expr, p: Path, x: Expr)
    requires IsSlot(e, p) && p != []
    ensures Put(e, p, x) == if p[0].L? then Bin(e.op, Put(e.left, p[1..], x), e.right)
                            else Bin(e.op, e.left, Put(e.right, p[1..], x))
  {}

  lemma {:induction false} PutApart(e: Expr, p: Path, q: Path, x: Expr, y: Expr)
    requires IsSlot(e, p) && IsSlot(e, q) && Apart(p, q)
    requires IsSlot(Put(e, p, x), q) && IsSlot(Put(e, q, y), p)
    ensures Put(Put(e, p, x), q, y) == Put(Put(e, q, y), p, x)
  {
    hide Put, At;
    PutFirst(e, p, x);
    PutFirst(e, q, y);
    PutFirst(Put(e, p, x), q, y);
    PutFirst(Put(e, q, y), p, x);
    if p[0] == q[0] {
      assert p == [p[0]] + p[1..] && q == [q[0]] + q[1..];
      var c := if p[0].L? then e.left else e.right;
      AtApart(c, p[1..], q[1..], x);
      AtApart(c, q[1..], p[1..], y);
      PutApart(c, p[1..], q[1..], x, y);
    }
  }

  /** Two operands of one spine are apart, or are the same. */
  lemma {:induction false} LeavesApart(t: Op, e: Expr, p: Path, q: Path)
    requires LeafSlot(t, e, p) && LeafSlot(t, e, q) && p != q
    ensures Apart(p, q)
  {
    assert p != [] && q != [];
    assert p == [p[0]] + p[1..] && q == [q[0]] + q[1..];
    if p[0] == q[0] {
      LeavesApart(t, if p[0].L? then e.left else e.right, p[1..], q[1..]);
    }
  }

  // ----- spines under a store -----

  lemma {:induction false} PutKeepsSpine(t: Op, e: Expr, p: Path, x: Expr)
    requires InSpine(t, e, p) && SameSpine(t, AtSpine(t, e, p), x)
    ensures SameSpine(t, e, Put(e, p, x))
  {
    if p != [] {
      SameSpineRefl(t, e.left);
      SameSpineRefl(t, e.right);
      PutKeepsSpine(t, if p[0].L? then e.left else e.right, p[1..], x);
    }
  }

  lemma {:induction false} SameSpineRefl(t: Op, e: Expr)
    ensures SameSpine(t, e, e)
  {
    if IsBin(e, t) { SameSpineRefl(t, e.left); SameSpineRefl(t, e.right); }
  }

  lemma {:induction false} SameSpineTrans(t: Op, x: Expr, y: Expr, z: Expr)
    requires SameSpine(t, x, y) && SameSpine(t, y, z)
    ensures SameSpine(t, x, z)
  {
    if IsBin(x, t) { SameSpineTrans(t, x.left, y.left, z.left); SameSpineTrans(t, x.right, y.right, z.right); }
  }

  /** Spine slots, their kind and their spine size survive a rewrite that keeps the spine. */
  lemma {:induction false} SameSpineSlot(t: Op, x: Expr, y: Expr, p: Path)
    requires SameSpine(t, x, y) && InSpine(t, x, p)
    ensures InSpine(t, y, p) && SameSpine(t, AtSpine(t, x, p), AtSpine(t, y, p))
    ensures SpineSize(t, AtSpine(t, x, p)) == SpineSize(t, AtSpine(t, y, p))
  {
    if p == [] {
      SameSpineSize(t, x, y);
    } else if p[0].L? {
      SameSpineSlot(t, x.left, y.left, p[1..]);
    } else {
      SameSpineSlot(t, x.right, y.right, p[1..]);
    }
  }

  lemma {:induction false} SameSpineSize(t: Op, x: Expr, y: Expr)
    requires SameSpine(t, x, y)
    ensures SpineSize(t, x) == SpineSize(t, y)
  {
    if IsBin(x, t) { SameSpineSize(t, x.left, y.left); SameSpineSize(t, x.right, y.right); }
  }

  // ----- values under a store -----

  /** The value of a spine is the value of any of its slots combined with the rest. */
  lemma {:induction false} PullOut(t: Op, e: Expr, p: Path, x: Expr, a: Assignment)
    requires Typed(a) && InSpine(t, e, p) && IsSlot(e, p)
    ensures Eval(Put(e, p, x), a) == Combine(t, Eval(Put(e, p, Unit(t)), a), Eval(x, a))
  {
    hide Typed, Combine;
    UnitValue(t, Eval(x, a), a);
    if p == [] {
    } else if p[0].L? {
      PullOut(t, e.left, p[1..], x, a);
      UnitValue(t, Eval(e.right, a), a);
      Regroup(t, Eval(Put(e.left, p[1..], Unit(t)), a), Eval(x, a), Eval(e.right, a), Eval(Unit(t), a));
    } else {
      PullOut(t, e.right, p[1..], x, a);
      Regroup(t, Eval(e.left, a), Eval(Put(e.right, p[1..], Unit(t)), a), Eval(x, a), Eval(x, a));
    }
  }

  /** A slot of the spine is absorbed by the value of the spine. */
  lemma Absorbed(t: Op, e: Expr, p: Path, a: Assignment)
    requires Typed(a) && InSpine(t, e, p)
    ensures Combine(t, Eval(e, a), Eval(AtSpine(t, e, p), a)) == Eval(e, a)
  {
    var x := AtSpine(t, e, p);
    PutPut(e, p, x, x);
    PullOut(t, e, p, x, a);
  }

  /** Two operands may be replaced by two others with the same combined value. */
  lemma PairReplaced(t: Op, e: Expr, p: Path, q: Path, x: Expr, y: Expr, a: Assignment)
    requires Typed(a) && LeafSlot(t, e, p) && LeafSlot(t, e, q) && p != q
    requires IsSlot(e, p) && IsSlot(e, q) && IsSlot(Put(e, p, x), q)
    requires Combine(t, Eval(x, a), Eval(y, a)) == Combine(t, Eval(At(e, p), a), Eval(At(e, q), a))
    ensures Eval(Put(Put(e, p, x), q, y), a) == Eval(e, a)
  {
    LeavesApart(t, e, p, q);
    AtApart(e, p, q, Unit(t));
    AtApart(e, p, q, At(e, p));
    TwoPulled(t, e, p, q, x, y, a);
    TwoPulled(t, e, p, q, At(e, p), At(e, q), a);
    PutPut(e, p, x, x);
    PutPut(e, q, y, y);
  }

  lemma TwoPulled(t: Op, e: Expr, p: Path, q: Path, x: Expr, y: Expr, a: Assignment)
    requires Typed(a) && LeafSlot(t, e, p) && LeafSlot(t, e, q) && Apart(p, q)
    requires IsSlot(e, p) && IsSlot(e, q) && IsSlot(Put(e, p, x), q) && IsSlot(Put(e, p, Unit(t)), q)
    ensures Eval(Put(Put(e, p, x), q, y), a)
         == Combine(t, Eval(Put(Put(e, p, Unit(t)), q, Unit(t)), a), Combine(t, Eval(x, a), Eval(y, a)))
  {
    var u := Unit(t);
    AtApart(e, q, p, u);
    PutApart(e, p, q, x, u);
    PutApart(e, p, q, u, u);
    var e1 := Put(e, q, u);
    ApartSpine(t, e, p, q, u);
    ApartSpine(t, e, q, p, x);
    PullOut(t, Put(e, p, x), q, y, a);
    assert Put(Put(e, p, x), q, u) == Put(e1, p, x);
    PullOut(t, e1, p, x, a);
    Regroup(t, Eval(Put(e1, p, u), a), Eval(x, a), Eval(y, a), Eval(y, a));
  }

  /** A store apart from a spine slot leaves it one. */
  lemma {:induction false} ApartSpine(t: Op, e: Expr, p: Path, q: Path, x: Expr)
    requires InSpine(t, e, p) && InSpine(t, e, q) && IsSlot(e, q) && Apart(p, q)
    ensures InSpine(t, Put(e, q, x), p)
  {
    if p[0] == q[0] {
      assert p == [p[0]] + p[1..] && q == [q[0]] + q[1..];
      ApartSpine(t, if p[0].L? then e.left else e.right, p[1..], q[1..], x);
    }
  }

  /** y may replace x when x is worth m or they agree: a value of n or y is never changed. */
  predicate Refines(v: Tri, w: Tri) { v == MOD || v == w }

  lemma {:induction false} PutRefines(e: Expr, p: Path, x: Expr, a: Assignment)
    requires Typed(a) && IsSlot(e, p) && Refines(Eval(At(e, p), a), Eval(x, a))
    ensures Refines(Eval(e, a), Eval(Put(e, p, x), a))
  {
    if p != [] { PutRefines(if p[0].L? then e.left else e.right, p[1..], x, a); }
  }

  lemma {:induction false} PutSameValue(e: Expr, p: Path, x: Expr, a: Assignment)
    requires Typed(a) && IsSlot(e, p) && Eval(At(e, p), a) == Eval(x, a)
    ensures Eval(e, a) == Eval(Put(e, p, x), a)
  {
    if p != [] { PutSameValue(if p[0].L? then e.left else e.right, p[1..], x, a); }
  }

  /** A constant operand at a proper slot, or one below it, is visible from the root. */
  lemma {:induction false} YnOperandAbove(e: Expr, p: Path)
    requires IsSlot(e, p)
    requires !NoYnOperand(At(e, p)) || (p != [] && IsYn(At(e, p)))
    ensures !NoYnOperand(e)
  {
    if p != [] {
      var c := if p[0].L? then e.left else e.right;
      if !IsYn(c) || p[1..] != [] { YnOperandAbove(c, p[1..]); }
    }
  }

  lemma {:induction false} PutNormal(e: Expr, p: Path, x: Expr)
    requires IsSlot(e, p) && Normal(e)
    ensures Normal(At(e, p)) && (Normal(x) ==> Normal(Put(e, p, x)))
  {
    if p != [] { PutNormal(if p[0].L? then e.left else e.right, p[1..], x); }
  }
}
