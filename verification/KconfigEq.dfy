/** Equality of tristate expressions by eliminating common operands, the implication test built on it,
    and the pairwise joins that drop duplicates. */
module KconfigEq {
  import opened KconfigExpr
  import opened Options

  predicate IsBin(e: Expr, t: Op) { e.Bin? && e.op == t }

  // ----- expr_eq, __expr_eliminate_eq, expr_eliminate_eq -----

  function ExprEq(x: Expr, y: Expr): bool
    decreases Size(x) + Size(y), 2
  {
    match x
    case Sym(s) => y == Sym(s)
    case Equal(l, r) => y == Equal(l, r)
    case Unequal(l, r) => y == Unequal(l, r)
    case Not(x') => y.Not? && ExprEq(x', y.arg)
    case Bin(op, _, _) =>
      if !IsBin(y, op) then false
      else
        var (x', y') := EliminateEq(x, y);
        x'.Sym? && y'.Sym? && x'.sym == y'.sym
  }

  /** Every operand of x's t-spine against every operand of y's: an equal pair is replaced by units. */
  function ElimSpine(t: Op, x: Expr, y: Expr): (r: (Expr, Expr))
    ensures Size(r.0) <= Size(x) && Size(r.1) <= Size(y)
    decreases Size(x) + Size(y), if IsBin(x, t) || IsBin(y, t) then 0 else 3
  {
    if IsBin(x, t) then
      var (l, y1) := ElimSpine(t, x.left, y);
      var (r, y2) := ElimSpine(t, x.right, y1);
      (Bin(t, l, r), y2)
    else if IsBin(y, t) then
      var (x1, l) := ElimSpine(t, x, y.left);
      var (x2, r) := ElimSpine(t, x1, y.right);
      (x2, Bin(t, l, r))
    else if x.Sym? && y.Sym? && x.sym == y.sym && (x.sym == SYM_YES || x.sym == SYM_NO) then (x, y)
    else if !ExprEq(x, y) then (x, y)
    else (Unit(t), Unit(t))
  }

  function EliminateEq(x: Expr, y: Expr): (Expr, Expr)
    decreases Size(x) + Size(y), 1
  {
    var (x1, y1) := if x.Bin? then ElimSpine(x.op, x, y) else (x, y);
    var (x2, y2) := if y1.Bin? && !IsBin(x1, y1.op) then ElimSpine(y1.op, x1, y1) else (x1, y1);
    (EliminateYn(x2), EliminateYn(y2))
  }

  /** Equal expressions have the same value. */
  lemma {:induction false} ExprEqSound(x: Expr, y: Expr, a: Assignment)
    requires Typed(a) && ExprEq(x, y)
    ensures Eval(x, a) == Eval(y, a)
    decreases Size(x) + Size(y), 2
  {
    match x
    case Not(x') => ExprEqSound(x', y.arg, a);
    case Bin(op, _, _) => EliminateEqMonotone(x, y, a);
    case _ =>
  }

  lemma Regroup(t: Op, v: Tri, c: Tri, w: Tri, d: Tri)
    ensures Combine(t, Combine(t, v, c), Combine(t, w, d)) == Combine(t, Combine(t, v, w), Combine(t, c, d))
    ensures Combine(t, Combine(t, v, c), d) == Combine(t, v, Combine(t, c, d)) == Combine(t, v, Combine(t, d, c))
  {}

  /** Spine elimination takes one common value out of both sides. */
  lemma {:induction false} ElimSpineCommon(t: Op, x: Expr, y: Expr, a: Assignment) returns (c: Tri)
    requires Typed(a)
    ensures var (x', y') := ElimSpine(t, x, y);
            Eval(x, a) == Combine(t, Eval(x', a), c) && Eval(y, a) == Combine(t, Eval(y', a), c)
    decreases Size(x) + Size(y), if IsBin(x, t) || IsBin(y, t) then 0 else 3
  {
    hide Typed, Combine;
    if IsBin(x, t) {
      var (l, y1) := ElimSpine(t, x.left, y);
      var (r, y2) := ElimSpine(t, x.right, y1);
      var c1 := ElimSpineCommon(t, x.left, y, a);
      var c2 := ElimSpineCommon(t, x.right, y1, a);
      c := Combine(t, c1, c2);
      Regroup(t, Eval(l, a), c1, Eval(r, a), c2);
      Regroup(t, Eval(y2, a), c2, Eval(y2, a), c1);
    } else if IsBin(y, t) {
      var (x1, l) := ElimSpine(t, x, y.left);
      var (x2, r) := ElimSpine(t, x1, y.right);
      var c1 := ElimSpineCommon(t, x, y.left, a);
      var c2 := ElimSpineCommon(t, x1, y.right, a);
      c := Combine(t, c1, c2);
      Regroup(t, Eval(l, a), c1, Eval(r, a), c2);
      Regroup(t, Eval(x2, a), c2, Eval(x2, a), c1);
    } else if !(x.Sym? && y.Sym? && x.sym == y.sym && (x.sym == SYM_YES || x.sym == SYM_NO)) && ExprEq(x, y) {
      ExprEqSound(x, y, a);
      c := Eval(x, a);
      UnitValue(t, c, a);
    } else {
      c := Eval(Unit(t), a);
      UnitValue(t, Eval(x, a), a);
      UnitValue(t, Eval(y, a), a);
    }
  }

  /** What holds between the reduced expressions, in either direction, holds between the originals. */
  lemma {:induction false} EliminateEqMonotone(x: Expr, y: Expr, a: Assignment)
    requires Typed(a)
    ensures var (x', y') := EliminateEq(x, y);
            && (Eval(x', a) <= Eval(y', a) ==> Eval(x, a) <= Eval(y, a))
            && (Eval(y', a) <= Eval(x', a) ==> Eval(y, a) <= Eval(x, a))
    decreases Size(x) + Size(y), 1
  {
    var (x1, y1) := if x.Bin? then ElimSpine(x.op, x, y) else (x, y);
    var (x2, y2) := if y1.Bin? && !IsBin(x1, y1.op) then ElimSpine(y1.op, x1, y1) else (x1, y1);
    if x.Bin? { var c := ElimSpineCommon(x.op, x, y, a); }
    if y1.Bin? && !IsBin(x1, y1.op) { var c := ElimSpineCommon(y1.op, x1, y1, a); }
    EliminateYnCorrect(x2);
    EliminateYnCorrect(y2);
  }

  /** When elimination reduces y to the constant y, x implies y: its value never exceeds y's. */
  lemma EliminatedToYesImplies(x: Expr, y: Expr, a: Assignment)
    requires Typed(a) && EliminateEq(x, y).1 == YES_EXPR
    ensures Eval(x, a) <= Eval(y, a)
  {
    EliminateEqMonotone(x, y, a);
  }

  // ----- expr_eq is reflexive -----

  /** A spine with every operand other than y and n replaced by the unit. */
  function Drain(t: Op, e: Expr): Expr {
    if IsBin(e, t) then Bin(t, Drain(t, e.left), Drain(t, e.right))
    else if IsYn(e) then e
    else Unit(t)
  }

  predicate Drained(t: Op, e: Expr) {
    if IsBin(e, t) then Drained(t, e.left) && Drained(t, e.right) else IsYn(e)
  }

  lemma {:induction false} DrainIsDrained(t: Op, e: Expr)
    ensures Drained(t, Drain(t, e))
    ensures EliminateYn(Drain(t, e)) in {YES_EXPR, NO_EXPR}
  {
    if IsBin(e, t) {
      DrainIsDrained(t, e.left);
      DrainIsDrained(t, e.right);
    }
  }

  /** A constant operand meets no partner, and a drained spine offers none. */
  lemma {:induction false} ElimNoPartner(t: Op, x: Expr, y: Expr)
    requires !IsBin(x, t) && (IsYn(x) || Drained(t, y))
    ensures ElimSpine(t, x, y) == (x, y)
    decreases y
  {
    if IsBin(y, t) {
      ElimNoPartner(t, x, y.left);
      ElimNoPartner(t, x, y.right);
    }
  }

  datatype Dir = L | R

  /** y's spine read along a path: everything left of the path is drained and x stands at its end. */
  predicate NextOperand(t: Op, y: Expr, p: seq<Dir>, x: Expr) {
    if p == [] then y == x
    else IsBin(y, t) && if p[0].L? then NextOperand(t, y.left, p[1..], x)
                        else Drained(t, y.left) && NextOperand(t, y.right, p[1..], x)
  }

  function Drop(t: Op, y: Expr, p: seq<Dir>, x: Expr): (y': Expr)
    requires NextOperand(t, y, p, x)
  {
    if p == [] then Drain(t, x)
    else if p[0].L? then Bin(t, Drop(t, y.left, p[1..], x), y.right)
    else Bin(t, y.left, Drop(t, y.right, p[1..], x))
  }

  /** The next operand of y meets its copy x, and no other. */
  lemma {:induction false} ElimNextLeaf(t: Op, x: Expr, y: Expr, p: seq<Dir>)
    requires !IsBin(x, t) && NextOperand(t, y, p, x) && ExprEq(x, x)
    ensures ElimSpine(t, x, y) == (Drain(t, x), Drop(t, y, p, x))
    decreases |p|
  {
    if p == [] {
    } else if p[0].L? {
      ElimNextLeaf(t, x, y.left, p[1..]);
      ElimNoPartner(t, Drain(t, x), y.right);
    } else {
      ElimNoPartner(t, x, y.left);
      ElimNextLeaf(t, x, y.right, p[1..]);
    }
  }

  lemma {:induction false} NextOperandSplit(t: Op, y: Expr, p: seq<Dir>, x: Expr)
    requires IsBin(x, t) && NextOperand(t, y, p, x)
    ensures NextOperand(t, y, p + [L], x.left)
    ensures var y1 := Drop(t, y, p + [L], x.left);
            NextOperand(t, y1, p + [R], x.right) && Drop(t, y1, p + [R], x.right) == Drop(t, y, p, x)
    decreases |p|
  {
    if p == [] {
      DrainIsDrained(t, x.left);
      assert [L][1..] == [] && [R][1..] == [];
      assert NextOperand(t, y.left, [], x.left) && NextOperand(t, y.right, [], x.right);
    } else {
      assert (p + [L])[1..] == p[1..] + [L] && (p + [R])[1..] == p[1..] + [R];
      NextOperandSplit(t, if p[0].L? then y.left else y.right, p[1..], x);
    }
  }

  /** Eliminating a spine against a tree that holds its copy drains both. */
  lemma {:induction false} ElimNext(t: Op, x: Expr, y: Expr, p: seq<Dir>, bound: nat)
    requires NextOperand(t, y, p, x) && Size(x) <= bound
    requires forall z: Expr {:trigger ExprEq(z, z)} :: Size(z) <= bound && !IsBin(z, t) ==> ExprEq(z, z)
    ensures ElimSpine(t, x, y) == (Drain(t, x), Drop(t, y, p, x))
    decreases x
  {
    if IsBin(x, t) {
      NextOperandSplit(t, y, p, x);
      ElimNext(t, x.left, y, p + [L], bound);
      ElimNext(t, x.right, Drop(t, y, p + [L], x.left), p + [R], bound);
    } else {
      ElimNextLeaf(t, x, y, p);
    }
  }

  /** expr_eq answers 1 on equal trees. */
  lemma {:induction false} ExprEqReflexive(x: Expr)
    ensures ExprEq(x, x)
    decreases Size(x)
  {
    match x
    case Not(x') => ExprEqReflexive(x');
    case Bin(t, l, r) =>
      forall z: Expr {:trigger ExprEq(z, z)} | Size(z) < Size(x) && !IsBin(z, t) ensures ExprEq(z, z) {
        ExprEqReflexive(z);
      }
      ElimNext(t, l, x, [L], Size(x) - 1);
      var x1 := Drop(t, x, [L], l);
      DrainIsDrained(t, l);
      ElimNext(t, r, x1, [R], Size(x) - 1);
      assert ElimSpine(t, x, x) == (Drain(t, x), Drain(t, x));
      DrainIsDrained(t, x);
    case _ =>
  }

  // ----- expr_extract_eq -----

  /** Moves the operands common to both spines into a third expression. */
  function ExtractEqRec(t: Op, acc: Option<Expr>, x: Expr, y: Expr): (r: (Option<Expr>, Expr, Expr))
    ensures Size(r.1) <= Size(x) && Size(r.2) <= Size(y)
    decreases Size(x) + Size(y)
  {
    if IsBin(x, t) then
      var (acc1, l, y1) := ExtractEqRec(t, acc, x.left, y);
      var (acc2, r, y2) := ExtractEqRec(t, acc1, x.right, y1);
      (acc2, Bin(t, l, r), y2)
    else if IsBin(y, t) then
      var (acc1, x1, l) := ExtractEqRec(t, acc, x, y.left);
      var (acc2, x2, r) := ExtractEqRec(t, acc1, x1, y.right);
      (acc2, x2, Bin(t, l, r))
    else if ExprEq(x, y) then
      (Some(if acc.Some? then Bin(t, acc.value, x) else x), Unit(t), Unit(t))
    else (acc, x, y)
  }

  /** expr_extract_eq_and, expr_extract_eq_or: constants are folded only when something was extracted. */
  function ExtractEq(t: Op, x: Expr, y: Expr): (Option<Expr>, Expr, Expr) {
    var (acc, x', y') := ExtractEqRec(t, None, x, y);
    if acc.Some? then (acc, EliminateYn(x'), EliminateYn(y')) else (acc, x', y')
  }

  /** The value of an optional operand of t. */
  function OptEval(t: Op, oe: Option<Expr>, a: Assignment): Tri {
    if oe.Some? then Eval(oe.value, a) else Eval(Unit(t), a)
  }

  lemma OptExtend(t: Op, acc: Option<Expr>, x: Expr, a: Assignment)
    requires Typed(a)
    ensures OptEval(t, Some(if acc.Some? then Bin(t, acc.value, x) else x), a)
            == Combine(t, OptEval(t, acc, a), Eval(x, a))
  {
    UnitValue(t, Eval(x, a), a);
  }

  lemma {:induction false} ExtractEqRecExact(t: Op, acc: Option<Expr>, x: Expr, y: Expr, a: Assignment) returns (c: Tri)
    requires Typed(a)
    ensures var (acc', x', y') := ExtractEqRec(t, acc, x, y);
            && OptEval(t, acc', a) == Combine(t, OptEval(t, acc, a), c)
            && Eval(x, a) == Combine(t, Eval(x', a), c)
            && Eval(y, a) == Combine(t, Eval(y', a), c)
    decreases Size(x) + Size(y)
  {
    hide Typed, Combine, OptEval;
    if IsBin(x, t) {
      var (acc1, l, y1) := ExtractEqRec(t, acc, x.left, y);
      var (acc2, r, y2) := ExtractEqRec(t, acc1, x.right, y1);
      var c1 := ExtractEqRecExact(t, acc, x.left, y, a);
      var c2 := ExtractEqRecExact(t, acc1, x.right, y1, a);
      c := Combine(t, c1, c2);
      Regroup(t, Eval(l, a), c1, Eval(r, a), c2);
      Regroup(t, Eval(y2, a), c2, Eval(y2, a), c1);
      Regroup(t, OptEval(t, acc, a), c1, OptEval(t, acc, a), c2);
    } else if IsBin(y, t) {
      var (acc1, x1, l) := ExtractEqRec(t, acc, x, y.left);
      var (acc2, x2, r) := ExtractEqRec(t, acc1, x1, y.right);
      var c1 := ExtractEqRecExact(t, acc, x, y.left, a);
      var c2 := ExtractEqRecExact(t, acc1, x1, y.right, a);
      c := Combine(t, c1, c2);
      Regroup(t, Eval(l, a), c1, Eval(r, a), c2);
      Regroup(t, Eval(x2, a), c2, Eval(x2, a), c1);
      Regroup(t, OptEval(t, acc, a), c1, OptEval(t, acc, a), c2);
    } else if ExprEq(x, y) {
      ExprEqSound(x, y, a);
      c := Eval(x, a);
      UnitValue(t, c, a);
      OptExtend(t, acc, x, a);
    } else {
      c := Eval(Unit(t), a);
      UnitValue(t, Eval(x, a), a);
      UnitValue(t, Eval(y, a), a);
      UnitValue(t, OptEval(t, acc, a), a);
    }
  }

  /** Extraction factors both expressions: each is the common part combined with what is left of it. */
  lemma ExtractEqExact(t: Op, x: Expr, y: Expr, a: Assignment)
    requires Typed(a)
    ensures var (c, x', y') := ExtractEq(t, x, y);
            && Eval(x, a) == Combine(t, Eval(x', a), OptEval(t, c, a))
            && Eval(y, a) == Combine(t, Eval(y', a), OptEval(t, c, a))
  {
    hide Typed, Combine;
    var (acc, x', y') := ExtractEqRec(t, None, x, y);
    var c := ExtractEqRecExact(t, None, x, y, a);
    UnitValue(t, c, a);
    EliminateYnCorrect(x');
    EliminateYnCorrect(y');
  }

  // ----- expr_join_or, expr_join_and -----

  /** The symbol a simple expression is about, where the joins look at it: a NOT on the left may stand
      above a comparison, a NOT on the right only above a symbol. */
  function LeftSubject(e: Expr): Option<Symbol> {
    match e
    case Sym(s) => Some(s)
    case Equal(l, _) => Some(l)
    case Unequal(l, _) => Some(l)
    case Not(Sym(s)) => Some(s)
    case Not(Equal(l, _)) => Some(l)
    case Not(Unequal(l, _)) => Some(l)
    case _ => None
  }

  function RightSubject(e: Expr): Option<Symbol> {
    if e.Not? && !e.arg.Sym? then None else LeftSubject(e)
  }

  predicate BothEqual(x: Expr, y: Expr, s: Symbol, t: Symbol) {
    x.Equal? && y.Equal? && ((x.rhs == s && y.rhs == t) || (x.rhs == t && y.rhs == s))
  }

  predicate BothUnequal(x: Expr, y: Expr, s: Symbol, t: Symbol) {
    x.Unequal? && y.Unequal? && ((x.rhs == s && y.rhs == t) || (x.rhs == t && y.rhs == s))
  }

  /** One side is the symbol itself and the other compares it, the given way, with s. */
  predicate SymWithEqual(x: Expr, y: Expr, s: Symbol) {
    (x.Sym? && y.Equal? && y.rhs == s) || (y.Sym? && x.Equal? && x.rhs == s)
  }

  predicate SymWithUnequal(x: Expr, y: Expr, s: Symbol) {
    (x.Sym? && y.Unequal? && y.rhs == s) || (y.Sym? && x.Unequal? && x.rhs == s)
  }

  predicate SymWithNegation(x: Expr, y: Expr) {
    (x.Not? && x.arg.Sym? && y.Sym?) || (y.Not? && y.arg.Sym? && x.Sym?)
  }

  function Join(t: Op, x: Expr, y: Expr): Option<Expr> {
    if ExprEq(x, y) then Some(x)
    else
      var s := LeftSubject(x);
      if s.None? || s != RightSubject(y) then None
      else if !s.value.kind.Boolean? && !s.value.kind.Tristate? then None
      else if t.OrOp? then JoinOr(x, y, s.value) else JoinAnd(x, y, s.value)
  }

  function JoinOr(x: Expr, y: Expr, s: Symbol): Option<Expr> {
    if s.kind.Tristate? && BothEqual(x, y, SYM_YES, SYM_MOD) then Some(Unequal(s, SYM_NO))
    else if s.kind.Tristate? && BothEqual(x, y, SYM_YES, SYM_NO) then Some(Unequal(s, SYM_MOD))
    else if s.kind.Tristate? && BothEqual(x, y, SYM_MOD, SYM_NO) then Some(Unequal(s, SYM_YES))
    else if s.kind.Boolean? && SymWithNegation(x, y) then Some(YES_EXPR)
    else None
  }

  function JoinAnd(x: Expr, y: Expr, s: Symbol): Option<Expr> {
    if SymWithEqual(x, y, SYM_YES) then Some(Equal(s, SYM_YES))
    else if SymWithUnequal(x, y, SYM_NO) then Some(Sym(s))
    else if SymWithUnequal(x, y, SYM_MOD) then Some(Equal(s, SYM_YES))
    else if !s.kind.Tristate? then None
    else if x.Equal? && y.Unequal? && y.rhs.isConst && x.rhs.isConst then
      Some(if x.rhs != y.rhs then Equal(s, x.rhs) else NO_EXPR)
    else if x.Unequal? && y.Equal? && x.rhs.isConst && y.rhs.isConst then
      Some(if y.rhs != x.rhs then Equal(s, y.rhs) else NO_EXPR)
    else if BothUnequal(x, y, SYM_YES, SYM_NO) then Some(Equal(s, SYM_MOD))
    else if BothUnequal(x, y, SYM_YES, SYM_MOD) then Some(Equal(s, SYM_NO))
    else if BothUnequal(x, y, SYM_MOD, SYM_NO) then Some(Equal(s, SYM_YES))
    else None
  }

  /** A join is worth exactly the AND or OR it stands for, is no larger than either side allows, and
      keeps negation normal form. */
  lemma JoinExact(t: Op, x: Expr, y: Expr, a: Assignment)
    requires Typed(a) && Join(t, x, y).Some?
    ensures Eval(Join(t, x, y).value, a) == Combine(t, Eval(x, a), Eval(y, a))
  {
    if ExprEq(x, y) {
      ExprEqSound(x, y, a);
    } else {
      var s := LeftSubject(x).value;
      if t.OrOp? { JoinOrExact(x, y, s, a); } else { JoinAndExact(x, y, s, a); }
    }
  }

  lemma JoinOrExact(x: Expr, y: Expr, s: Symbol, a: Assignment)
    requires Typed(a) && (s.kind.Boolean? || s.kind.Tristate?)
    requires LeftSubject(x) == Some(s) == RightSubject(y) && JoinOr(x, y, s).Some?
    ensures Eval(JoinOr(x, y, s).value, a) == Combine(OrOp, Eval(x, a), Eval(y, a))
  {
    TriNamesDiffer(a.tri(s));
  }

  lemma JoinAndExact(x: Expr, y: Expr, s: Symbol, a: Assignment)
    requires Typed(a) && (s.kind.Boolean? || s.kind.Tristate?)
    requires LeftSubject(x) == Some(s) == RightSubject(y) && JoinAnd(x, y, s).Some?
    ensures Eval(JoinAnd(x, y, s).value, a) == Combine(AndOp, Eval(x, a), Eval(y, a))
  {
    TriNamesDiffer(a.tri(s));
  }

  lemma TriNamesDiffer(t: Tri)
    ensures TriName(t) == "y" <==> t == YES
    ensures TriName(t) == "m" <==> t == MOD
    ensures TriName(t) == "n" <==> t == NO
  {
    assert "y"[0] != "m"[0] && "m"[0] != "n"[0] && "y"[0] != "n"[0];
  }

  lemma JoinShape(t: Op, x: Expr, y: Expr)
    requires Join(t, x, y).Some?
    ensures Join(t, x, y).value == x || Size(Join(t, x, y).value) == 1
    ensures 1 + Size(Join(t, x, y).value) <= Size(x) + Size(y)
    ensures !IsBin(x, t) ==> !IsBin(Join(t, x, y).value, t)
    ensures Normal(x) && Normal(y) ==> Normal(Join(t, x, y).value)
  {}
}
