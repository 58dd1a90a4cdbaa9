/** The tristate expressions of Kconfig: data model, meaning, and the passes that rewrite one
    expression (constant folding, negation normal form, boolean and comparison lowering). */
module KconfigExpr {
  import opened Options

  /** n, m and y, with the numbers the source gives them. */
  type Tri = t: int | 0 <= t <= 2
  const NO: Tri := 0
  const MOD: Tri := 1
  const YES: Tri := 2

  datatype SymType = Unknown | Boolean | Tristate | IntType | Hex | Str | Other

  /** A symbol. Symbols are compared by address in the source, so the model gives each its own id. A constant never
      gets a type. */
  datatype RawSymbol = Symbol(id: nat, kind: SymType, isConst: bool)

  type Symbol = s: RawSymbol | s.isConst ==> s.kind.Unknown? witness Symbol(3, Boolean, false)

  const SYM_NO := Symbol(0, Unknown, true)
  const SYM_MOD := Symbol(1, Unknown, true)
  const SYM_YES := Symbol(2, Unknown, true)

  datatype Op = AndOp | OrOp

  /** E_SYMBOL, E_EQUAL, E_UNEQUAL, E_NOT and E_AND / E_OR nodes. */
  datatype Expr =
    | Sym(sym: Symbol)
    | Equal(lhs: Symbol, rhs: Symbol)
    | Unequal(lhs: Symbol, rhs: Symbol)
    | Not(arg: Expr)
    | Bin(op: Op, left: Expr, right: Expr)

  const NO_EXPR := Sym(SYM_NO)
  const YES_EXPR := Sym(SYM_YES)

  /** What the symbols are worth: the tristate and the string of each. */
  datatype Assignment = Assignment(tri: Symbol -> Tri, str: Symbol -> string)

  function TriName(t: Tri): string {
    if t == NO then "n" else if t == MOD then "m" else "y"
  }

  /** The assignments symbol values can form: the three constants are worth themselves, bool symbols
      are n or y, the string of a bool or tristate symbol names its value, and distinct constant
      symbols have distinct strings. */
  ghost predicate Typed(a: Assignment) {
    && a.tri(SYM_NO) == NO && a.tri(SYM_MOD) == MOD && a.tri(SYM_YES) == YES
    && a.str(SYM_NO) == "n" && a.str(SYM_MOD) == "m" && a.str(SYM_YES) == "y"
    && (forall s: Symbol :: s.kind.Boolean? ==> a.tri(s) != MOD)
    && (forall s: Symbol :: s.kind.Boolean? || s.kind.Tristate? ==> a.str(s) == TriName(a.tri(s)))
    && (forall s: Symbol, t: Symbol {:trigger a.str(s), a.str(t)} ::
          s.isConst && t.isConst && s != t ==> a.str(s) != a.str(t))
  }

  /** The assignment that follows any choice of values and strings: a bool symbol chosen to be m is n. */
  function Chosen(v: Symbol -> Tri, w: Symbol -> string): Assignment {
    Assignment((s: Symbol) => ChosenTri(v, s), (s: Symbol) => ChosenStr(v, w, s))
  }

  function ChosenTri(v: Symbol -> Tri, s: Symbol): Tri {
    if s == SYM_NO then NO else if s == SYM_MOD then MOD else if s == SYM_YES then YES
    else if s.kind.Boolean? && v(s) == MOD then NO
    else v(s)
  }

  function ChosenStr(v: Symbol -> Tri, w: Symbol -> string, s: Symbol): string {
    if IsConstant(s) then TriName(ChosenTri(v, s))
    else if s.isConst then seq(s.id + 2, _ => 'c')
    else if s.kind.Boolean? || s.kind.Tristate? then TriName(ChosenTri(v, s))
    else w(s)
  }

  /** Typed assignments are free: there is one for every choice of values, and of strings for the symbols that are
      neither constant, bool nor tristate. */
  lemma TypedForAnyChoice(v: Symbol -> Tri, w: Symbol -> string)
    ensures Typed(Chosen(v, w))
    ensures forall s: Symbol :: !s.isConst ==>
              && Chosen(v, w).tri(s) == (if s.kind.Boolean? && v(s) == MOD then NO else v(s))
              && (!s.kind.Boolean? && !s.kind.Tristate? ==> Chosen(v, w).str(s) == w(s))
  {
    var a := Chosen(v, w);
    forall s: Symbol, t: Symbol | s.isConst && t.isConst && s != t ensures a.str(s) != a.str(t) {
      assert s.id != t.id;
      if !IsConstant(s) { assert |a.str(s)| == s.id + 2; }
      if !IsConstant(t) { assert |a.str(t)| == t.id + 2; }
    }
  }

  function Combine(op: Op, x: Tri, y: Tri): Tri {
    match op
    case AndOp => if x < y then x else y
    case OrOp => if x > y then x else y
  }

  /** expr_calc_value */
  function Eval(e: Expr, a: Assignment): Tri {
    match e
    case Sym(s) => a.tri(s)
    case Equal(l, r) => if a.str(l) == a.str(r) then YES else NO
    case Unequal(l, r) => if a.str(l) == a.str(r) then NO else YES
    case Not(x) => 2 - Eval(x, a)
    case Bin(op, l, r) => Combine(op, Eval(l, a), Eval(r, a))
  }

  /** The operand an AND or OR may drop, and the one that decides it. */
  function Unit(op: Op): Expr { if op.AndOp? then YES_EXPR else NO_EXPR }
  function Zero(op: Op): Expr { if op.AndOp? then NO_EXPR else YES_EXPR }

  lemma UnitValue(op: Op, x: Tri, a: Assignment)
    requires Typed(a)
    ensures Combine(op, x, Eval(Unit(op), a)) == x == Combine(op, Eval(Unit(op), a), x)
  {}

  function Dual(op: Op): Op { if op.AndOp? then OrOp else AndOp }

  function Size(e: Expr): (n: nat)
    ensures n >= 1
  {
    match e
    case Not(x) => 1 + Size(x)
    case Bin(_, l, r) => 1 + Size(l) + Size(r)
    case _ => 1
  }

  /** expr_contains_symbol */
  predicate ContainsSymbol(e: Expr, s: Symbol) {
    match e
    case Sym(x) => x == s
    case Equal(l, r) => l == s || r == s
    case Unequal(l, r) => l == s || r == s
    case Not(x) => ContainsSymbol(x, s)
    case Bin(_, l, r) => ContainsSymbol(l, s) || ContainsSymbol(r, s)
  }

  /** The symbols and comparisons at the ends of an expression, whatever stands above them. */
  function Atoms(e: Expr): seq<Expr> {
    match e
    case Not(x) => Atoms(x)
    case Bin(_, l, r) => Atoms(l) + Atoms(r)
    case _ => [e]
  }

  predicate Names(atom: Expr, s: Symbol) {
    atom == Sym(s) || ((atom.Equal? || atom.Unequal?) && (atom.lhs == s || atom.rhs == s))
  }

  /** The assignments agree on every symbol but s. */
  ghost predicate AgreeButOn(s: Symbol, a: Assignment, b: Assignment) {
    forall x: Symbol {:trigger a.tri(x)} {:trigger a.str(x)} :: x != s ==> a.tri(x) == b.tri(x) && a.str(x) == b.str(x)
  }

  /** What it means that a symbol does not occur: its value and string make no difference. */
  lemma {:induction false} NotContained(e: Expr, s: Symbol, a: Assignment, b: Assignment)
    requires !ContainsSymbol(e, s) && AgreeButOn(s, a, b)
    ensures Eval(e, a) == Eval(e, b)
  {
    match e
    case Not(x) => NotContained(x, s, a, b);
    case Bin(_, l, r) =>
      NotContained(l, s, a, b);
      NotContained(r, s, a, b);
    case _ =>
  }

  lemma NamedInEither(l: seq<Expr>, r: seq<Expr>, s: Symbol)
    ensures (exists x <- l + r :: Names(x, s)) <==> (exists x <- l :: Names(x, s)) || (exists x <- r :: Names(x, s))
  {
    if x :| x in l && Names(x, s) { assert x in l + r; }
    if x :| x in r && Names(x, s) { assert x in l + r; }
  }

  /** And that it does: some symbol or comparison in the expression names it. */
  lemma {:induction false} ContainedExactly(e: Expr, s: Symbol)
    ensures ContainsSymbol(e, s) <==> exists x <- Atoms(e) :: Names(x, s)
  {
    match e
    case Not(x) => ContainedExactly(x, s);
    case Bin(_, l, r) =>
      ContainedExactly(l, s);
      ContainedExactly(r, s);
      NamedInEither(Atoms(l), Atoms(r), s);
    case _ =>
      assert Atoms(e) == [e] && e in [e];
      assert ContainsSymbol(e, s) <==> Names(e, s);
  }

  // ----- expr_eliminate_yn -----

  function FoldYn(op: Op, l: Expr, r: Expr): Expr {
    if l == Zero(op) then Zero(op)
    else if l == Unit(op) then r
    else if r == Zero(op) then Zero(op)
    else if r == Unit(op) then l
    else Bin(op, l, r)
  }

  function EliminateYn(e: Expr): Expr {
    match e
    case Bin(op, l, r) => FoldYn(op, EliminateYn(l), EliminateYn(r))
    case _ => e
  }

  predicate IsYn(e: Expr) { e == YES_EXPR || e == NO_EXPR }

  /** No AND or OR, at any depth of the AND/OR skeleton, has y or n as an operand. */
  predicate NoYnOperand(e: Expr) {
    e.Bin? ==> !IsYn(e.left) && !IsYn(e.right) && NoYnOperand(e.left) && NoYnOperand(e.right)
  }

  lemma EliminateYnStep(op: Op, l: Expr, r: Expr, a: Assignment)
    requires Typed(a)
    ensures Eval(FoldYn(op, l, r), a) == Combine(op, Eval(l, a), Eval(r, a))
  {
    hide Typed, Eval, Combine, Unit, Zero;
    UnitValue(op, Eval(l, a), a);
    UnitValue(op, Eval(r, a), a);
    ZeroValue(op, Eval(l, a), a);
    ZeroValue(op, Eval(r, a), a);
    BinValue(op, l, r, a);
  }

  lemma BinValue(op: Op, l: Expr, r: Expr, a: Assignment)
    ensures Eval(Bin(op, l, r), a) == Combine(op, Eval(l, a), Eval(r, a))
  {}

  lemma ZeroValue(op: Op, x: Tri, a: Assignment)
    requires Typed(a)
    ensures Combine(op, x, Eval(Zero(op), a)) == Eval(Zero(op), a) == Combine(op, Eval(Zero(op), a), x)
  {}

  lemma {:induction false} EliminateYnValue(e: Expr, a: Assignment)
    requires Typed(a)
    ensures Eval(EliminateYn(e), a) == Eval(e, a)
  {
    match e
    case Bin(op, l, r) =>
      EliminateYnValue(l, a);
      EliminateYnValue(r, a);
      EliminateYnStep(op, EliminateYn(l), EliminateYn(r), a);
    case _ =>
  }

  /** Folding y and n is exact, leaves none of them as an operand, and shrinks exactly the
      expressions that had one. */
  lemma {:induction false} EliminateYnCorrect(e: Expr)
    ensures forall a :: Typed(a) ==> Eval(EliminateYn(e), a) == Eval(e, a)
    ensures NoYnOperand(EliminateYn(e))
    ensures if NoYnOperand(e) then EliminateYn(e) == e else Size(EliminateYn(e)) < Size(e)
  {
    hide Typed, Eval;
    forall a | Typed(a) ensures Eval(EliminateYn(e), a) == Eval(e, a) { EliminateYnValue(e, a); }
    match e
    case Bin(op, l, r) =>
      EliminateYnCorrect(l);
      EliminateYnCorrect(r);
    case _ =>
  }

  // ----- expr_transform -----

  /** Termination measure of the transformation: negations double, comparisons may become negations. */
  function Weight(e: Expr): (n: nat)
    ensures n >= 1
  {
    match e
    case Sym(_) => 1
    case Equal(_, _) => 2
    case Unequal(_, _) => 2
    case Not(x) => 2 * Weight(x)
    case Bin(_, l, r) => 1 + Weight(l) + Weight(r)
  }

  /** Comparisons of a bool symbol with a constant become literals. */
  function LowerEqual(l: Symbol, r: Symbol): Expr {
    if !l.kind.Boolean? then Equal(l, r)
    else if r == SYM_NO then Not(Sym(l))
    else if r == SYM_MOD then NO_EXPR
    else if r == SYM_YES then Sym(l)
    else Equal(l, r)
  }

  function LowerUnequal(l: Symbol, r: Symbol): Expr {
    if !l.kind.Boolean? then Unequal(l, r)
    else if r == SYM_NO then Sym(l)
    else if r == SYM_MOD then YES_EXPR
    else if r == SYM_YES then Not(Sym(l))
    else Unequal(l, r)
  }

  function Transform(e: Expr): (r: Expr)
    ensures Weight(r) <= Weight(e)
    decreases Weight(e)
  {
    match e
    case Sym(_) => e
    case Equal(l, r) => LowerEqual(l, r)
    case Unequal(l, r) => LowerUnequal(l, r)
    case Bin(op, l, r) => Bin(op, Transform(l), Transform(r))
    case Not(x) =>
      var x' := Transform(x);
      match x' {
        case Not(y) => Transform(y)
        case Equal(l, r) => Unequal(l, r)
        case Unequal(l, r) => Equal(l, r)
        case Bin(op, l, r) =>
          assert Weight(Not(l)) + Weight(Not(r)) + 2 == 2 * Weight(x');
          Transform(Bin(Dual(op), Not(l), Not(r)))
        case Sym(s) =>
          if s == SYM_YES then NO_EXPR
          else if s == SYM_MOD then Sym(SYM_MOD)
          else if s == SYM_NO then YES_EXPR
          else Not(x')
      }
  }

  predicate IsConstant(s: Symbol) { s == SYM_NO || s == SYM_MOD || s == SYM_YES }

  /** Negation normal form with comparisons lowered: NOT stands only above non-constant symbols, and no
      bool symbol is compared with n, m or y. */
  predicate Normal(e: Expr) {
    match e
    case Sym(_) => true
    case Equal(l, r) => !(l.kind.Boolean? && IsConstant(r))
    case Unequal(l, r) => !(l.kind.Boolean? && IsConstant(r))
    case Not(x) => x.Sym? && !IsConstant(x.sym)
    case Bin(_, l, r) => Normal(l) && Normal(r)
  }

  lemma LoweredComparisonsExact(l: Symbol, r: Symbol, a: Assignment)
    requires Typed(a)
    ensures Eval(LowerEqual(l, r), a) == Eval(Equal(l, r), a)
    ensures Eval(LowerUnequal(l, r), a) == Eval(Unequal(l, r), a)
  {}

  lemma ConstantsTyped(a: Assignment)
    requires Typed(a)
    ensures a.tri(SYM_NO) == NO && a.tri(SYM_MOD) == MOD && a.tri(SYM_YES) == YES
  {}

  lemma {:induction false} TransformExact(e: Expr, a: Assignment)
    requires Typed(a)
    ensures Eval(Transform(e), a) == Eval(e, a)
    decreases Weight(e)
  {
    hide Typed, LowerEqual, LowerUnequal;
    ConstantsTyped(a);
    match e
    case Equal(l, r) => LoweredComparisonsExact(l, r, a);
    case Unequal(l, r) => LoweredComparisonsExact(l, r, a);
    case Bin(op, l, r) =>
      TransformExact(l, a);
      TransformExact(r, a);
    case Not(x) =>
      TransformExact(x, a);
      match Transform(x) {
        case Not(y) => TransformExact(y, a);
        case Bin(op, l, r) =>
          assert Weight(Not(l)) + Weight(Not(r)) + 2 == 2 * Weight(Transform(x));
          TransformExact(Bin(Dual(op), Not(l), Not(r)), a);
        case _ =>
      }
    case _ =>
  }

  lemma {:induction false} TransformNormal(e: Expr)
    ensures Normal(Transform(e))
    decreases Weight(e)
  {
    match e
    case Bin(op, l, r) =>
      TransformNormal(l);
      TransformNormal(r);
    case Not(x) =>
      TransformNormal(x);
      match Transform(x) {
        case Not(y) => TransformNormal(y);
        case Bin(op, l, r) =>
          assert Weight(Not(l)) + Weight(Not(r)) + 2 == 2 * Weight(Transform(x));
          TransformNormal(Bin(Dual(op), Not(l), Not(r)));
        case _ =>
      }
    case _ =>
  }

  /** The normal forms are exactly the fixed points, so transforming twice is transforming once. */
  lemma {:induction false} TransformFixpoint(e: Expr)
    ensures Transform(e) == e <==> Normal(e)
    ensures Transform(Transform(e)) == Transform(e)
    decreases Weight(e)
  {
    TransformNormal(e);
    NormalIsFixed(Transform(e));
    if Normal(e) { NormalIsFixed(e); }
  }

  lemma {:induction false} NormalIsFixed(e: Expr)
    requires Normal(e)
    ensures Transform(e) == e
  {
    if e.Bin? {
      NormalIsFixed(e.left);
      NormalIsFixed(e.right);
    }
  }

  /** A NOT above a normal AND or OR is pushed through it. */
  lemma PushedThrough(op: Op, l: Expr, r: Expr)
    requires Normal(Bin(op, l, r))
    ensures Transform(Not(Bin(op, l, r))) == Bin(Dual(op), Transform(Not(l)), Transform(Not(r)))
  {
    NormalIsFixed(Bin(op, l, r));
    assert Weight(Not(l)) + Weight(Not(r)) + 2 == 2 * Weight(Bin(op, l, r));
  }

  // ----- expr_trans_bool -----

  function TransBool(e: Expr): Expr {
    match e
    case Bin(op, l, r) => Bin(op, TransBool(l), TransBool(r))
    case Not(x) => Not(TransBool(x))
    case Unequal(l, r) => if l.kind.Tristate? && r == SYM_NO then Sym(l) else e
    case _ => e
  }

  /** A tristate symbol compared with n. */
  predicate NotNo(x: Expr) { x.Unequal? && x.lhs.kind.Tristate? && x.rhs == SYM_NO }

  function LowerAtoms(s: seq<Expr>): (r: seq<Expr>)
    ensures |r| == |s|
  {
    seq(|s|, i requires 0 <= i < |s| => if NotNo(s[i]) then Sym(s[i].lhs) else s[i])
  }

  lemma LowerBoth(l: seq<Expr>, r: seq<Expr>)
    ensures LowerAtoms(l + r) == LowerAtoms(l) + LowerAtoms(r)
  {}

  lemma {:induction false} AtomsLowered(e: Expr)
    ensures Atoms(TransBool(e)) == LowerAtoms(Atoms(e))
  {
    hide LowerAtoms;
    match e
    case Not(x) => AtomsLowered(x);
    case Bin(_, l, r) =>
      AtomsLowered(l);
      AtomsLowered(r);
      LowerBoth(Atoms(l), Atoms(r));
    case _ =>
      assert Atoms(e) == [e];
      LowerOne(e);
  }

  lemma LowerOne(e: Expr)
    ensures LowerAtoms([e]) == [if NotNo(e) then Sym(e.lhs) else e]
  {}

  lemma {:induction false} TransBoolSame(e: Expr)
    ensures TransBool(e) == e <==> forall x <- Atoms(e) :: !NotNo(x)
  {
    hide NotNo;
    match e
    case Not(x) => TransBoolSame(x);
    case Bin(_, l, r) =>
      TransBoolSame(l);
      TransBoolSame(r);
      assert forall x :: x in Atoms(e) <==> x in Atoms(l) || x in Atoms(r);
    case _ =>
      assert Atoms(e) == [e] && e in [e];
      LowersNotNo(e);
  }

  lemma LowersNotNo(e: Expr)
    requires !e.Not? && !e.Bin?
    ensures TransBool(e) == e <==> !NotNo(e)
  {}

  /** None is left at any depth, each is replaced by its symbol, and without one the expression is left alone. */
  lemma TransBoolLowers(e: Expr)
    ensures forall x <- Atoms(TransBool(e)) :: !NotNo(x)
    ensures |Atoms(TransBool(e))| == |Atoms(e)|
    ensures forall i :: 0 <= i < |Atoms(e)| ==>
              Atoms(TransBool(e))[i] == if NotNo(Atoms(e)[i]) then Sym(Atoms(e)[i].lhs) else Atoms(e)[i]
    ensures TransBool(e) == e <==> forall x <- Atoms(e) :: !NotNo(x)
  {
    hide Atoms, TransBool;
    AtomsLowered(e);
    TransBoolSame(e);
  }

  /** On negation normal form, dropping `!= n` may turn y into m but never changes whether the value is n. */
  lemma {:induction false} TransBoolKeepsVisible(e: Expr, a: Assignment)
    requires Typed(a) && Normal(e)
    ensures Eval(TransBool(e), a) <= Eval(e, a)
    ensures Eval(TransBool(e), a) == NO <==> Eval(e, a) == NO
  {
    match e
    case Bin(op, l, r) =>
      TransBoolKeepsVisible(l, a);
      TransBoolKeepsVisible(r, a);
    case _ =>
  }

  /** sym_calc_visibility for a symbol that is not tristate: m rounds up to y. */
  function RoundVisible(t: Tri): Tri { if t == MOD then YES else t }

  /** The rounded visibility of a non-tristate symbol does not change when its prompt condition,
      brought to normal form, is boolean-lowered. */
  lemma VisibilityUnchanged(e: Expr, a: Assignment)
    requires Typed(a)
    ensures RoundVisible(Eval(TransBool(Transform(e)), a)) == YES <==> Eval(e, a) != NO
    ensures RoundVisible(Eval(TransBool(Transform(e)), a)) == RoundVisible(Eval(e, a))
  {
    TransformExact(e, a);
    TransformNormal(e);
    TransBoolKeepsVisible(Transform(e), a);
  }

  // ----- expr_trans_compare -----

  datatype Rel = Eq | Ne

  function Flip(t: Rel): Rel { if t.Eq? then Ne else Eq }
  function WrapNot(t: Rel, e: Expr): Expr { if t.Ne? then Not(e) else e }

  /** The comparison of an expression with one of the constants n, m, y, pushed down to the symbols.
      A NULL expression compares the constant itself; comparing AND or OR with m gives the operand back. */
  function TransCompare(oe: Option<Expr>, t: Rel, s: Symbol): Option<Expr> {
    match oe
    case None => Some(WrapNot(t, Sym(s)))
    case Some(e) => TransCompareExpr(e, t, s)
  }

  function TransCompareExpr(e: Expr, t: Rel, s: Symbol): (r: Option<Expr>)
    ensures IsConstant(s) ==> r.Some?
  {
    match e
    case Bin(op, l, r) =>
      var l', r' := TransCompareExpr(l, Eq, s), TransCompareExpr(r, Eq, s);
      if (s == SYM_YES || s == SYM_NO) && l'.Some? && r'.Some? then
        Some(WrapNot(t, Bin(if s == SYM_YES then op else Dual(op), l'.value, r'.value)))
      else
        Some(WrapNot(t, e))
    case Not(x) => TransCompareExpr(x, Flip(t), s)
    case Sym(v) => Some(if t.Eq? then Equal(v, s) else Unequal(v, s))
    case _ =>
      if s == SYM_YES then Some(WrapNot(t, e))
      else if s == SYM_MOD then Some(if t.Eq? then NO_EXPR else YES_EXPR)
      else if s == SYM_NO then Some(WrapNot(Flip(t), e))
      else None
  }

  /** Every symbol that stands alone is a bool, a tristate or one of the constants. */
  predicate TristateLeaves(e: Expr) {
    match e
    case Sym(s) => s.kind.Boolean? || s.kind.Tristate? || IsConstant(s)
    case Not(x) => TristateLeaves(x)
    case Bin(_, l, r) => TristateLeaves(l) && TristateLeaves(r)
    case _ => true
  }

  /** No operand of a NOT is worth m. */
  ghost predicate NoModUnderNot(e: Expr, a: Assignment) {
    match e
    case Not(x) => Eval(x, a) != MOD && NoModUnderNot(x, a)
    case Bin(_, l, r) => NoModUnderNot(l, a) && NoModUnderNot(r, a)
    case _ => true
  }

  ghost predicate Compares(e: Expr, t: Rel, s: Symbol, a: Assignment) {
    if t.Eq? then Eval(e, a) == a.tri(s) else Eval(e, a) != a.tri(s)
  }

  /** The assignment with every symbol worth m read as the constant that is not s. */
  function ReadMod(a: Assignment, s: Symbol): Assignment {
    Assignment((x: Symbol) => ReadTri(a.tri(x), s), a.str)
  }

  function ReadTri(t: Tri, s: Symbol): Tri { if t != MOD then t else if s == SYM_YES then NO else YES }

  lemma {:induction false} ReadModTwoValued(e: Expr, s: Symbol, a: Assignment)
    requires s == SYM_YES || s == SYM_NO
    ensures Eval(e, ReadMod(a, s)) != MOD
  {
    match e
    case Not(x) => ReadModTwoValued(x, s, a);
    case Bin(_, l, r) => ReadModTwoValued(l, s, a); ReadModTwoValued(r, s, a);
    case _ =>
  }

  /** What a comparison with y or n computes, whatever the expression: y or n as the comparison holds or not for the
      expression with m read as n, when it is compared with y, or as y, when it is compared with n. */
  lemma {:induction false} TransCompareExact(e: Expr, t: Rel, s: Symbol, a: Assignment)
    requires Typed(a) && (s == SYM_YES || s == SYM_NO) && TristateLeaves(e)
    ensures Eval(TransCompareExpr(e, t, s).value, a) == if Compares(e, t, s, ReadMod(a, s)) then YES else NO
  {
    match e
    case Bin(op, l, r) =>
      TransCompareExact(l, Eq, s, a);
      TransCompareExact(r, Eq, s, a);
      ReadModTwoValued(l, s, a);
      ReadModTwoValued(r, s, a);
    case Not(x) =>
      TransCompareExact(x, Flip(t), s, a);
      ReadModTwoValued(x, s, a);
    case _ =>
  }

  /** The lowered comparison is right. */
  ghost predicate ComparisonRight(e: Expr, t: Rel, s: Symbol, a: Assignment)
    requires IsConstant(s)
  {
    Eval(TransCompareExpr(e, t, s).value, a) == if Compares(e, t, s, a) then YES else NO
  }

  /** So it is right exactly when reading m that way does not change whether the expression is worth s. */
  lemma TransCompareRight(e: Expr, t: Rel, s: Symbol, a: Assignment)
    requires Typed(a) && (s == SYM_YES || s == SYM_NO) && TristateLeaves(e)
    ensures ComparisonRight(e, t, s, a) <==> (Eval(e, ReadMod(a, s)) == a.tri(s) <==> Eval(e, a) == a.tri(s))
  {
    TransCompareExact(e, t, s, a);
  }

  /** It is right when no NOT stands above an operand worth m. */
  lemma {:induction false} NoModUnderNotRight(e: Expr, t: Rel, s: Symbol, a: Assignment)
    requires Typed(a) && (s == SYM_YES || s == SYM_NO) && TristateLeaves(e) && NoModUnderNot(e, a)
    ensures ComparisonRight(e, t, s, a)
  {
    ReadModAgrees(e, s, a);
    TransCompareRight(e, t, s, a);
  }

  lemma {:induction false} ReadModAgrees(e: Expr, s: Symbol, a: Assignment)
    requires s == SYM_YES || s == SYM_NO
    requires Typed(a) && NoModUnderNot(e, a)
    ensures Eval(e, ReadMod(a, s)) == a.tri(s) <==> Eval(e, a) == a.tri(s)
  {
    ReadModTwoValued(e, s, a);
    match e
    case Not(x) =>
      ReadModTwoValued(x, s, a);
      ReadModAgrees(x, s, a);
    case Bin(_, l, r) =>
      ReadModTwoValued(l, s, a);
      ReadModTwoValued(r, s, a);
      ReadModAgrees(l, s, a);
      ReadModAgrees(r, s, a);
    case _ =>
  }

  /** The result is worth y or n under every assignment, m under NOT or not. */
  lemma {:induction false} TransCompareTwoValued(e: Expr, t: Rel, s: Symbol, a: Assignment)
    requires Typed(a) && (s == SYM_YES || s == SYM_NO)
    ensures Eval(TransCompareExpr(e, t, s).value, a) != MOD
  {
    match e
    case Bin(op, l, r) =>
      TransCompareTwoValued(l, Eq, s, a);
      TransCompareTwoValued(r, Eq, s, a);
    case Not(x) =>
      TransCompareTwoValued(x, Flip(t), s, a);
    case _ =>
  }

  /** For a negated symbol the comparison is right exactly when the symbol is not worth m. */
  lemma TransCompareNegatedSymbol(v: Symbol, t: Rel, s: Symbol, a: Assignment)
    requires Typed(a) && (s == SYM_YES || s == SYM_NO)
    requires v.kind.Boolean? || v.kind.Tristate?
    ensures ComparisonRight(Not(Sym(v)), t, s, a) <==> a.tri(v) != MOD
  {
    TransCompareRight(Not(Sym(v)), t, s, a);
  }

  /** What is left of an expression without the NOTs above it, and whether their number was odd. */
  function Core(e: Expr): (r: (Expr, bool))
    ensures !r.0.Not?
  {
    match e
    case Not(x) => (Core(x).0, !Core(x).1)
    case _ => (e, false)
  }

  lemma {:induction false} TransCompareModValue(e: Expr, t: Rel, a: Assignment)
    requires Typed(a) && TristateLeaves(e)
    ensures var (b, odd) := Core(e);
            && Eval(e, a) == (if odd then 2 - Eval(b, a) else Eval(b, a))
            && Eval(TransCompareExpr(e, t, SYM_MOD).value, a)
               == if b.Bin? then (if t.Eq? != odd then Eval(b, a) else 2 - Eval(b, a))
                  else if (Eval(b, a) == MOD) == (t.Eq? != odd) then YES else NO
  {
    match e
    case Not(x) => TransCompareModValue(x, Flip(t), a);
    case _ =>
  }

  /** Compared with m, a symbol or comparison comes out right exactly when the NOTs above it are even in number; an AND
      or OR, which the source gives back as it is, exactly where the expression is worth n. */
  lemma TransCompareModRight(e: Expr, t: Rel, a: Assignment)
    requires Typed(a) && TristateLeaves(e)
    ensures ComparisonRight(e, t, SYM_MOD, a) <==> if Core(e).0.Bin? then Eval(e, a) == NO else !Core(e).1
  {
    hide Core, TransCompareExpr, TristateLeaves;
    TransCompareModValue(e, t, a);
  }
}
