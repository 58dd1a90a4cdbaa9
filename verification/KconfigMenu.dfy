/** How menu_finalize combines the passes: the visibility of a prompt, and the test that makes the entries
    after a symbol its sub-menu. */
module KconfigMenu {
  import opened KconfigExpr
  import opened KconfigEq
  import opened KconfigSlots
  import opened KconfigDups
  import opened KconfigNodeDups
  import opened KconfigOperands
  import opened KconfigSettled
  import opened Options

  /** A missing condition is always y. */
  function OptValue(oe: Option<Expr>, a: Assignment): Tri {
    if oe.Some? then Eval(oe.value, a) else YES
  }

  /** expr_alloc_and */
  function AllocAnd(x: Option<Expr>, y: Option<Expr>): Option<Expr> {
    if x.None? then y else if y.None? then x else Some(Bin(AndOp, x.value, y.value))
  }

  ghost predicate OptNormal(oe: Option<Expr>) { oe.Some? ==> Normal(oe.value) }

  /** expr_eliminate_dups on a tree of its own for the expression. */
  method EliminateDups(e: Expr) returns (r: Expr)
    ensures forall a: Assignment {:trigger Typed(a)} :: Typed(a) ==> Refines(Eval(e, a), Eval(r, a))
    ensures Settled(r) && (r == e <==> Settled(e)) && (Normal(e) ==> Normal(r))
    ensures NothingToJoin(r) && (!NothingToJoin(e) ==> r != e)
  {
    hide Settled, Normal;
    var n := TreeFor(e);
    var o := new Optimiser(n);
    o.EliminateDups();
    r := ValueOf(o.root);
    SettledJoined(r);
  }

  method Optimised(oe: Option<Expr>) returns (r: Option<Expr>)
    ensures r.Some? == oe.Some?
    ensures forall a: Assignment {:trigger Typed(a)} :: Typed(a) ==> Refines(OptValue(oe, a), OptValue(r, a))
    ensures OptNormal(oe) ==> OptNormal(r)
    ensures r.Some? ==> Settled(r.value)
  {
    if oe.None? { return None; }
    var e := EliminateDups(oe.value);
    r := Some(e);
  }

  /** The condition of a prompt whose menu entry depends on basedep. A condition worth n or y keeps its
      rounded visibility, bool-lowered or not, and negation normal form is kept all along. */
  method PromptCondition(basedep: Option<Expr>, visible: Option<Expr>, tristate: bool) returns (r: Option<Expr>)
    requires OptNormal(basedep)
    ensures OptNormal(r)
    ensures forall a: Assignment {:trigger Typed(a)} :: Typed(a) ==>
              var v := Combine(AndOp, OptValue(basedep, a), OptValue(visible, a));
              && (tristate ==> Refines(v, OptValue(r, a)))
              && (v != MOD ==> RoundVisible(OptValue(r, a)) == v)
    ensures r.Some? ==> if tristate then Settled(r.value) else forall x <- Atoms(r.value) :: !NotNo(x)
  {
    var dep := if visible.Some? then Some(Transform(visible.value)) else None;
    if visible.Some? { TransformNormal(visible.value); }
    var both := AllocAnd(basedep, dep);
    r := Optimised(both);
    ghost var r0 := r;
    if !tristate && r.Some? {
      r := Some(TransBool(r.value));
      TransBoolNormal(r0.value);
      TransBoolLowers(r0.value);
    }
    forall a: Assignment | Typed(a)
      ensures var v := Combine(AndOp, OptValue(basedep, a), OptValue(visible, a));
              && (tristate ==> Refines(v, OptValue(r, a)))
              && (v != MOD ==> RoundVisible(OptValue(r, a)) == v)
    {
      if visible.Some? { TransformExact(visible.value, a); }
      assert OptValue(both, a) == Combine(AndOp, OptValue(basedep, a), OptValue(visible, a));
      assert Refines(OptValue(both, a), OptValue(r0, a));
      if r.Some? && !tristate { TransBoolKeepsVisible(r0.value, a); }
    }
  }

  lemma {:induction false} TransBoolNormal(e: Expr)
    requires Normal(e)
    ensures Normal(TransBool(e))
  {
    if e.Bin? { TransBoolNormal(e.left); TransBoolNormal(e.right); }
  }

  ghost predicate OptLeaves(oe: Option<Expr>) { oe.Some? ==> TristateLeaves(oe.value) }

  /** `oe != n`, normalised. */
  function Lowered(oe: Option<Expr>): Expr { Transform(TransCompare(oe, Ne, SYM_NO).value) }

  lemma LoweredExact(oe: Option<Expr>, a: Assignment)
    requires Typed(a) && OptLeaves(oe)
    ensures Eval(Lowered(oe), a) == if OptValue(oe, ReadMod(a, SYM_NO)) != NO then YES else NO
  {
    TransformExact(TransCompare(oe, Ne, SYM_NO).value, a);
    if oe.Some? {
      TransCompareExact(oe.value, Ne, SYM_NO, a);
    } else {
      assert Eval(TransCompare(oe, Ne, SYM_NO).value, a) == 2 - Eval(Sym(SYM_NO), a);
    }
  }

  ghost predicate ShowsWhere(oe: Option<Expr>, r: Expr) {
    && (OptLeaves(oe) ==> forall a: Assignment {:trigger Typed(a)} :: Typed(a) ==>
          Eval(r, a) == if OptValue(oe, ReadMod(a, SYM_NO)) != NO then YES else NO)
    && Settled(r) && (Settled(Lowered(oe)) ==> r == Lowered(oe))
  }

  /** The condition `oe != n` with its duplicates eliminated: y when the condition is visible with m read as y, and n
      when it is not. */
  method Visible(oe: Option<Expr>) returns (r: Expr)
    ensures ShowsWhere(oe, r)
  {
    var c := TransCompare(oe, Ne, SYM_NO);
    var t := Transform(c.value);
    r := EliminateDups(t);
    if OptLeaves(oe) {
      forall a: Assignment | Typed(a)
        ensures Eval(r, a) == if OptValue(oe, ReadMod(a, SYM_NO)) != NO then YES else NO
      {
        LoweredExact(oe, a);
        assert Refines(Eval(t, a), Eval(r, a));
      }
    }
  }

  /** In normal form, a NOT stands above a bool symbol only. */
  predicate NoTristateUnderNot(e: Expr) {
    match e
    case Not(x) => x.Sym? && x.sym.kind.Boolean?
    case Bin(_, l, r) => NoTristateUnderNot(l) && NoTristateUnderNot(r)
    case _ => true
  }

  ghost predicate OptNoTristateUnderNot(oe: Option<Expr>) { oe.Some? ==> NoTristateUnderNot(oe.value) }

  /** Reading m as y never makes a normal condition visible that is not, and changes nothing for one without a NOT
      above a tristate symbol. */
  lemma {:induction false} ReadModVisible(e: Expr, a: Assignment)
    requires Typed(a) && Normal(e)
    ensures Eval(e, ReadMod(a, SYM_NO)) != NO ==> Eval(e, a) != NO
    ensures NoTristateUnderNot(e) && Eval(e, a) != NO ==> Eval(e, ReadMod(a, SYM_NO)) != NO
  {
    match e
    case Bin(_, l, r) =>
      ReadModVisible(l, a);
      ReadModVisible(r, a);
    case Not(x) =>
      assert Eval(e, a) == 2 - a.tri(x.sym) && Eval(e, ReadMod(a, SYM_NO)) == 2 - ReadTri(a.tri(x.sym), SYM_NO);
    case Sym(v) =>
      assert Eval(e, ReadMod(a, SYM_NO)) == ReadTri(a.tri(v), SYM_NO);
    case _ =>
  }

  // ----- expr_depends_symbol and the implication test -----

  /** expr_depends_symbol */
  predicate DependsSymbol(e: Expr, s: Symbol) {
    match e
    case Sym(x) => x == s
    case Equal(l, r) => l == s && (r == SYM_YES || r == SYM_MOD)
    case Unequal(l, r) => l == s && r == SYM_NO
    case Not(_) => false
    case Bin(op, l, r) => op.AndOp? && (DependsSymbol(l, s) || DependsSymbol(r, s))
  }

  /** An operand of a conjunction that makes it depend on s. */
  predicate Requires(z: Expr, s: Symbol) {
    z == Sym(s) || z == Equal(s, SYM_YES) || z == Equal(s, SYM_MOD) || z == Unequal(s, SYM_NO)
  }

  predicate Independent(e: Expr, s: Symbol) {
    forall z <- Operands(AndOp, e) :: !Requires(z, s)
  }

  /** A condition depends on a symbol exactly when one of its conjuncts is the symbol, or says that it is y, that it is
      m or that it is not n. */
  lemma {:induction false} DependsExactly(e: Expr, s: Symbol)
    ensures DependsSymbol(e, s) <==> exists z <- Operands(AndOp, e) :: Requires(z, s)
    ensures DependsSymbol(e, s) ==> ContainsSymbol(e, s)
  {
    if IsBin(e, AndOp) {
      var l, r := Operands(AndOp, e.left), Operands(AndOp, e.right);
      DependsExactly(e.left, s);
      DependsExactly(e.right, s);
      if z :| z in l && Requires(z, s) { assert z in Operands(AndOp, e); }
      if z :| z in r && Requires(z, s) { assert z in Operands(AndOp, e); }
      if z :| z in Operands(AndOp, e) && Requires(z, s) { assert z in l || z in r; }
    } else {
      assert Operands(AndOp, e) == [e] && e in Operands(AndOp, e);
      if Requires(e, s) { assert DependsSymbol(e, s); }
    }
  }

  /** A condition that depends on a tristate symbol mentions it, and is n whenever the symbol is, m read as y or not. */
  lemma {:induction false} DependsImplies(e: Expr, s: Symbol, a: Assignment)
    requires Typed(a) && DependsSymbol(e, s) && s.kind in {Boolean, Tristate}
    ensures ContainsSymbol(e, s)
    ensures Eval(e, a) != NO || Eval(e, ReadMod(a, SYM_NO)) != NO ==> a.tri(s) != NO
  {
    match e
    case Bin(_, l, r) =>
      if DependsSymbol(l, s) { DependsImplies(l, s, a); } else { DependsImplies(r, s, a); }
    case _ =>
  }

  // ----- the sub-menu test -----

  /** The sub-menu property: where the entry is visible, the symbol is not n or its own prompt is visible. */
  ghost predicate VisibleInside(sym: Symbol, basedep: Option<Expr>, v: Tri, a: Assignment) {
    v != NO ==> a.tri(sym) != NO || OptValue(basedep, a) != NO
  }

  /** The test of menu_finalize, on what Visible makes of the two conditions. */
  predicate TakenIn(sym: Symbol, base: Expr, d: Expr, dep: Option<Expr>) {
    && dep.Some? && ContainsSymbol(dep.value, sym)
    && (DependsSymbol(dep.value, sym) || EliminateEq(d, base).1 == YES_EXPR)
  }

  /** An entry whose condition depends on the symbol has the sub-menu property. Of conditions over bools and tristates,
      the prompt's in normal form, an entry has it with m read as y in its condition. If that is in normal form too, the
      entry has it outright except where its condition is worth m and, with m read as y, n; never so without a NOT above
      a tristate symbol. */
  ghost predicate InsideProperty(sym: Symbol, basedep: Option<Expr>, dep: Option<Expr>) {
    dep.Some? && sym.kind in {Boolean, Tristate} ==>
      forall a: Assignment {:trigger Typed(a)} :: Typed(a) ==> InsideAt(sym, basedep, dep, a)
  }

  ghost predicate InsideAt(sym: Symbol, basedep: Option<Expr>, dep: Option<Expr>, a: Assignment)
    requires dep.Some?
  {
    var inside, v := VisibleInside(sym, basedep, OptValue(dep, a), a), OptValue(dep, ReadMod(a, SYM_NO));
    && (DependsSymbol(dep.value, sym) ==> inside)
    && (OptLeaves(basedep) && OptLeaves(dep) && OptNormal(basedep) ==>
          && VisibleInside(sym, basedep, v, a)
          && (OptNormal(dep) && !inside ==> OptValue(dep, a) == MOD && v == NO)
          && (OptNormal(dep) && OptNoTristateUnderNot(dep) ==> inside))
  }

  lemma TakenHasProperty(sym: Symbol, basedep: Option<Expr>, base: Expr, dep: Option<Expr>, d: Expr)
    requires ShowsWhere(basedep, base) && ShowsWhere(dep, d) && TakenIn(sym, base, d, dep)
    ensures InsideProperty(sym, basedep, dep)
  {
    hide ShowsWhere, TakenIn, InsideAt;
    if dep.Some? && sym.kind in {Boolean, Tristate} {
      forall a: Assignment | Typed(a) ensures InsideAt(sym, basedep, dep, a) {
        if DependsSymbol(dep.value, sym) {
          DependsInside(sym, basedep, dep, a);
        } else {
          ImpliedInside(sym, basedep, base, dep, d, a);
        }
      }
    }
  }

  lemma DependsInside(sym: Symbol, basedep: Option<Expr>, dep: Option<Expr>, a: Assignment)
    requires Typed(a) && sym.kind in {Boolean, Tristate} && dep.Some? && DependsSymbol(dep.value, sym)
    ensures InsideAt(sym, basedep, dep, a)
  {
    hide Typed;
    DependsImplies(dep.value, sym, a);
  }

  lemma ImpliedInside(sym: Symbol, basedep: Option<Expr>, base: Expr, dep: Option<Expr>, d: Expr, a: Assignment)
    requires Typed(a) && ShowsWhere(basedep, base) && ShowsWhere(dep, d) && TakenIn(sym, base, d, dep)
    requires !DependsSymbol(dep.value, sym)
    ensures InsideAt(sym, basedep, dep, a)
  {
    hide Typed, Lowered, Settled, EliminateEq;
    if OptLeaves(basedep) && OptLeaves(dep) && OptNormal(basedep) {
      EliminatedToYesImplies(d, base, a);
      if basedep.Some? { ReadModVisible(basedep.value, a); }
      if OptNormal(dep) {
        ReadModVisible(dep.value, a);
        if Eval(dep.value, a) == YES { ReadModYes(dep.value, a); }
      }
    }
  }

  lemma {:induction false} ReadModYes(e: Expr, a: Assignment)
    requires Typed(a) && Normal(e) && Eval(e, a) == YES
    ensures Eval(e, ReadMod(a, SYM_NO)) == YES
  {
    match e
    case Bin(op, l, r) =>
      if Eval(l, a) == YES { ReadModYes(l, a); }
      if Eval(r, a) == YES { ReadModYes(r, a); }
    case _ =>
  }

  /** Whether an entry after a symbol becomes part of its sub-menu. */
  method SubMenuTest(sym: Symbol, ghost basedep: Option<Expr>, base: Expr, dep: Option<Expr>)
    returns (inside: bool, ghost d: Expr)
    requires ShowsWhere(basedep, base)
    ensures ShowsWhere(dep, d) && (inside <==> TakenIn(sym, base, d, dep))
    ensures inside ==> InsideProperty(sym, basedep, dep)
  {
    hide ShowsWhere, InsideProperty;
    var dv := Visible(dep);
    d := dv;
    if dep.None? || !ContainsSymbol(dep.value, sym) { return false, d; }
    if DependsSymbol(dep.value, sym) {
      inside := true;
    } else {
      var (d', b') := EliminateEq(dv, base);
      inside := b' == YES_EXPR;
    }
    if inside { TakenHasProperty(sym, basedep, base, dep, d); }
  }

  // ----- the sub-menus of a list -----

  /** A menu entry with its symbol, if it has one, and the condition of its prompt, or its own without a prompt. */
  datatype Entry = Entry(sym: Option<Symbol>, hasList: bool, hasPrompt: bool, visible: Option<Expr>, dep: Option<Expr>)
  {
    function Cond(): Option<Expr> { if hasPrompt then visible else dep }
    function Base(): Option<Expr> { if hasPrompt then visible else None }
    predicate Takes() { !hasList && sym.Some? }
  }

  ghost predicate Taken(e: Entry, f: Entry) {
    e.Takes() && exists base, d ::
      ShowsWhere(e.Base(), base) && ShowsWhere(f.Cond(), d) && TakenIn(e.sym.value, base, d, f.Cond())
  }

  ghost predicate Refused(e: Entry, f: Entry) {
    e.Takes() ==> exists base, d ::
      ShowsWhere(e.Base(), base) && ShowsWhere(f.Cond(), d) && !TakenIn(e.sym.value, base, d, f.Cond())
  }

  /** An entry that is refused has no conjunct that makes it depend on the symbol. */
  lemma RefusedIndependent(e: Entry, f: Entry)
    requires Refused(e, f) && e.sym.Some? && !e.hasList
    ensures var c := if f.hasPrompt then f.visible else f.dep;
            c.Some? ==> Independent(c.value, e.sym.value)
  {
    if f.Cond().Some? {
      var c, s := f.Cond().value, e.sym.value;
      DependsExactly(c, s);
      assert !DependsSymbol(c, s);
    }
  }

  lemma TakenInside(e: Entry, f: Entry)
    requires Taken(e, f)
    ensures e.sym.Some? && InsideProperty(e.sym.value, e.Base(), f.Cond())
    ensures f.Cond().Some? && exists x <- Atoms(f.Cond().value) :: Names(x, e.sym.value)
  {
    hide ShowsWhere, TakenIn, InsideProperty;
    var base, d :| ShowsWhere(e.Base(), base) && ShowsWhere(f.Cond(), d) && TakenIn(e.sym.value, base, d, f.Cond());
    TakenHasProperty(e.sym.value, e.Base(), base, f.Cond(), d);
    MentionsSymbol(e.sym.value, base, d, f.Cond());
  }

  lemma MentionsSymbol(sym: Symbol, base: Expr, d: Expr, dep: Option<Expr>)
    requires TakenIn(sym, base, d, dep)
    ensures dep.Some? && exists x <- Atoms(dep.value) :: Names(x, sym)
  {
    ContainedExactly(dep.value, sym);
  }

  /** The entries between p and k are in the sub-menu of p, or in one within it. */
  predicate Below(parents: seq<int>, p: int, k: int)
    requires 0 <= p && k <= |parents|
  {
    forall m :: p < m < k ==> p <= parents[m]
  }

  /** The entry at j was taken in by its parent, at i or after, with nothing but the parent's sub-menu in between. */
  ghost predicate Placed(entries: seq<Entry>, parents: seq<int>, i: int, j: int)
    requires 0 <= i < j < |entries| == |parents|
  {
    i <= parents[j] < j && Taken(entries[parents[j]], entries[j]) && Below(parents, parents[j], j)
  }

  /** If the sub-menu of p ends before k, which is next or belongs to an entry before p, then p refuses k. */
  ghost predicate Ends(entries: seq<Entry>, parents: seq<int>, p: int, k: int, next: int)
    requires 0 <= p < k <= next <= |entries| == |parents|
  {
    k < |entries| && (k == next || parents[k] < p) && Below(parents, p, k) ==> Refused(entries[p], entries[k])
  }

  /** The entries after i up to next form sub-menus: every one has its place, and each sub-menu of an entry from first
      on ends where its symbol refuses an entry. */
  ghost predicate Nested(entries: seq<Entry>, parents: seq<int>, i: int, first: int, next: int)
    requires 0 <= i < next <= |entries| == |parents| && i <= first
  {
    && (forall j :: i < j < next ==> Placed(entries, parents, i, j))
    && (forall p, k :: first <= p < k <= next ==> Ends(entries, parents, p, k, next))
  }

  lemma SubMenuEnds(entries: seq<Entry>, parents: seq<int>, i: int, next: int)
    requires 0 <= i < next <= |entries| == |parents| && Nested(entries, parents, i, i + 1, next)
    requires next < |entries| ==> Refused(entries[i], entries[next])
    ensures Nested(entries, parents, i, i, next)
  {
    hide Taken, Refused;
    forall k | i < k <= next ensures Ends(entries, parents, i, k, next) {
      if k < next { assert Placed(entries, parents, i, k); }
    }
  }

  /** menu_finalize for an entry of a list: its sub-menu, with the sub-menus in it, ends before next. */
  method FinalizeEntry(entries: seq<Entry>, parents: array<int>, i: nat) returns (next: nat)
    requires i < |entries| == parents.Length
    modifies parents
    ensures i < next <= |entries|
    ensures forall j :: 0 <= j < parents.Length && !(i < j < next) ==> parents[j] == old(parents[j])
    ensures Nested(entries, parents[..], i, i, next)
    // an entry that follows the sub-menu and requires its symbol would have been taken in
    ensures next < |entries| && entries[i].sym.Some? && !entries[i].hasList ==>
              var s, f := entries[i].sym.value, entries[next];
              var c := if f.hasPrompt then f.visible else f.dep;
              c.Some? ==> Independent(c.value, s)
    decreases |entries| - i
  {
    hide Nested, Taken, Refused, ShowsWhere, TakenIn, InsideProperty, Independent;
    var e := entries[i];
    next := i + 1;
    NoEntryYet(entries, parents[..], i);
    if e.hasList || e.sym.None? {
      TakesNone(e, entries);
      SubMenuEnds(entries, parents[..], i, next);
      return;
    }
    var base := Visible(if e.hasPrompt then e.visible else None);
    while next < |entries|
      invariant i < next <= |entries|
      invariant forall j :: 0 <= j < parents.Length && !(i < j < next) ==> parents[j] == old(parents[j])
      invariant Nested(entries, parents[..], i, i + 1, next)
    {
      var j := next;
      var dep := if entries[j].hasPrompt then entries[j].visible else entries[j].dep;
      var inside, d := SubMenuTest(e.sym.value, e.Base(), base, dep);
      Decided(e, entries[j], base, d);
      if !inside {
        RefusedIndependent(e, entries[j]);
        break;
      }
      ghost var before := parents[..];
      next := FinalizeEntry(entries, parents, j);
      ghost var nested := parents[..];
      parents[j] := i;
      OneMoreInside(entries, before, nested, i, j, next);
      assert parents[..] == nested[j := i];
    }
    SubMenuEnds(entries, parents[..], i, next);
  }

  lemma NoEntryYet(entries: seq<Entry>, parents: seq<int>, i: int)
    requires 0 <= i < |entries| == |parents|
    ensures Nested(entries, parents, i, i + 1, i + 1)
  {}

  lemma TakesNone(e: Entry, entries: seq<Entry>)
    requires !e.Takes()
    ensures forall f <- entries :: Refused(e, f)
  {}

  lemma Decided(e: Entry, f: Entry, base: Expr, d: Expr)
    requires e.Takes() && ShowsWhere(e.Base(), base) && ShowsWhere(f.Cond(), d)
    ensures if TakenIn(e.sym.value, base, d, f.Cond()) then Taken(e, f) else Refused(e, f)
  {}

  /** The entry at j and the sub-menus within its own join the sub-menu of i. */
  lemma OneMoreInside(entries: seq<Entry>, before: seq<int>, nested: seq<int>, i: int, j: int, next: int)
    requires 0 <= i < j < next <= |entries| == |before| == |nested|
    requires Nested(entries, before, i, i + 1, j) && Nested(entries, nested, j, j, next)
    requires Taken(entries[i], entries[j])
    requires forall m :: 0 <= m < |before| && !(j < m < next) ==> nested[m] == before[m]
    ensures Nested(entries, nested[j := i], i, i + 1, next)
  {
    hide Taken, Refused;
    var after := nested[j := i];
    forall m | i < m < next ensures Placed(entries, after, i, m) {
      if m < j {
        assert Placed(entries, before, i, m);
      } else if m > j {
        assert Placed(entries, nested, j, m);
      } else {
        forall l | i < l < j ensures i <= after[l] { assert Placed(entries, before, i, l); }
      }
    }
    forall p, k | i + 1 <= p < k <= next ensures Ends(entries, after, p, k, next) {
      if p < j && k <= j {
        assert Ends(entries, before, p, k, j);
        if Below(after, p, k) {
          forall m | p < m < k ensures p <= before[m] { assert after[m] == before[m]; }
        }
      } else if p < j {
        assert after[j] < p;
      } else {
        assert Ends(entries, nested, p, k, next);
        if Below(after, p, k) {
          forall m | p < m < k ensures p <= nested[m] { assert after[m] == nested[m]; }
        }
      }
    }
  }

  /** The entries before next stand on their own or in sub-menus that end where their symbol refuses an entry. */
  ghost predicate Listed(entries: seq<Entry>, parents: seq<int>, next: int)
    requires 0 <= next <= |entries| == |parents|
  {
    && (forall j :: 0 <= j < next ==> parents[j] == -1 || (j > 0 && Placed(entries, parents, 0, j)))
    && (forall p, k :: 0 <= p < k <= next ==> Ends(entries, parents, p, k, next))
  }

  lemma OneMoreListed(entries: seq<Entry>, before: seq<int>, after: seq<int>, j: int, next: int)
    requires 0 <= j < next <= |entries| == |before| == |after|
    requires Listed(entries, before, j) && Nested(entries, after, j, j, next) && before[j] == -1
    requires forall m :: 0 <= m < |before| && !(j < m < next) ==> after[m] == before[m]
    ensures Listed(entries, after, next)
  {
    hide Taken, Refused;
    forall m | 0 <= m < next ensures after[m] == -1 || (m > 0 && Placed(entries, after, 0, m)) {
      if m < j {
        assert before[m] == -1 || (m > 0 && Placed(entries, before, 0, m));
      } else if m > j {
        assert Placed(entries, after, j, m);
      }
    }
    forall p, k | 0 <= p < k <= next ensures Ends(entries, after, p, k, next) {
      if k <= j {
        assert Ends(entries, before, p, k, j);
        if Below(after, p, k) {
          forall m | p < m < k ensures p <= before[m] { assert after[m] == before[m]; }
        }
      } else if p < j {
        assert after[j] < p;
      } else {
        assert Ends(entries, after, p, k, next);
      }
    }
  }

  /** menu_finalize for the list of a menu: parents[j] is -1 for an entry that stays on the list, else the entry whose
      sub-menu it is in. */
  method FinalizeList(entries: seq<Entry>) returns (parents: array<int>)
    ensures fresh(parents) && parents.Length == |entries| && Listed(entries, parents[..], |entries|)
  {
    hide Nested, Listed;
    parents := new int[|entries|](_ => -1);
    NothingListed(entries, parents[..]);
    var next := 0;
    while next < |entries|
      invariant next <= |entries| && Listed(entries, parents[..], next)
      invariant forall j :: next <= j < |entries| ==> parents[j] == -1
    {
      var j := next;
      ghost var before := parents[..];
      next := FinalizeEntry(entries, parents, j);
      OneMoreListed(entries, before, parents[..], j, next);
    }
  }

  lemma NothingListed(entries: seq<Entry>, parents: seq<int>)
    requires |entries| == |parents|
    ensures Listed(entries, parents, 0)
  {}

  // ----- when the sub-menu property fails for some prompt -----

  /** No y, n or m stands alone, and no bool symbol is compared with m. */
  predicate NoConstants(e: Expr) {
    match e
    case Sym(s) => s.kind.Boolean?
    case Equal(l, r) => !(l.kind.Boolean? && r == SYM_MOD)
    case Unequal(l, r) => !(l.kind.Boolean? && r == SYM_MOD)
    case Not(x) => NoConstants(x)
    case Bin(_, l, r) => NoConstants(l) && NoConstants(r)
  }

  lemma {:induction false} CompareNoConstants(e: Expr, t: Rel)
    requires Normal(e) && TristateLeaves(e)
    ensures NoConstants(TransCompareExpr(e, t, SYM_NO).value)
  {
    match e
    case Bin(_, l, r) =>
      CompareNoConstants(l, Eq);
      CompareNoConstants(r, Eq);
    case _ =>
  }

  lemma {:induction false} TransformNoConstants(e: Expr)
    requires NoConstants(e)
    ensures NoConstants(Transform(e))
    decreases Weight(e)
  {
    match e
    case Bin(_, l, r) =>
      TransformNoConstants(l);
      TransformNoConstants(r);
    case Not(x) =>
      TransformNoConstants(x);
      match Transform(x) {
        case Not(y) => TransformNoConstants(y);
        case Bin(op, l, r) =>
          assert Weight(Not(l)) + Weight(Not(r)) + 2 == 2 * Weight(Transform(x));
          TransformNoConstants(Bin(Dual(op), Not(l), Not(r)));
        case _ =>
      }
    case _ =>
  }

  lemma {:induction false} NotTwice(e: Expr)
    requires Normal(e) && NoConstants(e)
    ensures Transform(Not(Transform(Not(e)))) == e
  {
    match e
    case Bin(op, l, r) =>
      NotTwice(l);
      NotTwice(r);
      PushedThrough(op, l, r);
      TransformNormal(Not(l));
      TransformNormal(Not(r));
      PushedThrough(Dual(op), Transform(Not(l)), Transform(Not(r)));
    case Not(x) =>
      assert Transform(e) == e && Transform(Not(e)) == x;
    case Sym(_) =>
      assert Transform(Not(e)) == Not(e);
    case Equal(l, r) =>
      assert Transform(e) == e && Transform(Not(e)) == Unequal(l, r);
    case Unequal(l, r) =>
      assert Transform(e) == e && Transform(Not(e)) == Equal(l, r);
  }

  /** Comparing such an expression with n, either way, and normalising gives it back, or its negation. */
  lemma {:induction false} CompareAgain(e: Expr)
    requires Normal(e) && NoConstants(e)
    ensures Transform(TransCompareExpr(e, Ne, SYM_NO).value) == e
    ensures Transform(TransCompareExpr(e, Eq, SYM_NO).value) == Transform(Not(e))
  {
    match e
    case Bin(op, l, r) =>
      hide Transform, NoConstants, TransCompareExpr;
      CompareBin(op, l, r);
      CompareAgain(l);
      CompareAgain(r);
      var l', r' := TransCompareExpr(l, Eq, SYM_NO).value, TransCompareExpr(r, Eq, SYM_NO).value;
      TransformNormal(l');
      TransformNormal(r');
      PushedThrough(op, l, r);
      TransformBin(Dual(op), l', r');
      NotOfTransformed(Bin(Dual(op), l', r'));
      PushedThrough(Dual(op), Transform(l'), Transform(r'));
      NotTwice(l);
      NotTwice(r);
    case _ =>
      CompareLeaf(e);
  }

  lemma CompareBin(op: Op, l: Expr, r: Expr)
    requires NoConstants(Bin(op, l, r))
    ensures NoConstants(l) && NoConstants(r)
    ensures TransCompareExpr(l, Eq, SYM_NO).Some? && TransCompareExpr(r, Eq, SYM_NO).Some?
    ensures var b := Bin(Dual(op), TransCompareExpr(l, Eq, SYM_NO).value, TransCompareExpr(r, Eq, SYM_NO).value);
            && TransCompareExpr(Bin(op, l, r), Eq, SYM_NO) == Some(b)
            && TransCompareExpr(Bin(op, l, r), Ne, SYM_NO) == Some(Not(b))
  {}

  lemma TransformBin(op: Op, l: Expr, r: Expr)
    ensures Transform(Bin(op, l, r)) == Bin(op, Transform(l), Transform(r))
  {}

  lemma CompareLeaf(e: Expr)
    requires Normal(e) && NoConstants(e) && !e.Bin?
    ensures Transform(TransCompareExpr(e, Ne, SYM_NO).value) == e
    ensures Transform(TransCompareExpr(e, Eq, SYM_NO).value) == Transform(Not(e))
  {
    NormalIsFixed(e);
    if e.Not? {
      assert TransCompareExpr(e, Ne, SYM_NO) == Some(Equal(e.arg.sym, SYM_NO));
      assert TransCompareExpr(e, Eq, SYM_NO) == Some(Unequal(e.arg.sym, SYM_NO));
      assert Transform(Not(e)) == e.arg;
    }
  }

  lemma NotOfTransformed(e: Expr)
    ensures Transform(Not(e)) == Transform(Not(Transform(e)))
  {
    TransformFixpoint(e);
  }

  /** A conjunction worth n has an operand worth n. */
  lemma {:induction false} NoOperand(e: Expr, a: Assignment) returns (p: Path)
    requires Eval(e, a) == NO
    ensures LeafSlot(AndOp, e, p) && Eval(AtSpine(AndOp, e, p), a) == NO
    decreases e
  {
    if IsBin(e, AndOp) {
      var l := Eval(e.left, a) == NO;
      var q := NoOperand(if l then e.left else e.right, a);
      p := [if l then L else R] + q;
      assert p[1..] == q;
    } else {
      p := [];
    }
  }

  lemma {:induction false} OperandNoConstants(t: Op, e: Expr, p: Path)
    requires LeafSlot(t, e, p) && NoConstants(e)
    ensures NoConstants(AtSpine(t, e, p))
    decreases |p|
  {
    if p != [] { OperandNoConstants(t, if p[0].L? then e.left else e.right, p[1..]); }
  }

  function SymbolEntry(sym: Symbol, base: Expr): Entry { Entry(Some(sym), false, true, Some(base), None) }
  function PromptEntry(dep: Expr): Entry { Entry(None, false, true, Some(dep), None) }

  /** Where a condition in normal form, whose lowered form is a settled conjunction, is worth m and, with m read as y,
      n, there is a condition of a prompt under which the entry is taken in and visible outside. */
  lemma SubMenuTight(sym: Symbol, dep: Expr, a: Assignment) returns (base: Expr)
    requires Typed(a) && sym.kind in {Boolean, Tristate} && a.tri(sym) == NO
    requires Normal(dep) && TristateLeaves(dep) && ContainsSymbol(dep, sym)
    requires Eval(dep, a) == MOD && Eval(dep, ReadMod(a, SYM_NO)) == NO
    requires IsBin(Lowered(Some(dep)), AndOp) && Settled(Lowered(Some(dep)))
    ensures Normal(base) && TristateLeaves(base) && !VisibleInside(sym, Some(base), Eval(dep, a), a)
    ensures Taken(SymbolEntry(sym, base), PromptEntry(dep))
  {
    hide Typed, Settled, EliminateEq, ShowsWhere, Eval, ReadMod, Transform, NoConstants;
    var d := Lowered(Some(dep));
    LoweredExact(Some(dep), a);
    LoweredNoConstants(dep);
    var p := NoOperand(d, a);
    base := AtSpine(AndOp, d, p);
    OperandAt(AndOp, d, p);
    OperandNoConstants(AndOp, d, p);
    SettledOperand(AndOp, d, p);
    LoweredAgain(base);
    assert Operands(AndOp, base) == [base];
    ConjunctsRecognised(d, base);
    LoweredShows(Some(base));
    LoweredShows(Some(dep));
    assert SymbolEntry(sym, base).Base() == Some(base) && PromptEntry(dep).Cond() == Some(dep);
    Decided(SymbolEntry(sym, base), PromptEntry(dep), base, d);
  }

  ghost predicate InsideAlways(sym: Symbol, dep: Expr) {
    forall base: Expr, a: Assignment {:trigger Taken(SymbolEntry(sym, base), PromptEntry(dep)), Typed(a)} ::
      Normal(base) && TristateLeaves(base) && Taken(SymbolEntry(sym, base), PromptEntry(dep)) && Typed(a) ==>
        VisibleInside(sym, Some(base), Eval(dep, a), a)
  }

  /** Where the symbol is n and the condition m, reading m as y does not make the condition n. */
  ghost predicate KeptByReadMod(sym: Symbol, dep: Expr) {
    forall a: Assignment {:trigger Typed(a)} :: Typed(a) && a.tri(sym) == NO && Eval(dep, a) == MOD ==>
      Eval(dep, ReadMod(a, SYM_NO)) != NO
  }

  /** So for such a condition the sub-menu property holds under every prompt that takes the entry in, if and only if
      reading m as y does not hide it where the symbol is n. */
  lemma SubMenuExactly(sym: Symbol, dep: Expr)
    requires sym.kind in {Boolean, Tristate} && Normal(dep) && TristateLeaves(dep) && ContainsSymbol(dep, sym)
    requires IsBin(Lowered(Some(dep)), AndOp) && Settled(Lowered(Some(dep)))
    ensures InsideAlways(sym, dep) <==> KeptByReadMod(sym, dep)
  {
    hide Typed, Taken, Settled, Lowered;
    if !KeptByReadMod(sym, dep) {
      var a: Assignment :| Typed(a) && a.tri(sym) == NO && Eval(dep, a) == MOD && Eval(dep, ReadMod(a, SYM_NO)) == NO;
      var base := SubMenuTight(sym, dep, a);
    } else {
      forall base: Expr, a: Assignment | Normal(base) && TristateLeaves(base) && Typed(a)
                                         && Taken(SymbolEntry(sym, base), PromptEntry(dep))
        ensures VisibleInside(sym, Some(base), Eval(dep, a), a)
      {
        TakenInside(SymbolEntry(sym, base), PromptEntry(dep));
        assert InsideAt(sym, Some(base), Some(dep), a);
      }
    }
  }

  lemma LoweredNoConstants(dep: Expr)
    requires Normal(dep) && TristateLeaves(dep)
    ensures Normal(Lowered(Some(dep))) && NoConstants(Lowered(Some(dep)))
  {
    CompareNoConstants(dep, Ne);
    TransformNoConstants(TransCompareExpr(dep, Ne, SYM_NO).value);
    TransformNormal(TransCompareExpr(dep, Ne, SYM_NO).value);
  }

  lemma LoweredAgain(e: Expr)
    requires Normal(e) && NoConstants(e)
    ensures Lowered(Some(e)) == e && !IsYn(e) && TristateLeaves(e)
  {
    CompareAgain(e);
    NoConstantLeaves(e);
  }

  lemma {:induction false} NoConstantLeaves(e: Expr)
    requires NoConstants(e)
    ensures TristateLeaves(e)
  {
    match e
    case Not(x) => NoConstantLeaves(x);
    case Bin(_, l, r) => NoConstantLeaves(l); NoConstantLeaves(r);
    case _ =>
  }

  lemma LoweredShows(oe: Option<Expr>)
    requires Settled(Lowered(oe))
    ensures ShowsWhere(oe, Lowered(oe))
  {
    if OptLeaves(oe) {
      forall a: Assignment | Typed(a)
        ensures Eval(Lowered(oe), a) == if OptValue(oe, ReadMod(a, SYM_NO)) != NO then YES else NO
      {
        LoweredExact(oe, a);
      }
    }
  }

  // ----- an entry that is taken in and visible outside -----

  /** `!x && (s || t)` under a symbol s whose prompt depends on `x = n`. */
  function OutsideDep(x: Symbol, s: Symbol, t: Symbol): Expr {
    Bin(AndOp, Not(Sym(x)), Bin(OrOp, Sym(s), Sym(t)))
  }

  function OutsideBase(x: Symbol): Expr { Equal(x, SYM_NO) }

  predicate ThreeTristates(x: Symbol, s: Symbol, t: Symbol) {
    x.kind.Tristate? && s.kind.Tristate? && t.kind.Tristate? && x != s && x != t && s != t
  }

  lemma SettledAtom(e: Expr)
    requires !e.Bin?
    ensures Settled(e)
  {}

  lemma PairSlots(t: Op, l: Expr, r: Expr, p: Path)
    requires !IsBin(l, t) && !IsBin(r, t) && InSpine(t, Bin(t, l, r), p)
    ensures p == [] || (p == [L] && AtSpine(t, Bin(t, l, r), p) == l) || (p == [R] && AtSpine(t, Bin(t, l, r), p) == r)
  {
    if p != [] { assert p[1..] == []; }
  }

  /** A spine of two settled operands is settled when they do not join and neither is struck against the other or
      the spine. */
  lemma SettledPair(t: Op, l: Expr, r: Expr)
    requires !IsBin(l, t) && !IsBin(r, t) && Settled(l) && Settled(r)
    requires Join(t, l, r).None? && Join(t, r, l).None?
    requires l.Bin? ==> !Struck(t, l, r) && !Struck(t, l, Bin(t, l, r))
    requires r.Bin? ==> !Struck(t, r, l) && !Struck(t, r, Bin(t, l, r))
    ensures Settled(Bin(t, l, r))
  {
    hide Join, Struck, AtSpine, InSpine;
    var e := Bin(t, l, r);
    forall r1: Path, r2: Path | LeafSlot(t, e, r1) && LeafSlot(t, e, r2) && r1 != r2 && r1 != []
      ensures PairJoined(t, AtSpine(t, e, r1), AtSpine(t, e, r2))
    {
      RootNoLeaf(t, e);
      PairSlots(t, l, r, r1);
      PairSlots(t, l, r, r2);
    }
    forall r1: Path, r2: Path | LeafSlot(t, e, r1) && InSpine(t, e, r2) && r1 != r2 && r1 != []
      ensures PairUnstruck(t, AtSpine(t, e, r1), AtSpine(t, e, r2))
    {
      RootNoLeaf(t, e);
      PairSlots(t, l, r, r1);
      PairSlots(t, l, r, r2);
    }
  }

  /** The lowered forms of the two conditions. */
  lemma OutsideLowered(x: Symbol, s: Symbol, t: Symbol)
    requires ThreeTristates(x, s, t)
    ensures Lowered(Some(OutsideBase(x))) == Equal(x, SYM_NO)
    ensures Lowered(Some(OutsideDep(x, s, t)))
         == Bin(AndOp, Equal(x, SYM_NO), Bin(OrOp, Unequal(s, SYM_NO), Unequal(t, SYM_NO)))
  {
    var l, r := Unequal(x, SYM_NO), Bin(AndOp, Equal(s, SYM_NO), Equal(t, SYM_NO));
    assert TransCompareExpr(Not(Sym(x)), Eq, SYM_NO) == TransCompareExpr(Sym(x), Ne, SYM_NO) == Some(l);
    assert TransCompareExpr(Sym(s), Eq, SYM_NO) == Some(Equal(s, SYM_NO));
    assert TransCompareExpr(Sym(t), Eq, SYM_NO) == Some(Equal(t, SYM_NO));
    assert TransCompareExpr(Bin(OrOp, Sym(s), Sym(t)), Eq, SYM_NO) == Some(r);
    assert TransCompare(Some(OutsideDep(x, s, t)), Ne, SYM_NO) == Some(Not(Bin(OrOp, l, r)));
    NormalIsFixed(Bin(OrOp, l, r));
    PushedThrough(OrOp, l, r);
    assert Transform(Not(l)) == Equal(x, SYM_NO);
    NormalIsFixed(r);
    PushedThrough(AndOp, Equal(s, SYM_NO), Equal(t, SYM_NO));
    assert Transform(Not(Equal(s, SYM_NO))) == Unequal(s, SYM_NO);
    assert Transform(Not(Equal(t, SYM_NO))) == Unequal(t, SYM_NO);
    assert TransCompare(Some(OutsideBase(x)), Ne, SYM_NO) == Some(Equal(x, SYM_NO));
  }

  lemma OutsideSettled(x: Symbol, s: Symbol, t: Symbol)
    requires ThreeTristates(x, s, t)
    ensures Settled(Bin(AndOp, Equal(x, SYM_NO), Bin(OrOp, Unequal(s, SYM_NO), Unequal(t, SYM_NO))))
  {
    var a, b, c := Equal(x, SYM_NO), Unequal(s, SYM_NO), Unequal(t, SYM_NO);
    var o := Bin(OrOp, b, c);
    SettledAtom(a);
    SettledAtom(b);
    SettledAtom(c);
    SettledPair(OrOp, b, c);
    PushedThrough(OrOp, b, c);
    NormalIsFixed(o);
    assert Transform(Not(o)) == Bin(AndOp, Equal(s, SYM_NO), Equal(t, SYM_NO)) by {
      assert Transform(Not(b)) == Equal(s, SYM_NO) && Transform(Not(c)) == Equal(t, SYM_NO);
    }
    NotStruck(x, s, t);
    SettledPair(AndOp, a, o);
  }

  lemma NotStruck(x: Symbol, s: Symbol, t: Symbol)
    requires ThreeTristates(x, s, t)
    ensures var a, o := Equal(x, SYM_NO), Bin(OrOp, Unequal(s, SYM_NO), Unequal(t, SYM_NO));
            !Struck(AndOp, o, a) && !Struck(AndOp, o, Bin(AndOp, a, o))
  {
    var a, b, c := Equal(x, SYM_NO), Unequal(s, SYM_NO), Unequal(t, SYM_NO);
    var o := Bin(OrOp, b, c);
    PushedThrough(OrOp, b, c);
    assert Transform(Not(b)) == Equal(s, SYM_NO) && Transform(Not(c)) == Equal(t, SYM_NO);
    var n := Bin(AndOp, Equal(s, SYM_NO), Equal(t, SYM_NO));
    assert Transform(Not(o)) == n;
    assert ExtractEqRec(AndOp, None, Equal(s, SYM_NO), a) == (None, Equal(s, SYM_NO), a);
    assert ExtractEqRec(AndOp, None, Equal(t, SYM_NO), a) == (None, Equal(t, SYM_NO), a);
    assert ExtractEqRec(AndOp, None, n, a) == (None, n, a);
    assert ExtractEqRec(AndOp, None, Equal(s, SYM_NO), o) == (None, Equal(s, SYM_NO), o);
    assert ExtractEqRec(AndOp, None, Equal(t, SYM_NO), o) == (None, Equal(t, SYM_NO), o);
    var e := Bin(AndOp, a, o);
    assert ExtractEqRec(AndOp, None, Equal(s, SYM_NO), e) == (None, Equal(s, SYM_NO), e);
    assert ExtractEqRec(AndOp, None, Equal(t, SYM_NO), e) == (None, Equal(t, SYM_NO), e);
    assert ExtractEqRec(AndOp, None, n, e) == (None, n, e);
  }

  lemma OutsideEliminated(x: Symbol, s: Symbol, t: Symbol)
    ensures var a, o := Equal(x, SYM_NO), Bin(OrOp, Unequal(s, SYM_NO), Unequal(t, SYM_NO));
            EliminateEq(Bin(AndOp, a, o), a).1 == YES_EXPR
  {
    var a, o := Equal(x, SYM_NO), Bin(OrOp, Unequal(s, SYM_NO), Unequal(t, SYM_NO));
    assert ElimSpine(AndOp, a, a) == (YES_EXPR, YES_EXPR);
    assert ElimSpine(AndOp, o, YES_EXPR) == (o, YES_EXPR);
    assert ElimSpine(AndOp, Bin(AndOp, a, o), a) == (Bin(AndOp, YES_EXPR, o), YES_EXPR);
  }

  lemma OutsideShape(x: Symbol, s: Symbol, t: Symbol)
    requires ThreeTristates(x, s, t)
    ensures Normal(OutsideDep(x, s, t)) && TristateLeaves(OutsideDep(x, s, t))
    ensures Normal(OutsideBase(x)) && TristateLeaves(OutsideBase(x))
    ensures ContainsSymbol(OutsideDep(x, s, t), s) && !DependsSymbol(OutsideDep(x, s, t), s)
  {
    var o := Bin(OrOp, Sym(s), Sym(t));
    assert TristateLeaves(Sym(s)) && TristateLeaves(Sym(t)) && TristateLeaves(Sym(x));
    assert Normal(Sym(s)) && Normal(Sym(t)) && Normal(Not(Sym(x))) && TristateLeaves(Not(Sym(x)));
    assert ContainsSymbol(Sym(s), s);
    assert Normal(o) && TristateLeaves(o) && ContainsSymbol(o, s);
    NoDisjunctDepends(Sym(s), Sym(t), s);
  }

  lemma NoDisjunctDepends(l: Expr, r: Expr, s: Symbol)
    ensures !DependsSymbol(Bin(OrOp, l, r), s)
  {
  }

  lemma OutsideValues(x: Symbol, s: Symbol, t: Symbol, a: Assignment)
    requires Typed(a) && ThreeTristates(x, s, t) && a.tri(x) == MOD && a.tri(s) == NO && a.tri(t) == YES
    ensures Eval(OutsideDep(x, s, t), a) == MOD && Eval(OutsideBase(x), a) == NO
  {
    assert Eval(Not(Sym(x)), a) == MOD && Eval(Bin(OrOp, Sym(s), Sym(t)), a) == YES;
    assert a.str(x) == "m";
  }

  /** A sub-menu that takes in an entry visible where neither the symbol nor its prompt is: x is m, t is y, s is n. */
  method SubMenuFails(x: Symbol, s: Symbol, t: Symbol) returns (inside: bool, ghost a: Assignment)
    requires ThreeTristates(x, s, t)
    ensures inside && Typed(a) && !VisibleInside(s, Some(OutsideBase(x)), Eval(OutsideDep(x, s, t), a), a)
    ensures Normal(OutsideDep(x, s, t)) && TristateLeaves(OutsideDep(x, s, t)) && Normal(OutsideBase(x))
  {
    hide Typed, EliminateEq, Lowered, Settled, InsideProperty;
    OutsideShape(x, s, t);
    OutsideLowered(x, s, t);
    OutsideSettled(x, s, t);
    SettledAtom(Equal(x, SYM_NO));
    OutsideEliminated(x, s, t);
    var base := Visible(Some(OutsideBase(x)));
    ghost var d;
    inside, d := SubMenuTest(s, Some(OutsideBase(x)), base, Some(OutsideDep(x, s, t)));
    a := OutsideAssignment(x, s, t);
    OutsideValues(x, s, t, a);
  }

  ghost function OutsideAssignment(x: Symbol, s: Symbol, t: Symbol): (a: Assignment)
    requires ThreeTristates(x, s, t)
    ensures Typed(a) && a.tri(x) == MOD && a.tri(s) == NO && a.tri(t) == YES
  {
    var v := (u: Symbol) => OutsideTri(x, t, u);
    var w := (u: Symbol) => "";
    TypedForAnyChoice(v, w);
    Chosen(v, w)
  }

  function OutsideTri(x: Symbol, t: Symbol, u: Symbol): Tri {
    if u == x then MOD else if u == t then YES else NO
  }
}
