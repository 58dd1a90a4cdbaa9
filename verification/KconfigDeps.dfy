/** The recursive-dependency check: a depth-first search with two flags per symbol that gives up on a symbol as soon
    as it meets one whose check is still going on. */
module KconfigDeps {
  import opened KconfigExpr
  import opened Options

  datatype PropType = ChoiceProp | SelectProp | DefaultProp | OtherProp

  datatype Property = Property(ptype: PropType, visible: Option<Expr>, expr: Option<Expr>)

  /** What a symbol's declarations say of it: its reverse dependencies and its property list. */
  datatype Info = Info(revDep: Option<Expr>, props: seq<Property>)

  type Graph = map<Symbol, Info>

  // ----- the dependency relation -----

  predicate OptMentions(oe: Option<Expr>, t: Symbol) { oe.Some? && ContainsSymbol(oe.value, t) }

  predicate PropDepends(p: Property, t: Symbol) {
    && !p.ptype.ChoiceProp? && !p.ptype.SelectProp?
    && (OptMentions(p.visible, t) || (p.ptype.DefaultProp? && OptMentions(p.expr, t)))
  }

  /** s depends on t: t occurs in s's reverse dependencies, in the condition of one of its properties, or in a
      default. */
  predicate Depends(g: Graph, s: Symbol, t: Symbol) {
    s in g && (OptMentions(g[s].revDep, t) || exists p <- g[s].props :: PropDepends(p, t))
  }

  predicate OptNames(oe: Option<Expr>, t: Symbol) { oe.Some? && exists x <- Atoms(oe.value) :: Names(x, t) }

  ghost predicate SameValue(oe: Option<Expr>, a: Assignment, b: Assignment) {
    oe.Some? ==> Eval(oe.value, a) == Eval(oe.value, b)
  }

  /** A symbol that s does not depend on can be changed without changing a reverse dependency, a property condition or
      a default of s. */
  lemma IndependentOf(g: Graph, s: Symbol, t: Symbol, a: Assignment, b: Assignment)
    requires s in g && !Depends(g, s, t) && AgreeButOn(t, a, b)
    ensures SameValue(g[s].revDep, a, b)
    ensures forall p <- g[s].props :: !p.ptype.ChoiceProp? && !p.ptype.SelectProp? ==>
              SameValue(p.visible, a, b) && (p.ptype.DefaultProp? ==> SameValue(p.expr, a, b))
  {
    forall e: Expr | !ContainsSymbol(e, t) ensures Eval(e, a) == Eval(e, b) { NotContained(e, t, a, b); }
  }

  /** One that it depends on is named there. */
  lemma DependsExactly(g: Graph, s: Symbol, t: Symbol)
    requires s in g
    ensures Depends(g, s, t) <==>
              || OptNames(g[s].revDep, t)
              || exists p <- g[s].props :: !p.ptype.ChoiceProp? && !p.ptype.SelectProp? &&
                   (OptNames(p.visible, t) || (p.ptype.DefaultProp? && OptNames(p.expr, t)))
  {
    forall oe: Option<Expr> ensures OptMentions(oe, t) <==> OptNames(oe, t) {
      if oe.Some? { ContainedExactly(oe.value, t); }
    }
  }

  ghost predicate Closed(g: Graph) {
    forall s, t {:trigger Depends(g, s, t)} :: Depends(g, s, t) ==> t in g
  }

  predicate Walk(g: Graph, p: seq<Symbol>) {
    |p| > 0 && forall i :: 0 < i < |p| ==> Depends(g, p[i - 1], p[i])
  }

  /** A walk that ends where it has been before. */
  predicate Lasso(g: Graph, p: seq<Symbol>) {
    Walk(g, p) && p[|p| - 1] in p[..|p| - 1]
  }

  /** A dependency cycle can be reached from r. */
  ghost predicate Recursive(g: Graph, r: Symbol) {
    exists p: seq<Symbol> :: Lasso(g, p) && p[0] == r
  }

  predicate Distinct(p: seq<Symbol>) {
    forall i, j :: 0 <= i < j < |p| ==> p[i] != p[j]
  }

  /** Every symbol in the list has all its dependencies before it. */
  ghost predicate Ordered(g: Graph, order: seq<Symbol>) {
    Distinct(order) && forall i, t {:trigger Depends(g, order[i], t)} ::
      0 <= i < |order| && Depends(g, order[i], t) ==> t in order[..i]
  }

  lemma WalkPart(g: Graph, p: seq<Symbol>, i: nat, j: nat)
    requires Walk(g, p) && i < j <= |p|
    ensures Walk(g, p[i..j])
  {
    var q := p[i..j];
    forall k | 0 < k < |q| ensures Depends(g, q[k - 1], q[k]) {
      assert q[k - 1] == p[i + k - 1] && q[k] == p[i + k];
    }
  }

  lemma {:induction false} WalkDescends(g: Graph, order: seq<Symbol>, p: seq<Symbol>, i: nat)
    requires Ordered(g, order) && i < |order| && Walk(g, p) && |p| > 1 && p[0] == order[i]
    ensures p[|p| - 1] in order[..i]
    decreases |p|
  {
    assert Depends(g, p[0], p[1]);
    var j :| 0 <= j < i && order[j] == p[1];
    if |p| > 2 {
      WalkPart(g, p, 1, |p|);
      WalkDescends(g, order, p[1..|p|], j);
    }
  }

  /** An ordered list of symbols reaches no cycle. */
  lemma OrderedIsAcyclic(g: Graph, order: seq<Symbol>, r: Symbol)
    requires Ordered(g, order) && r in order
    ensures !Recursive(g, r)
  {
    forall p: seq<Symbol> | Lasso(g, p) && p[0] == r ensures false {
      var k :| 0 <= k < |p| - 1 && p[k] == p[|p| - 1];
      var i :| 0 <= i < |order| && order[i] == r;
      if k > 0 {
        WalkPart(g, p, 0, k + 1);
        WalkDescends(g, order, p[0..k + 1], i);
        i :| 0 <= i < |order| && order[i] == p[k];
      }
      WalkPart(g, p, k, |p|);
      WalkDescends(g, order, p[k..|p|], i);
    }
  }

  lemma OrderedExtend(g: Graph, order: seq<Symbol>, s: Symbol)
    requires Ordered(g, order) && s !in order && forall t :: Depends(g, s, t) ==> t in order
    ensures Ordered(g, order + [s])
  {
    var o := order + [s];
    forall i, t | 0 <= i < |o| && Depends(g, o[i], t) ensures t in o[..i] {
      if i < |order| {
        assert o[i] == order[i] && o[..i] == order[..i];
      } else {
        assert o[..i] == order;
      }
    }
  }

  // ----- the check -----

  /** Where the check stands: the symbols with SYMBOL_CHECK and SYMBOL_CHECKED, zconfnerrs now and before the check,
      and, for the proof, the symbols whose check is complete, whether an error was found, and where it was started. */
  datatype Stage = Stage(check: set<Symbol>, checked: set<Symbol>, errors: nat, base: nat,
                         order: seq<Symbol>, hit: bool, roots: set<Symbol>)

  ghost predicate IsStack(g: Graph, s: Stage, path: seq<Symbol>) {
    && Distinct(path) && s.check == (set x <- path)
    && (path != [] ==> Walk(g, path) && path[0] in s.roots)
  }

  /** The path is the chain of symbols under check. Until an error is found every other symbol whose check has
      begun is complete; an error comes with a cycle. */
  ghost predicate Valid(g: Graph, s: Stage, path: seq<Symbol>) {
    && Closed(g) && IsStack(g, s, path) && s.check <= s.checked <= g.Keys && s.roots <= g.Keys && s.errors >= s.base
    && (if s.hit then exists r <- s.roots :: Recursive(g, r)
        else
           && s.errors == s.base && Ordered(g, s.order)
           && s.checked == s.check + (set x <- s.order) && s.check !! (set x <- s.order))
  }

  /** What a check below the path does: it counts the error it found, unless the error is about a symbol of the
      path, which it reports to its caller. */
  ghost predicate Progress(g: Graph, s: Stage, s': Stage, path: seq<Symbol>, r: Option<Symbol>) {
    && Valid(g, s', path) && s.checked <= s'.checked && s'.base == s.base && s'.roots == s.roots
    && (s.hit ==> s'.hit) && s'.errors >= s.errors
    && (if r.Some? then s'.hit && r.value in path else s'.hit ==> s'.errors > s'.base)
    && (!s'.hit ==> s.order <= s'.order)
  }

  /** The target's check is complete, if there was no error. */
  ghost predicate Complete(s: Stage, t: Symbol) { !s.hit ==> t in s.order }

  lemma NoProgress(g: Graph, s: Stage, path: seq<Symbol>)
    requires Valid(g, s, path) && (s.hit ==> s.errors > s.base)
    ensures Progress(g, s, s, path, None)
  {}

  /** What follows from progress. */
  lemma After(g: Graph, s: Stage, s': Stage, path: seq<Symbol>, r: Option<Symbol>)
    requires Progress(g, s, s', path, r)
    ensures Valid(g, s', path) && s.checked <= s'.checked && s'.errors >= s.errors
    ensures s'.base == s.base && s'.roots == s.roots
    ensures if r.Some? then s'.hit else s'.hit ==> s'.errors > s'.base
    ensures forall t :: Complete(s, t) ==> Complete(s', t)
  {}

  lemma RevDepends(g: Graph, s: Symbol)
    requires s in g
    ensures forall t :: OptMentions(g[s].revDep, t) ==> Depends(g, s, t)
  {}

  lemma PropsDepend(g: Graph, s: Symbol, i: nat)
    requires s in g && i < |g[s].props|
    ensures forall t :: PropDepends(g[s].props[i], t) ==> Depends(g, s, t)
  {
    assert g[s].props[i] in g[s].props;
  }

  lemma ProgressTrans(g: Graph, s: Stage, s1: Stage, s2: Stage, path: seq<Symbol>, r: Option<Symbol>)
    requires Progress(g, s, s1, path, None) && Progress(g, s1, s2, path, r)
    ensures Progress(g, s, s2, path, r)
  {}

  /** Meeting a symbol under check closes a cycle. */
  lemma Found(g: Graph, s: Stage, path: seq<Symbol>, sym: Symbol)
    requires Valid(g, s, path) && sym in s.check
    requires path != [] ==> Depends(g, path[|path| - 1], sym)
    ensures Progress(g, s, s.(hit := true), path, Some(sym))
  {
    var p := path + [sym];
    assert p[..|p| - 1] == path;
    assert Lasso(g, p);
    assert Recursive(g, p[0]);
  }

  lemma Begin(g: Graph, s: Stage, path: seq<Symbol>, sym: Symbol)
    requires Valid(g, s, path) && sym !in s.checked
    requires if path == [] then sym in s.roots else Depends(g, path[|path| - 1], sym)
    ensures sym in g
    ensures Valid(g, s.(check := s.check + {sym}, checked := s.checked + {sym}), path + [sym])
  {
    var p := path + [sym];
    forall x ensures x in s.check + {sym} <==> x in p {}
  }

  /** The end of a symbol's check, s1: it joins the complete ones, and an error about it is counted. */
  lemma End(g: Graph, s: Stage, s1: Stage, path: seq<Symbol>, sym: Symbol, r: Option<Symbol>)
    requires Valid(g, s, path) && sym !in s.checked && sym in g && (s.hit ==> s.errors > s.base)
    requires Progress(g, s.(check := s.check + {sym}, checked := s.checked + {sym}), s1, path + [sym], r)
    requires !s1.hit ==> forall t :: Depends(g, sym, t) ==> t in s1.order
    ensures var counts := r == Some(sym);
            var s2 := s1.(check := s1.check - {sym},
                          order := if s1.hit then s1.order else s1.order + [sym],
                          errors := if counts then s1.errors + 1 else s1.errors);
            Progress(g, s, s2, path, if counts then None else r) && Complete(s2, sym)
  {
    var p := path + [sym];
    assert sym !in path;
    forall x ensures x in s1.check - {sym} <==> x in path {
      assert x in p <==> x in path || x == sym;
    }
    if !s1.hit {
      assert sym !in (set x <- s1.order);
      OrderedExtend(g, s1.order, sym);
    }
  }

  class Checker {
    const graph: Graph
    var check: set<Symbol>        // SYMBOL_CHECK: the symbol is being checked
    var checked: set<Symbol>      // SYMBOL_CHECKED: its check has begun
    var errors: nat               // zconfnerrs
    ghost var base: nat
    ghost var order: seq<Symbol>
    ghost var hit: bool
    ghost var roots: set<Symbol>

    constructor (graph: Graph, errors: nat)
      ensures this.graph == graph && this.errors == errors && check == {} && checked == {}
    {
      this.graph, this.errors, check, checked := graph, errors, {}, {};
    }

    ghost function Now(): Stage
      reads this
    {
      Stage(check, checked, errors, base, order, hit, roots)
    }

    ghost predicate Ready(path: seq<Symbol>)
      reads this
    {
      Valid(graph, Now(), path) && (hit ==> errors > base)
    }

    /** sym_check_deps on a symbol that neither is a choice nor belongs to one. */
    method CheckDeps(sym: Symbol, ghost path: seq<Symbol>) returns (r: Option<Symbol>)
      requires Ready(path)
      requires if path == [] then sym in roots else Depends(graph, path[|path| - 1], sym)
      modifies this
      ensures Progress(graph, old(Now()), Now(), path, r) && Complete(Now(), sym)
      decreases graph.Keys - checked, 0
    {
      hide Valid, Progress, Depends;
      ghost var s := Now();
      assert check <= checked && (!hit ==> checked == check + (set x <- order)) by { Flags(graph, s, path); }
      if sym in check {
        Found(graph, s, path, sym);
        hit := true;
        return Some(sym);
      }
      if sym in checked {
        NoProgress(graph, s, path);
        return None;
      }
      Begin(graph, s, path, sym);
      check, checked := check + {sym}, checked + {sym};
      r := CheckSymDeps(sym, path + [sym]);
      ghost var s1 := Now();
      check := check - {sym};
      if !hit { order := order + [sym]; }
      End(graph, s, s1, path, sym, r);
      if r.Some? && r.value == sym {
        errors := errors + 1;
        r := None;
      }
    }

    lemma Flags(g: Graph, s: Stage, path: seq<Symbol>)
      requires Valid(g, s, path)
      ensures s.check <= s.checked && (!s.hit ==> s.checked == s.check + (set x <- s.order))
    {}

    /** sym_check_sym_deps */
    method CheckSymDeps(sym: Symbol, ghost path: seq<Symbol>) returns (r: Option<Symbol>)
      requires Ready(path) && path != [] && path[|path| - 1] == sym && sym in graph
      modifies this
      ensures Progress(graph, old(Now()), Now(), path, r)
      ensures !hit ==> forall t :: Depends(graph, sym, t) ==> t in order
      decreases graph.Keys - checked, 3
    {
      hide Valid, Progress, OptMentions, PropDepends;
      var info := graph[sym];
      RevDepends(graph, sym);
      r := CheckExprDeps(info.revDep, path);
      After(graph, old(Now()), Now(), path, r);
      if r.Some? { return; }
      var i := 0;
      while i < |info.props|
        invariant i <= |info.props| && Progress(graph, old(Now()), Now(), path, None) && r == None
        invariant Ready(path) && old(checked) <= checked
        invariant forall t :: OptMentions(info.revDep, t) ==> Complete(Now(), t)
        invariant forall j, t :: 0 <= j < i && PropDepends(info.props[j], t) ==> Complete(Now(), t)
      {
        ghost var s := Now();
        r := CheckProp(sym, i, path);
        After(graph, s, Now(), path, r);
        ProgressTrans(graph, old(Now()), s, Now(), path, r);
        After(graph, old(Now()), Now(), path, r);
        if r.Some? { return; }
        i := i + 1;
      }
      forall t | !hit && Depends(graph, sym, t) ensures t in order {
        assert Complete(Now(), t);
      }
    }

    /** One property of a symbol. */
    method CheckProp(sym: Symbol, i: nat, ghost path: seq<Symbol>) returns (r: Option<Symbol>)
      requires Ready(path) && path != [] && path[|path| - 1] == sym && sym in graph && i < |graph[sym].props|
      modifies this
      ensures Progress(graph, old(Now()), Now(), path, r)
      ensures forall t :: PropDepends(graph[sym].props[i], t) ==> Complete(Now(), t)
      decreases graph.Keys - checked, 2
    {
      hide Valid, Progress, OptMentions, Depends;
      var prop := graph[sym].props[i];
      PropsDepend(graph, sym, i);
      if prop.ptype.ChoiceProp? || prop.ptype.SelectProp? {
        NoProgress(graph, Now(), path);
        return None;
      }
      r := CheckExprDeps(prop.visible, path);
      ghost var s := Now();
      After(graph, old(Now()), s, path, r);
      if r.Some? || !prop.ptype.DefaultProp? { return; }
      r := CheckExprDeps(prop.expr, path);
      After(graph, s, Now(), path, r);
      ProgressTrans(graph, old(Now()), s, Now(), path, r);
    }

    /** sym_check_expr_deps */
    method CheckExprDeps(oe: Option<Expr>, ghost path: seq<Symbol>) returns (r: Option<Symbol>)
      requires Ready(path) && path != []
      requires forall t :: OptMentions(oe, t) ==> Depends(graph, path[|path| - 1], t)
      modifies this
      ensures Progress(graph, old(Now()), Now(), path, r)
      ensures forall t :: OptMentions(oe, t) ==> Complete(Now(), t)
      decreases graph.Keys - checked, 1, if oe.Some? then Size(oe.value) else 0
    {
      hide Valid, Progress, Depends;
      NoProgress(graph, Now(), path);
      match oe {
        case None =>
          return None;
        case Some(e) =>
          match e {
            case Bin(_, left, right) =>
              assert forall t :: OptMentions(oe, t) <==> OptMentions(Some(left), t) || OptMentions(Some(right), t);
              r := CheckExprDeps(Some(left), path);
              ghost var s := Now();
              After(graph, old(Now()), s, path, r);
              if r.Some? { return; }
              r := CheckExprDeps(Some(right), path);
              After(graph, s, Now(), path, r);
              ProgressTrans(graph, old(Now()), s, Now(), path, r);
            case Not(arg) =>
              assert forall t :: OptMentions(Some(arg), t) ==> OptMentions(oe, t);
              r := CheckExprDeps(Some(arg), path);
            case Equal(lhs, rhs) =>
              assert OptMentions(oe, lhs) && OptMentions(oe, rhs);
              r := CheckBoth(lhs, rhs, path);
            case Unequal(lhs, rhs) =>
              assert OptMentions(oe, lhs) && OptMentions(oe, rhs);
              r := CheckBoth(lhs, rhs, path);
            case Sym(sym) =>
              assert OptMentions(oe, sym);
              r := CheckDeps(sym, path);
          }
      }
    }

    /** The two symbols of a comparison. */
    method CheckBoth(lhs: Symbol, rhs: Symbol, ghost path: seq<Symbol>) returns (r: Option<Symbol>)
      requires Ready(path) && path != []
      requires Depends(graph, path[|path| - 1], lhs) && Depends(graph, path[|path| - 1], rhs)
      modifies this
      ensures Progress(graph, old(Now()), Now(), path, r) && Complete(Now(), lhs) && Complete(Now(), rhs)
      decreases graph.Keys - checked, 1, 0
    {
      hide Valid, Progress, Depends;
      r := CheckDeps(lhs, path);
      ghost var s := Now();
      After(graph, old(Now()), s, path, r);
      if r.Some? { return; }
      r := CheckDeps(rhs, path);
      After(graph, s, Now(), path, r);
      ProgressTrans(graph, old(Now()), s, Now(), path, r);
    }

    /** The loop over the symbol table: the error count rises exactly when some symbol of it reaches a dependency
        cycle. */
    method CheckAll(table: seq<Symbol>)
      requires Closed(graph) && check == {} && checked == {} && forall s <- table :: s in graph
      modifies this
      ensures errors >= old(errors) && check == {}
      ensures errors > old(errors) <==> exists r <- table :: r.kind != Other && Recursive(graph, r)
    {
      hide Valid, Progress, Recursive;
      order, hit, base, roots := [], false, errors, {};
      Start(graph, Now());
      var i := 0;
      while i < |table|
        invariant i <= |table| && Ready([]) && base == old(errors) <= errors
        invariant roots == (set s | s in table[..i] && s.kind != Other)
        invariant forall s <- roots :: Complete(Now(), s)
      {
        var sym := table[i];
        assert table[..i + 1] == table[..i] + [sym];
        i := i + 1;
        if sym.kind != Other {
          MoreRoots(graph, Now(), sym);
          roots := roots + {sym};
          ghost var s := Now();
          var r := CheckDeps(sym, []);
          After(graph, s, Now(), [], r);
          Counted(graph, Now(), []);
          if r.Some? {
            errors := errors + 1;
          }
        }
      }
      assert table[..i] == table;
      Outcome(graph, Now());
      if !hit {
        assert forall r <- table :: r.kind != Other ==> r in roots;
      }
    }

    lemma Start(g: Graph, s: Stage)
      requires Closed(g) && s.check == {} && s.checked == {} && s.order == []
      requires !s.hit && s.base == s.errors && s.roots == {}
      ensures Valid(g, s, [])
    {}

    lemma MoreRoots(g: Graph, s: Stage, sym: Symbol)
      requires Valid(g, s, []) && sym in g
      ensures Valid(g, s.(roots := s.roots + {sym}), [])
    {}

    lemma Counted(g: Graph, s: Stage, path: seq<Symbol>)
      requires Valid(g, s, path)
      ensures s.errors >= s.base && (s.hit ==> Valid(g, s.(errors := s.errors + 1), path))
    {}

    /** Every error has been counted by the symbol it is about. */
    lemma AllCounted(g: Graph, s: Stage, s': Stage, r: Option<Symbol>)
      requires Progress(g, s, s', [], r)
      ensures r.None?
    {}

    lemma Outcome(g: Graph, s: Stage)
      requires Valid(g, s, []) && (s.hit ==> s.errors > s.base) && forall t <- s.roots :: Complete(s, t)
      ensures s.check == {} && (s.errors > s.base <==> s.hit)
      ensures s.hit <==> exists r <- s.roots :: Recursive(g, r)
    {
      if !s.hit {
        forall r <- s.roots ensures !Recursive(g, r) {
          OrderedIsAcyclic(g, s.order, r);
        }
      }
    }
  }
}
