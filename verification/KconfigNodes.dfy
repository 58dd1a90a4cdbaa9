/** Expression trees in memory: the passes that overwrite the nodes of a tree they own. */
module KconfigNodes {
  import opened KconfigExpr
  import opened KconfigEq

  datatype Tag = SymTag | EqualTag | UnequalTag | NotTag | AndTag | OrTag

  function TagOf(op: Op): Tag { if op.AndOp? then AndTag else OrTag }

  /** What the transformation makes of the negation of an expression it has transformed. */
  function PushNot(x: Expr): Expr {
    match x
    case Not(y) => Transform(y)
    case Equal(l, r) => Unequal(l, r)
    case Unequal(l, r) => Equal(l, r)
    case Bin(op, l, r) => Transform(Bin(Dual(op), Not(l), Not(r)))
    case Sym(s) =>
      if s == SYM_YES then NO_EXPR else if s == SYM_MOD then Sym(SYM_MOD) else if s == SYM_NO then YES_EXPR else Not(x)
  }

  function OpOf(t: Tag): Op { if t.AndTag? then AndOp else OrOp }

  lemma ExprEqCases(x: Expr, y: Expr)
    ensures KconfigEq.ExprEq(x, y) == match x
                                      case Sym(s) => y == Sym(s)
                                      case Equal(l, r) => y == Equal(l, r)
                                      case Unequal(l, r) => y == Unequal(l, r)
                                      case Not(x') => y.Not? && KconfigEq.ExprEq(x', y.arg)
                                      case Bin(op, _, _) =>
                                        IsBin(y, op) && var (x', y') := KconfigEq.EliminateEq(x, y);
                                                        x'.Sym? && y'.Sym? && x'.sym == y'.sym
  {}

  /** The two stages of expr_eliminate_eq before the folding. */
  function FirstSpine(x: Expr, y: Expr): (r: (Expr, Expr))
    ensures Size(r.0) <= Size(x) && Size(r.1) <= Size(y)
  {
    if x.Bin? then KconfigEq.ElimSpine(x.op, x, y) else (x, y)
  }

  function SecondSpine(x: Expr, y: Expr): (Expr, Expr) {
    if y.Bin? && !IsBin(x, y.op) then KconfigEq.ElimSpine(y.op, x, y) else (x, y)
  }

  lemma EliminateEqStages(x: Expr, y: Expr)
    ensures var (x1, y1) := FirstSpine(x, y);
            var (x2, y2) := SecondSpine(x1, y1);
            KconfigEq.EliminateEq(x, y) == (EliminateYn(x2), EliminateYn(y2))
  {
    hide KconfigEq.ElimSpine;
  }

  lemma ElimSpineCases(t: Op, x: Expr, y: Expr)
    ensures KconfigEq.ElimSpine(t, x, y) ==
            if IsBin(x, t) then
              var (l, y1) := KconfigEq.ElimSpine(t, x.left, y);
              var (r, y2) := KconfigEq.ElimSpine(t, x.right, y1);
              (Bin(t, l, r), y2)
            else if IsBin(y, t) then
              var (x1, l) := KconfigEq.ElimSpine(t, x, y.left);
              var (x2, r) := KconfigEq.ElimSpine(t, x1, y.right);
              (x2, Bin(t, l, r))
            else if x.Sym? && y.Sym? && x.sym == y.sym && (x.sym == SYM_YES || x.sym == SYM_NO) then (x, y)
            else if !KconfigEq.ExprEq(x, y) then (x, y)
            else (Unit(t), Unit(t))
  {}

  lemma TransformCases(e: Expr)
    ensures match e
            case Sym(_) => Transform(e) == e
            case Equal(l, r) => Transform(e) == LowerEqual(l, r)
            case Unequal(l, r) => Transform(e) == LowerUnequal(l, r)
            case Not(x) => Transform(e) == PushNot(Transform(x)) && Weight(Not(Transform(x))) <= Weight(e)
            case Bin(op, l, r) => Transform(e) == Bin(op, Transform(l), Transform(r))
  {}

  lemma PushNotLighter(e: Expr)
    requires e.Not?
    ensures e.arg.Not? ==> Weight(e.arg.arg) < Weight(e)
    ensures e.arg.Bin? ==> Weight(Bin(Dual(e.arg.op), Not(e.arg.left), Not(e.arg.right))) < Weight(e)
  {
    if e.arg.Bin? { assert Weight(Not(e.arg.left)) + Weight(Not(e.arg.right)) + 2 == Weight(e); }
  }

  /** struct expr: the left operand is a symbol or a node, the right one too. */
  class Node {
    var tag: Tag
    var lsym: Symbol
    var rsym: Symbol
    var left: Node?
    var right: Node?
    ghost var repr: set<Node>

    predicate IsBin()
      reads `tag
    {
      tag.AndTag? || tag.OrTag?
    }

    /** The node is the root of a tree without sharing. */
    ghost predicate Valid()
      reads this, repr
      decreases repr
    {
      && this in repr
      && (tag.NotTag? || IsBin() ==> left != null && left in repr && left.repr <= repr - {this} && left.Valid())
      && (tag.NotTag? ==> right == null)
      && (IsBin() ==> right != null && right in repr && right.repr <= repr - {this} && right.Valid()
                      && left.repr !! right.repr)
    }

    /** The expression the tree stands for. */
    ghost function Tree(): Expr
      requires Valid()
      reads this, repr
      decreases repr
    {
      match tag
      case SymTag => Sym(lsym)
      case EqualTag => Equal(lsym, rsym)
      case UnequalTag => Unequal(lsym, rsym)
      case NotTag => Not(left.Tree())
      case AndTag => Bin(AndOp, left.Tree(), right.Tree())
      case OrTag => Bin(OrOp, left.Tree(), right.Tree())
    }

    /** expr_alloc_symbol */
    constructor Symbol(s: Symbol)
      ensures Valid() && Tree() == Sym(s) && fresh(repr) && repr == {this}
    {
      tag, lsym, rsym, left, right, repr := SymTag, s, s, null, null, {this};
    }

    /** expr_alloc_two */
    constructor Binary(op: Op, x: Node, y: Node)
      requires x.Valid() && y.Valid() && x.repr !! y.repr
      ensures Valid() && Tree() == Bin(op, x.Tree(), y.Tree()) && repr == {this} + x.repr + y.repr && fresh(this)
    {
      tag, lsym, rsym, left, right, repr := TagOf(op), SYM_NO, SYM_NO, x, y, {this} + x.repr + y.repr;
    }

    /** expr_alloc_one(E_NOT, x) */
    constructor Negation(x: Node)
      requires x.Valid()
      ensures Valid() && Tree() == Not(x.Tree()) && repr == {this} + x.repr && fresh(this)
    {
      tag, lsym, rsym, left, right, repr := NotTag, SYM_NO, SYM_NO, x, null, {this} + x.repr;
    }

    constructor Leaf(tag: Tag, l: KconfigExpr.Symbol, r: KconfigExpr.Symbol)
      requires tag in {SymTag, EqualTag, UnequalTag}
      ensures Valid() && fresh(repr)
      ensures Tree() == if tag.SymTag? then Sym(l) else if tag.EqualTag? then Equal(l, r) else Unequal(l, r)
    {
      this.tag, lsym, rsym, left, right, repr := tag, l, r, null, null, {this};
    }

    /** The node becomes a symbol. */
    method BecomeSymbol(s: Symbol)
      modifies this
      ensures Valid() && Tree() == Sym(s) && repr == {this}
    {
      tag, lsym, right := SymTag, s, null;
      repr := {this};
    }

    /** The node becomes an AND or OR. */
    method SetBin(op: Op, x: Node, y: Node)
      requires x.Valid() && y.Valid() && x.repr !! y.repr && this !in x.repr && this !in y.repr
      modifies this
      ensures Valid() && Tree() == Bin(op, old(x.Tree()), old(y.Tree())) && repr == {this} + x.repr + y.repr
    {
      tag, left, right := TagOf(op), x, y;
      repr := {this} + x.repr + y.repr;
    }

    /** `*e = *n` */
    method Become(n: Node)
      requires n.Valid() && this !in n.repr
      modifies this
      ensures Valid() && Tree() == old(n.Tree()) && repr == {this} + (n.repr - {n})
    {
      ghost var t := n.Tree();
      tag, lsym, rsym, left, right := n.tag, n.lsym, n.rsym, n.left, n.right;
      repr := {this} + (n.repr - {n});
      assert tag.NotTag? || IsBin() ==> left.Valid() && left.repr <= repr - {this};
      assert IsBin() ==> right.Valid() && right.repr <= repr - {this};
      assert Valid() && n.Tree() == t;
    }

    /** expr_eliminate_yn */
    method EliminateYn()
      requires Valid()
      modifies repr
      ensures Valid() && repr <= old(repr)
      ensures Tree() == KconfigExpr.EliminateYn(old(Tree()))
      decreases repr
    {
      if !IsBin() { return; }
      var op := OpOf(tag);
      ghost var l, r := left.Tree(), right.Tree();
      EliminateOperands(l, r);
      FoldYn(op);
    }

    method EliminateOperands(ghost l: Expr, ghost r: Expr)
      requires Valid() && IsBin() && left.Tree() == l && right.Tree() == r
      modifies repr
      ensures Valid() && repr <= old(repr) && tag == old(tag)
      ensures left.Tree() == KconfigExpr.EliminateYn(l) && right.Tree() == KconfigExpr.EliminateYn(r)
      decreases repr, 0
    {
      hide KconfigExpr.EliminateYn;
      left.EliminateYn();
      assert right.Valid() && right.Tree() == r && this !in left.repr && left.repr !! right.repr;
      right.EliminateYn();
      assert left.Valid() && this !in right.repr && left.repr !! right.repr;
      repr := {this} + left.repr + right.repr;
    }

    /** The part of expr_eliminate_yn after its recursive calls. */
    method FoldYn(op: Op)
      requires Valid() && tag == TagOf(op)
      modifies this
      ensures Valid() && repr <= old(repr)
      ensures Tree() == KconfigExpr.FoldYn(op, old(left.Tree()), old(right.Tree()))
    {
      var unit, zero := if op.AndOp? then SYM_YES else SYM_NO, if op.AndOp? then SYM_NO else SYM_YES;
      if left.tag.SymTag? {
        if left.lsym == zero {
          BecomeSymbol(zero);
          return;
        } else if left.lsym == unit {
          Become(right);
          return;
        }
      }
      if right.tag.SymTag? {
        if right.lsym == zero {
          BecomeSymbol(zero);
        } else if right.lsym == unit {
          Become(left);
        }
      }
    }

    /** expr_trans_bool, which treats a negation like an AND or OR: its right operand is null. */
    method TransBool()
      requires Valid()
      modifies repr
      ensures Valid() && repr == old(repr)
      ensures Tree() == KconfigExpr.TransBool(old(Tree()))
      decreases repr
    {
      if IsBin() || tag.NotTag? {
        left.TransBool();
        if right != null { right.TransBool(); }
      } else if tag.UnequalTag? {
        if lsym.kind.Tristate? && rsym == SYM_NO {
          tag := SymTag;
        }
      }
    }

    /** expr_transform. The root may be freed and one of the nodes below it take its place. */
    static method Transform(e: Node) returns (r: Node)
      requires e.Valid()
      modifies e.repr
      ensures r.Valid() && fresh(r.repr - old(e.repr))
      ensures r.Tree() == KconfigExpr.Transform(old(e.Tree()))
      decreases Weight(e.Tree()), 2
    {
      hide KconfigExpr.Transform, PushNot, LowerEqual, LowerUnequal;
      ghost var t := e.Tree();
      TransformCases(t);
      match e.tag {
        case SymTag =>
          return e;
        case EqualTag =>
          e.TransformEqual();
          return e;
        case UnequalTag =>
          e.TransformUnequal();
          return e;
        case NotTag =>
          var l := Transform(e.left);
          e.left := l;
          e.repr := {e} + l.repr;
          r := TransformNot(e);
        case _ =>
          TransformBin(e);
          return e;
      }
    }

    static method TransformBin(e: Node)
      requires e.Valid() && e.IsBin()
      modifies e.repr
      ensures e.Valid() && fresh(e.repr - old(e.repr))
      ensures e.Tree() == var t := old(e.Tree());
                          Bin(t.op, KconfigExpr.Transform(t.left), KconfigExpr.Transform(t.right))
      decreases Weight(e.Tree()), 1
    {
      hide KconfigExpr.Transform;
      ghost var t := e.Tree();
      TransformLeft(e, t);
      assert e.left.Tree() == KconfigExpr.Transform(t.left) && e.right.Tree() == t.right;
      ghost var kept := e.left.repr;
      assert e !in kept && kept !! e.right.repr;
      var r := Transform(e.right);
      e.SetBin(OpOf(e.tag), e.left, r);
    }

    static method TransformLeft(e: Node, ghost t: Expr)
      requires e.Valid() && e.IsBin() && e.Tree() == t
      modifies e.repr
      ensures e.Valid() && fresh(e.repr - old(e.repr))
      ensures e.Tree() == Bin(t.op, KconfigExpr.Transform(t.left), t.right)
      decreases Weight(t), 0
    {
      hide KconfigExpr.Transform;
      assert e.left.Tree() == t.left && e.right.Tree() == t.right;
      ghost var kept := e.right.repr;
      assert e !in kept && kept !! e.left.repr;
      var l := Transform(e.left);
      e.SetBin(OpOf(e.tag), l, e.right);
    }

    method TransformEqual()
      requires Valid() && tag.EqualTag?
      modifies this
      ensures Valid() && fresh(repr - old(repr))
      ensures Tree() == LowerEqual(old(lsym), old(rsym))
    {
      if !lsym.kind.Boolean? { return; }
      if rsym == SYM_NO {
        tag := NotTag;
        left := new Node.Symbol(lsym);
        right := null;
        repr := {this} + left.repr;
      } else if rsym == SYM_MOD {
        BecomeSymbol(SYM_NO);
      } else if rsym == SYM_YES {
        tag := SymTag;
      }
    }

    method TransformUnequal()
      requires Valid() && tag.UnequalTag?
      modifies this
      ensures Valid() && fresh(repr - old(repr))
      ensures Tree() == LowerUnequal(old(lsym), old(rsym))
    {
      if !lsym.kind.Boolean? { return; }
      if rsym == SYM_NO {
        tag := SymTag;
      } else if rsym == SYM_MOD {
        BecomeSymbol(SYM_YES);
      } else if rsym == SYM_YES {
        tag := NotTag;
        left := new Node.Symbol(lsym);
        right := null;
        repr := {this} + left.repr;
      }
    }

    /** The E_NOT case, its operand being transformed already. */
    static method TransformNot(e: Node) returns (r: Node)
      requires e.Valid() && e.tag.NotTag?
      modifies e.repr
      ensures r.Valid() && fresh(r.repr - old(e.repr))
      ensures r.Tree() == PushNot(old(e.left.Tree()))
      decreases Weight(e.Tree()), 0
    {
      hide KconfigExpr.Transform;
      ghost var t := e.Tree();
      PushNotLighter(t);
      var tmp := e.left;
      assert t == Not(tmp.Tree());
      match tmp.tag {
        case NotTag =>
          assert tmp.Tree() == Not(tmp.left.Tree());
          r := Transform(tmp.left);
        case EqualTag =>
          tmp.tag := UnequalTag;
          return tmp;
        case UnequalTag =>
          tmp.tag := EqualTag;
          return tmp;
        case OrTag =>
          DeMorgan(e, OrOp, t.arg.left, t.arg.right);
          r := Transform(e);
        case AndTag =>
          DeMorgan(e, AndOp, t.arg.left, t.arg.right);
          r := Transform(e);
        case SymTag =>
          if tmp.lsym == SYM_YES {
            tmp.BecomeSymbol(SYM_NO);
            return tmp;
          }
          if tmp.lsym == SYM_MOD {
            tmp.BecomeSymbol(SYM_MOD);
            return tmp;
          }
          if tmp.lsym == SYM_NO {
            tmp.BecomeSymbol(SYM_YES);
            return tmp;
          }
          return e;
      }
    }

    /** The negation of an AND or OR becomes the other one over two negations: its operand's node is reused for the
        first of them. */
    static method DeMorgan(e: Node, op: Op, ghost l: Expr, ghost r: Expr)
      requires e.Valid() && e.Tree() == Not(Bin(op, l, r))
      modifies e, e.left
      ensures e.Valid() && fresh(e.repr - old(e.repr))
      ensures e.Tree() == Bin(Dual(op), Not(l), Not(r))
    {
      var tmp := e.left;
      assert tmp.Tree() == Bin(op, l, r) && e !in tmp.repr;
      var x := tmp.NegateBoth(op, l, r);
      e.SetBin(Dual(op), tmp, x);
    }

    /** The node of an AND or OR becomes the negation of its left operand, and a new node that of the right one. */
    method NegateBoth(op: Op, ghost l: Expr, ghost r: Expr) returns (x: Node)
      requires Valid() && Tree() == Bin(op, l, r)
      modifies this
      ensures Valid() && x.Valid() && Tree() == Not(l) && x.Tree() == Not(r)
      ensures repr !! x.repr && repr <= old(repr) && fresh(x.repr - old(repr))
    {
      assert this !in right.repr && left.Tree() == l && right.Tree() == r;
      x := new Node.Negation(right);
      NegateLeft();
      assert x.Valid() && x.Tree() == Not(r);
    }

    /** The node of an AND or OR becomes the negation of its left operand. */
    method NegateLeft()
      requires Valid() && IsBin()
      modifies this
      ensures Valid() && Tree() == Not(old(left.Tree())) && repr == {this} + old(left.repr)
    {
      tag := NotTag;
      right := null;
      repr := {this} + left.repr;
    }

    // ----- expr_eq and expr_eliminate_eq -----

    /** expr_copy */
    static method Copy(x: Node) returns (c: Node)
      requires x.Valid()
      ensures c.Valid() && fresh(c.repr) && c.Tree() == x.Tree()
      decreases x.repr
    {
      if x.tag.NotTag? {
        var l := Copy(x.left);
        c := new Node.Negation(l);
      } else if x.IsBin() {
        c := CopyBin(x);
      } else {
        c := new Node.Leaf(x.tag, x.lsym, x.rsym);
      }
    }

    static method CopyBin(x: Node) returns (c: Node)
      requires x.Valid() && x.IsBin()
      ensures c.Valid() && fresh(c.repr) && c.Tree() == x.Tree()
      decreases x.repr, 1
    {
      var l, r := CopyOperands(x, x.Tree());
      c := new Node.Binary(OpOf(x.tag), l, r);
    }

    static method CopyOperands(x: Node, ghost t: Expr) returns (l: Node, r: Node)
      requires x.Valid() && x.IsBin() && x.Tree() == t
      ensures l.Valid() && r.Valid() && fresh(l.repr) && fresh(r.repr) && l.repr !! r.repr
      ensures l.Tree() == t.left && r.Tree() == t.right
      decreases x.repr, 0
    {
      assert x.left.Tree() == t.left && x.right.Tree() == t.right;
      l := Copy(x.left);
      r := Copy(x.right);
      assert l.Valid() && l.Tree() == t.left && l.repr !! r.repr;
    }

    /** expr_eq */
    static method ExprEq(x: Node, y: Node, ghost xt: Expr, ghost yt: Expr) returns (same: bool)
      requires x.Valid() && y.Valid() && x.Tree() == xt && y.Tree() == yt
      ensures same == KconfigEq.ExprEq(xt, yt)
      decreases Size(xt) + Size(yt), 4
    {
      hide KconfigEq.ExprEq;
      ExprEqCases(xt, yt);
      if x.tag != y.tag { return false; }
      match x.tag {
        case SymTag =>
          return x.lsym == y.lsym;
        case EqualTag =>
          return x.lsym == y.lsym && x.rsym == y.rsym;
        case UnequalTag =>
          return x.lsym == y.lsym && x.rsym == y.rsym;
        case NotTag =>
          same := ExprEq(x.left, y.left, xt.arg, yt.arg);
        case _ =>
          same := EqualOnCopies(x, y, xt, yt);
      }
    }

    /** AND and OR are compared on copies. */
    static method EqualOnCopies(x: Node, y: Node, ghost xt: Expr, ghost yt: Expr) returns (same: bool)
      requires x.Valid() && y.Valid() && x.Tree() == xt && y.Tree() == yt
      ensures same == var (x', y') := KconfigEq.EliminateEq(xt, yt); x'.Sym? && y'.Sym? && x'.sym == y'.sym
      decreases Size(xt) + Size(yt), 3, 2
    {
      hide KconfigEq.EliminateEq;
      var x' := Copy(x);
      var y' := Copy(y);
      x', y' := Node.EliminateEq(x', y', xt, yt);
      same := x'.tag.SymTag? && y'.tag.SymTag? && x'.lsym == y'.lsym;
    }

    /** __expr_eliminate_eq: an equal pair is freed and new constants are stored through the two pointers. */
    static method ElimSpine(t: Op, x: Node, y: Node, ghost xt: Expr, ghost yt: Expr) returns (x': Node, y': Node)
      requires x.Valid() && y.Valid() && x.repr !! y.repr && x.Tree() == xt && y.Tree() == yt
      modifies x.repr, y.repr
      ensures x'.Valid() && y'.Valid() && x'.repr !! y'.repr
      ensures fresh(x'.repr - old(x.repr)) && fresh(y'.repr - old(y.repr))
      ensures (x'.Tree(), y'.Tree()) == KconfigEq.ElimSpine(t, xt, yt)
      decreases Size(xt) + Size(yt), if KconfigEq.IsBin(xt, t) || KconfigEq.IsBin(yt, t) then 2 else 5
    {
      hide KconfigEq.ExprEq, KconfigEq.ElimSpine;
      ElimSpineCases(t, xt, yt);
      if x.tag == TagOf(t) {
        x' := x;
        y' := ElimLeft(t, x, y, xt, yt);
      } else if y.tag == TagOf(t) {
        y' := y;
        x' := ElimRight(t, x, y, xt, yt);
      } else {
        x', y' := ElimOperands(t, x, y, xt, yt);
      }
    }

    static method ElimLeft(t: Op, x: Node, y: Node, ghost xt: Expr, ghost yt: Expr) returns (y': Node)
      requires x.Valid() && y.Valid() && x.repr !! y.repr && x.Tree() == xt && y.Tree() == yt && KconfigEq.IsBin(xt, t)
      modifies x.repr, y.repr
      ensures x.Valid() && y'.Valid() && x.repr !! y'.repr
      ensures fresh(x.repr - old(x.repr)) && fresh(y'.repr - old(y.repr))
      ensures (x.Tree(), y'.Tree()) == KconfigEq.ElimSpine(t, xt, yt)
      decreases Size(xt) + Size(yt), 2, 0
    {
      hide KconfigEq.ElimSpine;
      ElimSpineCases(t, xt, yt);
      y' := ElimLeftFirst(t, x, y, xt, yt);
      y' := ElimLeftSecond(t, x, y', x.Tree(), y'.Tree());
    }

    static method ElimRight(t: Op, x: Node, y: Node, ghost xt: Expr, ghost yt: Expr) returns (x': Node)
      requires x.Valid() && y.Valid() && x.repr !! y.repr && x.Tree() == xt && y.Tree() == yt
      requires !KconfigEq.IsBin(xt, t) && KconfigEq.IsBin(yt, t)
      modifies x.repr, y.repr
      ensures x'.Valid() && y.Valid() && x'.repr !! y.repr
      ensures fresh(x'.repr - old(x.repr)) && fresh(y.repr - old(y.repr))
      ensures (x'.Tree(), y.Tree()) == KconfigEq.ElimSpine(t, xt, yt)
      decreases Size(xt) + Size(yt), 2, 0
    {
      hide KconfigEq.ElimSpine;
      ElimSpineCases(t, xt, yt);
      x' := ElimRightFirst(t, x, y, xt, yt);
      x' := ElimRightSecond(t, x', y, x'.Tree(), y.Tree());
    }

    /** One operand of each tree. */
    static method ElimOperands(t: Op, x: Node, y: Node, ghost xt: Expr, ghost yt: Expr) returns (x': Node, y': Node)
      requires x.Valid() && y.Valid() && x.repr !! y.repr && x.Tree() == xt && y.Tree() == yt
      requires !KconfigEq.IsBin(xt, t) && !KconfigEq.IsBin(yt, t)
      ensures x'.Valid() && y'.Valid() && x'.repr !! y'.repr
      ensures fresh(x'.repr - x.repr) && fresh(y'.repr - y.repr)
      ensures (x'.Tree(), y'.Tree()) == KconfigEq.ElimSpine(t, xt, yt)
      decreases Size(xt) + Size(yt), 5, 0
    {
      hide KconfigEq.ExprEq, KconfigEq.ElimSpine;
      ElimSpineCases(t, xt, yt);
      if x.tag.SymTag? && y.tag.SymTag? && x.lsym == y.lsym && (x.lsym == SYM_YES || x.lsym == SYM_NO) {
        return x, y;
      }
      var same := ExprEq(x, y, xt, yt);
      if !same { return x, y; }
      x' := new Node.Symbol(if t.AndOp? then SYM_YES else SYM_NO);
      y' := new Node.Symbol(if t.AndOp? then SYM_YES else SYM_NO);
    }

    /** The operands of one spine node, each against the whole of the other tree. */
    static method ElimLeftFirst(t: Op, x: Node, y: Node, ghost xt: Expr, ghost yt: Expr) returns (y': Node)
      requires x.Valid() && y.Valid() && x.repr !! y.repr && x.Tree() == xt && y.Tree() == yt && KconfigEq.IsBin(xt, t)
      modifies x.repr, y.repr
      ensures x.Valid() && y'.Valid() && x.repr !! y'.repr
      ensures fresh(x.repr - old(x.repr)) && fresh(y'.repr - old(y.repr))
      ensures var (z, w) := KconfigEq.ElimSpine(t, xt.left, yt); x.Tree() == Bin(t, z, xt.right) && y'.Tree() == w
      decreases Size(xt) + Size(yt), 1
    {
      hide KconfigEq.ElimSpine;
      assert x.left.Tree() == xt.left && x.right.Tree() == xt.right;
      ghost var kept := x.right.repr;
      assert x !in kept && kept !! x.left.repr && kept !! y.repr;
      var z;
      z, y' := ElimSpine(t, x.left, y, xt.left, yt);
      x.SetBin(t, z, x.right);
    }

    static method ElimLeftSecond(t: Op, x: Node, y: Node, ghost xt: Expr, ghost yt: Expr) returns (y': Node)
      requires x.Valid() && y.Valid() && x.repr !! y.repr && x.Tree() == xt && y.Tree() == yt && KconfigEq.IsBin(xt, t)
      modifies x.repr, y.repr
      ensures x.Valid() && y'.Valid() && x.repr !! y'.repr
      ensures fresh(x.repr - old(x.repr)) && fresh(y'.repr - old(y.repr))
      ensures var (z, w) := KconfigEq.ElimSpine(t, xt.right, yt); x.Tree() == Bin(t, xt.left, z) && y'.Tree() == w
      decreases Size(xt) + Size(yt), 1
    {
      hide KconfigEq.ElimSpine;
      assert x.left.Tree() == xt.left && x.right.Tree() == xt.right;
      ghost var kept := x.left.repr;
      assert x !in kept && kept !! x.right.repr && kept !! y.repr;
      var z;
      z, y' := ElimSpine(t, x.right, y, xt.right, yt);
      x.SetBin(t, x.left, z);
    }

    static method ElimRightFirst(t: Op, x: Node, y: Node, ghost xt: Expr, ghost yt: Expr) returns (x': Node)
      requires x.Valid() && y.Valid() && x.repr !! y.repr && x.Tree() == xt && y.Tree() == yt && KconfigEq.IsBin(yt, t)
      modifies x.repr, y.repr
      ensures y.Valid() && x'.Valid() && y.repr !! x'.repr
      ensures fresh(y.repr - old(y.repr)) && fresh(x'.repr - old(x.repr))
      ensures var (w, z) := KconfigEq.ElimSpine(t, xt, yt.left); y.Tree() == Bin(t, z, yt.right) && x'.Tree() == w
      decreases Size(xt) + Size(yt), 1
    {
      hide KconfigEq.ElimSpine;
      assert y.left.Tree() == yt.left && y.right.Tree() == yt.right;
      ghost var kept := y.right.repr;
      assert y !in kept && kept !! y.left.repr && kept !! x.repr;
      var z;
      x', z := ElimSpine(t, x, y.left, xt, yt.left);
      y.SetBin(t, z, y.right);
    }

    static method ElimRightSecond(t: Op, x: Node, y: Node, ghost xt: Expr, ghost yt: Expr) returns (x': Node)
      requires x.Valid() && y.Valid() && x.repr !! y.repr && x.Tree() == xt && y.Tree() == yt && KconfigEq.IsBin(yt, t)
      modifies x.repr, y.repr
      ensures y.Valid() && x'.Valid() && y.repr !! x'.repr
      ensures fresh(y.repr - old(y.repr)) && fresh(x'.repr - old(x.repr))
      ensures var (w, z) := KconfigEq.ElimSpine(t, xt, yt.right); y.Tree() == Bin(t, yt.left, z) && x'.Tree() == w
      decreases Size(xt) + Size(yt), 1
    {
      hide KconfigEq.ElimSpine;
      assert y.left.Tree() == yt.left && y.right.Tree() == yt.right;
      ghost var kept := y.left.repr;
      assert y !in kept && kept !! y.right.repr && kept !! x.repr;
      var z;
      x', z := ElimSpine(t, x, y.right, xt, yt.right);
      y.SetBin(t, y.left, z);
    }

    /** expr_eliminate_eq */
    static method EliminateEq(x: Node, y: Node, ghost xt: Expr, ghost yt: Expr) returns (x': Node, y': Node)
      requires x.Valid() && y.Valid() && x.repr !! y.repr && x.Tree() == xt && y.Tree() == yt
      modifies x.repr, y.repr
      ensures x'.Valid() && y'.Valid() && x'.repr !! y'.repr
      ensures fresh(x'.repr - old(x.repr)) && fresh(y'.repr - old(y.repr))
      ensures (x'.Tree(), y'.Tree()) == KconfigEq.EliminateEq(xt, yt)
      decreases Size(xt) + Size(yt), 3, 1
    {
      hide KconfigEq.EliminateEq, FirstSpine, SecondSpine, KconfigExpr.EliminateYn;
      EliminateEqStages(xt, yt);
      x', y' := ElimFirst(x, y, xt, yt);
      x', y' := ElimSecond(x', y', x'.Tree(), y'.Tree());
      FoldBoth(x', y');
    }

    static method ElimFirst(x: Node, y: Node, ghost xt: Expr, ghost yt: Expr) returns (x': Node, y': Node)
      requires x.Valid() && y.Valid() && x.repr !! y.repr && x.Tree() == xt && y.Tree() == yt
      modifies x.repr, y.repr
      ensures x'.Valid() && y'.Valid() && x'.repr !! y'.repr
      ensures fresh(x'.repr - old(x.repr)) && fresh(y'.repr - old(y.repr))
      ensures (x'.Tree(), y'.Tree()) == FirstSpine(xt, yt)
      decreases Size(xt) + Size(yt), 3, 0
    {
      hide KconfigEq.ElimSpine;
      x', y' := x, y;
      if x.IsBin() { x', y' := ElimSpine(OpOf(x.tag), x, y, xt, yt); }
    }

    static method ElimSecond(x: Node, y: Node, ghost xt: Expr, ghost yt: Expr) returns (x': Node, y': Node)
      requires x.Valid() && y.Valid() && x.repr !! y.repr && x.Tree() == xt && y.Tree() == yt
      modifies x.repr, y.repr
      ensures x'.Valid() && y'.Valid() && x'.repr !! y'.repr
      ensures fresh(x'.repr - old(x.repr)) && fresh(y'.repr - old(y.repr))
      ensures (x'.Tree(), y'.Tree()) == SecondSpine(xt, yt)
      decreases Size(xt) + Size(yt), 3, 0
    {
      hide KconfigEq.ElimSpine;
      x', y' := x, y;
      if x.tag != y.tag && y.IsBin() { x', y' := ElimSpine(OpOf(y.tag), x, y, xt, yt); }
    }

    static method FoldBoth(x: Node, y: Node)
      requires x.Valid() && y.Valid() && x.repr !! y.repr
      modifies x.repr, y.repr
      ensures x.Valid() && y.Valid() && x.repr <= old(x.repr) && y.repr <= old(y.repr)
      ensures x.Tree() == KconfigExpr.EliminateYn(old(x.Tree())) && y.Tree() == KconfigExpr.EliminateYn(old(y.Tree()))
    {
      hide KconfigExpr.EliminateYn;
      x.EliminateYn();
      y.EliminateYn();
    }
  }
}
