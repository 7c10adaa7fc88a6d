/** The rewrites as the source carries them out: on unshared trees of heap nodes that are
  overwritten, relinked and dropped. Every method is proved against the function that the
  theorems about meaning are stated for.
 */
module KconfigInPlace {
  import opened Seqs
  import opened KconfigExpr
  import opened KconfigEq
  import opened KconfigDups
  import opened KconfigTransform

  datatype Kind = SymbKind | CmpKind(rel: Rel) | NotKind | BinKind(op: Op)

  class ExprNode {
    var kind: Kind
    var lsym: Symbol
    var rsym: Symbol
    var left: ExprNode?
    var right: ExprNode?

    ghost var Repr: set<ExprNode>
    ghost var tree: Expr  // the expression this node stands for

    ghost predicate Valid()
      reads this, Repr
      ensures Valid() ==> this in Repr
      decreases Repr
    {
      && this in Repr
      && (left != null ==> left in Repr && left.Repr <= Repr && this !in left.Repr && left.Valid())
      && (right != null ==> right in Repr && right.Repr <= Repr && this !in right.Repr && right.Valid())
      && (left != null && right != null ==> left.Repr !! right.Repr)
      && match kind {
        case SymbKind => left == null && right == null && tree == Symb(lsym)
        case CmpKind(rel) => left == null && right == null && tree == Cmp(rel, lsym, rsym)
        case NotKind => left != null && right == null && tree == Not(left.tree)
        case BinKind(op) => left != null && right != null && tree == Bin(op, left.tree, right.tree)
      }
    }

    constructor MakeSymbol(s: Symbol)
      ensures Valid() && fresh(Repr) && Repr == {this} && tree == Symb(s) && kind == SymbKind && lsym == s
    {
      kind, lsym, rsym, left, right := SymbKind, s, s, null, null;
      Repr, tree := {this}, Symb(s);
    }

    constructor MakeNot(child: ExprNode)
      requires child.Valid()
      ensures Valid() && fresh(Repr - child.Repr) && Repr == {this} + child.Repr && tree == Not(child.tree)
      ensures kind == NotKind && left == child
    {
      kind, lsym, rsym, left, right := NotKind, SymNo, SymNo, child, null;
      Repr, tree := {this} + child.Repr, Not(child.tree);
    }
  
    // Overwrites this node with the contents of a child, which is then dropped.
    method Become(child: ExprNode)
      requires Valid() && (child == left || child == right)
      modifies this
      ensures Valid() && tree == old(child.tree) && Repr <= old(Repr)
      ensures kind == old(child.kind)
    {
      kind, lsym, rsym := child.kind, child.lsym, child.rsym;
      left, right := child.left, child.right;
      tree := child.tree;
      Repr := child.Repr - {child} + {this};
    }

    // Puts the operands that a walk returned into this operator.
    method SetOperands(l: ExprNode, r: ExprNode)
      requires kind.BinKind? && l.Valid() && r.Valid() && l.Repr !! r.Repr && this !in l.Repr + r.Repr
      modifies this
      ensures kind == old(kind)
      ensures Valid() && tree == Bin(kind.op, l.tree, r.tree) && Repr == {this} + l.Repr + r.Repr
    {
      left, right := l, r;
      Repr, tree := {this} + l.Repr + r.Repr, Bin(kind.op, l.tree, r.tree);
    }

    // Overwrites this node with a symbol; the children are dropped.
    method BecomeSymbol(s: Symbol)
      modifies this
      ensures Valid() && tree == Symb(s) && Repr == {this}
    {
      kind, lsym := SymbKind, s;
      left, right := null, null;
      tree, Repr := Symb(s), {this};
    }
  }

  predicate IsSymbolNode(n: ExprNode, s: Symbol)
    reads n
  {
    n.kind == SymbKind && n.lsym == s
  }

  method EliminateYnNode(e: ExprNode)
    requires e.Valid()
    modifies e.Repr
    ensures e.Valid() && e.Repr <= old(e.Repr)
    ensures e.tree == EliminateYn(old(e.tree))
    decreases Size(e.tree)
  {
    if e.kind.BinKind? {
      EliminateYnNormal(e.left.tree);
      EliminateYnNormal(e.right.tree);
      EliminateYnBoth(e.left, e.right);
      e.tree := Bin(e.kind.op, e.left.tree, e.right.tree);
      RemoveYn(e);
    }
  }

  // The step at one operator, once both operands have been dealt with.
  method RemoveYn(e: ExprNode)
    requires e.Valid() && e.kind.BinKind?
    requires EliminateYn(e.left.tree) == e.left.tree && EliminateYn(e.right.tree) == e.right.tree
    modifies e
    ensures e.Valid() && e.Repr <= old(e.Repr)
    ensures e.tree == EliminateYn(old(e.tree))
  {
    var op := e.kind.op;
    if IsSymbolNode(e.left, Absorber(op)) {
      e.BecomeSymbol(Absorber(op));
    } else if IsSymbolNode(e.left, Unit(op)) {
      e.Become(e.right);
    } else if IsSymbolNode(e.right, Absorber(op)) {
      e.BecomeSymbol(Absorber(op));
    } else if IsSymbolNode(e.right, Unit(op)) {
      e.Become(e.left);
    }
  }

  method TransBoolNode(e: ExprNode)
    requires e.Valid()
    modifies e.Repr
    ensures e.Valid() && e.Repr <= old(e.Repr)
    ensures e.tree == TransBool(old(e.tree))
    decreases e.tree
  {
    match e.kind {
      case BinKind(op) =>
        TransBoolNode(e.left);
        TransBoolNode(e.right);
        e.tree := Bin(op, e.left.tree, e.right.tree);
      case NotKind =>
        TransBoolNode(e.left);
        e.tree := Not(e.left.tree);
      case CmpKind(rel) =>
        if rel == Unequal && e.lsym.Type() == TristateType && e.rsym == SymNo {
          e.kind := SymbKind;
          e.tree := Symb(e.lsym);
        }
      case SymbKind =>
    }
  }

  /* ------------------------------- transforming ------------------------------- */

  // A boolean symbol tested against a constant, rewritten in place.
  method RewriteTestNode(e: ExprNode)
    requires e.Valid() && IsBooleanTest(e.tree)
    modifies e
    ensures e.Valid() && fresh(e.Repr - old(e.Repr))
    ensures e.tree == RewriteTest(old(e.tree))
  {
    var equal := e.kind.rel == Equal;
    if e.rsym == SymMod {
      e.kind, e.lsym := SymbKind, if equal then SymNo else SymYes;
      e.tree := Symb(e.lsym);
    } else if equal == (e.rsym == SymNo) {
      var s := new ExprNode.MakeSymbol(e.lsym);
      e.kind, e.left := NotKind, s;
      e.tree, e.Repr := Not(s.tree), e.Repr + s.Repr;
    } else {
      e.kind := SymbKind;
      e.tree := Symb(e.lsym);
    }
  }

  method TransformNode(e: ExprNode) returns (r: ExprNode)
    requires e.Valid()
    modifies e.Repr
    ensures r.Valid() && fresh(r.Repr - old(e.Repr))
    ensures r.tree == Transform(old(e.tree))
    decreases Weight(e.tree), 2
  {
    r := e;
    if e.kind.CmpKind? {
      var testable := e.kind.rel == Equal || e.kind.rel == Unequal;
      if testable && e.lsym.Type() == BooleanType && e.rsym.IsConst() {
        RewriteTestNode(e);
      }
    } else if e.kind.BinKind? {
      TransformLeft(e);
      TransformRight(e);
    } else if e.kind.NotKind? {
      TransformLeft(e);
      r := NegateNode(e);
    }
  }

  method TransformLeft(e: ExprNode)
    requires e.Valid() && e.left != null
    modifies e.Repr
    ensures e.Valid() && fresh(e.Repr - old(e.Repr))
    ensures e.kind == old(e.kind) && e.left != null && e.left.tree == Transform(old(e.left.tree))
    ensures e.right == old(e.right) && (e.right != null ==> e.right.tree == old(e.right.tree))
    decreases Weight(e.tree), 1
  {
    var l := TransformNode(e.left);
    e.left := l;
    e.Repr := {e} + l.Repr + (if e.right == null then {} else e.right.Repr);
    e.tree := if e.right == null then Not(l.tree) else Bin(e.kind.op, l.tree, e.right.tree);
  }

  method TransformRight(e: ExprNode)
    requires e.Valid() && e.left != null && e.right != null
    modifies e.Repr
    ensures e.Valid() && fresh(e.Repr - old(e.Repr))
    ensures e.kind == old(e.kind) && e.right != null && e.right.tree == Transform(old(e.right.tree))
    ensures e.left == old(e.left) && e.left.tree == old(e.left.tree)
    decreases Weight(e.tree), 1
  {
    var r := TransformNode(e.right);
    e.right := r;
    e.Repr := {e} + e.left.Repr + r.Repr;
    e.tree := Bin(e.kind.op, e.left.tree, r.tree);
  }

  // The negation goes below the operator, reusing both nodes and adding one.
  method PushNode(e: ExprNode)
    requires e.Valid() && e.tree.Not? && e.tree.arg.Bin?
    modifies e.Repr
    ensures e.Valid() && fresh(e.Repr - old(e.Repr))
    ensures var was := old(e.tree).arg; e.tree == Bin(Dual(was.op), Not(was.left), Not(was.right))
  {
    var a := e.left;
    var op := a.kind.op;
    var n := new ExprNode.MakeNot(a.right);
    a.kind, a.right := NotKind, null;
    a.Repr, a.tree := {a} + a.left.Repr, Not(a.left.tree);
    e.kind, e.right := BinKind(Dual(op)), n;
    e.Repr := e.Repr + n.Repr;
    e.tree := Bin(Dual(op), a.tree, n.tree);
  }

  // A negation whose operand has been transformed.
  method NegateNode(e: ExprNode) returns (r: ExprNode)
    requires e.Valid() && e.kind == NotKind
    modifies e.Repr
    ensures r.Valid() && fresh(r.Repr - old(e.Repr))
    ensures r.tree == Negate(old(e.left.tree))
    decreases Weight(e.tree), 0
  {
    var a := e.left;
    if a.kind == NotKind {
      // !!a -> a
      assert Weight(a.tree) == 2 * Weight(a.left.tree);
      r := TransformNode(a.left);
    } else if a.kind.CmpKind? {
      // the relation is turned around in the operand's own node
      a.kind := CmpKind(NegateRel(a.kind.rel));
      a.tree := Cmp(a.kind.rel, a.lsym, a.rsym);
      r := a;
    } else if a.kind.BinKind? {
      // !(a || b) -> !a && !b
      DeMorganLighter(a.kind.op, a.left.tree, a.right.tree);
      PushNode(e);
      r := TransformNode(e);
    } else {
      r := e;
      if a.lsym.IsConst() {
        var s := if a.lsym == SymYes then SymNo else if a.lsym == SymNo then SymYes else SymMod;
        a.lsym, a.tree := s, Symb(s);
        r := a;
      }
    }
  }

  /* ------------------------------- equality and common operands ------------------------------- */

  method CopyNode(e: ExprNode) returns (c: ExprNode)
    requires e.Valid()
    ensures c.Valid() && fresh(c.Repr) && c.tree == e.tree && c.kind == e.kind
    decreases e.tree
  {
    c := new ExprNode.MakeSymbol(e.lsym);
    c.kind, c.rsym, c.tree := e.kind, e.rsym, e.tree;
    if e.left != null {
      var l := CopyNode(e.left);
      c.left, c.Repr := l, c.Repr + l.Repr;
    }
    if e.right != null {
      var r := CopyNode(e.right);
      c.right, c.Repr := r, c.Repr + r.Repr;
    }
  }

  ghost predicate IsResidual(w: Residual, r1: ExprNode, r2: ExprNode, n: nat)
    reads r1, r2
  {
    r1.tree == w.e1 && r2.tree == w.e2 && n == |w.common|
  }

  // Pairs the operands of the two trees, overwriting equal ones; n is what trans_count gains.
  method WalkNodes(op: Op, e1: ExprNode, e2: ExprNode) returns (r1: ExprNode, r2: ExprNode, n: nat)
    requires e1.Valid() && e2.Valid() && e1.Repr !! e2.Repr
    modifies e1.Repr, e2.Repr
    ensures r1.Valid() && r2.Valid() && r1.Repr !! r2.Repr
    ensures fresh(r1.Repr - old(e1.Repr)) && fresh(r2.Repr - old(e2.Repr))
    ensures IsResidual(Walk(op, old(e1.tree), old(e2.tree)), r1, r2, n)
    decreases Size(e1.tree) + Size(e2.tree), if IsOp(op, e1.tree) || IsOp(op, e2.tree) then 1 else 6
  {
    if e1.kind == BinKind(op) {
      r1, r2, n := WalkFirst(op, e1, e2);
    } else if e2.kind == BinKind(op) {
      r1, r2, n := WalkSecond(op, e1, e2);
    } else {
      r1, r2, n := WalkLeafPair(op, e1, e2);
    }
  }

  method WalkLeafPair(op: Op, e1: ExprNode, e2: ExprNode) returns (r1: ExprNode, r2: ExprNode, n: nat)
    requires e1.kind != BinKind(op) && e2.kind != BinKind(op)
    requires e1.Valid() && e2.Valid() && e1.Repr !! e2.Repr
    modifies e1.Repr, e2.Repr
    ensures r1.Valid() && r2.Valid() && r1.Repr !! r2.Repr
    ensures fresh(r1.Repr - old(e1.Repr)) && fresh(r2.Repr - old(e2.Repr))
    ensures IsResidual(Walk(op, old(e1.tree), old(e2.tree)), r1, r2, n)
    decreases Size(e1.tree) + Size(e2.tree), 5
  {
    r1, r2, n := e1, e2, 0;
    var sameConstant := e1.kind == SymbKind && e2.kind == SymbKind && e1.lsym == e2.lsym && e1.lsym.IsYesNo();
    if !sameConstant {
      var equal := ExprEqNodes(e1, e2);
      if equal {
        r1 := new ExprNode.MakeSymbol(Unit(op));
        r2 := new ExprNode.MakeSymbol(Unit(op));
        n := 1;
      }
    }
  }

  method WalkFirst(op: Op, e1: ExprNode, e2: ExprNode) returns (r1: ExprNode, r2: ExprNode, n: nat)
    requires e1.kind == BinKind(op)
    requires e1.Valid() && e2.Valid() && e1.Repr !! e2.Repr
    modifies e1.Repr, e2.Repr
    ensures r1.Valid() && r2.Valid() && r1.Repr !! r2.Repr
    ensures fresh(r1.Repr - old(e1.Repr)) && fresh(r2.Repr - old(e2.Repr))
    ensures IsResidual(Walk(op, old(e1.tree), old(e2.tree)), r1, r2, n)
    decreases Size(e1.tree) + Size(e2.tree), 0
  {
    var l, r;
    l, r, r2, n := WalkOperandsFirst(op, e1.left, e1.right, e2);
    e1.SetOperands(l, r);
    r1 := e1;
  }

  method WalkSecond(op: Op, e1: ExprNode, e2: ExprNode) returns (r1: ExprNode, r2: ExprNode, n: nat)
    requires e1.kind != BinKind(op) && e2.kind == BinKind(op)
    requires e1.Valid() && e2.Valid() && e1.Repr !! e2.Repr
    modifies e1.Repr, e2.Repr
    ensures r1.Valid() && r2.Valid() && r1.Repr !! r2.Repr
    ensures fresh(r1.Repr - old(e1.Repr)) && fresh(r2.Repr - old(e2.Repr))
    ensures IsResidual(Walk(op, old(e1.tree), old(e2.tree)), r1, r2, n)
    decreases Size(e1.tree) + Size(e2.tree), 0
  {
    var l, r;
    r1, l, r, n := WalkOperandsSecond(op, e1, e2.left, e2.right);
    e2.SetOperands(l, r);
    r2 := e2;
  }

  // Both operands of a first expression against a second one, left operand first.
  method WalkOperandsFirst(op: Op, l: ExprNode, r: ExprNode, e2: ExprNode)
      returns (l': ExprNode, r': ExprNode, r2: ExprNode, n: nat)
    requires l.Valid() && r.Valid() && e2.Valid() && l.Repr !! r.Repr !! e2.Repr
    modifies l.Repr, r.Repr, e2.Repr
    ensures l'.Valid() && r'.Valid() && r2.Valid() && l'.Repr !! r'.Repr !! r2.Repr
    ensures fresh(l'.Repr - old(l.Repr)) && fresh(r'.Repr - old(r.Repr)) && fresh(r2.Repr - old(e2.Repr))
    ensures var a := Walk(op, old(l.tree), old(e2.tree)); var b := Walk(op, old(r.tree), a.e2);
      l'.tree == a.e1 && r'.tree == b.e1 && r2.tree == b.e2 && n == |a.common| + |b.common|
    decreases Size(l.tree) + Size(r.tree) + Size(e2.tree), 5
  {
    var n1, n2, a;
    l', a, n1 := WalkNodes(op, l, e2);
    r', r2, n2 := WalkNodes(op, r, a);
    n := n1 + n2;
  }

  // A first expression against both operands of a second one, left operand first.
  method WalkOperandsSecond(op: Op, e1: ExprNode, l: ExprNode, r: ExprNode)
      returns (r1: ExprNode, l': ExprNode, r': ExprNode, n: nat)
    requires e1.Valid() && l.Valid() && r.Valid() && e1.Repr !! l.Repr !! r.Repr
    modifies e1.Repr, l.Repr, r.Repr
    ensures r1.Valid() && l'.Valid() && r'.Valid() && r1.Repr !! l'.Repr !! r'.Repr
    ensures fresh(r1.Repr - old(e1.Repr)) && fresh(l'.Repr - old(l.Repr)) && fresh(r'.Repr - old(r.Repr))
    ensures var a := Walk(op, old(e1.tree), old(l.tree)); var b := Walk(op, a.e1, old(r.tree));
      r1.tree == b.e1 && l'.tree == a.e2 && r'.tree == b.e2 && n == |a.common| + |b.common|
    decreases Size(e1.tree) + Size(l.tree) + Size(r.tree), 5
  {
    var n1, n2, a;
    a, l', n1 := WalkNodes(op, e1, l);
    r1, r', n2 := WalkNodes(op, a, r);
    n := n1 + n2;
  }

  method EliminateEqNodes(e1: ExprNode, e2: ExprNode) returns (r1: ExprNode, r2: ExprNode, n: nat)
    requires e1.Valid() && e2.Valid() && e1.Repr !! e2.Repr
    modifies e1.Repr, e2.Repr
    ensures r1.Valid() && r2.Valid() && r1.Repr !! r2.Repr
    ensures fresh(r1.Repr - old(e1.Repr)) && fresh(r2.Repr - old(e2.Repr))
    ensures IsResidual(EliminateEq(old(e1.tree), old(e2.tree)), r1, r2, n)
    decreases Size(e1.tree) + Size(e2.tree), 3
  {
    ghost var t1, t2 := e1.tree, e2.tree;
    ghost var a := if t1.Bin? then Walk(t1.op, t1, t2) else Residual(t1, t2, []);
    r1, r2, n := e1, e2, 0;
    if e1.kind.BinKind? {
      r1, r2, n := WalkNodes(e1.kind.op, e1, e2);
    }
    var n2: nat;
    r1, r2, n2 := WalkUnlike(r1, r2);
    n := n + n2;
    EliminateYnBoth(r1, r2);
  }

  // The second walk, for two nodes of different types.
  method WalkUnlike(e1: ExprNode, e2: ExprNode) returns (r1: ExprNode, r2: ExprNode, n: nat)
    requires e1.Valid() && e2.Valid() && e1.Repr !! e2.Repr
    modifies e1.Repr, e2.Repr
    ensures r1.Valid() && r2.Valid() && r1.Repr !! r2.Repr
    ensures fresh(r1.Repr - old(e1.Repr)) && fresh(r2.Repr - old(e2.Repr))
    ensures var a1, a2 := old(e1.tree), old(e2.tree);
      IsResidual(if !SameType(a1, a2) && a2.Bin? then Walk(a2.op, a1, a2) else Residual(a1, a2, []), r1, r2, n)
    decreases Size(e1.tree) + Size(e2.tree), 2
  {
    r1, r2, n := e1, e2, 0;
    if e1.kind != e2.kind && e2.kind.BinKind? {
      r1, r2, n := WalkNodes(e2.kind.op, e1, e2);
    }
  }

  method EliminateYnBoth(e1: ExprNode, e2: ExprNode)
    requires e1.Valid() && e2.Valid() && e1.Repr !! e2.Repr
    modifies e1.Repr, e2.Repr
    ensures e1.Valid() && e1.Repr <= old(e1.Repr) && e1.tree == EliminateYn(old(e1.tree))
    ensures e2.Valid() && e2.Repr <= old(e2.Repr) && e2.tree == EliminateYn(old(e2.tree))
    decreases Size(e1.tree) + Size(e2.tree)
  {
    EliminateYnNode(e1);
    EliminateYnNode(e2);
  }

  // Works on copies, so it leaves both trees as they are.
  method ExprEqNodes(e1: ExprNode, e2: ExprNode) returns (b: bool)
    requires e1.Valid() && e2.Valid()
    ensures b == ExprEq(e1.tree, e2.tree)
    decreases Size(e1.tree) + Size(e2.tree), 4
  {
    if e1.kind != e2.kind {
      b := false;
    } else if e1.kind.CmpKind? {
      b := e1.lsym == e2.lsym && e1.rsym == e2.rsym;
    } else if e1.kind.SymbKind? {
      b := e1.lsym == e2.lsym;
    } else if e1.kind.NotKind? {
      b := ExprEqNodes(e1.left, e2.left);
    } else {
      var c1 := CopyNode(e1);
      var c2 := CopyNode(e2);
      var r1, r2, _ := EliminateEqNodes(c1, c2);
      b := r1.kind == SymbKind && r2.kind == SymbKind && r1.lsym == r2.lsym;
    }
  }
}
