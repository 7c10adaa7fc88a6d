/** Structural equality of expressions modulo commutativity, and the elimination of
  operands that two expressions have in common. The two are mutually recursive.
 */
module KconfigEq {
  import opened Seqs
  import opened KconfigExpr

  // What is left of the two expressions, and the operands taken out of both.
  // The number of removed operands is the amount by which the source bumps trans_count.
  datatype Residual = Residual(e1: Expr, e2: Expr, common: seq<Expr>)

  predicate IsOp(op: Op, e: Expr) {
    e.Bin? && e.op == op
  }

  // Pairs every op-leaf of e1 with every op-leaf of e2; equal leaves become units.
  // e1 and e2 are in/out slots: each recursive call sees what the previous one left.
  function Walk(op: Op, e1: Expr, e2: Expr): (r: Residual)
    ensures Size(r.e1) <= Size(e1) && Size(r.e2) <= Size(e2)
    decreases Size(e1) + Size(e2), if IsOp(op, e1) || IsOp(op, e2) then 0 else 3
  {
    if IsOp(op, e1) then
      var a := Walk(op, e1.left, e2);
      var b := Walk(op, e1.right, a.e2);
      Residual(Bin(op, a.e1, b.e1), b.e2, a.common + b.common)
    else if IsOp(op, e2) then
      var a := Walk(op, e1, e2.left);
      var b := Walk(op, a.e1, e2.right);
      Residual(b.e1, Bin(op, a.e2, b.e2), a.common + b.common)
    else if IsYesNo(e1) && e1 == e2 then
      Residual(e1, e2, [])
    else if !ExprEq(e1, e2) then
      Residual(e1, e2, [])
    else
      Residual(Symb(Unit(op)), Symb(Unit(op)), [e1])
  }

  function EliminateEq(e1: Expr, e2: Expr): (r: Residual)
    decreases Size(e1) + Size(e2), 1
  {
    var a := if e1.Bin? then Walk(e1.op, e1, e2) else Residual(e1, e2, []);
    var b := if !SameType(a.e1, a.e2) && a.e2.Bin? then Walk(a.e2.op, a.e1, a.e2) else Residual(a.e1, a.e2, []);
    Residual(EliminateYn(b.e1), EliminateYn(b.e2), a.common + b.common)
  }

  // The two nodes carry the same type tag.
  predicate SameType(e1: Expr, e2: Expr) {
    match e1
    case Symb(_) => e2.Symb?
    case Cmp(rel, _, _) => e2.Cmp? && e2.rel == rel
    case Not(_) => e2.Not?
    case Bin(op, _, _) => IsOp(op, e2)
  }

  predicate ExprEq(e1: Expr, e2: Expr)
    decreases Size(e1) + Size(e2), 2
  {
    SameType(e1, e2) &&
    match e1
    case Symb(s) => s == e2.sym
    case Cmp(_, l, r) => l == e2.lsym && r == e2.rsym
    case Not(a) => ExprEq(a, e2.arg)
    case Bin(_, _, _) =>
      var r := EliminateEq(e1, e2);
      r.e1.Symb? && r.e2.Symb? && r.e1.sym == r.e2.sym
  }

  // The value of the operands of op in a sequence, starting from the unit.
  function Fold(op: Op, es: seq<Expr>, v: Valuation): Tristate {
    if es == [] then (if op.AndOp? then YES else NO)
    else Combine(op, Value(es[0], v), Fold(op, es[1..], v))
  }

  lemma {:induction false} FoldConcat(op: Op, a: seq<Expr>, b: seq<Expr>, v: Valuation)
    ensures Fold(op, a + b, v) == Combine(op, Fold(op, a, v), Fold(op, b, v))
  {
    if a == [] {
      assert a + b == b;
    } else {
      assert (a + b)[1..] == a[1..] + b;
      FoldConcat(op, a[1..], b, v);
    }
  }

  lemma CombineRegroup(op: Op, x: Tristate, y: Tristate, f: Tristate, g: Tristate)
    ensures Combine(op, Combine(op, x, f), Combine(op, y, g)) == Combine(op, Combine(op, x, y), Combine(op, f, g))
    ensures Combine(op, Combine(op, x, g), f) == Combine(op, x, Combine(op, f, g))
  {
  }

  // The walk takes one and the same sequence of operands out of both expressions.
  lemma {:induction false} WalkSound(op: Op, e1: Expr, e2: Expr, v: Valuation)
    requires WellFormed(v)
    ensures var r := Walk(op, e1, e2);
      && Value(e1, v) == Combine(op, Value(r.e1, v), Fold(op, r.common, v))
      && Value(e2, v) == Combine(op, Value(r.e2, v), Fold(op, r.common, v))
    decreases Size(e1) + Size(e2), if IsOp(op, e1) || IsOp(op, e2) then 0 else 3
  {
    if IsOp(op, e1) {
      var a := Walk(op, e1.left, e2);
      var b := Walk(op, e1.right, a.e2);
      WalkSound(op, e1.left, e2, v);
      WalkSound(op, e1.right, a.e2, v);
      FoldConcat(op, a.common, b.common, v);
      CombineRegroup(op, Value(a.e1, v), Value(b.e1, v), Fold(op, a.common, v), Fold(op, b.common, v));
      CombineRegroup(op, Value(b.e2, v), YES, Fold(op, a.common, v), Fold(op, b.common, v));
    } else if IsOp(op, e2) {
      var a := Walk(op, e1, e2.left);
      var b := Walk(op, a.e1, e2.right);
      WalkSound(op, e1, e2.left, v);
      WalkSound(op, a.e1, e2.right, v);
      FoldConcat(op, a.common, b.common, v);
      CombineRegroup(op, Value(a.e2, v), Value(b.e2, v), Fold(op, a.common, v), Fold(op, b.common, v));
      CombineRegroup(op, Value(b.e1, v), YES, Fold(op, a.common, v), Fold(op, b.common, v));
    } else if ExprEq(e1, e2) && !IsYesNo(e1) {
      ExprEqSound(e1, e2, v);
      assert [e1][1..] == [];
    }
  }

  // When e1 and e2 are different operators, only one of the two walks can find anything.
  lemma {:induction false} LeafWalk(op: Op, e1: Expr, e2: Expr)
    requires !IsOp(op, e2)
    ensures var r := Walk(op, e1, e2);
      if r.common == [] then r.e1 == e1 && r.e2 == e2 else r.e2 == Symb(Unit(op))
    decreases e1
  {
    if IsOp(op, e1) {
      LeafWalk(op, e1.left, e2);
      LeafWalk(op, e1.right, Walk(op, e1.left, e2).e2);
    }
  }

  // The root of an operator survives a walk at its own level.
  lemma {:induction false} WalkKeepsOp(op: Op, e1: Expr, e2: Expr)
    requires IsOp(op, e1)
    ensures IsOp(op, Walk(op, e1, e2).e1)
  {
    var _ := Walk(op, e1, e2);
  }

  // The operator at whose level operands are removed.
  function ElimOp(e1: Expr, e2: Expr): Op {
    if e1.Bin? && Walk(e1.op, e1, e2).common != [] then e1.op
    else if e2.Bin? then e2.op
    else AndOp
  }

  // For one connective and one common part, each original is that connective applied
  // to its residual and the common part.
  lemma EliminateEqSound(e1: Expr, e2: Expr, v: Valuation)
    requires WellFormed(v)
    ensures var r := EliminateEq(e1, e2); var op := ElimOp(e1, e2);
      && Value(e1, v) == Combine(op, Value(r.e1, v), Fold(op, r.common, v))
      && Value(e2, v) == Combine(op, Value(r.e2, v), Fold(op, r.common, v))
    decreases Size(e1) + Size(e2), 1
  {
    var a := if e1.Bin? then Walk(e1.op, e1, e2) else Residual(e1, e2, []);
    var second := !SameType(a.e1, a.e2) && a.e2.Bin?;
    var b := if second then Walk(a.e2.op, a.e1, a.e2) else Residual(a.e1, a.e2, []);
    EliminateYnSound(b.e1, v);
    EliminateYnSound(b.e2, v);
    if e1.Bin? {
      WalkSound(e1.op, e1, e2, v);
      WalkKeepsOp(e1.op, e1, e2);
      if !IsOp(e1.op, e2) {
        LeafWalk(e1.op, e1, e2);
      } else {
        WalkKeepsOp2(e1.op, e1, e2);
      }
    }
    if second {
      WalkSound(a.e2.op, a.e1, a.e2, v);
      assert a.common == [];
      assert a.e1 == e1 && a.e2 == e2;
    }
    assert a.common + [] == a.common;
    assert [] + b.common == b.common;
  }

  lemma {:induction false} WalkKeepsOp2(op: Op, e1: Expr, e2: Expr)
    requires IsOp(op, e2)
    ensures IsOp(op, Walk(op, e1, e2).e2)
    decreases e1
  {
    if IsOp(op, e1) {
      WalkKeepsOp2(op, e1.left, e2);
      WalkKeepsOp2(op, e1.right, Walk(op, e1.left, e2).e2);
    }
  }

  lemma {:induction false} ExprEqSound(e1: Expr, e2: Expr, v: Valuation)
    requires WellFormed(v)
    requires ExprEq(e1, e2)
    ensures Value(e1, v) == Value(e2, v)
    decreases Size(e1) + Size(e2), 2
  {
    match e1
    case Not(a) => ExprEqSound(a, e2.arg, v);
    case Bin(_, _, _) => EliminateEqSound(e1, e2, v);
    case _ =>
  }

  // The operands of op at one level, from left to right.
  function Leaves(op: Op, e: Expr): (ls: seq<Expr>)
    ensures |ls| >= 1
    ensures forall i :: 0 <= i < |ls| ==> !IsOp(op, ls[i])
  {
    if IsOp(op, e) then Leaves(op, e.left) + Leaves(op, e.right) else [e]
  }

  // e' has no operands of op beyond those of e and the unit.
  ghost predicate Within(op: Op, e': Expr, e: Expr) {
    forall x | x in Leaves(op, e') :: x == Symb(Unit(op)) || x in Leaves(op, e)
  }

  // No operand of e1 equals an operand of e2, except for the constants y and n.
  ghost predicate Apart(op: Op, e1: Expr, e2: Expr) {
    forall x, y | x in Leaves(op, e1) && y in Leaves(op, e2) && ExprEq(x, y) :: IsYesNo(x) && x == y
  }

  lemma ApartWithin(op: Op, e1: Expr, e2: Expr, d1: Expr, d2: Expr)
    requires Apart(op, e1, e2) && Within(op, d1, e1) && Within(op, d2, e2)
    ensures Apart(op, d1, d2)
  {
    forall x, y | x in Leaves(op, d1) && y in Leaves(op, d2) && ExprEq(x, y)
      ensures IsYesNo(x) && x == y
    {
      assert x == Symb(Unit(op)) || x in Leaves(op, e1);
      assert y == Symb(Unit(op)) || y in Leaves(op, e2);
    }
  }

  lemma LeavesBin(op: Op, l: Expr, r: Expr)
    ensures forall x :: x in Leaves(op, Bin(op, l, r)) <==> x in Leaves(op, l) || x in Leaves(op, r)
  {
  }

  // d1 and d2 are what a walk of e1 and e2 may leave.
  ghost predicate Exhausted(op: Op, e1: Expr, e2: Expr, d1: Expr, d2: Expr) {
    Within(op, d1, e1) && Within(op, d2, e2) && Apart(op, d1, d2)
  }

  lemma ExhaustedLeft(op: Op, l: Expr, r: Expr, e2: Expr, a1: Expr, a2: Expr, b1: Expr, b2: Expr)
    requires Exhausted(op, l, e2, a1, a2) && Exhausted(op, r, a2, b1, b2)
    ensures Exhausted(op, Bin(op, l, r), e2, Bin(op, a1, b1), b2)
  {
    LeavesBin(op, l, r);
    LeavesBin(op, a1, b1);
    ApartWithin(op, a1, a2, a1, b2);
  }

  lemma ExhaustedRight(op: Op, e1: Expr, l: Expr, r: Expr, a1: Expr, a2: Expr, b1: Expr, b2: Expr)
    requires Exhausted(op, e1, l, a1, a2) && Exhausted(op, a1, r, b1, b2)
    ensures Exhausted(op, e1, Bin(op, l, r), b1, Bin(op, a2, b2))
  {
    LeavesBin(op, l, r);
    LeavesBin(op, a2, b2);
    ApartWithin(op, a1, a2, b1, a2);
  }

  // The walk is exhaustive: no operand left in the one still equals an operand left in
  // the other, apart from the constants y and n; and it invents no operands.
  lemma {:induction false} WalkExhaustive(op: Op, e1: Expr, e2: Expr)
    ensures Exhausted(op, e1, e2, Walk(op, e1, e2).e1, Walk(op, e1, e2).e2)
    decreases Size(e1) + Size(e2), if IsOp(op, e1) || IsOp(op, e2) then 0 else 3
  {
    if IsOp(op, e1) {
      var a := Walk(op, e1.left, e2);
      var b := Walk(op, e1.right, a.e2);
      assert Exhausted(op, e1, e2, Bin(op, a.e1, b.e1), b.e2) by {
        WalkExhaustive(op, e1.left, e2);
        WalkExhaustive(op, e1.right, a.e2);
        ExhaustedLeft(op, e1.left, e1.right, e2, a.e1, a.e2, b.e1, b.e2);
      }
    } else if IsOp(op, e2) {
      var a := Walk(op, e1, e2.left);
      var b := Walk(op, a.e1, e2.right);
      assert Exhausted(op, e1, e2, b.e1, Bin(op, a.e2, b.e2)) by {
        WalkExhaustive(op, e1, e2.left);
        WalkExhaustive(op, a.e1, e2.right);
        ExhaustedRight(op, e1, e2.left, e2.right, a.e1, a.e2, b.e1, b.e2);
      }
    } else {
      OperandsExhausted(op, e1, e2);
    }
  }

  lemma OperandsExhausted(op: Op, e1: Expr, e2: Expr)
    requires !IsOp(op, e1) && !IsOp(op, e2)
    ensures Exhausted(op, e1, e2, Walk(op, e1, e2).e1, Walk(op, e1, e2).e2)
  {
    var u := Symb(Unit(op));
    assert Leaves(op, e1) == [e1] && Leaves(op, e2) == [e2] && Leaves(op, u) == [u];
  }
}
