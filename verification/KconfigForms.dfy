/** What structural equality decides. Up to grouping and order of operands an expression has a
  form; where no y or n stands below an operator, two expressions are equal to the program
  exactly if they have the same form. With that the comment above the function can be compared
  to what the function does.
 */
module KconfigForms {
  import opened Seqs
  import opened KconfigExpr
  import opened KconfigEq

  // An expression without the grouping and the order of operands.
  datatype Form =
    | OfSymbol(sym: Symbol)
    | OfCmp(rel: Rel, lsym: Symbol, rsym: Symbol)
    | OfNot(arg: Form)
    | OfBin(op: Op, operands: multiset<Form>)

  function FormOf(e: Expr): Form
    decreases e, 1
  {
    match e
    case Symb(s) => OfSymbol(s)
    case Cmp(rel, l, r) => OfCmp(rel, l, r)
    case Not(a) => OfNot(FormOf(a))
    case Bin(op, _, _) => OfBin(op, Forms(op, e))
  }

  // The forms of the operands at one level. The unit of the operator does not count.
  function Forms(op: Op, e: Expr): multiset<Form>
    decreases e, if IsOp(op, e) then 0 else 2
  {
    if IsOp(op, e) then Forms(op, e.left) + Forms(op, e.right)
    else if e == Symb(Unit(op)) then multiset{}
    else multiset{FormOf(e)}
  }

  // Neither y nor n is an operand anywhere in the expression, not even below a negation.
  predicate Clean(e: Expr) {
    match e
    case Symb(_) => true
    case Cmp(_, _, _) => true
    case Not(a) => Clean(a)
    case Bin(_, l, r) => !IsYesNo(l) && !IsYesNo(r) && Clean(l) && Clean(r)
  }

  // The operands at one level are clean; y and n may be among them.
  predicate CleanAt(op: Op, e: Expr) {
    if IsOp(op, e) then CleanAt(op, e.left) && CleanAt(op, e.right) else Clean(e)
  }

  lemma {:induction false} CleanIsCleanAt(op: Op, e: Expr)
    requires Clean(e)
    ensures CleanAt(op, e) && (!IsYesNo(e) ==> OfSymbol(Absorber(op)) !in Forms(op, e))
    ensures IsOp(op, e) ==> FormOf(e) == OfBin(op, Forms(op, e))
  {
    if IsOp(op, e) {
      CleanIsCleanAt(op, e.left);
      CleanIsCleanAt(op, e.right);
    }
  }

  lemma {:induction false} CleanStays(e: Expr)
    requires Clean(e)
    ensures EliminateYn(e) == e
  {
    match e
    case Bin(op, l, r) =>
      CleanStays(l);
      CleanStays(r);
    case _ =>
  }

  /* ------------------------------- what is left after the elimination ------------------------------- */

  // r is what the removal of y and n makes of operands with these forms.
  ghost predicate Reduced(op: Op, fs: multiset<Form>, r: Expr) {
    && (OfSymbol(Absorber(op)) in fs <==> r == Symb(Absorber(op)))
    && (fs == multiset{} <==> r == Symb(Unit(op)))
    && (r != Symb(Absorber(op)) ==> Forms(op, r) == fs)
  }

  // What the removal makes of an operator, given what it makes of the two operands.
  function Joined(op: Op, l: Expr, r: Expr): Expr {
    if l == Symb(Absorber(op)) then l
    else if l == Symb(Unit(op)) then r
    else if r == Symb(Absorber(op)) then r
    else if r == Symb(Unit(op)) then l
    else Bin(op, l, r)
  }

  lemma ReducedJoin(op: Op, fl: multiset<Form>, fr: multiset<Form>, l: Expr, r: Expr)
    requires Reduced(op, fl, l) && Reduced(op, fr, r)
    ensures Reduced(op, fl + fr, Joined(op, l, r))
  {
    var z := OfSymbol(Absorber(op));
    assert (fl + fr)[z] == fl[z] + fr[z];
    if l == Symb(Absorber(op)) || r == Symb(Absorber(op)) {
    } else if l == Symb(Unit(op)) {
      assert fl + fr == fr;
    } else if r == Symb(Unit(op)) {
      assert fl + fr == fl;
    } else {
      if fl + fr == multiset{} {
        Empty(fl, fr);
      }
      FormsBin(op, l, r);
    }
  }

  lemma FormsOfConstants(op: Op)
    ensures Forms(op, Symb(Unit(op))) == multiset{}
    ensures Forms(op, Symb(Absorber(op))) == multiset{OfSymbol(Absorber(op))}
  {
  }

  lemma Empty(a: multiset<Form>, b: multiset<Form>)
    requires a + b == multiset{}
    ensures a == multiset{} && b == multiset{}
  {
    forall f: Form
      ensures a[f] == 0 && b[f] == 0
    {
      assert (a + b)[f] == 0;
    }
  }

  lemma ReducedOperand(op: Op, e: Expr)
    requires !IsOp(op, e)
    ensures Reduced(op, Forms(op, e), e)
  {
    FormsOfConstants(op);
    assert FormOf(e).OfSymbol? ==> e.Symb? && FormOf(e).sym == e.sym;
    assert e == Symb(Unit(op)) || Forms(op, e) == multiset{FormOf(e)};
  }

  // Removing y and n leaves the absorbing constant if it is among the operands, and otherwise
  // the same operands.
  lemma {:induction false} EliminateForms(op: Op, e: Expr)
    requires CleanAt(op, e)
    ensures Reduced(op, Forms(op, e), EliminateYn(e))
  {
    if IsOp(op, e) {
      EliminateForms(op, e.left);
      EliminateForms(op, e.right);
      ReducedJoin(op, Forms(op, e.left), Forms(op, e.right), EliminateYn(e.left), EliminateYn(e.right));
    } else {
      CleanStays(e);
      ReducedOperand(op, e);
    }
  }

  // The same forms have been taken out of both expressions, and neither y nor n out of any.
  ghost predicate Taken(op: Op, e1: Expr, e2: Expr, d1: Expr, d2: Expr) {
    && CleanAt(op, d1) && CleanAt(op, d2)
    && SameLoss(Forms(op, e1), Forms(op, d1), Forms(op, e2), Forms(op, d2))
    && Forms(op, d1)[OfSymbol(Absorber(op))] == Forms(op, e1)[OfSymbol(Absorber(op))]
    && Forms(op, d2)[OfSymbol(Absorber(op))] == Forms(op, e2)[OfSymbol(Absorber(op))]
  }

  ghost predicate SameLoss(f1: multiset<Form>, g1: multiset<Form>, f2: multiset<Form>, g2: multiset<Form>) {
    forall f: Form :: f1[f] + g2[f] == f2[f] + g1[f]
  }

  // What one half and then the other half of an operator lose against the same expression.
  lemma LossAdds(l: multiset<Form>, a1: multiset<Form>, r: multiset<Form>, b1: multiset<Form>,
                 e: multiset<Form>, a2: multiset<Form>, b2: multiset<Form>)
    requires SameLoss(l, a1, e, a2) && SameLoss(r, b1, a2, b2)
    ensures SameLoss(l + r, a1 + b1, e, b2)
  {
    forall f: Form
      ensures (l + r)[f] + b2[f] == e[f] + (a1 + b1)[f]
    {
      assert l[f] + a2[f] == e[f] + a1[f] && r[f] + b2[f] == a2[f] + b1[f];
    }
  }

  lemma LossSwaps(f1: multiset<Form>, g1: multiset<Form>, f2: multiset<Form>, g2: multiset<Form>)
    requires SameLoss(f1, g1, f2, g2)
    ensures SameLoss(f2, g2, f1, g1)
  {
    forall f: Form
      ensures f2[f] + g1[f] == f1[f] + g2[f]
    {
    }
  }

  lemma TakenLeft(op: Op, l: Expr, r: Expr, e2: Expr, a1: Expr, a2: Expr, b1: Expr, b2: Expr)
    requires Taken(op, l, e2, a1, a2) && Taken(op, r, a2, b1, b2)
    ensures Taken(op, Bin(op, l, r), e2, Bin(op, a1, b1), b2)
  {
    FormsBin(op, l, r);
    FormsBin(op, a1, b1);
    LossAdds(Forms(op, l), Forms(op, a1), Forms(op, r), Forms(op, b1), Forms(op, e2), Forms(op, a2), Forms(op, b2));
  }

  lemma TakenSwaps(op: Op, e1: Expr, e2: Expr, d1: Expr, d2: Expr)
    requires Taken(op, e1, e2, d1, d2)
    ensures Taken(op, e2, e1, d2, d1)
  {
    LossSwaps(Forms(op, e1), Forms(op, d1), Forms(op, e2), Forms(op, d2));
  }

  lemma TakenRight(op: Op, e1: Expr, l: Expr, r: Expr, a1: Expr, a2: Expr, b1: Expr, b2: Expr)
    requires Taken(op, e1, l, a1, a2) && Taken(op, a1, r, b1, b2)
    ensures Taken(op, e1, Bin(op, l, r), b1, Bin(op, a2, b2))
  {
    TakenSwaps(op, e1, l, a1, a2);
    TakenSwaps(op, a1, r, b1, b2);
    TakenLeft(op, l, r, e1, a2, a1, b2, b1);
    TakenSwaps(op, Bin(op, l, r), e1, Bin(op, a2, b2), b1);
  }

  lemma FormsBin(op: Op, l: Expr, r: Expr)
    ensures Forms(op, Bin(op, l, r)) == Forms(op, l) + Forms(op, r)
    ensures CleanAt(op, Bin(op, l, r)) == (CleanAt(op, l) && CleanAt(op, r))
  {
  }

  lemma {:induction false} WalkForms(op: Op, e1: Expr, e2: Expr)
    requires CleanAt(op, e1) && CleanAt(op, e2)
    ensures var r := Walk(op, e1, e2); Taken(op, e1, e2, r.e1, r.e2)
    decreases Size(e1) + Size(e2), if IsOp(op, e1) || IsOp(op, e2) then 0 else 3
  {
    if IsOp(op, e1) {
      var a := Walk(op, e1.left, e2);
      var b := Walk(op, e1.right, a.e2);
      assert Taken(op, e1, e2, Bin(op, a.e1, b.e1), b.e2) by {
        WalkForms(op, e1.left, e2);
        WalkForms(op, e1.right, a.e2);
        TakenLeft(op, e1.left, e1.right, e2, a.e1, a.e2, b.e1, b.e2);
      }
    } else if IsOp(op, e2) {
      var a := Walk(op, e1, e2.left);
      var b := Walk(op, a.e1, e2.right);
      assert Taken(op, e1, e2, b.e1, Bin(op, a.e2, b.e2)) by {
        WalkForms(op, e1, e2.left);
        WalkForms(op, a.e1, e2.right);
        TakenRight(op, e1, e2.left, e2.right, a.e1, a.e2, b.e1, b.e2);
      }
    } else if ExprEq(e1, e2) && !IsYesNo(e1) {
      ExprEqForms(e1, e2);
      OperandsTaken(op, e1, e2);
    }
  }

  lemma OperandsTaken(op: Op, e1: Expr, e2: Expr)
    requires !IsOp(op, e1) && !IsOp(op, e2) && FormOf(e1) == FormOf(e2) && !IsYesNo(e1)
    ensures Taken(op, e1, e2, Symb(Unit(op)), Symb(Unit(op)))
  {
    assert FormOf(Symb(Unit(op))) == OfSymbol(Unit(op));
    assert FormOf(e1) != OfSymbol(Absorber(op)) && FormOf(e1) != OfSymbol(Unit(op)) && !IsYesNo(e2);
    assert Forms(op, e1) == multiset{FormOf(e1)} && Forms(op, e2) == multiset{FormOf(e2)};
    assert Forms(op, Symb(Unit(op))) == multiset{};
  }

  // Every form is that of an operand.
  lemma {:induction false} SomeOperand(op: Op, e: Expr, f: Form) returns (x: Expr)
    requires CleanAt(op, e) && f in Forms(op, e)
    ensures x in Leaves(op, e) && x != Symb(Unit(op)) && FormOf(x) == f && Clean(x)
  {
    if IsOp(op, e) {
      x := SomeOperand(op, if f in Forms(op, e.left) then e.left else e.right, f);
    } else {
      x := e;
    }
  }

  lemma {:induction false} OperandsSmaller(op: Op, e: Expr, x: Expr)
    requires x in Leaves(op, e)
    ensures Size(x) <= Size(e) && (IsOp(op, e) ==> Size(x) < Size(e))
  {
    if IsOp(op, e) {
      OperandsSmaller(op, if x in Leaves(op, e.left) then e.left else e.right, x);
    }
  }

  // No form but that of the absorbing constant is left over on both sides.
  lemma LeftoversApart(op: Op, e1: Expr, e2: Expr, f: Form)
    requires IsOp(op, e1) && IsOp(op, e2) && CleanAt(op, e1) && CleanAt(op, e2)
    requires var r := Walk(op, e1, e2); CleanAt(op, r.e1) && CleanAt(op, r.e2) && f in Forms(op, r.e1) && f in Forms(op, r.e2)
    ensures f == OfSymbol(Absorber(op))
    decreases Size(e1) + Size(e2), 0
  {
    var x, y := Leftovers(op, e1, e2, f);
    ExprEqForms(x, y);
  }

  lemma Leftovers(op: Op, e1: Expr, e2: Expr, f: Form) returns (x: Expr, y: Expr)
    requires IsOp(op, e1) && IsOp(op, e2)
    requires var r := Walk(op, e1, e2); CleanAt(op, r.e1) && CleanAt(op, r.e2) && f in Forms(op, r.e1) && f in Forms(op, r.e2)
    ensures Clean(x) && Clean(y) && FormOf(x) == f && FormOf(y) == f && x != Symb(Unit(op))
    ensures ExprEq(x, y) ==> IsYesNo(x)
    ensures Size(x) < Size(e1) && Size(y) < Size(e2)
  {
    var r := Walk(op, e1, e2);
    WalkExhaustive(op, e1, e2);
    x := SomeOperand(op, r.e1, f);
    y := SomeOperand(op, r.e2, f);
    OperandsSmaller(op, e1, x);
    OperandsSmaller(op, e2, y);
  }

  // Two expressions of one operator with clean operands are equal to the program exactly if
  // both have the absorbing constant among their operands, or the same forms of operands, the
  // unit aside.
  lemma ExprEqByForms(op: Op, e1: Expr, e2: Expr)
    requires IsOp(op, e1) && IsOp(op, e2) && CleanAt(op, e1) && CleanAt(op, e2)
    ensures ExprEq(e1, e2) <==> AlikeForms(op, Forms(op, e1), Forms(op, e2))
    decreases Size(e1) + Size(e2), 1
  {
    var r := Walk(op, e1, e2);
    WalkForms(op, e1, e2);
    forall f: Form | f in Forms(op, r.e1) && f in Forms(op, r.e2)
      ensures f == OfSymbol(Absorber(op))
    {
      LeftoversApart(op, e1, e2, f);
    }
    Decided(op, e1, e2, r.e1, r.e2);
    AnswerAfterWalk(op, e1, e2);
  }

  lemma Decided(op: Op, e1: Expr, e2: Expr, d1: Expr, d2: Expr)
    requires Taken(op, e1, e2, d1, d2)
    requires forall f: Form :: f in Forms(op, d1) && f in Forms(op, d2) ==> f == OfSymbol(Absorber(op))
    ensures SameSymbol(EliminateYn(d1), EliminateYn(d2)) <==> AlikeForms(op, Forms(op, e1), Forms(op, e2))
  {
    LossDecides(OfSymbol(Absorber(op)), Forms(op, e1), Forms(op, d1), Forms(op, e2), Forms(op, d2));
    EliminateForms(op, d1);
    EliminateForms(op, d2);
    ReducedDecide(op, Forms(op, d1), Forms(op, d2), EliminateYn(d1), EliminateYn(d2));
  }

  ghost predicate AlikeForms(op: Op, f1: multiset<Form>, f2: multiset<Form>) {
    (OfSymbol(Absorber(op)) in f1 && OfSymbol(Absorber(op)) in f2) || f1 == f2
  }

  // What is left on the two sides has nothing in common but z; so it is the same only if it is
  // nothing, or if z is there.
  lemma LossDecides(z: Form, f1: multiset<Form>, g1: multiset<Form>, f2: multiset<Form>, g2: multiset<Form>)
    requires SameLoss(f1, g1, f2, g2) && g1[z] == f1[z] && g2[z] == f2[z]
    requires forall f: Form :: f in g1 && f in g2 ==> f == z
    ensures g1 == g2 <==> f1 == f2
    ensures g1 == g2 && z !in g1 ==> g1 == multiset{}
    ensures z in g1 <==> z in f1
    ensures z in g2 <==> z in f2
  {
    assert g1 == g2 <==> forall f: Form :: g1[f] == g2[f];
    assert f1 == f2 <==> forall f: Form :: f1[f] == f2[f];
    if g1 == g2 && z !in g1 {
      assert forall f: Form :: f !in g1;
    }
  }

  // After the walk the answer depends on what the removal of y and n makes of the residuals.
  lemma AnswerAfterWalk(op: Op, e1: Expr, e2: Expr)
    requires IsOp(op, e1) && IsOp(op, e2)
    ensures ExprEq(e1, e2) <==> SameSymbol(EliminateYn(Walk(op, e1, e2).e1), EliminateYn(Walk(op, e1, e2).e2))
  {
    WalkKeepsOp(op, e1, e2);
    WalkKeepsOp2(op, e1, e2);
  }

  predicate SameSymbol(d1: Expr, d2: Expr) {
    d1.Symb? && d2.Symb? && d1.sym == d2.sym
  }

  lemma ReducedDecide(op: Op, g1: multiset<Form>, g2: multiset<Form>, r1: Expr, r2: Expr)
    requires Reduced(op, g1, r1) && Reduced(op, g2, r2)
    ensures OfSymbol(Absorber(op)) in g1 && OfSymbol(Absorber(op)) in g2 ==> SameSymbol(r1, r2)
    ensures g1 == multiset{} && g2 == multiset{} ==> SameSymbol(r1, r2)
    ensures SameSymbol(r1, r2) ==> AlikeForms(op, g1, g2)
  {
    FormsOfConstants(op);
  }

  // Where no y or n stands below an operator, equality to the program is equality of forms.
  lemma {:induction false} ExprEqForms(e1: Expr, e2: Expr)
    requires Clean(e1) && Clean(e2)
    ensures ExprEq(e1, e2) <==> FormOf(e1) == FormOf(e2)
    decreases Size(e1) + Size(e2), 2
  {
    if SameType(e1, e2) {
      match e1
      case Not(a) => ExprEqForms(a, e2.arg);
      case Bin(op, _, _) =>
        CleanIsCleanAt(op, e1);
        CleanIsCleanAt(op, e2);
        ExprEqByForms(op, e1, e2);
      case _ =>
    }
  }

  // So it is an equivalence there.
  lemma ExprEqEquivalence(e1: Expr, e2: Expr, e3: Expr)
    requires Clean(e1) && Clean(e2) && Clean(e3)
    ensures ExprEq(e1, e1)
    ensures ExprEq(e1, e2) <==> ExprEq(e2, e1)
    ensures ExprEq(e1, e2) && ExprEq(e2, e3) ==> ExprEq(e1, e3)
  {
    ExprEqForms(e1, e1);
    ExprEqForms(e1, e2);
    ExprEqForms(e2, e1);
    ExprEqForms(e2, e3);
    ExprEqForms(e1, e3);
  }

  /* ------------------------------- operands in pairs ------------------------------- */

  // The two sequences pair off, each expression with one that is equal to the program.
  ghost predicate PairOff(l1: seq<Expr>, l2: seq<Expr>)
    decreases |l1|
  {
    if l1 == [] then l2 == []
    else exists j :: 0 <= j < |l2| && ExprEq(l1[0], l2[j]) && PairOff(l1[1..], l2[..j] + l2[j + 1..])
  }

  function FormsOfAll(l: seq<Expr>): multiset<Form> {
    if l == [] then multiset{} else multiset{FormOf(l[0])} + FormsOfAll(l[1..])
  }

  ghost predicate CleanAll(l: seq<Expr>) {
    forall x :: x in l ==> Clean(x)
  }

  lemma {:induction false} FormsConcat(a: seq<Expr>, b: seq<Expr>)
    ensures FormsOfAll(a + b) == FormsOfAll(a) + FormsOfAll(b)
  {
    if a == [] {
      assert a + b == b;
    } else {
      assert (a + b)[1..] == a[1..] + b;
      FormsConcat(a[1..], b);
    }
  }

  lemma FormsTakeOut(l: seq<Expr>, j: nat)
    requires j < |l|
    ensures FormsOfAll(l) == multiset{FormOf(l[j])} + FormsOfAll(l[..j] + l[j + 1..])
  {
    var a, b := l[..j], l[j + 1..];
    assert l == a + ([l[j]] + b);
    FormsConcat(a, [l[j]] + b);
    FormsConcat(a, b);
    assert ([l[j]] + b)[1..] == b;
  }

  lemma {:induction false} FindForm(l: seq<Expr>, f: Form) returns (j: nat)
    requires f in FormsOfAll(l)
    ensures j < |l| && FormOf(l[j]) == f
  {
    if FormOf(l[0]) == f {
      j := 0;
    } else {
      var k := FindForm(l[1..], f);
      j := k + 1;
    }
  }

  // Clean expressions pair off exactly if they have the same forms.
  lemma {:induction false} PairOffForms(l1: seq<Expr>, l2: seq<Expr>)
    requires CleanAll(l1) && CleanAll(l2)
    ensures PairOff(l1, l2) <==> FormsOfAll(l1) == FormsOfAll(l2)
    decreases |l1|, 0
  {
    if l1 == [] {
      assert l2 != [] ==> FormOf(l2[0]) in FormsOfAll(l2);
    } else {
      forall j | 0 <= j < |l2| && ExprEq(l1[0], l2[j])
        ensures PairOff(l1[1..], l2[..j] + l2[j + 1..]) <==> FormsOfAll(l1) == FormsOfAll(l2)
      {
        PairOffStep(l1, l2, j);
      }
      if FormsOfAll(l1) == FormsOfAll(l2) {
        assert FormOf(l1[0]) in FormsOfAll(l1);
        var j := FindForm(l2, FormOf(l1[0]));
        ExprEqForms(l1[0], l2[j]);
      }
    }
  }

  lemma {:induction false} PairOffStep(l1: seq<Expr>, l2: seq<Expr>, j: nat)
    requires CleanAll(l1) && CleanAll(l2) && l1 != [] && j < |l2| && ExprEq(l1[0], l2[j])
    ensures PairOff(l1[1..], l2[..j] + l2[j + 1..]) <==> FormsOfAll(l1) == FormsOfAll(l2)
    decreases |l1| - 1, 1
  {
    var r1, r2 := l1[1..], l2[..j] + l2[j + 1..];
    ExprEqForms(l1[0], l2[j]);
    FormsTakeOut(l2, j);
    PairOffForms(r1, r2);
    CancelOne(FormOf(l1[0]), FormsOfAll(r1), FormsOfAll(r2));
  }

  lemma CancelOne(f: Form, a: multiset<Form>, b: multiset<Form>)
    ensures multiset{f} + a == multiset{f} + b <==> a == b
  {
    assert (multiset{f} + a) - multiset{f} == a && (multiset{f} + b) - multiset{f} == b;
  }

  // The operands at one level, the unit left out.
  function Proper(op: Op, l: seq<Expr>): seq<Expr> {
    if l == [] then [] else (if l[0] == Symb(Unit(op)) then [] else [l[0]]) + Proper(op, l[1..])
  }

  lemma {:induction false} ProperConcat(op: Op, a: seq<Expr>, b: seq<Expr>)
    ensures Proper(op, a + b) == Proper(op, a) + Proper(op, b)
  {
    if a == [] {
      assert a + b == b;
    } else {
      var m := a[1..];
      assert (a + b)[1..] == m + b;
      ProperConcat(op, m, b);
      ProperHead(op, a[0], m, b);
    }
  }

  lemma ProperHead(op: Op, x: Expr, a: seq<Expr>, b: seq<Expr>)
    requires Proper(op, a + b) == Proper(op, a) + Proper(op, b)
    ensures Proper(op, [x] + (a + b)) == Proper(op, [x] + a) + Proper(op, b)
  {
    ProperCons(op, x, a);
    ProperCons(op, x, a + b);
  }

  lemma ProperCons(op: Op, x: Expr, a: seq<Expr>)
    ensures Proper(op, [x] + a) == if x == Symb(Unit(op)) then Proper(op, a) else [x] + Proper(op, a)
  {
    assert ([x] + a)[1..] == a;
  }

  lemma {:induction false} FormsAreLeaves(op: Op, e: Expr)
    requires CleanAt(op, e)
    ensures Forms(op, e) == FormsOfAll(Proper(op, Leaves(op, e)))
    ensures CleanAll(Proper(op, Leaves(op, e)))
  {
    if IsOp(op, e) {
      FormsAreLeaves(op, e.left);
      FormsAreLeaves(op, e.right);
      ProperConcat(op, Leaves(op, e.left), Leaves(op, e.right));
      FormsConcat(Proper(op, Leaves(op, e.left)), Proper(op, Leaves(op, e.right)));
    } else {
      assert Leaves(op, e) == [e] && [e][1..] == [];
    }
  }

  lemma {:induction false} AbsorberIsLeaf(op: Op, e: Expr)
    ensures OfSymbol(Absorber(op)) in Forms(op, e) <==> Symb(Absorber(op)) in Leaves(op, e)
  {
    if IsOp(op, e) {
      AbsorberIsLeaf(op, e.left);
      AbsorberIsLeaf(op, e.right);
    } else {
      assert FormOf(e).OfSymbol? ==> e.Symb? && FormOf(e).sym == e.sym;
    }
  }

  // What the program takes for equal, among expressions of one operator whose operands have no
  // y or n below an operator of their own: those that both have the absorbing constant among
  // their operands, and those whose other operands pair off.
  lemma ExprEqExactly(op: Op, e1: Expr, e2: Expr)
    requires IsOp(op, e1) && IsOp(op, e2) && CleanAt(op, e1) && CleanAt(op, e2)
    ensures ExprEq(e1, e2) <==>
      || (Symb(Absorber(op)) in Leaves(op, e1) && Symb(Absorber(op)) in Leaves(op, e2))
      || PairOff(Proper(op, Leaves(op, e1)), Proper(op, Leaves(op, e2)))
  {
    ExprEqByForms(op, e1, e2);
    FormsAreLeaves(op, e1);
    FormsAreLeaves(op, e2);
    AbsorberIsLeaf(op, e1);
    AbsorberIsLeaf(op, e2);
    PairOffForms(Proper(op, Leaves(op, e1)), Proper(op, Leaves(op, e2)));
  }

  lemma {:induction false} CleanLeaves(op: Op, e: Expr)
    requires Clean(e) && !IsYesNo(e)
    ensures forall x :: x in Leaves(op, e) ==> !IsYesNo(x) && Clean(x)
    ensures Forms(op, e) == FormsOfAll(Leaves(op, e))
  {
    if IsOp(op, e) {
      CleanLeaves(op, e.left);
      CleanLeaves(op, e.right);
      FormsConcat(Leaves(op, e.left), Leaves(op, e.right));
    } else {
      assert Leaves(op, e) == [e] && [e][1..] == [];
    }
  }

  // Without y and n the absorbing constant and the unit do not come in.
  lemma ExprEqPairsOff(op: Op, e1: Expr, e2: Expr)
    requires IsOp(op, e1) && IsOp(op, e2) && Clean(e1) && Clean(e2)
    ensures ExprEq(e1, e2) <==> PairOff(Leaves(op, e1), Leaves(op, e2))
  {
    CleanIsCleanAt(op, e1);
    CleanIsCleanAt(op, e2);
    ExprEqForms(e1, e2);
    CleanLeaves(op, e1);
    CleanLeaves(op, e2);
    PairOffForms(Leaves(op, e1), Leaves(op, e2));
  }

  /* ------------------------------- the comment above expr_eq ------------------------------- */

  // Every expression of l1 equals some expression of l2.
  ghost predicate Covered(l1: seq<Expr>, l2: seq<Expr>) {
    forall x :: x in l1 ==> exists y :: y in l2 && ExprEq(x, y)
  }

  // What the comment says: every operand of one equals some operand of the other.
  ghost predicate AsCommented(op: Op, e1: Expr, e2: Expr) {
    Covered(Leaves(op, e1), Leaves(op, e2)) && Covered(Leaves(op, e2), Leaves(op, e1))
  }

  // How many expressions of l equal x.
  function Count(x: Expr, l: seq<Expr>): nat {
    if l == [] then 0 else (if ExprEq(x, l[0]) then 1 else 0) + Count(x, l[1..])
  }

  ghost predicate RepeatedAlike(l1: seq<Expr>, l2: seq<Expr>) {
    forall x :: x in l1 ==> Count(x, l1) == Count(x, l2)
  }

  ghost predicate NoRepeats(l: seq<Expr>) {
    forall i, j :: 0 <= i < j < |l| ==> !ExprEq(l[i], l[j])
  }

  lemma {:induction false} CountForms(x: Expr, l: seq<Expr>)
    requires Clean(x) && CleanAll(l)
    ensures Count(x, l) == FormsOfAll(l)[FormOf(x)]
  {
    if l != [] {
      ExprEqForms(x, l[0]);
      CountForms(x, l[1..]);
    }
  }

  lemma {:induction false} HasForm(l: seq<Expr>, x: Expr)
    requires x in l
    ensures FormOf(x) in FormsOfAll(l)
  {
    if l[0] != x {
      HasForm(l[1..], x);
    }
  }

  lemma PartnerForm(x: Expr, l: seq<Expr>)
    requires Clean(x) && CleanAll(l)
    ensures (exists y :: y in l && ExprEq(x, y)) <==> FormOf(x) in FormsOfAll(l)
  {
    if y :| y in l && ExprEq(x, y) {
      ExprEqForms(x, y);
      HasForm(l, y);
    }
    if FormOf(x) in FormsOfAll(l) {
      var k := FindForm(l, FormOf(x));
      ExprEqForms(x, l[k]);
    }
  }

  lemma NoRepeatsCons(x: Expr, m: seq<Expr>)
    ensures NoRepeats([x] + m) <==> NoRepeats(m) && !exists y :: y in m && ExprEq(x, y)
  {
    var l := [x] + m;
    if NoRepeats(l) {
      forall i, j | 0 <= i < j < |m|
        ensures !ExprEq(m[i], m[j])
      {
        assert !ExprEq(l[i + 1], l[j + 1]);
      }
      forall y | y in m
        ensures !ExprEq(x, y)
      {
        var k :| 0 <= k < |m| && m[k] == y;
        assert !ExprEq(l[0], l[k + 1]);
      }
    }
    if NoRepeats(m) && !exists y :: y in m && ExprEq(x, y) {
      forall i, j | 0 <= i < j < |l|
        ensures !ExprEq(l[i], l[j])
      {
        assert l[j] == m[j - 1] && m[j - 1] in m;
        assert i > 0 ==> l[i] == m[i - 1];
      }
    }
  }

  lemma {:induction false} NoRepeatsForms(l: seq<Expr>)
    requires CleanAll(l)
    ensures NoRepeats(l) <==> forall f: Form :: FormsOfAll(l)[f] <= 1
  {
    if l != [] {
      NoRepeatsForms(l[1..]);
      assert l == [l[0]] + l[1..];
      NoRepeatsCons(l[0], l[1..]);
      PartnerForm(l[0], l[1..]);
      AtMostOne(FormOf(l[0]), FormsOfAll(l[1..]));
    }
  }

  lemma AtMostOne(x: Form, fs: multiset<Form>)
    ensures (forall f: Form :: (multiset{x} + fs)[f] <= 1) <==> (forall f: Form :: fs[f] <= 1) && x !in fs
  {
    if forall f: Form :: (multiset{x} + fs)[f] <= 1 {
      assert (multiset{x} + fs)[x] == 1 + fs[x];
      forall f: Form
        ensures fs[f] <= 1
      {
        assert (multiset{x} + fs)[f] >= fs[f];
      }
    }
  }

  ghost predicate FormsCovered(l1: seq<Expr>, l2: seq<Expr>) {
    forall f: Form :: f in FormsOfAll(l1) ==> f in FormsOfAll(l2)
  }

  lemma CoveredForms(l1: seq<Expr>, l2: seq<Expr>)
    requires CleanAll(l1) && CleanAll(l2)
    ensures Covered(l1, l2) <==> FormsCovered(l1, l2)
  {
    if Covered(l1, l2) {
      forall f: Form | f in FormsOfAll(l1)
        ensures f in FormsOfAll(l2)
      {
        var j := FindForm(l1, f);
        PartnerForm(l1[j], l2);
      }
    }
    if FormsCovered(l1, l2) {
      forall x | x in l1
        ensures exists y :: y in l2 && ExprEq(x, y)
      {
        HasForm(l1, x);
        PartnerForm(x, l2);
      }
    }
  }

  lemma RepeatedAlikeForms(l1: seq<Expr>, l2: seq<Expr>)
    requires CleanAll(l1) && CleanAll(l2)
    ensures RepeatedAlike(l1, l2) <==> forall f: Form :: f in FormsOfAll(l1) ==> FormsOfAll(l1)[f] == FormsOfAll(l2)[f]
  {
    forall x | x in l1
      ensures Count(x, l1) == FormsOfAll(l1)[FormOf(x)] && Count(x, l2) == FormsOfAll(l2)[FormOf(x)]
    {
      CountForms(x, l1);
      CountForms(x, l2);
    }
    if RepeatedAlike(l1, l2) {
      forall f: Form | f in FormsOfAll(l1)
        ensures FormsOfAll(l1)[f] == FormsOfAll(l2)[f]
      {
        var j := FindForm(l1, f);
        assert l1[j] in l1;
      }
    } else {
      var x :| x in l1 && Count(x, l1) != Count(x, l2);
      HasForm(l1, x);
    }
  }

  // When the code does what the comment says: exactly if every operand is repeated as often on
  // one side as on the other, or the comment denies equality too. Given that no operand of the
  // first expression is repeated, none of the second may be.
  lemma CommentExactly(op: Op, e1: Expr, e2: Expr)
    requires IsOp(op, e1) && IsOp(op, e2) && Clean(e1) && Clean(e2)
    ensures ExprEq(e1, e2) <==> AsCommented(op, e1, e2) && RepeatedAlike(Leaves(op, e1), Leaves(op, e2))
    ensures NoRepeats(Leaves(op, e1)) ==> (ExprEq(e1, e2) <==> AsCommented(op, e1, e2) && NoRepeats(Leaves(op, e2)))
  {
    CleanIsCleanAt(op, e1);
    CleanIsCleanAt(op, e2);
    ExprEqForms(e1, e2);
    CleanLeaves(op, e1);
    CleanLeaves(op, e2);
    var l1, l2 := Leaves(op, e1), Leaves(op, e2);
    CoveredForms(l1, l2);
    CoveredForms(l2, l1);
    RepeatedAlikeForms(l1, l2);
    NoRepeatsForms(l1);
    NoRepeatsForms(l2);
    CountsDecide(FormsOfAll(l1), FormsOfAll(l2));
  }

  lemma CountsDecide(f1: multiset<Form>, f2: multiset<Form>)
    ensures f1 == f2 <==>
      (forall f: Form :: f in f1 ==> f in f2) && (forall f: Form :: f in f2 ==> f in f1)
      && forall f: Form :: f in f1 ==> f1[f] == f2[f]
    ensures (forall f: Form :: f1[f] <= 1) ==>
      (f1 == f2 <==>
        (forall f: Form :: f in f1 ==> f in f2) && (forall f: Form :: f in f2 ==> f in f1)
        && forall f: Form :: f2[f] <= 1)
  {
  }

  // An operand given twice is never recognised, though the comment and the value say that
  // nothing has changed: A && A && B against A && B.
  lemma RepeatUnrecognised(op: Op, e: Expr, x: Expr)
    requires IsOp(op, e) && Clean(e) && x in Leaves(op, e)
    ensures AsCommented(op, Bin(op, x, e), e) && Equivalent(Bin(op, x, e), e)
    ensures !ExprEq(Bin(op, x, e), e)
  {
    RepeatCounts(op, e, x);
    RepeatAsCommented(op, e, x);
    forall v | WellFormed(v)
      ensures Value(Bin(op, x, e), v) == Value(e, v)
    {
      OperandAbsorbed(op, e, x, v);
    }
  }

  lemma RepeatCounts(op: Op, e: Expr, x: Expr)
    requires IsOp(op, e) && Clean(e) && x in Leaves(op, e)
    ensures !ExprEq(Bin(op, x, e), e)
  {
    var d := Bin(op, x, e);
    CleanLeaves(op, e);
    assert FormOf(d) != FormOf(e) by {
      assert Forms(op, d) == multiset{FormOf(x)} + Forms(op, e);
      assert Forms(op, d)[FormOf(x)] == Forms(op, e)[FormOf(x)] + 1;
    }
    ExprEqForms(d, e);
  }

  lemma RepeatAsCommented(op: Op, e: Expr, x: Expr)
    requires IsOp(op, e) && Clean(e) && x in Leaves(op, e)
    ensures AsCommented(op, Bin(op, x, e), e)
  {
    assert !IsOp(op, x) && CleanAll(Leaves(op, e)) by {
      CleanLeaves(op, e);
    }
    LeavesCons(op, x, e);
    RepeatCovered(x, Leaves(op, e));
  }

  lemma LeavesCons(op: Op, x: Expr, e: Expr)
    requires !IsOp(op, x)
    ensures Leaves(op, Bin(op, x, e)) == [x] + Leaves(op, e)
  {
    assert Leaves(op, x) == [x];
  }

  lemma RepeatCovered(x: Expr, l: seq<Expr>)
    requires x in l && CleanAll(l)
    ensures Covered([x] + l, l) && Covered(l, [x] + l)
  {
    forall y | y in [x] + l
      ensures y in l && ExprEq(y, y)
    {
      ExprEqForms(y, y);
    }
  }

  lemma {:induction false} OperandAbsorbed(op: Op, e: Expr, x: Expr, v: Valuation)
    requires x in Leaves(op, e)
    ensures Combine(op, Value(x, v), Value(e, v)) == Value(e, v)
  {
    if IsOp(op, e) {
      OperandAbsorbed(op, if x in Leaves(op, e.left) then e.left else e.right, x, v);
    }
  }

  // With a y or n below an operator the code departs from the comment in the other direction:
  // (A || n) && B equals A && B, although A || n equals neither A nor B.
  lemma NestedConstantAccepted(a: Symbol, b: Symbol)
    requires a.Declared? && b.Declared? && a != b
    ensures var x, e := Bin(OrOp, Symb(a), Symb(SymNo)), Bin(AndOp, Symb(a), Symb(b));
      && ExprEq(Bin(AndOp, x, Symb(b)), e)
      && !ExprEq(x, Symb(a)) && !ExprEq(x, Symb(b)) && !AsCommented(AndOp, Bin(AndOp, x, Symb(b)), e)
  {
    var sa, sb, y := Symb(a), Symb(b), Symb(SymYes);
    var x := Bin(OrOp, sa, Symb(SymNo));
    NestedConstantEqual(sa, sb, x, y);
    assert !ExprEq(x, sa) && !ExprEq(x, sb);
    LeavesTwo(AndOp, x, sb);
    LeavesTwo(AndOp, sa, sb);
    assert !Covered([x, sb], [sa, sb]) by {
      assert x in [x, sb];
    }
  }

  lemma LeavesTwo(op: Op, l: Expr, r: Expr)
    requires !IsOp(op, l) && !IsOp(op, r)
    ensures Leaves(op, Bin(op, l, r)) == [l, r]
  {
    assert Leaves(op, l) == [l] && Leaves(op, r) == [r];
  }

  lemma NestedConstantEqual(sa: Expr, sb: Expr, x: Expr, y: Expr)
    requires sa.Symb? && sb.Symb? && sa.sym.Declared? && sb.sym.Declared? && sa != sb
    requires x == Bin(OrOp, sa, Symb(SymNo)) && y == Symb(SymYes)
    ensures ExprEq(Bin(AndOp, x, sb), Bin(AndOp, sa, sb))
  {
    assert EliminateYn(Bin(AndOp, x, y)) == sa by {
      assert EliminateYn(x) == sa;
      assert EliminateYn(y) == y;
    }
    assert EliminateYn(Bin(AndOp, sa, y)) == sa;
    NestedConstantWalk(sa, sb, x, y);
    AnswerAfterWalk(AndOp, Bin(AndOp, x, sb), Bin(AndOp, sa, sb));
  }

  lemma NestedConstantWalk(sa: Expr, sb: Expr, x: Expr, y: Expr)
    requires sa.Symb? && sb.Symb? && sa.sym.Declared? && sb.sym.Declared? && sa != sb
    requires x == Bin(OrOp, sa, Symb(SymNo)) && y == Symb(SymYes)
    ensures Walk(AndOp, Bin(AndOp, x, sb), Bin(AndOp, sa, sb)) == Residual(Bin(AndOp, x, y), Bin(AndOp, sa, y), [sb])
  {
    var e := Bin(AndOp, sa, sb);
    assert Walk(AndOp, x, e) == Residual(x, e, []) by {
      assert Walk(AndOp, x, sa) == Residual(x, sa, []);
      assert Walk(AndOp, x, sb) == Residual(x, sb, []);
    }
    assert Walk(AndOp, sb, e) == Residual(y, Bin(AndOp, sa, y), [sb]) by {
      assert Walk(AndOp, sb, sa) == Residual(sb, sa, []);
      assert Walk(AndOp, sb, sb) == Residual(y, y, [sb]);
    }
  }
}
