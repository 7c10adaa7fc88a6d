/** Joining redundant operands: the rewrite rules for two operands, the walk that applies
  them to all pairs of operands of one level, and the loop that repeats the walk.

  The source walks one tree against itself: both slot arguments may lie in the same tree,
  and a rewrite through one is seen through the other. The operators above the operands are
  never rewritten during a walk, so a slot is the shape of its subtree together with the
  position of its first operand, and both slots share one sequence of operands.
 */
module KconfigDups {
  import opened Seqs
  import opened KconfigExpr
  import opened KconfigEq

  /* ------------------------------- joining two operands ------------------------------- */

  predicate Joinable(e: Expr) {
    (e.Cmp? && (e.rel == Equal || e.rel == Unequal)) || e.Symb? || e.Not?
  }

  // The symbol the first operand of a join is about.
  function FirstSymbol(e: Expr): Option<Symbol>
    requires Joinable(e)
  {
    match e
    case Symb(s) => Some(s)
    case Cmp(_, l, _) => Some(l)
    case Not(Symb(s)) => Some(s)
    case Not(Cmp(rel, l, _)) => if rel == Equal || rel == Unequal then Some(l) else None
    case Not(_) => None
  }

  // The same for the second operand, where less is recognised below a negation.
  function SecondSymbol(e: Expr): Option<Symbol>
    requires Joinable(e)
  {
    match e
    case Symb(s) => Some(s)
    case Cmp(_, l, _) => Some(l)
    case Not(Symb(s)) => Some(s)
    case Not(_) => None
  }

  // The boolean or tristate symbol that both operands are about.
  function SharedSymbol(e1: Expr, e2: Expr): Option<Symbol> {
    if !Joinable(e1) || !Joinable(e2) then None
    else
      var s1, s2 := FirstSymbol(e1), SecondSymbol(e2);
      if s1.Some? && s1 == s2 && (s1.value.Type() == BooleanType || s1.value.Type() == TristateType) then s1 else None
  }

  predicate IsCmp(e: Expr, rel: Rel, c: Symbol) {
    e.Cmp? && e.rel == rel && e.rsym == c
  }

  // One operand compares with c and the other with d, by the same relation.
  predicate BothCmp(e1: Expr, e2: Expr, rel: Rel, c: Symbol, d: Symbol) {
    (IsCmp(e1, rel, c) && IsCmp(e2, rel, d)) || (IsCmp(e1, rel, d) && IsCmp(e2, rel, c))
  }

  // One operand is a bare symbol and the other compares with c.
  predicate SymbolAndCmp(e1: Expr, e2: Expr, rel: Rel, c: Symbol) {
    (e1.Symb? && IsCmp(e2, rel, c)) || (e2.Symb? && IsCmp(e1, rel, c))
  }

  predicate SymbolAndNegation(e1: Expr, e2: Expr) {
    (e1.Not? && e1.arg.Symb? && e2.Symb?) || (e2.Not? && e2.arg.Symb? && e1.Symb?)
  }

  function JoinOr(e1: Expr, e2: Expr): Option<Expr> {
    if ExprEq(e1, e2) then Some(e1)
    else match SharedSymbol(e1, e2)
      case None => None
      case Some(s) =>
        if s.Type() == TristateType then
          if BothCmp(e1, e2, Equal, SymYes, SymMod) then Some(Cmp(Unequal, s, SymNo))
          else if BothCmp(e1, e2, Equal, SymYes, SymNo) then Some(Cmp(Unequal, s, SymMod))
          else if BothCmp(e1, e2, Equal, SymMod, SymNo) then Some(Cmp(Unequal, s, SymYes))
          else None
        else if SymbolAndNegation(e1, e2) then Some(Symb(SymYes))
        else None
  }

  // a = 'b' && a != 'c', for constants b and c.
  function JoinEqualUnequal(s: Symbol, b: Symbol, c: Symbol): Expr {
    if b != c then Cmp(Equal, s, b) else Symb(SymNo)
  }

  function JoinAnd(e1: Expr, e2: Expr): Option<Expr> {
    if ExprEq(e1, e2) then Some(e1)
    else match SharedSymbol(e1, e2)
      case None => None
      case Some(s) =>
        if SymbolAndCmp(e1, e2, Equal, SymYes) then Some(Cmp(Equal, s, SymYes))
        else if SymbolAndCmp(e1, e2, Unequal, SymNo) then Some(Symb(s))
        else if SymbolAndCmp(e1, e2, Unequal, SymMod) then Some(Cmp(Equal, s, SymYes))
        else if s.Type() != TristateType || !e1.Cmp? || !e2.Cmp? then None
        else if e1.rel == Equal && e2.rel == Unequal && e1.rsym.IsConst() && e2.rsym.IsConst() then
          Some(JoinEqualUnequal(s, e1.rsym, e2.rsym))
        else if e1.rel == Unequal && e2.rel == Equal && e1.rsym.IsConst() && e2.rsym.IsConst() then
          Some(JoinEqualUnequal(s, e2.rsym, e1.rsym))
        else if BothCmp(e1, e2, Unequal, SymYes, SymNo) then Some(Cmp(Equal, s, SymMod))
        else if BothCmp(e1, e2, Unequal, SymYes, SymMod) then Some(Cmp(Equal, s, SymNo))
        else if BothCmp(e1, e2, Unequal, SymMod, SymNo) then Some(Cmp(Equal, s, SymYes))
        else None
  }

  function Join(op: Op, e1: Expr, e2: Expr): Option<Expr> {
    match op
    case OrOp => JoinOr(e1, e2)
    case AndOp => JoinAnd(e1, e2)
  }

  // Every join rule keeps the value of the pair.
  lemma JoinSound(op: Op, e1: Expr, e2: Expr, v: Valuation)
    requires WellFormed(v)
    requires Join(op, e1, e2).Some?
    ensures Value(Join(op, e1, e2).value, v) == Combine(op, Value(e1, v), Value(e2, v))
  {
    if ExprEq(e1, e2) {
      ExprEqSound(e1, e2, v);
    } else {
      ConstantsCompare(SharedSymbol(e1, e2).value, v);
      if op == OrOp {
        JoinOrSound(e1, e2, v);
      } else {
        JoinAndSound(e1, e2, v);
      }
    }
  }

  lemma ConstantsCompare(s: Symbol, v: Valuation)
    requires WellFormed(v) && s.IsLogic()
    ensures v.cmp(s, SymNo) == 0 <==> v.tri(s) == NO
    ensures v.cmp(s, SymMod) == 0 <==> v.tri(s) == MOD
    ensures v.cmp(s, SymYes) == 0 <==> v.tri(s) == YES
  {
  }

  lemma JoinOrSound(e1: Expr, e2: Expr, v: Valuation)
    requires WellFormed(v) && !ExprEq(e1, e2) && JoinOr(e1, e2).Some?
    ensures Value(JoinOr(e1, e2).value, v) == Combine(OrOp, Value(e1, v), Value(e2, v))
  {
    ConstantsCompare(SharedSymbol(e1, e2).value, v);
  }

  lemma JoinAndSound(e1: Expr, e2: Expr, v: Valuation)
    requires WellFormed(v) && !ExprEq(e1, e2) && JoinAnd(e1, e2).Some?
    ensures Value(JoinAnd(e1, e2).value, v) == Combine(AndOp, Value(e1, v), Value(e2, v))
  {
    ConstantsCompare(SharedSymbol(e1, e2).value, v);
    if e1.Cmp? && e2.Cmp? {
      JoinTestsSound(e1, e2, v);
    }
  }

  lemma JoinTestsSound(e1: Expr, e2: Expr, v: Valuation)
    requires WellFormed(v) && !ExprEq(e1, e2) && JoinAnd(e1, e2).Some? && e1.Cmp? && e2.Cmp?
    ensures Value(JoinAnd(e1, e2).value, v) == Combine(AndOp, Value(e1, v), Value(e2, v))
  {
    ConstantsCompare(e1.lsym, v);
  }

  // A join never produces an operator of its own level, never outgrows its first operand,
  // and stays in negation normal form.
  lemma JoinShape(op: Op, e1: Expr, e2: Expr)
    requires Join(op, e1, e2).Some?
    ensures var t := Join(op, e1, e2).value;
      && (!IsOp(op, e1) ==> !IsOp(op, t))
      && Size(t) <= Size(e1)
      && (IsNnf(e1) ==> IsNnf(t))
  {
  }

  /* ------------------------------- which operands are redundant ------------------------------- */

  // Two tests of one tristate symbol, by this relation, against different constants.
  predicate TestsApart(rel: Rel, e1: Expr, e2: Expr) {
    && e1.Cmp? && e2.Cmp? && e1.rel == rel && e2.rel == rel
    && e1.lsym == e2.lsym && e1.lsym.Declared? && e1.lsym.typ == TristateType
    && !e1.rsym.Declared? && !e2.rsym.Declared? && e1.rsym != e2.rsym
  }

  // One tristate symbol is tested for being one constant and for not being one.
  predicate TestsOpposed(e1: Expr, e2: Expr) {
    && e1.Cmp? && e2.Cmp? && e1.rel == Equal && e2.rel == Unequal
    && e1.lsym == e2.lsym && e1.lsym.Declared? && e1.lsym.typ == TristateType
    && !e1.rsym.Declared? && !e2.rsym.Declared?
  }

  // A symbol, boolean or tristate, and a test for its being y, or for its not being n or m.
  predicate SymbolTested(e1: Expr, e2: Expr) {
    && e1.Symb? && e2.Cmp? && e2.lsym == e1.sym
    && e1.sym.Declared? && (e1.sym.typ == BooleanType || e1.sym.typ == TristateType)
    && ((e2.rel == Equal && e2.rsym == SymYes) || (e2.rel == Unequal && (e2.rsym == SymNo || e2.rsym == SymMod)))
  }

  // A boolean symbol and its negation.
  predicate SymbolNegated(e1: Expr, e2: Expr) {
    e1.Symb? && e1.sym.Declared? && e1.sym.typ == BooleanType && e2 == Not(e1)
  }

  // Of two such operands one can be saved.
  predicate Redundant(op: Op, e1: Expr, e2: Expr) {
    || ExprEq(e1, e2)
    || match op
      case OrOp => TestsApart(Equal, e1, e2) || SymbolNegated(e1, e2) || SymbolNegated(e2, e1)
      case AndOp =>
        || TestsApart(Unequal, e1, e2) || TestsOpposed(e1, e2) || TestsOpposed(e2, e1)
        || SymbolTested(e1, e2) || SymbolTested(e2, e1)
  }

  // The join rules apply to exactly these pairs.
  lemma JoinExactly(op: Op, e1: Expr, e2: Expr)
    ensures Join(op, e1, e2).Some? <==> Redundant(op, e1, e2)
  {
    if op == OrOp {
      JoinOrExactly(e1, e2);
    } else {
      JoinAndExactly(e1, e2);
    }
  }

  lemma JoinOrExactly(e1: Expr, e2: Expr)
    ensures JoinOr(e1, e2).Some? <==> Redundant(OrOp, e1, e2)
  {
  }

  lemma JoinAndExactly(e1: Expr, e2: Expr)
    ensures JoinAnd(e1, e2).Some? <==> Redundant(AndOp, e1, e2)
  {
  }

  /* ------------------------------- one level as a sequence ------------------------------- */

  datatype Shape = Leaf | Node(l: Shape, r: Shape)

  function Width(s: Shape): (n: nat)
    ensures n >= 1
  {
    if s.Leaf? then 1 else Width(s.l) + Width(s.r)
  }

  function Nodes(s: Shape): nat {
    if s.Leaf? then 0 else 1 + Nodes(s.l) + Nodes(s.r)
  }

  function ShapeOf(op: Op, e: Expr): (s: Shape)
    ensures Width(s) == |Leaves(op, e)|
  {
    if IsOp(op, e) then Node(ShapeOf(op, e.left), ShapeOf(op, e.right)) else Leaf
  }

  function Rebuild(op: Op, s: Shape, ls: seq<Expr>): Expr
    requires |ls| == Width(s)
  {
    if s.Leaf? then ls[0]
    else Bin(op, Rebuild(op, s.l, ls[..Width(s.l)]), Rebuild(op, s.r, ls[Width(s.l)..]))
  }

  ghost predicate NoOp(op: Op, ls: seq<Expr>) {
    forall i :: 0 <= i < |ls| ==> !IsOp(op, ls[i])
  }

  lemma {:induction false} RebuildLeaves(op: Op, e: Expr)
    ensures Rebuild(op, ShapeOf(op, e), Leaves(op, e)) == e
  {
    if IsOp(op, e) {
      RebuildLeaves(op, e.left);
      RebuildLeaves(op, e.right);
      var ls := Leaves(op, e);
      assert ls[..Width(ShapeOf(op, e.left))] == Leaves(op, e.left);
      assert ls[Width(ShapeOf(op, e.left))..] == Leaves(op, e.right);
    }
  }

  lemma {:induction false} LeavesRebuild(op: Op, s: Shape, ls: seq<Expr>)
    requires |ls| == Width(s) && NoOp(op, ls)
    ensures Leaves(op, Rebuild(op, s, ls)) == ls
    ensures ShapeOf(op, Rebuild(op, s, ls)) == s
  {
    if s.Node? {
      var n := Width(s.l);
      var a, b := ls[..n], ls[n..];
      assert ls == a + b;
      LeavesRebuild(op, s.l, a);
      LeavesRebuild(op, s.r, b);
      assert Leaves(op, Rebuild(op, s, ls)) == Leaves(op, Rebuild(op, s.l, a)) + Leaves(op, Rebuild(op, s.r, b));
    }
  }

  function Total(ls: seq<Expr>): nat {
    if ls == [] then 0 else Size(ls[0]) + Total(ls[1..])
  }

  lemma {:induction false} TotalConcat(a: seq<Expr>, b: seq<Expr>)
    ensures Total(a + b) == Total(a) + Total(b)
  {
    if a == [] {
      assert a + b == b;
    } else {
      assert (a + b)[1..] == a[1..] + b;
      TotalConcat(a[1..], b);
    }
  }

  lemma {:induction false} TotalUpdate(ls: seq<Expr>, i: nat, e: Expr)
    requires i < |ls|
    ensures Total(ls[i := e]) == Total(ls) - Size(ls[i]) + Size(e)
    ensures Size(ls[i]) <= Total(ls)
  {
    if i > 0 {
      assert ls[i := e][1..] == ls[1..][i - 1 := e];
      TotalUpdate(ls[1..], i - 1, e);
    }
  }

  lemma {:induction false} SizeRebuild(op: Op, s: Shape, ls: seq<Expr>)
    requires |ls| == Width(s)
    ensures Size(Rebuild(op, s, ls)) == Total(ls) + Nodes(s)
  {
    if s.Node? {
      var n := Width(s.l);
      SizeRebuild(op, s.l, ls[..n]);
      SizeRebuild(op, s.r, ls[n..]);
      TotalConcat(ls[..n], ls[n..]);
      assert ls[..n] + ls[n..] == ls;
    } else {
      assert ls[1..] == [];
    }
  }

  lemma SizeLeaves(op: Op, e: Expr)
    ensures Size(e) == Total(Leaves(op, e)) + Nodes(ShapeOf(op, e))
  {
    RebuildLeaves(op, e);
    SizeRebuild(op, ShapeOf(op, e), Leaves(op, e));
  }

  /* ------------------------------- the walk over all pairs ------------------------------- */

  // The operands after a walk, and the number of joins, which is what trans_count gains.
  datatype Outcome = Outcome(ls: seq<Expr>, joins: nat)

  function WalkPairs(op: Op, s1: Shape, o1: nat, s2: Shape, o2: nat, ls: seq<Expr>): (r: Outcome)
    requires o1 + Width(s1) <= |ls| && o2 + Width(s2) <= |ls|
    ensures |r.ls| == |ls| && Total(r.ls) <= Total(ls)
    decreases Total(ls), 2 + Nodes(s1) + Nodes(s2)
  {
    if s1.Node? then
      var a := WalkPairs(op, s1.l, o1, s2, o2, ls);
      var b := WalkPairs(op, s1.r, o1 + Width(s1.l), s2, o2, a.ls);
      Outcome(b.ls, a.joins + b.joins)
    else if s2.Node? then
      var a := WalkPairs(op, s1, o1, s2.l, o2, ls);
      var b := WalkPairs(op, s1, o1, s2.r, o2 + Width(s2.l), a.ls);
      Outcome(b.ls, a.joins + b.joins)
    else
      JoinPair(op, o1, o2, ls)
  }

  // One pair of operands: the first is itself cleaned up when it is an operator of the
  // other kind; a successful join leaves a unit in the first slot and the join in the second.
  function JoinPair(op: Op, i: nat, j: nat, ls: seq<Expr>): (r: Outcome)
    requires i < |ls| && j < |ls|
    ensures |r.ls| == |ls| && Total(r.ls) <= Total(ls)
    decreases Total(ls), 1
  {
    if i == j then Outcome(ls, 0)
    else
      TotalUpdate(ls, i, ls[i]);
      var a := if ls[i].Bin? then WalkWithin(ls[i]) else Cleaned(ls[i], 0);
      TotalUpdate(ls, i, a.e);
      var ls1 := ls[i := a.e];
      match Join(op, ls1[i], ls1[j])
      case None => Outcome(ls1, a.joins)
      case Some(t) =>
        JoinShape(op, ls1[i], ls1[j]);
        TotalUpdate(ls1, i, Symb(Unit(op)));
        TotalUpdate(ls1[i := Symb(Unit(op))], j, t);
        Outcome(ls1[i := Symb(Unit(op))][j := t], a.joins + 1)
  }

  datatype Cleaned = Cleaned(e: Expr, joins: nat)

  // All pairs of operands of one operator expression, which is walked against itself.
  function WalkWithin(e: Expr): (r: Cleaned)
    requires e.Bin?
    ensures Size(r.e) <= Size(e)
    decreases Size(e), 0
  {
    SizeLeaves(e.op, e);
    var s := ShapeOf(e.op, e);
    var r := WalkPairs(e.op, s, 0, s, 0, Leaves(e.op, e));
    SizeRebuild(e.op, s, r.ls);
    Cleaned(Rebuild(e.op, s, r.ls), r.joins)
  }

  // Repeats the walk and the removal of y and n until a walk finds nothing to join.
  function EliminateDups(e: Expr): Expr
    decreases Size(e)
  {
    if !e.Bin? then e
    else
      var r := WalkWithin(e);
      if r.joins == 0 then r.e
      else
        JoinsLeaveConstants(e);
        EliminateYnNormal(r.e);
        EliminateDups(EliminateYn(r.e))
  }

  function EliminateDupsOpt(e: Option<Expr>): Option<Expr> {
    match e
    case None => None
    case Some(x) => Some(EliminateDups(x))
  }

  /* ------------------------------- the walk keeps the value ------------------------------- */

  // Every operand is on the side of k that the operator asks for.
  ghost predicate AllBeyond(op: Op, ls: seq<Expr>, v: Valuation, k: Tristate) {
    forall i :: 0 <= i < |ls| ==> Beyond(op, Value(ls[i], v), k)
  }

  predicate Beyond(op: Op, x: Tristate, k: Tristate) {
    if op == AndOp then x >= k else x <= k
  }

  lemma {:induction false} FoldBound(op: Op, ls: seq<Expr>, v: Valuation, k: Tristate)
    ensures Beyond(op, Fold(op, ls, v), k) <==> AllBeyond(op, ls, v, k)
  {
    if ls != [] {
      FoldBound(op, ls[1..], v, k);
      assert AllBeyond(op, ls, v, k) <==> Beyond(op, Value(ls[0], v), k) && AllBeyond(op, ls[1..], v, k) by {
        assert forall i :: 1 <= i < |ls| ==> ls[i] == ls[1..][i - 1];
      }
    }
  }

  lemma FoldReplace(op: Op, ls: seq<Expr>, i: nat, j: nat, x: Expr, y: Expr, v: Valuation)
    requires i < |ls| && j < |ls| && i != j
    requires Combine(op, Value(x, v), Value(y, v)) == Combine(op, Value(ls[i], v), Value(ls[j], v))
    ensures Fold(op, ls[i := x][j := y], v) == Fold(op, ls, v)
  {
    var ms := ls[i := x][j := y];
    forall k: Tristate
      ensures Beyond(op, Fold(op, ls, v), k) <==> Beyond(op, Fold(op, ms, v), k)
    {
      ReplaceBeyond(op, ls, ms, i, j, v, k);
      FoldBound(op, ls, v, k);
      FoldBound(op, ms, v, k);
    }
    assert Beyond(op, Fold(op, ls, v), Fold(op, ls, v)) && Beyond(op, Fold(op, ms, v), Fold(op, ms, v));
  }

  lemma ReplaceBeyond(op: Op, ls: seq<Expr>, ms: seq<Expr>, i: nat, j: nat, v: Valuation, k: Tristate)
    requires |ms| == |ls| && i < |ls| && j < |ls| && i != j
    requires forall m :: 0 <= m < |ls| && m != i && m != j ==> ms[m] == ls[m]
    requires Combine(op, Value(ms[i], v), Value(ms[j], v)) == Combine(op, Value(ls[i], v), Value(ls[j], v))
    ensures AllBeyond(op, ls, v, k) <==> AllBeyond(op, ms, v, k)
  {
    if AllBeyond(op, ls, v, k) {
      forall m | 0 <= m < |ms|
        ensures Beyond(op, Value(ms[m], v), k)
      {
        assert Beyond(op, Value(ls[i], v), k) && Beyond(op, Value(ls[j], v), k);
      }
    }
    if AllBeyond(op, ms, v, k) {
      forall m | 0 <= m < |ls|
        ensures Beyond(op, Value(ls[m], v), k)
      {
        assert Beyond(op, Value(ms[i], v), k) && Beyond(op, Value(ms[j], v), k);
      }
    }
  }

  lemma {:induction false} FoldRebuild(op: Op, s: Shape, ls: seq<Expr>, v: Valuation)
    requires |ls| == Width(s)
    ensures Value(Rebuild(op, s, ls), v) == Fold(op, ls, v)
  {
    if s.Node? {
      var n := Width(s.l);
      FoldRebuild(op, s.l, ls[..n], v);
      FoldRebuild(op, s.r, ls[n..], v);
      FoldConcat(op, ls[..n], ls[n..], v);
      assert ls[..n] + ls[n..] == ls;
    } else {
      assert ls[1..] == [];
    }
  }

  ghost predicate SameFold(op: Op, a: seq<Expr>, b: seq<Expr>, v: Valuation) {
    Fold(op, a, v) == Fold(op, b, v)
  }

  lemma SameFoldTrans(op: Op, a: seq<Expr>, b: seq<Expr>, c: seq<Expr>, v: Valuation)
    ensures SameFold(op, a, b, v) && SameFold(op, b, c, v) ==> SameFold(op, a, c, v)
  {
  }

  lemma {:induction false} WalkPairsSound(op: Op, s1: Shape, o1: nat, s2: Shape, o2: nat, ls: seq<Expr>, r: Outcome, v: Valuation)
    requires WellFormed(v)
    requires o1 + Width(s1) <= |ls| && o2 + Width(s2) <= |ls|
    requires r == WalkPairs(op, s1, o1, s2, o2, ls)
    ensures SameFold(op, r.ls, ls, v)
    decreases Total(ls), 2 + Nodes(s1) + Nodes(s2), 1
  {
    if s1.Node? {
      var a := WalkPairs(op, s1.l, o1, s2, o2, ls);
      var b := WalkPairs(op, s1.r, o1 + Width(s1.l), s2, o2, a.ls);
      WalkPairsSound(op, s1.l, o1, s2, o2, ls, a, v);
      WalkPairsSound(op, s1.r, o1 + Width(s1.l), s2, o2, a.ls, b, v);
      SameFoldTrans(op, b.ls, a.ls, ls, v);
    } else {
      WalkOneSound(op, o1, s2, o2, ls, r, v);
    }
  }

  // One operand against those of a range.
  lemma {:induction false} WalkOneSound(op: Op, i: nat, s2: Shape, o2: nat, ls: seq<Expr>, r: Outcome, v: Valuation)
    requires WellFormed(v)
    requires i < |ls| && o2 + Width(s2) <= |ls|
    requires r == WalkPairs(op, Leaf, i, s2, o2, ls)
    ensures SameFold(op, r.ls, ls, v)
    decreases Total(ls), 2 + Nodes(s2), 0
  {
    if s2.Node? {
      var a := WalkPairs(op, Leaf, i, s2.l, o2, ls);
      var b := WalkPairs(op, Leaf, i, s2.r, o2 + Width(s2.l), a.ls);
      WalkOneSound(op, i, s2.l, o2, ls, a, v);
      WalkOneSound(op, i, s2.r, o2 + Width(s2.l), a.ls, b, v);
      SameFoldTrans(op, b.ls, a.ls, ls, v);
    } else {
      JoinPairSound(op, i, o2, ls, v);
    }
  }

  lemma {:induction false} JoinPairSound(op: Op, i: nat, j: nat, ls: seq<Expr>, v: Valuation)
    requires WellFormed(v)
    requires i < |ls| && j < |ls|
    ensures SameFold(op, JoinPair(op, i, j, ls).ls, ls, v)
    decreases Total(ls), 1
  {
    if i != j {
      TotalUpdate(ls, i, ls[i]);
      if ls[i].Bin? {
        WalkWithinSound(ls[i], v);
      }
      var a := if ls[i].Bin? then WalkWithin(ls[i]) else Cleaned(ls[i], 0);
      var ls1 := ls[i := a.e];
      assert ls1 == ls[i := a.e][j := ls[j]];
      FoldReplace(op, ls, i, j, a.e, ls[j], v);
      if Join(op, ls1[i], ls1[j]).Some? {
        JoinSound(op, ls1[i], ls1[j], v);
        FoldReplace(op, ls1, i, j, Symb(Unit(op)), Join(op, ls1[i], ls1[j]).value, v);
      }
    }
  }

  lemma {:induction false} WalkWithinSound(e: Expr, v: Valuation)
    requires WellFormed(v)
    requires e.Bin?
    ensures Value(WalkWithin(e).e, v) == Value(e, v)
    decreases Size(e), 0
  {
    var s := ShapeOf(e.op, e);
    SizeLeaves(e.op, e);
    WalkPairsSound(e.op, s, 0, s, 0, Leaves(e.op, e), WalkPairs(e.op, s, 0, s, 0, Leaves(e.op, e)), v);
    RebuildLeaves(e.op, e);
    FoldRebuild(e.op, s, Leaves(e.op, e), v);
    FoldRebuild(e.op, s, WalkPairs(e.op, s, 0, s, 0, Leaves(e.op, e)).ls, v);
  }

  lemma {:induction false} EliminateDupsSound(e: Expr, v: Valuation)
    requires WellFormed(v)
    ensures Value(EliminateDups(e), v) == Value(e, v)
    decreases Size(e)
  {
    if e.Bin? {
      var r := WalkWithin(e);
      WalkWithinSound(e, v);
      if r.joins != 0 {
        JoinsLeaveConstants(e);
        EliminateYnNormal(r.e);
        EliminateYnSound(r.e, v);
        EliminateDupsSound(EliminateYn(r.e), v);
      }
    }
  }

  /* ---------------------- the walk keeps the shape and makes progress ---------------------- */

  // Some operand is y or n, or has one to be removed inside.
  ghost predicate HasConstant(ls: seq<Expr>) {
    exists i :: 0 <= i < |ls| && (IsYesNo(ls[i]) || Reducible(ls[i]))
  }

  lemma {:induction false} ReducibleLeaves(op: Op, e: Expr)
    requires IsOp(op, e)
    ensures Reducible(e) <==> HasConstant(Leaves(op, e))
  {
    HasConstantSub(op, e.left);
    HasConstantSub(op, e.right);
    HasConstantConcat(Leaves(op, e.left), Leaves(op, e.right));
  }

  lemma {:induction false} HasConstantSub(op: Op, e: Expr)
    ensures IsYesNo(e) || Reducible(e) <==> HasConstant(Leaves(op, e))
    decreases e
  {
    if IsOp(op, e) {
      HasConstantSub(op, e.left);
      HasConstantSub(op, e.right);
      HasConstantConcat(Leaves(op, e.left), Leaves(op, e.right));
    } else {
      assert Leaves(op, e)[0] == e;
    }
  }

  lemma HasConstantConcat(a: seq<Expr>, b: seq<Expr>)
    ensures HasConstant(a + b) <==> HasConstant(a) || HasConstant(b)
  {
    if HasConstant(a) {
      var i :| 0 <= i < |a| && (IsYesNo(a[i]) || Reducible(a[i]));
      assert (a + b)[i] == a[i];
    }
    if HasConstant(b) {
      var i :| 0 <= i < |b| && (IsYesNo(b[i]) || Reducible(b[i]));
      assert (a + b)[|a| + i] == b[i];
    }
  }

  // What a walk keeps: operands stay operands, a constant once there stays, and so does
  // negation normal form; and every join leaves a constant behind.
  ghost predicate Kept(op: Op, before: seq<Expr>, after: seq<Expr>, joins: nat) {
    && |after| == |before|
    && (NoOp(op, before) ==> NoOp(op, after))
    && (HasConstant(before) || joins > 0 ==> HasConstant(after))
    && (AllNnf(before) ==> AllNnf(after))
  }

  ghost predicate AllNnf(ls: seq<Expr>) {
    forall i :: 0 <= i < |ls| ==> IsNnf(ls[i])
  }

  lemma KeptThen(op: Op, x: seq<Expr>, y: seq<Expr>, z: seq<Expr>, j1: nat, j2: nat)
    ensures Kept(op, x, y, j1) && Kept(op, y, z, j2) ==> Kept(op, x, z, j1 + j2)
  {
  }

  lemma {:induction false} WalkPairsKept(op: Op, s1: Shape, o1: nat, s2: Shape, o2: nat, ls: seq<Expr>, r: Outcome)
    requires o1 + Width(s1) <= |ls| && o2 + Width(s2) <= |ls|
    requires r == WalkPairs(op, s1, o1, s2, o2, ls)
    ensures Kept(op, ls, r.ls, r.joins)
    decreases Total(ls), 2 + Nodes(s1) + Nodes(s2)
  {
    if s1.Node? {
      var a := WalkPairs(op, s1.l, o1, s2, o2, ls);
      var b := WalkPairs(op, s1.r, o1 + Width(s1.l), s2, o2, a.ls);
      WalkPairsKept(op, s1.l, o1, s2, o2, ls, a);
      WalkPairsKept(op, s1.r, o1 + Width(s1.l), s2, o2, a.ls, b);
      KeptThen(op, ls, a.ls, b.ls, a.joins, b.joins);
    } else if s2.Node? {
      var a := WalkPairs(op, s1, o1, s2.l, o2, ls);
      var b := WalkPairs(op, s1, o1, s2.r, o2 + Width(s2.l), a.ls);
      WalkPairsKept(op, s1, o1, s2.l, o2, ls, a);
      WalkPairsKept(op, s1, o1, s2.r, o2 + Width(s2.l), a.ls, b);
      KeptThen(op, ls, a.ls, b.ls, a.joins, b.joins);
    } else {
      JoinPairKept(op, o1, o2, ls);
    }
  }

  // The first operand has been cleaned up: e takes its place.
  lemma CleanedKept(op: Op, ls: seq<Expr>, i: nat, e: Expr, joins: nat)
    requires i < |ls|
    requires !IsOp(op, ls[i]) ==> !IsOp(op, e)
    requires IsYesNo(ls[i]) || Reducible(ls[i]) || joins > 0 ==> IsYesNo(e) || Reducible(e)
    requires IsNnf(ls[i]) ==> IsNnf(e)
    ensures Kept(op, ls, ls[i := e], joins)
  {
    var ms := ls[i := e];
    if joins > 0 {
      assert IsYesNo(ms[i]) || Reducible(ms[i]);
    } else if HasConstant(ls) {
      var k :| 0 <= k < |ls| && (IsYesNo(ls[k]) || Reducible(ls[k]));
      assert IsYesNo(ms[k]) || Reducible(ms[k]);
    }
  }

  lemma JoinedKept(op: Op, ls: seq<Expr>, i: nat, j: nat)
    requires i < |ls| && j < |ls| && i != j && Join(op, ls[i], ls[j]).Some?
    ensures Kept(op, ls, ls[i := Symb(Unit(op))][j := Join(op, ls[i], ls[j]).value], 1)
  {
    JoinShape(op, ls[i], ls[j]);
    var ms := ls[i := Symb(Unit(op))][j := Join(op, ls[i], ls[j]).value];
    assert IsYesNo(ms[i]);
  }

  lemma {:induction false} JoinPairKept(op: Op, i: nat, j: nat, ls: seq<Expr>)
    requires i < |ls| && j < |ls|
    ensures var r := JoinPair(op, i, j, ls); Kept(op, ls, r.ls, r.joins)
    decreases Total(ls), 1
  {
    if i != j {
      TotalUpdate(ls, i, ls[i]);
      var a := if ls[i].Bin? then WalkWithin(ls[i]) else Cleaned(ls[i], 0);
      var ls1 := ls[i := a.e];
      assert Kept(op, ls, ls1, a.joins) by {
        if ls[i].Bin? {
          WalkWithinKept(ls[i]);
        }
        CleanedKept(op, ls, i, a.e, a.joins);
      }
      if Join(op, ls1[i], ls1[j]).Some? {
        var ls2 := ls1[i := Symb(Unit(op))][j := Join(op, ls1[i], ls1[j]).value];
        assert Kept(op, ls, ls2, a.joins + 1) by {
          JoinedKept(op, ls1, i, j);
          KeptThen(op, ls, ls1, ls2, a.joins, 1);
        }
        assert JoinPair(op, i, j, ls) == Outcome(ls2, a.joins + 1);
      }
    }
  }

  lemma {:induction false} WalkWithinKept(e: Expr)
    requires e.Bin?
    ensures var r := WalkWithin(e);
      && IsOp(e.op, r.e)
      && ShapeOf(e.op, r.e) == ShapeOf(e.op, e)
      && (Reducible(e) || r.joins > 0 ==> Reducible(r.e))
      && (IsNnf(e) ==> IsNnf(r.e))
    decreases Size(e), 0
  {
    var op := e.op;
    var s := ShapeOf(op, e);
    var ls := Leaves(op, e);
    SizeLeaves(op, e);
    WalkPairsKept(op, s, 0, s, 0, ls, WalkPairs(op, s, 0, s, 0, ls));
    var ms := WalkPairs(op, s, 0, s, 0, ls).ls;
    LeavesRebuild(op, s, ms);
    ReducibleLeaves(op, e);
    ReducibleLeaves(op, Rebuild(op, s, ms));
    NnfLeaves(op, e);
    NnfLeaves(op, Rebuild(op, s, ms));
  }

  lemma {:induction false} NnfLeaves(op: Op, e: Expr)
    ensures IsNnf(e) <==> AllNnf(Leaves(op, e))
  {
    if IsOp(op, e) {
      NnfLeaves(op, e.left);
      NnfLeaves(op, e.right);
      var a, b := Leaves(op, e.left), Leaves(op, e.right);
      assert Leaves(op, e) == a + b;
      assert forall i :: 0 <= i < |a| ==> (a + b)[i] == a[i];
      assert forall i :: 0 <= i < |b| ==> (a + b)[|a| + i] == b[i];
    } else {
      assert Leaves(op, e)[0] == e;
    }
  }

  // A walk that joined something leaves a y or n for the removal that follows it, which is
  // why the loop of EliminateDups gets smaller every time and ends.
  lemma JoinsLeaveConstants(e: Expr)
    requires e.Bin?
    ensures WalkWithin(e).joins > 0 ==> Reducible(WalkWithin(e).e)
  {
    WalkWithinKept(e);
  }

  lemma {:induction false} EliminateDupsNnf(e: Expr)
    requires IsNnf(e)
    ensures IsNnf(EliminateDups(e))
    decreases Size(e)
  {
    if e.Bin? {
      var r := WalkWithin(e);
      WalkWithinKept(e);
      if r.joins != 0 {
        JoinsLeaveConstants(e);
        EliminateYnNormal(r.e);
        EliminateDupsNnf(EliminateYn(r.e));
      }
    }
  }

  /* ------------------------------- what is reached at the end ------------------------------- */

  lemma {:induction false} LeavesSmaller(op: Op, e: Expr)
    ensures forall x :: x in Leaves(op, e) ==> Size(x) <= Size(e)
    ensures IsOp(op, e) ==> forall x :: x in Leaves(op, e) ==> Size(x) < Size(e)
  {
    if IsOp(op, e) {
      LeavesSmaller(op, e.left);
      LeavesSmaller(op, e.right);
    }
  }

  // No two operands of one level are redundant, at any level reached through operators alone; in
  // particular no two of them are equal.
  ghost predicate Settled(e: Expr)
    decreases Size(e)
  {
    e.Bin? ==>
      var ls := Leaves(e.op, e);
      LeavesSmaller(e.op, e);
      && (forall i, j :: 0 <= i < |ls| && 0 <= j < |ls| && i != j ==> !Redundant(e.op, ls[i], ls[j]))
      && (forall x :: x in ls ==> Settled(x))
  }

  ghost predicate PairSettled(op: Op, ls: seq<Expr>, i: nat, j: nat)
    requires i < |ls| && j < |ls|
  {
    i != j ==> !Redundant(op, ls[i], ls[j]) && Settled(ls[i])
  }

  ghost predicate PairsSettled(op: Op, ls: seq<Expr>, o1: nat, n1: nat, o2: nat, n2: nat) {
    forall i, j :: o1 <= i < n1 <= |ls| && o2 <= j < n2 <= |ls| ==> PairSettled(op, ls, i, j)
  }

  // Two ranges that are settled against the same other range, or against two that follow each other.
  lemma PairsUnite(op: Op, ls: seq<Expr>, o1: nat, m1: nat, n1: nat, o2: nat, m2: nat, n2: nat)
    requires m1 <= n1 && m2 <= n2
    ensures PairsSettled(op, ls, o1, m1, o2, n2) && PairsSettled(op, ls, m1, n1, o2, n2) ==> PairsSettled(op, ls, o1, n1, o2, n2)
    ensures PairsSettled(op, ls, o1, n1, o2, m2) && PairsSettled(op, ls, o1, n1, m2, n2) ==> PairsSettled(op, ls, o1, n1, o2, n2)
  {
  }

  lemma OnePair(op: Op, ls: seq<Expr>, i: nat, j: nat)
    requires i < |ls| && j < |ls|
    ensures PairSettled(op, ls, i, j) ==> PairsSettled(op, ls, i, i + 1, j, j + 1)
  {
  }

  lemma {:induction false} WalkPairsIdle(op: Op, s1: Shape, o1: nat, s2: Shape, o2: nat, ls: seq<Expr>, r: Outcome)
    requires o1 + Width(s1) <= |ls| && o2 + Width(s2) <= |ls|
    requires r == WalkPairs(op, s1, o1, s2, o2, ls) && r.joins == 0
    ensures r.ls == ls
    ensures PairsSettled(op, ls, o1, o1 + Width(s1), o2, o2 + Width(s2))
    decreases Total(ls), 2 + Nodes(s1) + Nodes(s2), 1
  {
    if s1.Node? {
      var m := o1 + Width(s1.l);
      var a := WalkPairs(op, s1.l, o1, s2, o2, ls);
      WalkPairsIdle(op, s1.l, o1, s2, o2, ls, a);
      WalkPairsIdle(op, s1.r, m, s2, o2, ls, r);
      PairsUnite(op, ls, o1, m, o1 + Width(s1), o2, o2 + Width(s2), o2 + Width(s2));
    } else {
      WalkOneIdle(op, o1, s2, o2, ls, r);
    }
  }

  lemma {:induction false} WalkOneIdle(op: Op, i: nat, s2: Shape, o2: nat, ls: seq<Expr>, r: Outcome)
    requires i < |ls| && o2 + Width(s2) <= |ls|
    requires r == WalkPairs(op, Leaf, i, s2, o2, ls) && r.joins == 0
    ensures r.ls == ls
    ensures PairsSettled(op, ls, i, i + 1, o2, o2 + Width(s2))
    decreases Total(ls), 2 + Nodes(s2), 0
  {
    if s2.Node? {
      var m := o2 + Width(s2.l);
      var a := WalkPairs(op, Leaf, i, s2.l, o2, ls);
      WalkOneIdle(op, i, s2.l, o2, ls, a);
      WalkOneIdle(op, i, s2.r, m, ls, r);
      PairsUnite(op, ls, i, i + 1, i + 1, o2, m, o2 + Width(s2));
    } else {
      JoinPairIdle(op, i, o2, ls);
      OnePair(op, ls, i, o2);
    }
  }

  lemma {:induction false} JoinPairIdle(op: Op, i: nat, j: nat, ls: seq<Expr>)
    requires i < |ls| && j < |ls|
    requires JoinPair(op, i, j, ls).joins == 0
    ensures JoinPair(op, i, j, ls).ls == ls
    ensures PairSettled(op, ls, i, j)
    decreases Total(ls), 1
  {
    if i != j {
      TotalUpdate(ls, i, ls[i]);
      if ls[i].Bin? {
        WalkWithinIdle(ls[i]);
      }
      assert ls[i := ls[i]] == ls;
      JoinExactly(op, ls[i], ls[j]);
    }
  }

  lemma {:induction false} WalkWithinIdle(e: Expr)
    requires e.Bin?
    requires WalkWithin(e).joins == 0
    ensures WalkWithin(e).e == e && Settled(e)
    decreases Size(e), 0
  {
    var s := ShapeOf(e.op, e);
    var ls := Leaves(e.op, e);
    SizeLeaves(e.op, e);
    WalkPairsIdle(e.op, s, 0, s, 0, ls, WalkPairs(e.op, s, 0, s, 0, ls));
    RebuildLeaves(e.op, e);
    assert |ls| >= 2;
    forall i | 0 <= i < |ls|
      ensures Settled(ls[i])
    {
      assert PairSettled(e.op, ls, i, if i == 0 then 1 else 0);
    }
    forall i, j | 0 <= i < |ls| && 0 <= j < |ls| && i != j
      ensures !Redundant(e.op, ls[i], ls[j])
    {
      assert PairSettled(e.op, ls, i, j);
    }
  }

  // The loop ends only when no rule applies any more.
  lemma {:induction false} EliminateDupsSettled(e: Expr)
    ensures Settled(EliminateDups(e))
    decreases Size(e)
  {
    if e.Bin? {
      var r := WalkWithin(e);
      if r.joins == 0 {
        WalkWithinIdle(e);
      } else {
        JoinsLeaveConstants(e);
        EliminateYnNormal(r.e);
        EliminateDupsSettled(EliminateYn(r.e));
      }
    }
  }

  /* ------------------------------- what is left alone ------------------------------- */

  // The operands of one range are settled against those of the other.
  lemma {:induction false} WalkPairsSettled(op: Op, s1: Shape, o1: nat, s2: Shape, o2: nat, ls: seq<Expr>, r: Outcome)
    requires o1 + Width(s1) <= |ls| && o2 + Width(s2) <= |ls|
    requires r == WalkPairs(op, s1, o1, s2, o2, ls)
    requires PairsSettled(op, ls, o1, o1 + Width(s1), o2, o2 + Width(s2))
    ensures r == Outcome(ls, 0)
    decreases Total(ls), 2 + Nodes(s1) + Nodes(s2), 1
  {
    if s1.Node? {
      var m := o1 + Width(s1.l);
      PairsDivide(op, ls, o1, m, o1 + Width(s1), o2, o2 + Width(s2), o2 + Width(s2));
      WalkPairsSettled(op, s1.l, o1, s2, o2, ls, WalkPairs(op, s1.l, o1, s2, o2, ls));
      WalkPairsSettled(op, s1.r, m, s2, o2, ls, WalkPairs(op, s1.r, m, s2, o2, ls));
    } else {
      WalkOneSettled(op, o1, s2, o2, ls, r);
    }
  }

  lemma {:induction false} WalkOneSettled(op: Op, i: nat, s2: Shape, o2: nat, ls: seq<Expr>, r: Outcome)
    requires i < |ls| && o2 + Width(s2) <= |ls|
    requires r == WalkPairs(op, Leaf, i, s2, o2, ls)
    requires PairsSettled(op, ls, i, i + 1, o2, o2 + Width(s2))
    ensures r == Outcome(ls, 0)
    decreases Total(ls), 2 + Nodes(s2), 0
  {
    if s2.Node? {
      var m := o2 + Width(s2.l);
      PairsDivide(op, ls, i, i + 1, i + 1, o2, m, o2 + Width(s2));
      WalkOneSettled(op, i, s2.l, o2, ls, WalkPairs(op, Leaf, i, s2.l, o2, ls));
      WalkOneSettled(op, i, s2.r, m, ls, WalkPairs(op, Leaf, i, s2.r, m, ls));
    } else {
      assert PairSettled(op, ls, i, o2);
      JoinPairSettled(op, i, o2, ls);
    }
  }

  lemma PairsDivide(op: Op, ls: seq<Expr>, o1: nat, m1: nat, n1: nat, o2: nat, m2: nat, n2: nat)
    requires o1 <= m1 <= n1 <= |ls| && o2 <= m2 <= n2 <= |ls|
    ensures PairsSettled(op, ls, o1, n1, o2, n2) ==>
      && PairsSettled(op, ls, o1, m1, o2, n2) && PairsSettled(op, ls, m1, n1, o2, n2)
      && PairsSettled(op, ls, o1, n1, o2, m2) && PairsSettled(op, ls, o1, n1, m2, n2)
  {
  }

  lemma {:induction false} JoinPairSettled(op: Op, i: nat, j: nat, ls: seq<Expr>)
    requires i < |ls| && j < |ls| && PairSettled(op, ls, i, j)
    ensures JoinPair(op, i, j, ls) == Outcome(ls, 0)
    decreases Total(ls), 1
  {
    if i != j {
      TotalUpdate(ls, i, ls[i]);
      if ls[i].Bin? {
        WalkWithinSettled(ls[i]);
      }
      assert ls[i := ls[i]] == ls;
      JoinExactly(op, ls[i], ls[j]);
    }
  }

  lemma {:induction false} WalkWithinSettled(e: Expr)
    requires e.Bin? && Settled(e)
    ensures WalkWithin(e) == Cleaned(e, 0)
    decreases Size(e), 0
  {
    var s := ShapeOf(e.op, e);
    var ls := Leaves(e.op, e);
    SizeLeaves(e.op, e);
    forall i, j | 0 <= i < |ls| && 0 <= j < |ls|
      ensures PairSettled(e.op, ls, i, j)
    {
      assert ls[i] in ls;
    }
    WalkPairsSettled(e.op, s, 0, s, 0, ls, WalkPairs(e.op, s, 0, s, 0, ls));
    RebuildLeaves(e.op, e);
  }

  // The settled expressions are exactly those that the elimination leaves alone.
  lemma EliminateDupsFixed(e: Expr)
    ensures Settled(e) <==> EliminateDups(e) == e
  {
    if Settled(e) && e.Bin? {
      WalkWithinSettled(e);
    }
    EliminateDupsSettled(e);
  }
}
