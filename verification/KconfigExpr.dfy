/** Dependency expressions of the configuration language and their three-valued meaning.

  A symbol is one of the constants n, m, y or a declared symbol with its type. The three
  constants are the only symbols that carry the "constant" flag in this model.
 */
module KconfigExpr {
  import opened Seqs

  // n, m, y are 0, 1, 2.
  type Tristate = t: int | 0 <= t <= 2

  const NO: Tristate := 0
  const MOD: Tristate := 1
  const YES: Tristate := 2

  datatype SymType = Unknown | BooleanType | TristateType | IntType | HexType | StringType

  datatype Symbol = SymYes | SymMod | SymNo | Declared(id: nat, typ: SymType) {
    function Type(): SymType {
      if Declared? then typ else Unknown
    }

    predicate IsConst() {
      !Declared?
    }

    predicate IsYesNo() {
      SymYes? || SymNo?
    }

    // Symbols whose string value is one of "n", "m", "y".
    predicate IsLogic() {
      IsConst() || typ == BooleanType || typ == TristateType
    }
  }

  datatype Op = AndOp | OrOp

  datatype Rel = Equal | Unequal | Lth | Leq | Gth | Geq

  datatype Expr =
    | Symb(sym: Symbol)
    | Cmp(rel: Rel, lsym: Symbol, rsym: Symbol)
    | Not(arg: Expr)
    | Bin(op: Op, left: Expr, right: Expr)

  // The value of every symbol, and the three-way result of comparing the string or
  // numeric values of two symbols.
  datatype Valuation = Valuation(tri: Symbol -> Tristate, cmp: (Symbol, Symbol) -> int)

  ghost predicate WellFormed(v: Valuation) {
    && v.tri(SymNo) == NO && v.tri(SymMod) == MOD && v.tri(SymYes) == YES
    && (forall s: Symbol :: s.Type() == BooleanType ==> v.tri(s) != MOD)
    && (forall s: Symbol, t: Symbol :: s.IsLogic() && t.IsLogic() ==> (v.cmp(s, t) == 0 <==> v.tri(s) == v.tri(t)))
  }

  predicate Holds(rel: Rel, c: int) {
    match rel
    case Equal => c == 0
    case Unequal => c != 0
    case Lth => c < 0
    case Leq => c <= 0
    case Gth => c > 0
    case Geq => c >= 0
  }

  function Combine(op: Op, a: Tristate, b: Tristate): Tristate {
    match op
    case AndOp => if a < b then a else b
    case OrOp => if a > b then a else b
  }

  function Value(e: Expr, v: Valuation): Tristate {
    match e
    case Symb(s) => v.tri(s)
    case Cmp(rel, l, r) => if Holds(rel, v.cmp(l, r)) then YES else NO
    case Not(a) => 2 - Value(a, v)
    case Bin(op, l, r) => Combine(op, Value(l, v), Value(r, v))
  }

  // An absent expression counts as y.
  function ValueOpt(e: Option<Expr>, v: Valuation): Tristate {
    match e
    case None => YES
    case Some(x) => Value(x, v)
  }

  ghost predicate Equivalent(e1: Expr, e2: Expr) {
    forall v | WellFormed(v) :: Value(e1, v) == Value(e2, v)
  }

  // The symbol that leaves the other operand of op unchanged.
  function Unit(op: Op): Symbol {
    match op
    case AndOp => SymYes
    case OrOp => SymNo
  }

  function Absorber(op: Op): Symbol {
    match op
    case AndOp => SymNo
    case OrOp => SymYes
  }

  predicate IsYesNo(e: Expr) {
    e.Symb? && e.sym.IsYesNo()
  }

  function Size(e: Expr): (n: nat)
    ensures n >= 1
  {
    match e
    case Symb(_) => 1
    case Cmp(_, _, _) => 1
    case Not(a) => 1 + Size(a)
    case Bin(_, l, r) => 1 + Size(l) + Size(r)
  }

  // Negation normal form: a negation stands only above a declared symbol.
  predicate IsNnf(e: Expr) {
    match e
    case Symb(_) => true
    case Cmp(_, _, _) => true
    case Not(a) => a.Symb? && a.sym.Declared?
    case Bin(_, l, r) => IsNnf(l) && IsNnf(r)
  }

  /* ---------------------------- eliminating y and n ---------------------------- */

  function EliminateYn(e: Expr): Expr {
    match e
    case Symb(_) => e
    case Cmp(_, _, _) => e
    case Not(_) => e
    case Bin(op, l, r) =>
      var l', r' := EliminateYn(l), EliminateYn(r);
      if l' == Symb(Absorber(op)) then l'
      else if l' == Symb(Unit(op)) then r'
      else if r' == Symb(Absorber(op)) then r'
      else if r' == Symb(Unit(op)) then l'
      else Bin(op, l', r')
  }

  // Neither y nor n stands below an operator that is reached through operators alone.
  predicate YnFree(e: Expr) {
    e.Bin? ==> !IsYesNo(e.left) && !IsYesNo(e.right) && YnFree(e.left) && YnFree(e.right)
  }

  // Some y or n stands below an operator that is reached through operators alone.
  predicate Reducible(e: Expr) {
    e.Bin? && (IsYesNo(e.left) || IsYesNo(e.right) || Reducible(e.left) || Reducible(e.right))
  }

  lemma {:induction false} EliminateYnSound(e: Expr, v: Valuation)
    requires WellFormed(v)
    ensures Value(EliminateYn(e), v) == Value(e, v)
  {
    match e
    case Bin(op, l, r) =>
      EliminateYnSound(l, v);
      EliminateYnSound(r, v);
    case _ =>
  }

  // The result has no y or n left to remove, so a second run changes nothing, and
  // the run shrinks the expression exactly when there was something to remove.
  lemma EliminateYnNormal(e: Expr)
    ensures YnFree(EliminateYn(e))
    ensures EliminateYn(EliminateYn(e)) == EliminateYn(e)
    ensures Size(EliminateYn(e)) <= Size(e)
    ensures Reducible(e) <==> EliminateYn(e) != e
    ensures Reducible(e) ==> Size(EliminateYn(e)) < Size(e)
    ensures IsNnf(e) ==> IsNnf(EliminateYn(e))
  {
    EliminateYnShrinks(e);
    EliminateYnFree(e);
  }

  lemma {:induction false} EliminateYnShrinks(e: Expr)
    ensures Size(EliminateYn(e)) <= Size(e)
    ensures Reducible(e) <==> EliminateYn(e) != e
    ensures Reducible(e) ==> Size(EliminateYn(e)) < Size(e)
  {
    match e
    case Bin(op, l, r) =>
      EliminateYnShrinks(l);
      EliminateYnShrinks(r);
    case _ =>
  }

  lemma {:induction false} EliminateYnFree(e: Expr)
    ensures YnFree(EliminateYn(e))
    ensures EliminateYn(EliminateYn(e)) == EliminateYn(e)
    ensures IsNnf(e) ==> IsNnf(EliminateYn(e))
  {
    match e
    case Bin(op, l, r) =>
      EliminateYnFree(l);
      EliminateYnFree(r);
    case _ =>
  }
}
