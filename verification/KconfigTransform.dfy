/** Pushing negations to the symbols, dropping comparisons with n, and the way the menu
  tree combines these rewrites when it propagates dependencies.
 */
module KconfigTransform {
  import opened Seqs
  import opened KconfigExpr
  import opened KconfigEq
  import opened KconfigDups

  function NegateRel(rel: Rel): Rel {
    match rel
    case Equal => Unequal
    case Unequal => Equal
    case Leq => Gth
    case Geq => Lth
    case Lth => Geq
    case Gth => Leq
  }

  function Dual(op: Op): Op {
    match op
    case AndOp => OrOp
    case OrOp => AndOp
  }

  // A boolean symbol compared, by = or !=, with n, m or y.
  predicate IsBooleanTest(e: Expr) {
    e.Cmp? && (e.rel == Equal || e.rel == Unequal) && e.lsym.Type() == BooleanType && e.rsym.IsConst()
  }

  function RewriteTest(e: Expr): Expr
    requires IsBooleanTest(e)
  {
    match (e.rel, e.rsym)
    case (Equal, SymNo) => Not(Symb(e.lsym))
    case (Equal, SymMod) => Symb(SymNo)
    case (Equal, SymYes) => Symb(e.lsym)
    case (_, SymNo) => Symb(e.lsym)
    case (_, SymMod) => Symb(SymYes)
    case (_, _) => Not(Symb(e.lsym))
  }

  // A measure by which De Morgan's rule goes down although it adds nodes.
  function Weight(e: Expr): (n: nat)
    ensures n >= 1
  {
    match e
    case Symb(_) => 1
    case Cmp(_, _, _) => 2
    case Not(a) => 2 * Weight(a)
    case Bin(_, l, r) => 1 + Weight(l) + Weight(r)
  }

  lemma DeMorganLighter(op: Op, l: Expr, r: Expr)
    ensures Weight(Bin(Dual(op), Not(l), Not(r))) < 2 * Weight(Bin(op, l, r))
  {
    assert Weight(Not(l)) == 2 * Weight(l) && Weight(Not(r)) == 2 * Weight(r);
  }

  function Transform(e: Expr): (r: Expr)
    ensures Weight(r) <= Weight(e)
    decreases Weight(e), 1
  {
    match e
    case Symb(_) => e
    case Cmp(_, _, _) => if IsBooleanTest(e) then RewriteTest(e) else e
    case Bin(op, l, r) => Bin(op, Transform(l), Transform(r))
    case Not(a) => Negate(Transform(a))
  }

  // A negation above a transformed operand; De Morgan's rule starts over on its result.
  function Negate(a: Expr): (r: Expr)
    ensures Weight(r) <= 2 * Weight(a)
    decreases 2 * Weight(a), 0
  {
    match a
    case Not(b) => Transform(b)
    case Cmp(rel, l, r) => Cmp(NegateRel(rel), l, r)
    case Bin(op, l, r) =>
      DeMorganLighter(op, l, r);
      Transform(Bin(Dual(op), Not(l), Not(r)))
    case Symb(SymYes) => Symb(SymNo)
    case Symb(SymMod) => Symb(SymMod)
    case Symb(SymNo) => Symb(SymYes)
    case Symb(s) => Not(Symb(s))
  }

  // Negation normal form without tests of boolean symbols against constants.
  predicate IsTransformed(e: Expr) {
    match e
    case Symb(_) => true
    case Cmp(rel, l, r) => !(l.Declared? && l.typ == BooleanType && !r.Declared? && (rel == Equal || rel == Unequal))
    case Not(a) => a.Symb? && a.sym.Declared?
    case Bin(_, l, r) => IsTransformed(l) && IsTransformed(r)
  }

  lemma TransformedIsNnf(e: Expr)
    requires IsTransformed(e)
    ensures IsNnf(e)
  {
  }

  lemma {:induction false} TransformNormal(e: Expr)
    ensures IsTransformed(Transform(e))
    decreases Weight(e)
  {
    match e
    case Symb(_) =>
    case Cmp(_, _, _) =>
    case Bin(op, l, r) =>
      TransformNormal(l);
      TransformNormal(r);
    case Not(a) =>
      TransformNormal(a);
      match Transform(a) {
        case Not(b) => TransformNormal(b);
        case Bin(op, l, r) =>
          DeMorganLighter(op, l, r);
          TransformNormal(Bin(Dual(op), Not(l), Not(r)));
        case _ =>
      }
  }

  // The transformed expressions are exactly the ones that transforming leaves alone.
  lemma {:induction false} TransformFixed(e: Expr)
    ensures IsTransformed(e) <==> Transform(e) == e
  {
    if IsTransformed(e) {
      match e
      case Bin(op, l, r) =>
        TransformFixed(l);
        TransformFixed(r);
      case _ =>
    } else {
      TransformNormal(e);
    }
  }

  lemma {:induction false} TransformSound(e: Expr, v: Valuation)
    requires WellFormed(v)
    ensures Value(Transform(e), v) == Value(e, v)
    decreases Weight(e)
  {
    match e
    case Symb(_) =>
    case Cmp(_, l, r) =>
      if IsBooleanTest(e) {
        assert l.IsLogic() && r.IsLogic();
      }
    case Bin(op, l, r) =>
      TransformSound(l, v);
      TransformSound(r, v);
    case Not(a) =>
      TransformSound(a, v);
      match Transform(a) {
        case Not(b) => TransformSound(b, v);
        case Bin(op, l, r) =>
          DeMorganLighter(op, l, r);
          TransformSound(Bin(Dual(op), Not(l), Not(r)), v);
        case _ =>
      }
  }

  /* ------------------------------- dropping comparisons with n ------------------------------- */

  predicate IsTristateNotNo(e: Expr) {
    e.Cmp? && e.rel == Unequal && e.lsym.Type() == TristateType && e.rsym == SymNo
  }

  function TransBool(e: Expr): Expr {
    match e
    case Symb(_) => e
    case Cmp(_, l, _) => if IsTristateNotNo(e) then Symb(l) else e
    case Not(a) => Not(TransBool(a))
    case Bin(op, l, r) => Bin(op, TransBool(l), TransBool(r))
  }

  // Some tristate symbol is tested for being different from n.
  predicate HasTest(e: Expr) {
    match e
    case Symb(_) => false
    case Cmp(rel, l, r) => l.Declared? && l.typ == TristateType && rel == Unequal && r == SymNo
    case Not(a) => HasTest(a)
    case Bin(_, l, r) => HasTest(l) || HasTest(r)
  }

  // No such test stands below a negation.
  predicate NoTestBelowNot(e: Expr) {
    match e
    case Symb(_) => true
    case Cmp(_, _, _) => true
    case Not(a) => !HasTest(a)
    case Bin(_, l, r) => NoTestBelowNot(l) && NoTestBelowNot(r)
  }

  // Exactly the expressions without such a test are left alone.
  lemma {:induction false} TransBoolFixed(e: Expr)
    ensures HasTest(e) <==> TransBool(e) != e
  {
    match e
    case Not(a) => TransBoolFixed(a);
    case Bin(op, l, r) =>
      TransBoolFixed(l);
      TransBoolFixed(r);
    case _ =>
  }

  // Afterwards there is none.
  lemma {:induction false} TransBoolDrops(e: Expr)
    ensures !HasTest(TransBool(e))
  {
    match e
    case Not(a) => TransBoolDrops(a);
    case Bin(op, l, r) =>
      TransBoolDrops(l);
      TransBoolDrops(r);
    case _ =>
  }

  // The value may drop from y to m, but n stays n and nothing else becomes n.
  lemma {:induction false} TransBoolSound(e: Expr, v: Valuation)
    requires WellFormed(v)
    requires NoTestBelowNot(e)
    ensures Value(TransBool(e), v) <= Value(e, v)
    ensures Value(TransBool(e), v) == NO <==> Value(e, v) == NO
  {
    match e
    case Cmp(_, l, r) => assert IsTristateNotNo(e) ==> l.IsLogic() && r.IsLogic();
    case Not(a) => TransBoolFixed(a);
    case Bin(op, l, r) =>
      TransBoolSound(l, v);
      TransBoolSound(r, v);
    case _ =>
  }

  lemma {:induction false} NnfHasNoTestBelowNot(e: Expr)
    requires IsNnf(e)
    ensures NoTestBelowNot(e)
  {
    match e
    case Bin(op, l, r) =>
      NnfHasNoTestBelowNot(l);
      NnfHasNoTestBelowNot(r);
    case _ =>
  }

  // The condition cannot be dropped: for one comparison below one negation, the rewrite is
  // faithful exactly when it changes nothing.
  lemma TransBoolBelowNot(e: Expr)
    requires e.Cmp?
    ensures (forall v | WellFormed(v) :: Value(TransBool(Not(e)), v) == NO <==> Value(Not(e), v) == NO)
      <==> NoTestBelowNot(Not(e))
  {
    if IsTristateNotNo(e) {
      var v := AllMod();
      assert v.tri(e.lsym) == MOD;
      assert TransBool(e) == Symb(e.lsym) && TransBool(Not(e)) == Not(Symb(e.lsym));
      assert Value(e, v) == YES && Value(Symb(e.lsym), v) == MOD;
      assert Value(Not(e), v) == NO && Value(Not(Symb(e.lsym)), v) == MOD;
    } else {
      assert TransBool(e) == e;
    }
  }

  // Every symbol that may be m is m.
  ghost function AllMod(): (v: Valuation)
    ensures WellFormed(v)
    ensures forall s: Symbol :: s.Type() == TristateType ==> v.tri(s) == MOD
  {
    var tri := (s: Symbol) =>
      if s == SymNo || s.Type() == BooleanType then NO else if s == SymYes then YES else MOD;
    Valuation(tri, (s: Symbol, t: Symbol) => tri(s) - tri(t))
  }

  /* ------------------------------- propagating menu dependencies ------------------------------- */

  function AllocAnd(e1: Option<Expr>, e2: Option<Expr>): Option<Expr> {
    if e1.None? then e2
    else if e2.None? then e1
    else Some(Bin(AndOp, e1.value, e2.value))
  }

  // The literal m stands for m && MODULES, except in comparisons.
  function RewriteM(e: Expr, modules: Symbol): Expr {
    match e
    case Symb(SymMod) => Bin(AndOp, e, Symb(modules))
    case Symb(_) => e
    case Cmp(_, _, _) => e
    case Not(a) => Not(RewriteM(a, modules))
    case Bin(op, l, r) => Bin(op, RewriteM(l, modules), RewriteM(r, modules))
  }

  // The valuation in which m is worth no more than the symbol modules.
  function Capped(v: Valuation, modules: Symbol): Valuation {
    var tri: Symbol -> Tristate :=
      (s: Symbol) => (if s == SymMod then Combine(AndOp, v.tri(s), v.tri(modules)) else v.tri(s)) as Tristate;
    v.(tri := tri)
  }

  lemma {:induction false} RewriteMSound(e: Expr, modules: Symbol, v: Valuation)
    ensures Value(RewriteM(e, modules), v) == Value(e, Capped(v, modules))
  {
    match e
    case Not(a) => RewriteMSound(a, modules, v);
    case Bin(op, l, r) =>
      RewriteMSound(l, modules, v);
      RewriteMSound(r, modules, v);
    case _ =>
  }

  // With modules on nothing changes, and with modules off m counts as n.
  lemma CappedMeans(modules: Symbol, v: Valuation, s: Symbol)
    requires WellFormed(v)
    ensures Capped(v, modules).tri(s) ==
      if v.tri(modules) == NO && s == SymMod then NO else v.tri(s)
  {
  }

  function Rewritten(dep: Option<Expr>, modules: Symbol): Option<Expr> {
    match dep
    case None => None
    case Some(e) => Some(Transform(RewriteM(e, modules)))
  }

  // A dependency joined to that of its parent, as for a menu entry or a property.
  function Propagate(parent: Option<Expr>, dep: Option<Expr>, modules: Symbol): Option<Expr> {
    EliminateDupsOpt(AllocAnd(parent, Rewritten(dep, modules)))
  }

  // The condition of a property; a symbol that is not tristate only needs to know whether it is n.
  function PropertyCondition(base: Option<Expr>, dep: Option<Expr>, modules: Symbol, tristate: bool): Option<Expr> {
    var d := Propagate(base, dep, modules);
    if d.None? || tristate then d else Some(TransBool(d.value))
  }

  predicate NnfOpt(e: Option<Expr>) {
    e.None? || IsNnf(e.value)
  }

  lemma PropagateSound(parent: Option<Expr>, dep: Option<Expr>, modules: Symbol, v: Valuation)
    requires WellFormed(v)
    ensures ValueOpt(Propagate(parent, dep, modules), v) == Combine(AndOp, ValueOpt(parent, v), ValueOpt(dep, Capped(v, modules)))
    ensures NnfOpt(parent) ==> NnfOpt(Propagate(parent, dep, modules))
    ensures var r := Propagate(parent, dep, modules); if parent.None? && dep.None? then r.None? else r.Some? && Settled(r.value)
  {
    if dep.Some? {
      var e := RewriteM(dep.value, modules);
      RewriteMSound(dep.value, modules, v);
      TransformSound(e, v);
      TransformNormal(e);
      TransformedIsNnf(Transform(e));
    }
    var e := AllocAnd(parent, Rewritten(dep, modules));
    if e.Some? {
      EliminateDupsSound(e.value, v);
      EliminateDupsSettled(e.value);
      if IsNnf(e.value) {
        EliminateDupsNnf(e.value);
      }
    }
  }

  // A menu entry with its own dependency. The children of a choice depend on the choice's
  // symbol in place of what the choice depends on.
  datatype Entry = Menu(dep: Option<Expr>) | Choice(dep: Option<Expr>, sym: Symbol)

  // What the children of the last entry of a path depend on, the outermost entry first.
  function Nested(root: Option<Expr>, path: seq<Entry>, modules: Symbol): Option<Expr> {
    if path == [] then root
    else
      match path[|path| - 1]
      case Menu(dep) => Propagate(Nested(root, path[..|path| - 1], modules), dep, modules)
      case Choice(_, sym) => Some(Symb(sym))
  }

  // What it is meant to be: the least value along the path, from the innermost choice on.
  function Meet(root: Option<Expr>, path: seq<Entry>, modules: Symbol, v: Valuation): Tristate {
    if path == [] then ValueOpt(root, v)
    else
      match path[|path| - 1]
      case Menu(dep) => Combine(AndOp, Meet(root, path[..|path| - 1], modules, v), ValueOpt(dep, Capped(v, modules)))
      case Choice(_, sym) => v.tri(sym)
  }

  // Along every path of menus the rewritten dependency has the value of the plain
  // conjunction, and the property condition tells n from not n as the conjunction does.
  lemma {:induction false} NestedSound(root: Option<Expr>, path: seq<Entry>, modules: Symbol, v: Valuation)
    requires WellFormed(v)
    requires NnfOpt(root)
    ensures ValueOpt(Nested(root, path, modules), v) == Meet(root, path, modules, v)
    ensures NnfOpt(Nested(root, path, modules))
  {
    if path != [] && path[|path| - 1].Menu? {
      var n := |path| - 1;
      NestedSound(root, path[..n], modules, v);
      PropagateSound(Nested(root, path[..n], modules), path[n].dep, modules, v);
    }
  }

  // own is the dependency of the entry to which the property belongs.
  lemma PropertyConditionSound(root: Option<Expr>, path: seq<Entry>, own: Option<Expr>, dep: Option<Expr>,
                               modules: Symbol, tristate: bool, v: Valuation)
    requires WellFormed(v)
    requires NnfOpt(root)
    ensures
      var c := PropertyCondition(Propagate(Nested(root, path, modules), own, modules), dep, modules, tristate);
      var meant := Meet(root, path + [Menu(own), Menu(dep)], modules, v);
      && (tristate ==> ValueOpt(c, v) == meant)
      && (ValueOpt(c, v) == NO <==> meant == NO)
      && (!tristate && c.Some? ==> !HasTest(c.value))
  {
    var full := path + [Menu(own), Menu(dep)];
    assert full[..|full| - 1] == path + [Menu(own)] && (path + [Menu(own)])[..|path|] == path;
    NestedSound(root, full, modules, v);
    var d := Nested(root, full, modules);
    if d.Some? {
      NnfHasNoTestBelowNot(d.value);
      TransBoolSound(d.value, v);
      TransBoolDrops(d.value);
    }
  }
}
