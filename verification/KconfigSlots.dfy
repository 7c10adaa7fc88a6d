/** The duplicate walk with its aliasing made visible: the slots of one level are one array,
  and both arguments of the walk are ranges of that same array.
 */
module KconfigSlots {
  import opened Seqs
  import opened KconfigExpr
  import opened KconfigEq
  import opened KconfigDups

  method WalkPairsInPlace(op: Op, s1: Shape, o1: nat, s2: Shape, o2: nat, slots: array<Expr>) returns (joins: nat)
    requires o1 + Width(s1) <= slots.Length && o2 + Width(s2) <= slots.Length
    modifies slots
    ensures Outcome(slots[..], joins) == WalkPairs(op, s1, o1, s2, o2, old(slots[..]))
    decreases Total(slots[..]), 2 + Nodes(s1) + Nodes(s2)
  {
    if s1.Node? {
      var n1 := WalkPairsInPlace(op, s1.l, o1, s2, o2, slots);
      var n2 := WalkPairsInPlace(op, s1.r, o1 + Width(s1.l), s2, o2, slots);
      joins := n1 + n2;
    } else if s2.Node? {
      var n1 := WalkPairsInPlace(op, s1, o1, s2.l, o2, slots);
      var n2 := WalkPairsInPlace(op, s1, o1, s2.r, o2 + Width(s2.l), slots);
      joins := n1 + n2;
    } else {
      assert WalkPairs(op, s1, o1, s2, o2, slots[..]) == JoinPair(op, o1, o2, slots[..]);
      joins := JoinPairInPlace(op, o1, o2, slots);
    }
  }

  method JoinPairInPlace(op: Op, i: nat, j: nat, slots: array<Expr>) returns (joins: nat)
    requires i < slots.Length && j < slots.Length
    modifies slots
    ensures Outcome(slots[..], joins) == JoinPair(op, i, j, old(slots[..]))
    decreases Total(slots[..]), 1
  {
    joins := 0;
    if i == j {
      return;
    }
    TotalUpdate(slots[..], i, slots[i]);
    if slots[i].Bin? {
      var e;
      e, joins := WalkLevel(slots[i]);
      slots[i] := e;
    }
    assert slots[..] == old(slots[..])[i := slots[i]];
    var t := Join(op, slots[i], slots[j]);
    if t.Some? {
      slots[i] := Symb(Unit(op));
      slots[j] := t.value;
      joins := joins + 1;
    }
  }

  // One operator expression walked against itself.
  method WalkLevel(e: Expr) returns (r: Expr, joins: nat)
    requires e.Bin?
    ensures Cleaned(r, joins) == WalkWithin(e)
    decreases Size(e), 0
  {
    SizeLeaves(e.op, e);
    var s, ls := ShapeOf(e.op, e), Leaves(e.op, e);
    var slots := new Expr[|ls|](k requires 0 <= k < |ls| => ls[k]);
    assert slots[..] == ls;
    joins := WalkPairsInPlace(e.op, s, 0, s, 0, slots);
    r := Rebuild(e.op, s, slots[..]);
  }

  // The loop ends because every pass that joined something makes the expression smaller.
  method ExprEliminateDups(e: Expr) returns (r: Expr)
    ensures r == EliminateDups(e)
    ensures Equivalent(r, e) && Settled(r)
  {
    r := e;
    var transCount := 1;
    while transCount != 0
      invariant EliminateDups(r) == EliminateDups(e)
      invariant transCount == 0 ==> r == EliminateDups(e)
      decreases Size(r), transCount
    {
      transCount := 0;
      if r.Bin? {
        ghost var before := r;
        r, transCount := WalkLevel(r);
        if transCount == 0 {
          WalkWithinIdle(before);
        } else {
          JoinsLeaveConstants(before);
          EliminateYnNormal(r);
          r := EliminateYn(r);
        }
      }
    }
    forall v | WellFormed(v)
      ensures Value(r, v) == Value(e, v)
    {
      EliminateDupsSound(e, v);
    }
    EliminateDupsSettled(e);
  }
}
