/** Circular doubly linked lists whose nodes are named by numbers, as the kernel's lists and the
  pool allocator's two lists are.
 */
module Rings {
  import opened Seqs

  // The node after position i, going round.
  function Succ(l: seq<int>, i: nat): int
    requires i < |l|
  {
    if i + 1 < |l| then l[i + 1] else l[0]
  }

  // The node before position i, going round.
  function Pred(l: seq<int>, i: nat): int
    requires i < |l|
  {
    if i > 0 then l[i - 1] else l[|l| - 1]
  }

  ghost predicate Linked(next: map<int, int>, prev: map<int, int>, l: seq<int>, i: nat)
    requires i < |l|
  {
    l[i] in next && next[l[i]] == Succ(l, i) && l[i] in prev && prev[l[i]] == Pred(l, i)
  }

  // The nodes of l form one circle, in this order, and every back link inverts a forward link.
  ghost predicate Ring(next: map<int, int>, prev: map<int, int>, l: seq<int>) {
    && |l| > 0 && Distinct(l)
    && forall i :: 0 <= i < |l| ==> Linked(next, prev, l, i)
  }

  // Where a new node x goes behind position i.
  function LinkNext(next: map<int, int>, l: seq<int>, i: nat, x: int): map<int, int>
    requires i < |l|
  {
    next[x := Succ(l, i)][l[i] := x]
  }

  function LinkPrev(prev: map<int, int>, l: seq<int>, i: nat, x: int): map<int, int>
    requires i < |l|
  {
    prev[x := l[i]][Succ(l, i) := x]
  }

  lemma InsertRing(next: map<int, int>, prev: map<int, int>, l: seq<int>, i: nat, x: int)
    requires Ring(next, prev, l) && i < |l| && x !in l
    ensures Ring(LinkNext(next, l, i, x), LinkPrev(prev, l, i, x), InsertAt(l, i + 1, x))
  {
    var m := InsertAt(l, i + 1, x);
    InsertMembers(l, i + 1, x);
    forall k | 0 <= k < |m|
      ensures Linked(LinkNext(next, l, i, x), LinkPrev(prev, l, i, x), m, k)
    {
      if k != i + 1 {
        InsertLinks(next, prev, l, i, x, if k <= i then k else k - 1);
      }
    }
  }

  lemma InsertLinks(next: map<int, int>, prev: map<int, int>, l: seq<int>, i: nat, x: int, k: nat)
    requires Ring(next, prev, l) && i < |l| && x !in l && k < |l|
    ensures Linked(LinkNext(next, l, i, x), LinkPrev(prev, l, i, x), InsertAt(l, i + 1, x), if k <= i then k else k + 1)
  {
    assert Linked(next, prev, l, k);
    assert k != i ==> l[k] != l[i];
    assert Succ(l, i) == l[if i + 1 < |l| then i + 1 else 0];
  }

  function UnlinkNext(next: map<int, int>, l: seq<int>, i: nat): map<int, int>
    requires i < |l|
  {
    next[Pred(l, i) := Succ(l, i)]
  }

  function UnlinkPrev(prev: map<int, int>, l: seq<int>, i: nat): map<int, int>
    requires i < |l|
  {
    prev[Succ(l, i) := Pred(l, i)]
  }

  lemma RemoveRing(next: map<int, int>, prev: map<int, int>, l: seq<int>, i: nat)
    requires Ring(next, prev, l) && i < |l| && |l| > 1
    ensures Ring(UnlinkNext(next, l, i), UnlinkPrev(prev, l, i), RemoveAt(l, i))
  {
    var m := RemoveAt(l, i);
    RemoveMembers(l, i);
    forall k | 0 <= k < |m|
      ensures Linked(UnlinkNext(next, l, i), UnlinkPrev(prev, l, i), m, k)
    {
      RemoveLinks(next, prev, l, i, if k < i then k else k + 1);
    }
  }

  lemma RemoveLinks(next: map<int, int>, prev: map<int, int>, l: seq<int>, i: nat, k: nat)
    requires Ring(next, prev, l) && i < |l| && |l| > 1 && k < |l| && k != i
    ensures Linked(UnlinkNext(next, l, i), UnlinkPrev(prev, l, i), RemoveAt(l, i), if k < i then k else k - 1)
  {
    assert Linked(next, prev, l, k);
    var p, s := if i > 0 then i - 1 else |l| - 1, if i + 1 < |l| then i + 1 else 0;
    assert Pred(l, i) == l[p] && Succ(l, i) == l[s];
    assert k != p ==> l[k] != l[p];
    assert k != s ==> l[k] != l[s];
  }

  // A ring does not notice changes at nodes that are not its own.
  lemma RingFrame(next: map<int, int>, prev: map<int, int>, next': map<int, int>, prev': map<int, int>, l: seq<int>)
    requires Ring(next, prev, l)
    requires forall x :: x in l ==> x in next' && x in prev' && (x in next ==> next'[x] == next[x]) && (x in prev ==> prev'[x] == prev[x])
    ensures Ring(next', prev', l)
  {
    forall i | 0 <= i < |l|
      ensures Linked(next', prev', l, i)
    {
      var x := l[i];
      assert x in l;
      assert Linked(next, prev, l, i);
      assert next'[x] == next[x] && prev'[x] == prev[x];
    }
  }
}
