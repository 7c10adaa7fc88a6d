/** The kernel's list primitives: a circle of links through a list head, changed in place. The
  modules about waiting lists, ready lists and timer rows take such a list as a sequence; here
  it is shown that the links carry that sequence.
 */
module KernelLists {
  import opened Seqs
  import opened Rings

  // Nodes that l and m share: none.
  ghost predicate Apart(l: seq<int>, m: seq<int>) {
    forall x :: x in l ==> x !in m
  }

  class Lists {
    var next: map<int, int>
    var prev: map<int, int>

    ghost predicate IsList(l: seq<int>)
      reads this
    {
      Ring(next, prev, l)
    }

    // All lists that have no node in common with l, and do not contain x, are as they were.
    twostate predicate Others(l: seq<int>, x: int)
      reads this
    {
      forall m :: old(IsList(m)) && Apart(m, l) && x !in m ==> IsList(m)
    }

    // next0 and prev0 are the links as they were.
    lemma OthersKept(next0: map<int, int>, prev0: map<int, int>, l: seq<int>, x: int)
      requires forall y :: y !in l && y != x && y in next0 ==> y in next && next[y] == next0[y]
      requires forall y :: y !in l && y != x && y in prev0 ==> y in prev && prev[y] == prev0[y]
      ensures forall m :: Ring(next0, prev0, m) && Apart(m, l) && x !in m ==> IsList(m)
    {
      forall m | Ring(next0, prev0, m) && Apart(m, l) && x !in m
        ensures IsList(m)
      {
        forall y | y in m
          ensures y in next0 && y in prev0
        {
          assert Linked(next0, prev0, m, IndexIn(m, y));
        }
        RingFrame(next0, prev0, next, prev, m);
      }
    }

    ghost function IndexIn(m: seq<int>, y: int): (i: nat)
      requires y in m
      ensures i < |m| && m[i] == y
    {
      var i: nat :| i < |m| && m[i] == y;
      i
    }

    method Init(l: int)
      modifies this
      ensures IsList([l]) && Others([], l)
    {
      next, prev := next[l := l], prev[l := l];
      assert Linked(next, prev, [l], 0);
      OthersKept(old(next), old(prev), [], l);
    }

    // n comes right behind position i, that is, first if i is the list head.
    method InsertAfter(l: int, n: int, ghost list: seq<int>, ghost i: nat)
      requires IsList(list) && i < |list| && list[i] == l && n !in list
      modifies this
      ensures IsList(InsertAt(list, i + 1, n)) && Others(list, n)
    {
      assert Linked(next, prev, list, i);
      InsertRing(next, prev, list, i, n);
      var after := next[l];
      prev := prev[after := n];
      next := next[n := after];
      next := next[l := n];
      prev := prev[n := l];
      assert next == LinkNext(old(next), list, i, n);
      assert prev == LinkPrev(old(prev), list, i, n);
      OthersKept(old(next), old(prev), list, n);
    }

    // n comes right before position i, that is, last if i is the list head.
    method InsertBefore(l: int, n: int, ghost list: seq<int>, ghost i: nat)
      requires IsList(list) && i < |list| && list[i] == l && n !in list
      modifies this
      ensures IsList(InsertAt(list, if i == 0 then |list| else i, n)) && Others(list, n)
    {
      ghost var j := if i == 0 then |list| - 1 else i - 1;
      assert Linked(next, prev, list, i) && Linked(next, prev, list, j);
      InsertRing(next, prev, list, j, n);
      var before := prev[l];
      next := next[before := n];
      prev := prev[n := before];
      prev := prev[l := n];
      next := next[n := l];
      assert next == LinkNext(old(next), list, j, n);
      assert prev == LinkPrev(old(prev), list, j, n);
      OthersKept(old(next), old(prev), list, n);
    }

    // n leaves its list and becomes a list of its own, so that removing it twice does no harm.
    method Remove(n: int, ghost list: seq<int>, ghost i: nat)
      requires IsList(list) && i < |list| && list[i] == n
      modifies this
      ensures IsList([n]) && Others(list, n)
      ensures |list| > 1 ==> IsList(RemoveAt(list, i))
      ensures |list| == 1 ==> next == old(next) && prev == old(prev)
    {
      assert Linked(next, prev, list, i);
      if |list| > 1 {
        RemoveRing(next, prev, list, i);
        RemoveMembers(list, i);
      }
      var before, after := prev[n], next[n];
      prev := prev[after := before];
      next := next[before := after];
      ghost var next', prev' := next, prev;
      next, prev := next[n := n], prev[n := n];
      assert Linked(next, prev, [n], 0);
      if |list| > 1 {
        Detached(next', prev', n, RemoveAt(list, i));
      } else {
        assert list == [n];
      }
      OthersKept(old(next), old(prev), list, n);
    }

    lemma Detached(next': map<int, int>, prev': map<int, int>, n: int, m: seq<int>)
      requires Ring(next', prev', m) && n !in m
      requires next == next'[n := n] && prev == prev'[n := n]
      ensures IsList(m)
    {
      forall y | y in m
        ensures y in next' && y in prev'
      {
        assert Linked(next', prev', m, IndexIn(m, y));
      }
      RingFrame(next', prev', next, prev, m);
    }

    method IsEmpty(l: int, ghost list: seq<int>) returns (b: bool)
      requires IsList(list) && list[0] == l
      ensures b == (list == [l])
    {
      assert Linked(next, prev, list, 0);
      b := next[l] == l;
    }

    // The nodes besides the list head.
    method Len(l: int, ghost list: seq<int>) returns (len: nat)
      requires IsList(list) && list[0] == l
      ensures len == |list| - 1
    {
      len := 0;
      var p := l;
      assert Linked(next, prev, list, 0);
      while next[p] != l
        invariant len < |list| && p == list[len] && Linked(next, prev, list, len)
        decreases |list| - len
      {
        p := next[p];
        len := len + 1;
        assert Linked(next, prev, list, len);
      }
      assert forall k: nat :: k < |list| - 1 ==> Succ(list, k) != list[0];
    }
  }
}
