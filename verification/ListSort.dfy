/** Singly linked lists changed in place: sorting without recursion, reversing, and taking a node
  out and putting it back.
 */
module ListSort {
  import opened Seqs
  import opened StableSort

  const NULL: Node := -1

  // Following next from a node leads along l and ends at to.
  ghost predicate Seg(next: map<Node, Node>, from: Node, l: seq<Node>, to: Node)
    decreases |l|
  {
    if l == [] then from == to
    else from == l[0] && from != NULL && from in next && Seg(next, next[from], l[1..], to)
  }

  lemma {:induction false} SegFrame(next: map<Node, Node>, from: Node, l: seq<Node>, to: Node, x: Node, v: Node)
    requires Seg(next, from, l, to) && x !in l
    ensures Seg(next[x := v], from, l, to)
    decreases |l|
  {
    if l != [] {
      SegFrame(next, next[from], l[1..], to, x, v);
    }
  }

  lemma {:induction false} SegJoin(next: map<Node, Node>, from: Node, l: seq<Node>, mid: Node, m: seq<Node>, to: Node)
    requires Seg(next, from, l, mid) && Seg(next, mid, m, to)
    ensures Seg(next, from, l + m, to)
    decreases |l|
  {
    if l == [] {
      assert l + m == m;
    } else {
      SegJoin(next, next[from], l[1..], mid, m, to);
      assert (l + m)[1..] == l[1..] + m;
    }
  }

  ghost predicate Disjoint(l: seq<Node>, m: seq<Node>) {
    forall x :: x in l ==> x !in m
  }

  lemma DisjointParts(l: seq<Node>, m: seq<Node>)
    requires Distinct(l + m)
    ensures Distinct(l) && Distinct(m) && Disjoint(l, m)
  {
    var a := l + m;
    forall i, j | 0 <= i < j < |l|
      ensures l[i] != l[j]
    {
      assert a[i] == l[i] && a[j] == l[j];
    }
    assert forall j :: 0 <= j < |m| ==> a[|l| + j] == m[j];
    forall x | x in l
      ensures x !in m
    {
      var i :| 0 <= i < |l| && l[i] == x;
      assert a[i] == x;
    }
  }

  lemma DistinctJoin(l: seq<Node>, m: seq<Node>)
    requires Distinct(l) && Distinct(m) && Disjoint(l, m)
    ensures Distinct(l + m)
  {
    assert forall i :: 0 <= i < |l| ==> l[i] in l;
    assert forall i :: 0 <= i < |m| ==> m[i] in m;
  }

  class Cells {
    var next: map<Node, Node>
    var infos: map<Node, Info>

    ghost predicate IsList(from: Node, l: seq<Node>)
      reads this
    {
      Seg(next, from, l, NULL) && Distinct(l)
    }

    // The nodes of done have been put out: list is the first of them, tail the last.
    ghost predicate Output(done: seq<Node>, list: Node, tail: Node)
      reads this
    {
      && Distinct(done)
      && if done == [] then list == NULL && tail == NULL
        else tail == done[|done| - 1] && tail != NULL && tail in next && Seg(next, list, done, next[tail])
    }

    // Adds node e behind tail.
    method Append(list: Node, tail: Node, e: Node, ghost done: seq<Node>) returns (list': Node)
      requires Output(done, list, tail) && e in next && e != NULL && e !in done
      modifies this`next
      ensures Output(done + [e], list', e)
      ensures next == if done == [] then old(next) else old(next)[tail := e]
    {
      if tail != NULL {
        next := next[tail := e];
        list' := list;
        ghost var n := |done| - 1;
        assert done == done[..n] + [tail];
        DisjointParts(done[..n], [tail]);
        ghost var mid := SegCut(old(next), list, done[..n], [tail], old(next)[tail]);
        assert tail !in done[..n];
        SegFrame(old(next), list, done[..n], tail, tail, e);
        assert Seg(next, tail, [tail, e], next[e]);
        SegJoin(next, list, done[..n], tail, [tail, e], next[e]);
        assert done[..n] + [tail, e] == done + [e];
      } else {
        list' := e;
      }
    }

    // q is insize nodes behind p, or NULL; psize is how many there were.
    method StepAlong(p: Node, insize: nat, ghost rem: seq<Node>) returns (q: Node, psize: nat)
      requires rem != [] && insize > 0 && Seg(next, p, rem, NULL)
      ensures psize == Min(insize, |rem|)
      ensures Seg(next, p, rem[..psize], q) && Seg(next, q, rem[psize..], NULL)
    {
      q := p;
      psize := 0;
      assert rem[..0] == [] && rem[0..] == rem;
      for i := 0 to insize
        invariant psize == i < |rem|
        invariant Seg(next, p, rem[..psize], q) && Seg(next, q, rem[psize..], NULL)
      {
        psize := psize + 1;
        SegJoin(next, p, rem[..i], q, [rem[i]], next[q]);
        assert rem[..i] + [rem[i]] == rem[..i + 1];
        assert rem[i..][1..] == rem[i + 1..];
        q := next[q];
        if q == NULL {
          break;
        }
      }
    }

    // Merges two runs behind what has been put out; left is where the rest begins.
    method MergeRuns(p0: Node, psize0: nat, q0: Node, qsize0: nat, list0: Node, tail0: Node, cmp: Cmp,
        ghost pr0: seq<Node>, ghost qr0: seq<Node>, ghost rest: seq<Node>, ghost done0: seq<Node>)
        returns (list: Node, tail: Node, left: Node)
      requires Heads(next, p0, psize0, pr0, q0, qsize0, qr0, rest) && pr0 != []
      requires Output(done0, list0, tail0) && Disjoint(done0, pr0) && Disjoint(done0, qr0 + rest)
      modifies this`next
      ensures Output(done0 + Merge(infos, cmp, pr0, qr0), list, tail)
      ensures Seg(next, left, rest, NULL) && Distinct(rest) && Disjoint(done0 + Merge(infos, cmp, pr0, qr0), rest)
    {
      var p, psize, q, qsize := p0, psize0, q0, qsize0;
      list, tail := list0, tail0;
      ghost var pr, qr, done := pr0, qr0, done0;
      while psize > 0 || (qsize > 0 && q != NULL)
        invariant Heads(next, p, psize, pr, q, qsize, qr, rest)
        invariant Output(done, list, tail) && Disjoint(done, pr) && Disjoint(done, qr + rest)
        invariant done + Merge(infos, cmp, pr, qr) == done0 + Merge(infos, cmp, pr0, qr0)
        decreases psize + |qr|
      {
        var e;
        HeadsFacts(next, p, psize, pr, q, qsize, qr, rest);
        MergeStep(infos, cmp, pr, qr, done);
        ghost var pr', qr' := pr, qr;
        if psize == 0 {
          PopSecond(next, p, psize, pr, q, qsize, qr, rest, done);
          e, q, qsize, qr' := q, next[q], qsize - 1, qr[1..];
        } else if qsize == 0 || q == NULL {
          PopFirst(next, p, psize, pr, q, qsize, qr, rest, done);
          e, p, psize, pr' := p, next[p], psize - 1, pr[1..];
        } else if cmp(InfoOf(infos, p), InfoOf(infos, q)) <= 0 {
          PopFirst(next, p, psize, pr, q, qsize, qr, rest, done);
          e, p, psize, pr' := p, next[p], psize - 1, pr[1..];
        } else {
          PopSecond(next, p, psize, pr, q, qsize, qr, rest, done);
          e, q, qsize, qr' := q, next[q], qsize - 1, qr[1..];
        }
        ghost var next0 := next;
        list := Append(list, tail, e, done);
        HeadsKept(next0, p, psize, pr', q, qsize, qr', rest, done, tail, e);
        tail := e;
        done := done + [e];
        pr, qr := pr', qr';
      }
      HeadsFacts(next, p, psize, pr, q, qsize, qr, rest);
      assert qr + rest == rest && done + Merge(infos, cmp, pr, qr) == done;
      left := q;
    }

    // One pass over the whole list, merging runs of insize nodes in pairs.
    method MergePass(list0: Node, insize: nat, cmp: Cmp, ghost l: seq<Node>) returns (list: Node, nmerges: nat)
      requires l != [] && insize > 0 && IsList(list0, l)
      modifies this`next
      ensures IsList(list, Pass(infos, cmp, l, insize))
      ensures nmerges <= 1 <==> |l| <= 2 * insize
    {
      var p, tail := list0, NULL;
      list, nmerges := NULL, 0;
      ghost var done: seq<Node>, rem := [], l;
      while p != NULL
        invariant Seg(next, p, rem, NULL) && Distinct(rem) && Disjoint(done, rem)
        invariant Output(done, list, tail)
        invariant done + Pass(infos, cmp, rem, insize) == Pass(infos, cmp, l, insize)
        invariant if nmerges == 0 then rem == l else if nmerges == 1 then |rem| == |l| - Min(2 * insize, |l|) else |l| > 2 * insize
        decreases |rem|
      {
        nmerges := nmerges + 1;
        ghost var j, m := Min(2 * insize, |rem|), Pair(infos, cmp, rem, insize);
        list, tail, p := MergeNext(p, insize, list, tail, cmp, rem, done);
        Assoc2(done, m, Pass(infos, cmp, rem[j..], insize));
        done, rem := done + m, rem[j..];
      }
      SegLast(done, list, tail);
      next := next[tail := NULL];
      assert rem == [] && done == Pass(infos, cmp, l, insize);
    }

    // Steps along to the second run and merges the two; left is where the rest begins.
    method MergeNext(p: Node, insize: nat, list0: Node, tail0: Node, cmp: Cmp, ghost rem: seq<Node>, ghost done: seq<Node>)
        returns (list: Node, tail: Node, left: Node)
      requires rem != [] && insize > 0 && Seg(next, p, rem, NULL) && Distinct(rem) && Disjoint(done, rem)
      requires Output(done, list0, tail0)
      modifies this`next
      ensures Output(done + Pair(infos, cmp, rem, insize), list, tail)
      ensures var rest := rem[Min(2 * insize, |rem|)..];
        Seg(next, left, rest, NULL) && Distinct(rest) && Disjoint(done + Pair(infos, cmp, rem, insize), rest)
    {
      var q, psize := StepAlong(p, insize, rem);
      ghost var j := Min(2 * insize, |rem|);
      RunsApart(next, p, q, rem, insize, done);
      list, tail, left := MergeRuns(p, psize, q, insize, list0, tail0, cmp, rem[..psize], rem[psize..j], rem[j..], done);
    }

    // A list by its last node: where that leads can be changed.
    lemma SegLast(done: seq<Node>, list: Node, tail: Node)
      requires Output(done, list, tail) && done != []
      ensures Seg(next[tail := NULL], list, done, NULL)
    {
      var n := |done| - 1;
      assert done == done[..n] + [tail];
      DisjointParts(done[..n], [tail]);
      var mid := SegCut(next, list, done[..n], [tail], next[tail]);
      assert tail !in done[..n];
      SegFrame(next, list, done[..n], tail, tail, NULL);
      SegJoin(next[tail := NULL], list, done[..n], tail, [tail], NULL);
    }

    // core_list_mergesort: for a list that is not empty and a comparison that ranks its infos, the
    // same nodes come back in order, and equally ranked ones as they came.
    method MergeSort(list0: Node, cmp: Cmp, ghost l: seq<Node>) returns (list: Node, ghost m: seq<Node>)
      requires IsList(list0, l) && l != [] && Preorder(cmp)
      modifies this`next
      ensures IsList(list, m) && Sorted(infos, cmp, m) && Stable(infos, cmp, l, m)
      ensures |m| == |l| && forall x: Node :: x in m <==> x in l
    {
      list, m := list0, l;
      var insize := 1;
      OneSorted(infos, cmp, l);
      while true
        invariant IsList(list, m) && |m| == |l| && insize > 0 && (forall x: Node :: x in m <==> x in l)
        invariant RunsSorted(infos, cmp, m, insize) && Stable(infos, cmp, l, m)
        invariant insize == 1 || insize < |l|
        decreases |l| - insize
      {
        var nmerges;
        ghost var before := m;
        PassSorts(infos, cmp, m, insize);
        forall x: Node
          ensures Class(infos, cmp, Pass(infos, cmp, m, insize), x) == Class(infos, cmp, m, x)
        {
          PassStable(infos, cmp, m, insize, x);
        }
        list, nmerges := MergePass(list, insize, cmp, m);
        m := Pass(infos, cmp, m, insize);
        if nmerges <= 1 {
          OneRun(infos, cmp, m, 2 * insize);
          return;
        }
        insize := 2 * insize;
      }
    }

    // core_list_reverse
    method Reverse(list0: Node, ghost l: seq<Node>) returns (list: Node)
      requires IsList(list0, l)
      modifies this`next
      ensures IsList(list, Reversed(l))
    {
      list := NULL;
      var rest := list0;
      ghost var back: seq<Node>, rem := [], l;
      while rest != NULL
        invariant Seg(next, rest, rem, NULL) && Distinct(rem)
        invariant Seg(next, list, back, NULL) && Distinct(back) && Disjoint(back, rem)
        invariant Reversed(l) == Reversed(rem) + back
        decreases |rem|
      {
        HeadApart(rem);
        var tmp := next[rest];
        SegFrame(next, tmp, rem[1..], NULL, rest, list);
        SegFrame(next, list, back, NULL, rest, list);
        next := next[rest := list];
        ghost var back' := [rest] + back;
        DistinctJoin([rest], back);
        assert back'[1..] == back;
        assert Reversed(rem) + back == Reversed(rem[1..]) + back';
        back, rem := back', rem[1..];
        list := rest;
        rest := tmp;
      }
      assert Reversed(rem) + back == back;
    }

    // core_list_remove: the node behind item leaves, taking item's info with it.
    method Remove(item: Node, ghost l: seq<Node>, ghost i: nat) returns (ret: Node)
      requires exists from :: IsList(from, l)
      requires i + 1 < |l| && l[i] == item
      modifies this
      ensures ret == l[i + 1] && ret in old(next)
      ensures next == old(next)[item := old(next)[ret]][ret := NULL]
      ensures infos == old(infos)[item := InfoOf(old(infos), ret)][ret := InfoOf(old(infos), item)]
      ensures forall from :: old(IsList(from, l)) ==> IsList(from, l[..i + 1] + l[i + 2..])
    {
      ghost var from0 :| IsList(from0, l);
      ghost var mid := At(from0, l, i);
      ret := next[item];
      var tmp := InfoOf(infos, item);
      infos := infos[item := InfoOf(infos, ret)];
      infos := infos[ret := tmp];
      ghost var next0 := next;
      next := next[item := next[ret]];
      next := next[ret := NULL];
      forall from | Seg(next0, from, l, NULL)
        ensures IsList(from, l[..i + 1] + l[i + 2..])
      {
        Unlinked(next0, from, l, i);
      }
    }

    // core_list_undo_remove: undoes a removal, whatever list the node came from.
    method UndoRemove(removed: Node, modified: Node)
      requires removed in next && modified in next && removed != modified
      modifies this
      ensures next == old(next)[removed := old(next)[modified]][modified := removed]
      ensures infos == old(infos)[removed := InfoOf(old(infos), modified)][modified := InfoOf(old(infos), removed)]
    {
      var tmp := InfoOf(infos, removed);
      infos := infos[removed := InfoOf(infos, modified)];
      infos := infos[modified := tmp];
      next := next[removed := next[modified]];
      next := next[modified := removed];
    }

    // The node at position i of a list, and what it leads to.
    lemma At(from: Node, l: seq<Node>, i: nat) returns (mid: Node)
      requires IsList(from, l) && i + 1 < |l|
      ensures l[i] in next && next[l[i]] == l[i + 1] && l[i + 1] in next && l[i] != l[i + 1]
    {
      assert l == l[..i] + l[i..];
      mid := SegCut(next, from, l[..i], l[i..], NULL);
      assert l[i..][1..] == l[i + 1..];
    }
  }

  // The first two runs of k nodes, merged.
  ghost function Pair(infos: map<Node, Info>, cmp: Cmp, l: seq<Node>, k: nat): seq<Node>
    requires k > 0
  {
    Merge(infos, cmp, l[..Min(k, |l|)], l[Min(k, |l|)..Min(2 * k, |l|)])
  }

  lemma Assoc2(a: seq<Node>, b: seq<Node>, c: seq<Node>)
    ensures a + (b + c) == a + b + c
  {
  }

  // The two runs that a pass merges next.
  lemma RunsApart(next: map<Node, Node>, p: Node, q: Node, rem: seq<Node>, k: nat, done: seq<Node>)
    requires rem != [] && k > 0 && Distinct(rem) && Disjoint(done, rem)
    requires Seg(next, p, rem[..Min(k, |rem|)], q) && Seg(next, q, rem[Min(k, |rem|)..], NULL)
    ensures var i, j := Min(k, |rem|), Min(2 * k, |rem|);
      && Heads(next, p, i, rem[..i], q, k, rem[i..j], rem[j..]) && rem[..i] != []
      && Disjoint(done, rem[..i]) && Disjoint(done, rem[i..j] + rem[j..])
  {
    var i, j := Min(k, |rem|), Min(2 * k, |rem|);
    assert rem[i..] == rem[i..j] + rem[j..] && rem == rem[..i] + rem[i..];
    DisjointParts(rem[..i], rem[i..]);
  }

  function Reversed(l: seq<Node>): seq<Node> {
    if l == [] then [] else Reversed(l[1..]) + [l[0]]
  }

  lemma {:induction false} ReversedTwice(l: seq<Node>)
    ensures Reversed(Reversed(l)) == l
  {
    if l != [] {
      ReversedTwice(l[1..]);
      ReversedConcat(Reversed(l[1..]), [l[0]]);
    }
  }

  lemma {:induction false} ReversedConcat(a: seq<Node>, b: seq<Node>)
    ensures Reversed(a + b) == Reversed(b) + Reversed(a)
  {
    if a == [] {
      assert a + b == b;
    } else {
      assert (a + b)[1..] == a[1..] + b;
      ReversedConcat(a[1..], b);
    }
  }

  // A list without the node behind position i.
  lemma Unlinked(next: map<Node, Node>, from: Node, l: seq<Node>, i: nat)
    requires Seg(next, from, l, NULL) && Distinct(l) && i + 1 < |l|
    ensures var x, y := l[i], l[i + 1];
      y in next && Seg(next[x := next[y]][y := NULL], from, l[..i + 1] + l[i + 2..], NULL) && Distinct(l[..i + 1] + l[i + 2..])
  {
    var x, y := l[i], l[i + 1];
    assert l == l[..i] + l[i..] && l[i..][1..] == l[i + 1..] && l[i + 1..][1..] == l[i + 2..];
    DisjointParts(l[..i], l[i..]);
    HeadApart(l[i..]);
    HeadApart(l[i + 1..]);
    var mid := SegCut(next, from, l[..i], l[i..], NULL);
    var next' := next[x := next[y]][y := NULL];
    SegFrame(next, from, l[..i], x, x, next[y]);
    SegFrame(next[x := next[y]], from, l[..i], x, y, NULL);
    SegFrame(next, next[y], l[i + 2..], NULL, x, next[y]);
    SegFrame(next[x := next[y]], next[y], l[i + 2..], NULL, y, NULL);
    assert ([x] + l[i + 2..])[1..] == l[i + 2..];
    SegJoin(next', from, l[..i], x, [x] + l[i + 2..], NULL);
    assert l[..i] + ([x] + l[i + 2..]) == l[..i + 1] + l[i + 2..];
    RemovedDistinct(l, i + 1);
  }

  lemma RemovedDistinct(l: seq<Node>, i: nat)
    requires Distinct(l) && i < |l|
    ensures Distinct(l[..i] + l[i + 1..])
  {
    var m := l[..i] + l[i + 1..];
    forall j, k | 0 <= j < k < |m|
      ensures m[j] != m[k]
    {
      assert m[j] == l[if j < i then j else j + 1] && m[k] == l[if k < i then k else k + 1];
    }
  }

  // Putting a node back where it was taken from restores links and infos.
  lemma RemoveUndone(next: map<Node, Node>, infos: map<Node, Info>, x: Node, y: Node)
    requires x in next && y in next && x in infos && y in infos && x != y && next[x] == y
    ensures
      var next1 := next[x := next[y]][y := NULL];
      var infos1 := infos[x := InfoOf(infos, y)][y := InfoOf(infos, x)];
      && next1[y := next1[x]][x := y] == next
      && infos1[y := InfoOf(infos1, x)][x := InfoOf(infos1, y)] == infos
  {
  }

  // What there is to be merged: the first run pr from p on, and the second run qr from q on,
  // behind which comes the rest.
  ghost predicate Heads(next: map<Node, Node>, p: Node, psize: int, pr: seq<Node>, q: Node, qsize: int, qr: seq<Node>, rest: seq<Node>) {
    && |pr| == psize && (exists to :: Seg(next, p, pr, to)) && Distinct(pr)
    && Seg(next, q, qr + rest, NULL) && Distinct(qr + rest) && Disjoint(pr, qr + rest)
    && |qr| <= qsize && (|qr| == qsize || rest == [])
  }

  lemma HeadsFacts(next: map<Node, Node>, p: Node, psize: int, pr: seq<Node>, q: Node, qsize: int, qr: seq<Node>, rest: seq<Node>)
    requires Heads(next, p, psize, pr, q, qsize, qr, rest)
    ensures pr != [] ==> p == pr[0] && p in next && p != NULL
    ensures qr != [] ==> q == qr[0] && q in next
    ensures qr == [] <==> qsize == 0 || q == NULL
  {
    if qr != [] {
      assert (qr + rest)[0] == qr[0];
    } else {
      assert qr + rest == rest;
    }
  }

  // Taking the first node of the first run.
  lemma PopFirst(next: map<Node, Node>, p: Node, psize: int, pr: seq<Node>, q: Node, qsize: int, qr: seq<Node>, rest: seq<Node>, done: seq<Node>)
    requires Heads(next, p, psize, pr, q, qsize, qr, rest) && pr != []
    requires Disjoint(done, pr) && Disjoint(done, qr + rest)
    ensures p == pr[0] && p in next && p != NULL && p !in done
    ensures Heads(next, next[p], psize - 1, pr[1..], q, qsize, qr, rest)
    ensures Disjoint(done + [p], pr[1..]) && Disjoint(done + [p], qr + rest)
  {
    HeadApart(pr);
    var to :| Seg(next, p, pr, to);
    assert Seg(next, next[p], pr[1..], to);
  }

  // Taking the first node of the second run.
  lemma PopSecond(next: map<Node, Node>, p: Node, psize: int, pr: seq<Node>, q: Node, qsize: int, qr: seq<Node>, rest: seq<Node>, done: seq<Node>)
    requires Heads(next, p, psize, pr, q, qsize, qr, rest) && qr != []
    requires Disjoint(done, pr) && Disjoint(done, qr + rest)
    ensures q == qr[0] && q in next && q != NULL && q !in done
    ensures Heads(next, p, psize, pr, next[q], qsize - 1, qr[1..], rest)
    ensures Disjoint(done + [q], pr) && Disjoint(done + [q], qr[1..] + rest)
  {
    HeadApart(qr + rest);
    assert (qr + rest)[1..] == qr[1..] + rest;
  }

  // Linking the node just taken behind tail does not touch what is still to come.
  lemma HeadsKept(next: map<Node, Node>, p: Node, psize: int, pr: seq<Node>, q: Node, qsize: int, qr: seq<Node>, rest: seq<Node>,
      done: seq<Node>, tail: Node, e: Node)
    requires Heads(next, p, psize, pr, q, qsize, qr, rest)
    requires Disjoint(done + [e], pr) && Disjoint(done + [e], qr + rest)
    requires done != [] ==> tail == done[|done| - 1]
    ensures Heads(if done == [] then next else next[tail := e], p, psize, pr, q, qsize, qr, rest)
  {
    if done != [] {
      assert tail in done + [e];
      var to :| Seg(next, p, pr, to);
      SegFrame(next, p, pr, to, tail, e);
      SegFrame(next, q, qr + rest, NULL, tail, e);
    }
  }

  // What one step of the merge puts out.
  lemma MergeStep(infos: map<Node, Info>, cmp: Cmp, a: seq<Node>, b: seq<Node>, done: seq<Node>)
    ensures a != [] && (b == [] || Le(infos, cmp, a[0], b[0])) ==>
      done + Merge(infos, cmp, a, b) == done + [a[0]] + Merge(infos, cmp, a[1..], b)
    ensures b != [] && (a == [] || !Le(infos, cmp, a[0], b[0])) ==>
      done + Merge(infos, cmp, a, b) == done + [b[0]] + Merge(infos, cmp, a, b[1..])
  {
    if a != [] && (b == [] || Le(infos, cmp, a[0], b[0])) {
      var m := Merge(infos, cmp, a[1..], b);
      assert Merge(infos, cmp, a, b) == [a[0]] + m;
      Assoc(done, a[0], m);
    } else if b != [] {
      var m := Merge(infos, cmp, a, b[1..]);
      assert Merge(infos, cmp, a, b) == [b[0]] + m;
      Assoc(done, b[0], m);
    }
  }

  lemma Assoc(done: seq<Node>, x: Node, m: seq<Node>)
    ensures done + ([x] + m) == done + [x] + m
  {
  }

  lemma {:induction false} SegCut(next: map<Node, Node>, from: Node, l: seq<Node>, m: seq<Node>, to: Node) returns (mid: Node)
    requires Seg(next, from, l + m, to)
    ensures Seg(next, from, l, mid) && Seg(next, mid, m, to)
    decreases |l|
  {
    if l == [] {
      assert l + m == m;
      mid := from;
    } else {
      assert (l + m)[1..] == l[1..] + m;
      mid := SegCut(next, next[from], l[1..], m, to);
    }
  }
}
