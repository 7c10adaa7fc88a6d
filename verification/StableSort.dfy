/** What sorting a list means: in order, and with every class of equally ranked nodes in the order
  in which it came. That determines the result. And the bottom-up merge sort as a value, which
  meets it.
 */
module StableSort {

  type Node = int

  // list_data
  datatype Info = Info(data16: int, idx: int)

  // A comparison of two infos: x may stand before y if cmp(x, y) <= 0.
  type Cmp = (Info, Info) -> int

  ghost predicate Preorder(cmp: Cmp) {
    && (forall a, b :: cmp(a, b) <= 0 || cmp(b, a) <= 0)
    && forall a, b, c :: cmp(a, b) <= 0 && cmp(b, c) <= 0 ==> cmp(a, c) <= 0
  }

  function InfoOf(infos: map<Node, Info>, x: Node): Info {
    if x in infos then infos[x] else Info(0, 0)
  }

  predicate Le(infos: map<Node, Info>, cmp: Cmp, x: Node, y: Node) {
    cmp(InfoOf(infos, x), InfoOf(infos, y)) <= 0
  }

  ghost predicate Sorted(infos: map<Node, Info>, cmp: Cmp, l: seq<Node>) {
    forall i, j :: 0 <= i < j < |l| ==> Le(infos, cmp, l[i], l[j])
  }

  // The nodes of l that rank equal with x, in their order.
  function Class(infos: map<Node, Info>, cmp: Cmp, l: seq<Node>, x: Node): (m: seq<Node>)
    ensures forall y: Node :: y in m <==> y in l && Le(infos, cmp, x, y) && Le(infos, cmp, y, x)
  {
    if l == [] then []
    else if Le(infos, cmp, x, l[0]) && Le(infos, cmp, l[0], x) then [l[0]] + Class(infos, cmp, l[1..], x)
    else Class(infos, cmp, l[1..], x)
  }

  // Both lists rank every class in the same order; in particular they have the same nodes.
  ghost predicate Stable(infos: map<Node, Info>, cmp: Cmp, l: seq<Node>, m: seq<Node>) {
    forall x: Node :: Class(infos, cmp, l, x) == Class(infos, cmp, m, x)
  }

  lemma {:induction false} ClassConcat(infos: map<Node, Info>, cmp: Cmp, a: seq<Node>, b: seq<Node>, x: Node)
    ensures Class(infos, cmp, a + b, x) == Class(infos, cmp, a, x) + Class(infos, cmp, b, x)
  {
    if a == [] {
      assert a + b == b;
    } else {
      assert (a + b)[1..] == a[1..] + b;
      ClassConcat(infos, cmp, a[1..], b, x);
    }
  }

  /* ------------------------------- the result is determined ------------------------------- */

  // There is only one stable way to sort a list.
  lemma {:induction false} SortIsDetermined(infos: map<Node, Info>, cmp: Cmp, l: seq<Node>, m: seq<Node>)
    requires Preorder(cmp) && Sorted(infos, cmp, l) && Sorted(infos, cmp, m) && Stable(infos, cmp, l, m)
    ensures l == m
  {
    if l == [] || m == [] {
      var x := if l != [] then l[0] else if m != [] then m[0] else 0;
      assert Class(infos, cmp, l, x) == Class(infos, cmp, m, x);
      assert l != [] ==> x in Class(infos, cmp, l, x);
      assert m != [] ==> x in Class(infos, cmp, m, x);
    } else {
      SameHead(infos, cmp, l, m);
      forall x: Node
        ensures Class(infos, cmp, l[1..], x) == Class(infos, cmp, m[1..], x)
      {
        assert Class(infos, cmp, l, x) == Class(infos, cmp, m, x);
        ClassTail(infos, cmp, l, m, x);
      }
      SortIsDetermined(infos, cmp, l[1..], m[1..]);
      assert l == [l[0]] + l[1..] && m == [l[0]] + m[1..];
    }
  }

  lemma ClassTail(infos: map<Node, Info>, cmp: Cmp, l: seq<Node>, m: seq<Node>, x: Node)
    requires l != [] && m != [] && l[0] == m[0] && Class(infos, cmp, l, x) == Class(infos, cmp, m, x)
    ensures Class(infos, cmp, l[1..], x) == Class(infos, cmp, m[1..], x)
  {
    if Le(infos, cmp, x, l[0]) && Le(infos, cmp, l[0], x) {
      assert Class(infos, cmp, l[1..], x) == Class(infos, cmp, l, x)[1..];
      assert Class(infos, cmp, m[1..], x) == Class(infos, cmp, m, x)[1..];
    }
  }

  // A sorted list starts with the first of its lowest class.
  lemma SameHead(infos: map<Node, Info>, cmp: Cmp, l: seq<Node>, m: seq<Node>)
    requires Preorder(cmp) && Sorted(infos, cmp, l) && Sorted(infos, cmp, m) && Stable(infos, cmp, l, m)
    requires l != [] && m != []
    ensures l[0] == m[0]
  {
    var x, y := l[0], m[0];
    assert Class(infos, cmp, l, x) == Class(infos, cmp, m, x) && Class(infos, cmp, l, y) == Class(infos, cmp, m, y);
    assert x in Class(infos, cmp, l, x) && y in Class(infos, cmp, m, y);
    assert Le(infos, cmp, x, y) && Le(infos, cmp, y, x);
    assert Class(infos, cmp, l, x)[0] == x && Class(infos, cmp, m, x)[0] == y;
  }

  /* ------------------------------- merging ------------------------------- */

  // The first list wins when heads rank equal.
  function Merge(infos: map<Node, Info>, cmp: Cmp, a: seq<Node>, b: seq<Node>): (m: seq<Node>)
    ensures |m| == |a| + |b|
    ensures forall y: Node :: y in m <==> y in a || y in b
  {
    if a == [] then b
    else if b == [] then a
    else if Le(infos, cmp, a[0], b[0]) then [a[0]] + Merge(infos, cmp, a[1..], b)
    else [b[0]] + Merge(infos, cmp, a, b[1..])
  }

  ghost predicate AllAbove(infos: map<Node, Info>, cmp: Cmp, x: Node, l: seq<Node>) {
    forall y: Node :: y in l ==> Le(infos, cmp, x, y)
  }

  lemma HeadBelow(infos: map<Node, Info>, cmp: Cmp, l: seq<Node>)
    requires Preorder(cmp) && Sorted(infos, cmp, l) && l != []
    ensures AllAbove(infos, cmp, l[0], l) && Sorted(infos, cmp, l[1..])
  {
  }

  lemma AboveTrans(infos: map<Node, Info>, cmp: Cmp, x: Node, y: Node, l: seq<Node>)
    requires Preorder(cmp) && Le(infos, cmp, x, y) && AllAbove(infos, cmp, y, l)
    ensures AllAbove(infos, cmp, x, l)
  {
  }

  lemma SortedCons(infos: map<Node, Info>, cmp: Cmp, x: Node, l: seq<Node>)
    requires Sorted(infos, cmp, l) && AllAbove(infos, cmp, x, l)
    ensures Sorted(infos, cmp, [x] + l)
  {
    assert forall i :: 0 <= i < |l| ==> l[i] in l;
  }

  lemma {:induction false} MergeSorted(infos: map<Node, Info>, cmp: Cmp, a: seq<Node>, b: seq<Node>)
    requires Preorder(cmp) && Sorted(infos, cmp, a) && Sorted(infos, cmp, b)
    ensures Sorted(infos, cmp, Merge(infos, cmp, a, b))
  {
    if a != [] && b != [] {
      HeadBelow(infos, cmp, a);
      HeadBelow(infos, cmp, b);
      if Le(infos, cmp, a[0], b[0]) {
        MergeSorted(infos, cmp, a[1..], b);
        AboveTrans(infos, cmp, a[0], b[0], b);
        SortedCons(infos, cmp, a[0], Merge(infos, cmp, a[1..], b));
      } else {
        MergeSorted(infos, cmp, a, b[1..]);
        assert Le(infos, cmp, b[0], a[0]);
        AboveTrans(infos, cmp, b[0], a[0], a);
        SortedCons(infos, cmp, b[0], Merge(infos, cmp, a, b[1..]));
      }
    }
  }

  // Merging keeps every class in order, those of the first list before those of the second.
  lemma {:induction false} MergeStable(infos: map<Node, Info>, cmp: Cmp, a: seq<Node>, b: seq<Node>, x: Node)
    requires Preorder(cmp) && Sorted(infos, cmp, a) && Sorted(infos, cmp, b)
    ensures Class(infos, cmp, Merge(infos, cmp, a, b), x) == Class(infos, cmp, a, x) + Class(infos, cmp, b, x)
  {
    if a != [] && b != [] {
      HeadBelow(infos, cmp, a);
      HeadBelow(infos, cmp, b);
      assert a == [a[0]] + a[1..] && b == [b[0]] + b[1..];
      if Le(infos, cmp, a[0], b[0]) {
        MergeStable(infos, cmp, a[1..], b, x);
        ClassCons(infos, cmp, a[0], Merge(infos, cmp, a[1..], b), x);
        ClassCons(infos, cmp, a[0], a[1..], x);
      } else {
        MergeStable(infos, cmp, a, b[1..], x);
        ClassCons(infos, cmp, b[0], Merge(infos, cmp, a, b[1..]), x);
        ClassCons(infos, cmp, b[0], b[1..], x);
        if Le(infos, cmp, x, b[0]) && Le(infos, cmp, b[0], x) {
          NoneEqual(infos, cmp, a, b[0], x);
        }
      }
    }
  }

  lemma ClassCons(infos: map<Node, Info>, cmp: Cmp, y: Node, l: seq<Node>, x: Node)
    ensures Class(infos, cmp, [y] + l, x) ==
      if Le(infos, cmp, x, y) && Le(infos, cmp, y, x) then [y] + Class(infos, cmp, l, x) else Class(infos, cmp, l, x)
  {
    assert ([y] + l)[1..] == l;
  }

  lemma NotBelow(infos: map<Node, Info>, cmp: Cmp, w: Node, z: Node, x: Node, y: Node)
    requires Preorder(cmp) && Le(infos, cmp, w, z) && Le(infos, cmp, x, y) && !Le(infos, cmp, w, y)
    ensures !Le(infos, cmp, z, x)
  {
  }

  // If everything in a ranks above y, nothing in a ranks equal with what ranks equal with y.
  lemma NoneEqual(infos: map<Node, Info>, cmp: Cmp, a: seq<Node>, y: Node, x: Node)
    requires Preorder(cmp) && a != [] && AllAbove(infos, cmp, a[0], a) && !Le(infos, cmp, a[0], y)
    requires Le(infos, cmp, x, y) && Le(infos, cmp, y, x)
    ensures Class(infos, cmp, a, x) == []
  {
    var c := Class(infos, cmp, a, x);
    if c != [] {
      var z := c[0];
      assert z in c;
      NotBelow(infos, cmp, a[0], z, x, y);
    }
  }

  /* ------------------------------- a pass of the bottom-up sort ------------------------------- */

  function Min(a: nat, b: nat): nat {
    if a < b then a else b
  }

  // Neighbouring runs of k nodes are merged in pairs; the last run may be shorter, or alone.
  function Pass(infos: map<Node, Info>, cmp: Cmp, l: seq<Node>, k: nat): (m: seq<Node>)
    requires k > 0
    ensures |m| == |l| && forall y: Node :: y in m <==> y in l
    decreases |l|
  {
    if l == [] then []
    else
      var i := Min(k, |l|);
      var j := Min(2 * k, |l|);
      assert l == l[..i] + l[i..j] + l[j..];
      Merge(infos, cmp, l[..i], l[i..j]) + Pass(infos, cmp, l[j..], k)
  }

  // Every run of k nodes is sorted.
  ghost predicate RunsSorted(infos: map<Node, Info>, cmp: Cmp, l: seq<Node>, k: nat)
    requires k > 0
    decreases |l|
  {
    l == [] || (Sorted(infos, cmp, l[..Min(k, |l|)]) && RunsSorted(infos, cmp, l[Min(k, |l|)..], k))
  }

  lemma {:induction false} OneSorted(infos: map<Node, Info>, cmp: Cmp, l: seq<Node>)
    ensures RunsSorted(infos, cmp, l, 1)
    decreases |l|
  {
    if l != [] {
      OneSorted(infos, cmp, l[1..]);
    }
  }

  lemma {:induction false} PassSorts(infos: map<Node, Info>, cmp: Cmp, l: seq<Node>, k: nat)
    requires Preorder(cmp) && k > 0 && RunsSorted(infos, cmp, l, k)
    ensures RunsSorted(infos, cmp, Pass(infos, cmp, l, k), 2 * k)
    decreases |l|
  {
    if l != [] {
      var i, j := Min(k, |l|), Min(2 * k, |l|);
      FirstTwoRuns(infos, cmp, l, k);
      PassSorts(infos, cmp, l[j..], k);
      MergeSorted(infos, cmp, l[..i], l[i..j]);
      var m, r := Merge(infos, cmp, l[..i], l[i..j]), Pass(infos, cmp, l[j..], k);
      assert |m| == j;
      assert (m + r)[..j] == m && (m + r)[j..] == r;
    }
  }

  lemma FirstTwoRuns(infos: map<Node, Info>, cmp: Cmp, l: seq<Node>, k: nat)
    requires k > 0 && RunsSorted(infos, cmp, l, k) && l != []
    ensures var i, j := Min(k, |l|), Min(2 * k, |l|);
      && Sorted(infos, cmp, l[..i]) && Sorted(infos, cmp, l[i..j]) && RunsSorted(infos, cmp, l[j..], k)
  {
    var i, j := Min(k, |l|), Min(2 * k, |l|);
    if i < |l| {
      assert l[i..][..Min(k, |l| - i)] == l[i..j];
      assert l[i..][Min(k, |l| - i)..] == l[j..];
    }
  }

  lemma {:induction false} PassStable(infos: map<Node, Info>, cmp: Cmp, l: seq<Node>, k: nat, x: Node)
    requires Preorder(cmp) && k > 0 && RunsSorted(infos, cmp, l, k)
    ensures Class(infos, cmp, Pass(infos, cmp, l, k), x) == Class(infos, cmp, l, x)
    decreases |l|
  {
    if l != [] {
      var i, j := Min(k, |l|), Min(2 * k, |l|);
      FirstTwoRuns(infos, cmp, l, k);
      PassStable(infos, cmp, l[j..], k, x);
      MergeStable(infos, cmp, l[..i], l[i..j], x);
      PassClass(infos, cmp, l, k, x);
      ThreeParts(l, i, j);
      ClassParts(infos, cmp, l, l[..i], l[i..j], l[j..], x);
    }
  }

  lemma ThreeParts(l: seq<Node>, i: nat, j: nat)
    requires i <= j <= |l|
    ensures l == l[..i] + l[i..j] + l[j..]
  {
  }

  lemma PassClass(infos: map<Node, Info>, cmp: Cmp, l: seq<Node>, k: nat, x: Node)
    requires k > 0 && l != []
    ensures var i, j := Min(k, |l|), Min(2 * k, |l|);
      Class(infos, cmp, Pass(infos, cmp, l, k), x) ==
        Class(infos, cmp, Merge(infos, cmp, l[..i], l[i..j]), x) + Class(infos, cmp, Pass(infos, cmp, l[j..], k), x)
  {
    var i, j := Min(k, |l|), Min(2 * k, |l|);
    ClassConcat(infos, cmp, Merge(infos, cmp, l[..i], l[i..j]), Pass(infos, cmp, l[j..], k), x);
  }

  lemma ClassParts(infos: map<Node, Info>, cmp: Cmp, l: seq<Node>, a: seq<Node>, b: seq<Node>, c: seq<Node>, x: Node)
    requires l == a + b + c
    ensures Class(infos, cmp, l, x) == Class(infos, cmp, a, x) + Class(infos, cmp, b, x) + Class(infos, cmp, c, x)
  {
    ClassConcat(infos, cmp, a + b, c, x);
    ClassConcat(infos, cmp, a, b, x);
  }

  // Once a run is as long as the list, the list is sorted.
  lemma OneRun(infos: map<Node, Info>, cmp: Cmp, l: seq<Node>, k: nat)
    requires k > 0 && |l| <= k && RunsSorted(infos, cmp, l, k)
    ensures Sorted(infos, cmp, l)
  {
    assert l[..|l|] == l;
  }
}
