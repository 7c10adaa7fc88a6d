/** Sequences without repetitions, putting elements in and taking them out, and optional values.
 */
module Seqs {

  datatype Option<+T> = None | Some(value: T)

  ghost predicate Distinct<T>(l: seq<T>) {
    forall i, j :: 0 <= i < j < |l| ==> l[i] != l[j]
  }

  function InsertAt<T>(l: seq<T>, i: nat, x: T): (m: seq<T>)
    requires i <= |l|
    ensures |m| == |l| + 1
    ensures forall k {:trigger m[k]} :: 0 <= k < |m| ==> m[k] == if k < i then l[k] else if k == i then x else l[k - 1]
  {
    seq(|l| + 1, k requires 0 <= k < |l| + 1 => if k < i then l[k] else if k == i then x else l[k - 1])
  }

  function RemoveAt<T>(l: seq<T>, i: nat): (m: seq<T>)
    requires i < |l|
    ensures |m| == |l| - 1
    ensures forall k {:trigger m[k]} :: 0 <= k < |m| ==> m[k] == if k < i then l[k] else l[k + 1]
  {
    seq(|l| - 1, k requires 0 <= k < |l| - 1 => if k < i then l[k] else l[k + 1])
  }

  lemma InsertMembers<T(!new)>(l: seq<T>, i: nat, x: T)
    requires i <= |l|
    ensures forall y :: y in InsertAt(l, i, x) <==> y in l || y == x
    ensures Distinct(l) && x !in l ==> Distinct(InsertAt(l, i, x))
  {
    var m := InsertAt(l, i, x);
    forall y | y in l
      ensures y in m
    {
      var k :| 0 <= k < |l| && l[k] == y;
      assert m[if k < i then k else k + 1] == y;
    }
    assert m[i] == x;
  }

  lemma RemoveMembers<T(!new)>(l: seq<T>, i: nat)
    requires i < |l| && Distinct(l)
    ensures forall y :: y in RemoveAt(l, i) <==> y in l && y != l[i]
    ensures Distinct(RemoveAt(l, i))
  {
    var m := RemoveAt(l, i);
    forall y | y in l && y != l[i]
      ensures y in m
    {
      var k :| 0 <= k < |l| && l[k] == y;
      assert m[if k < i then k else k - 1] == y;
    }
  }

  // The elements other than x, in their order.
  function Without<T(==, !new)>(l: seq<T>, x: T): (m: seq<T>)
    ensures forall y :: y in m <==> y in l && y != x
    ensures x !in l ==> m == l
  {
    if l == [] then [] else if l[0] == x then Without(l[1..], x) else [l[0]] + Without(l[1..], x)
  }

  // Where x stands first.
  function IndexOf<T(==)>(l: seq<T>, x: T): (i: nat)
    requires x in l
    ensures i < |l| && l[i] == x
  {
    if l[0] == x then 0 else IndexOf(l[1..], x) + 1
  }

  // m is what remains of l when some elements are left out: the others keep their order.
  ghost predicate Sublist<T>(m: seq<T>, l: seq<T>)
    decreases |l|
  {
    m == [] || (l != [] && (Sublist(m, l[1..]) || (m[0] == l[0] && Sublist(m[1..], l[1..]))))
  }

  lemma HeadApart<T(!new)>(l: seq<T>)
    requires Distinct(l)
    ensures l != [] ==> l[0] !in l[1..] && Distinct(l[1..]) && forall x :: x in l <==> x == l[0] || x in l[1..]
  {
    if l != [] {
      assert l == [l[0]] + l[1..];
      assert forall k :: 0 <= k < |l[1..]| ==> l[1..][k] == l[k + 1];
    }
  }

  lemma {:induction false} WithoutDistinct<T(!new)>(l: seq<T>, x: T)
    requires Distinct(l)
    ensures Distinct(Without(l, x))
    ensures |Without(l, x)| == |l| - if x in l then 1 else 0
  {
    if l != [] {
      HeadApart(l);
      WithoutDistinct(l[1..], x);
      var m := Without(l[1..], x);
      assert forall j :: 0 <= j < |m| ==> m[j] in m;
    }
  }

  // The head of l fits in front of anything drawn from the rest of l.
  lemma ConsDistinct<T(!new)>(l: seq<T>, m: seq<T>)
    requires l != [] && Distinct(l) && Distinct(m) && forall x :: x in m ==> x in l[1..]
    ensures Distinct([l[0]] + m)
  {
    HeadApart(l);
    assert forall j :: 0 <= j < |m| ==> m[j] in m;
  }
}
