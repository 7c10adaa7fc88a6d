/** Checksums that are computed byte by byte, whatever one step does: what follows for whole
  messages from a step that loses nothing.
 */
module Folds {

  function Fold<S, B>(step: (S, B) -> S, s: S, data: seq<B>): S
    decreases |data|
  {
    if data == [] then s else step(Fold(step, s, data[..|data| - 1]), data[|data| - 1])
  }

  // Different states stay different under the same byte.
  ghost predicate KeepsStates<S(!new), B(!new)>(step: (S, B) -> S) {
    forall a, b, x :: step(a, x) == step(b, x) ==> a == b
  }

  // Different bytes lead to different states.
  ghost predicate KeepsBytes<S(!new), B(!new)>(step: (S, B) -> S) {
    forall a, x, y :: step(a, x) == step(a, y) ==> x == y
  }

  // Different pairs of bytes lead to different states.
  ghost predicate KeepsPairs<S(!new), B(!new)>(step: (S, B) -> S) {
    forall a, x, y, x', y' :: step(step(a, x), y) == step(step(a, x'), y') ==> x == x' && y == y'
  }

  lemma {:induction false} FoldConcat<S, B>(step: (S, B) -> S, s: S, a: seq<B>, b: seq<B>)
    ensures Fold(step, s, a + b) == Fold(step, Fold(step, s, a), b)
    decreases |b|
  {
    if b == [] {
      assert a + b == a;
    } else {
      var n := |b| - 1;
      assert (a + b)[..|a| + n] == a + b[..n];
      FoldConcat(step, s, a, b[..n]);
    }
  }

  lemma FoldOne<S, B>(step: (S, B) -> S, s: S, x: B)
    ensures Fold(step, s, [x]) == step(s, x)
  {
    assert [x][..0] == [];
  }

  // Whatever the same bytes do to both, different states stay different.
  lemma {:induction false} FoldKeepsStates<S(!new), B(!new)>(step: (S, B) -> S, a: S, b: S, data: seq<B>)
    requires KeepsStates(step) && Fold(step, a, data) == Fold(step, b, data)
    ensures a == b
    decreases |data|
  {
    if data != [] {
      FoldKeepsStates(step, a, b, data[..|data| - 1]);
    }
  }

  lemma FoldAt<S, B>(step: (S, B) -> S, s: S, data: seq<B>, i: nat)
    requires i < |data|
    ensures Fold(step, s, data) == Fold(step, step(Fold(step, s, data[..i]), data[i]), data[i + 1..])
  {
    assert data == data[..i] + [data[i]] + data[i + 1..];
    FoldConcat(step, s, data[..i] + [data[i]], data[i + 1..]);
    FoldConcat(step, s, data[..i], [data[i]]);
    FoldOne(step, Fold(step, s, data[..i]), data[i]);
  }

  // Changing exactly one byte changes the checksum.
  lemma OneChange<S(!new), B(!new)>(step: (S, B) -> S, s: S, data: seq<B>, i: nat, x: B)
    requires KeepsStates(step) && KeepsBytes(step) && i < |data| && x != data[i]
    ensures Fold(step, s, data[i := x]) != Fold(step, s, data)
  {
    FoldAt(step, s, data, i);
    FoldAt(step, s, data[i := x], i);
    assert data[i := x][..i] == data[..i] && data[i := x][i + 1..] == data[i + 1..];
    var c := Fold(step, s, data[..i]);
    if Fold(step, s, data[i := x]) == Fold(step, s, data) {
      FoldKeepsStates(step, step(c, x), step(c, data[i]), data[i + 1..]);
    }
  }

  // So do changes confined to two neighbouring bytes.
  lemma TwoChanges<S(!new), B(!new)>(step: (S, B) -> S, s: S, data: seq<B>, i: nat, x: B, y: B)
    requires KeepsStates(step) && KeepsPairs(step) && i + 1 < |data| && (x != data[i] || y != data[i + 1])
    ensures Fold(step, s, data[i := x][i + 1 := y]) != Fold(step, s, data)
  {
    var r := data[i := x][i + 1 := y];
    var c := Fold(step, s, data[..i]);
    FoldPair(step, s, data, i);
    FoldPair(step, s, r, i);
    assert r[..i] == data[..i] && r[i + 2..] == data[i + 2..];
    if Fold(step, s, r) == Fold(step, s, data) {
      FoldKeepsStates(step, step(step(c, x), y), step(step(c, data[i]), data[i + 1]), data[i + 2..]);
    }
  }

  lemma FoldPair<S, B>(step: (S, B) -> S, s: S, data: seq<B>, i: nat)
    requires i + 1 < |data|
    ensures Fold(step, s, data) == Fold(step, step(step(Fold(step, s, data[..i]), data[i]), data[i + 1]), data[i + 2..])
  {
    FoldAt(step, s, data, i + 1);
    FoldAt(step, s, data[..i + 1], i);
    assert data[..i + 1][..i] == data[..i] && data[..i + 1][i + 1..] == [];
  }

  /* ------------------------------- repeating a step ------------------------------- */

  // n steps from x on.
  function Iterate<T>(f: T -> T, x: T, n: nat): T
    decreases n
  {
    if n == 0 then x else Iterate(f, f(x), n - 1)
  }

  lemma {:induction false} IterateAdd<T>(f: T -> T, x: T, m: nat, n: nat)
    ensures Iterate(f, x, m + n) == Iterate(f, Iterate(f, x, m), n)
    decreases m
  {
    if m > 0 {
      IterateAdd(f, f(x), m - 1, n);
    }
  }

  // Steps that lose nothing lose nothing together.
  lemma {:induction false} IterateInjective<T(!new)>(f: T -> T, a: T, b: T, n: nat)
    requires (forall x, y :: f(x) == f(y) ==> x == y) && Iterate(f, a, n) == Iterate(f, b, n)
    ensures a == b
    decreases n
  {
    if n > 0 {
      IterateInjective(f, f(a), f(b), n - 1);
    }
  }
}
