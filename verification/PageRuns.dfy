/** The page allocator's free list as a value: runs of free pages by address. What the list
  looks like depends only on which pages are free, from which the rest follows.
 */
module PageRuns {
  import opened Seqs

  // A run of free pages, counted in pages.
  datatype Run = Run(start: int, len: int)

  function Stop(r: Run): int {
    r.start + r.len
  }

  // Runs in ascending order, behind page lo, none empty and none touching the next.
  ghost predicate Sorted(l: seq<Run>, lo: int) {
    l == [] || (lo < l[0].start && l[0].len > 0 && Sorted(l[1..], Stop(l[0])))
  }

  // Page p is in one of the runs.
  ghost predicate IsFree(l: seq<Run>, p: int) {
    l != [] && (l[0].start <= p < Stop(l[0]) || IsFree(l[1..], p))
  }

  // n pages from a on are all free, or all taken.
  ghost predicate AllFree(l: seq<Run>, a: int, n: int) {
    forall p :: a <= p < a + n ==> IsFree(l, p)
  }

  ghost predicate AllTaken(l: seq<Run>, a: int, n: int) {
    forall p :: a <= p < a + n ==> !IsFree(l, p)
  }

  /* ------------------------------- allocating and freeing ------------------------------- */

  // Where n pages are taken from: the first run that has as many.
  function AllocAt(l: seq<Run>, n: int): Option<int> {
    if l == [] then None
    else if l[0].len >= n then Some(l[0].start)
    else AllocAt(l[1..], n)
  }

  function AllocList(l: seq<Run>, n: int): seq<Run> {
    if l == [] then []
    else if l[0].len > n then [Run(l[0].start + n, l[0].len - n)] + l[1..]
    else if l[0].len == n then l[1..]
    else [l[0]] + AllocList(l[1..], n)
  }

  // n pages from a on come back and are joined with the runs that they touch.
  function FreeList(l: seq<Run>, a: int, n: int): seq<Run> {
    if l == [] then [Run(a, n)]
    else
      var b := l[0];
      if Stop(b) == a then
        if |l| > 1 && a + n == l[1].start then [Run(b.start, b.len + n + l[1].len)] + l[2..]
        else [Run(b.start, b.len + n)] + l[1..]
      else if b.start == a + n then [Run(a, n + b.len)] + l[1..]
      else if b.start > a + n then [Run(a, n)] + l
      else [b] + FreeList(l[1..], a, n)
  }

  /* ------------------------------- the list is a function of the free pages ------------------------------- */

  // Nothing at or below lo, and nothing right behind it, is free.
  lemma {:induction false} Lower(l: seq<Run>, lo: int, p: int)
    requires Sorted(l, lo) && IsFree(l, p)
    ensures p > lo
    ensures p >= l[0].start
  {
    if !(l[0].start <= p < Stop(l[0])) {
      Lower(l[1..], Stop(l[0]), p);
    }
  }

  // Two lists of the same free pages are the same list.
  lemma {:induction false} Determined(l: seq<Run>, m: seq<Run>, lo: int)
    requires Sorted(l, lo) && Sorted(m, lo)
    requires forall p :: IsFree(l, p) <==> IsFree(m, p)
    ensures l == m
  {
    if l == [] || m == [] {
      NoneFree(l, m, lo);
      NoneFree(m, l, lo);
    } else {
      SameFirst(l, m, lo);
      forall p
        ensures IsFree(l[1..], p) <==> IsFree(m[1..], p)
      {
        assert IsFree(l, p) <==> IsFree(m, p);
        if IsFree(l[1..], p) {
          Lower(l[1..], Stop(l[0]), p);
        }
        if IsFree(m[1..], p) {
          Lower(m[1..], Stop(m[0]), p);
        }
      }
      Determined(l[1..], m[1..], Stop(l[0]));
      assert l == [l[0]] + l[1..] && m == [m[0]] + m[1..];
    }
  }

  // If nothing in l is free beyond what is in m, and m is empty, so is l.
  lemma NoneFree(l: seq<Run>, m: seq<Run>, lo: int)
    requires Sorted(l, lo) && forall p :: IsFree(l, p) ==> IsFree(m, p)
    ensures m == [] ==> l == []
  {
    assert l != [] ==> IsFree(l, l[0].start);
  }

  lemma SameFirst(l: seq<Run>, m: seq<Run>, lo: int)
    requires Sorted(l, lo) && Sorted(m, lo) && l != [] && m != []
    requires forall p :: IsFree(l, p) <==> IsFree(m, p)
    ensures l[0] == m[0]
  {
    assert IsFree(l, l[0].start) && IsFree(m, m[0].start);
    Lower(l, lo, m[0].start);
    Lower(m, lo, l[0].start);
    NotBehind(l, lo);
    NotBehind(m, lo);
    assert !IsFree(m, Stop(l[0])) && !IsFree(l, Stop(m[0]));
  }

  // The page right behind the first run is taken.
  lemma NotBehind(l: seq<Run>, lo: int)
    requires Sorted(l, lo) && l != []
    ensures !IsFree(l, Stop(l[0]))
  {
    if IsFree(l[1..], Stop(l[0])) {
      Lower(l[1..], Stop(l[0]), Stop(l[0]));
    }
  }

  /* ------------------------------- what allocating does ------------------------------- */

  lemma {:induction false} AllocSorted(l: seq<Run>, lo: int, n: int)
    requires Sorted(l, lo) && n > 0
    ensures Sorted(AllocList(l, n), lo)
  {
    if l != [] && l[0].len < n {
      AllocSorted(l[1..], Stop(l[0]), n);
    } else if l != [] && l[0].len == n {
      Weaken(l[1..], Stop(l[0]), lo);
    }
  }

  lemma Weaken(l: seq<Run>, hi: int, lo: int)
    requires Sorted(l, hi) && lo <= hi
    ensures Sorted(l, lo)
  {
  }

  // Allocating takes exactly the n pages it answers with, which were free.
  lemma {:induction false} AllocPages(l: seq<Run>, lo: int, n: int, p: int)
    requires Sorted(l, lo) && n > 0
    ensures match AllocAt(l, n)
      case None => AllocList(l, n) == l
      case Some(a) =>
        && (IsFree(AllocList(l, n), p) <==> IsFree(l, p) && !(a <= p < a + n))
        && (a <= p < a + n ==> IsFree(l, p))
        && lo < a
  {
    if l != [] {
      if l[0].len < n {
        AllocPages(l[1..], Stop(l[0]), n, p);
      } else if IsFree(l[1..], p) {
        Lower(l[1..], Stop(l[0]), p);
      }
    }
  }

  // It finds the lowest n free pages in a row, and fails only if there are none.
  lemma {:induction false} AllocLowest(l: seq<Run>, lo: int, n: int, a: int)
    requires Sorted(l, lo) && n > 0 && AllFree(l, a, n)
    ensures AllocAt(l, n).Some? && AllocAt(l, n).value <= a
  {
    assert IsFree(l, a);
    Lower(l, lo, a);
    if l[0].len < n {
      if a < Stop(l[0]) {
        NotBehind(l, lo);
        assert false;
      }
      forall p | a <= p < a + n
        ensures IsFree(l[1..], p)
      {
        assert IsFree(l, p);
      }
      AllocLowest(l[1..], Stop(l[0]), n, a);
    }
  }

  /* ------------------------------- what freeing does ------------------------------- */

  lemma {:induction false} FreePages(l: seq<Run>, lo: int, a: int, n: int, p: int)
    requires Sorted(l, lo) && n > 0
    ensures IsFree(FreeList(l, a, n), p) <==> IsFree(l, p) || a <= p < a + n
  {
    if l != [] {
      var b := l[0];
      if Stop(b) == a && |l| > 1 && a + n == l[1].start {
        assert l[1..][0] == l[1] && l[1..][1..] == l[2..];
        assert ([Run(b.start, b.len + n + l[1].len)] + l[2..])[1..] == l[2..];
      } else if Stop(b) != a && b.start != a + n && b.start <= a + n {
        FreePages(l[1..], Stop(b), a, n, p);
      }
    }
  }

  lemma {:induction false} FreeSorted(l: seq<Run>, lo: int, a: int, n: int)
    requires Sorted(l, lo) && n > 0 && lo < a && AllTaken(l, a, n)
    ensures Sorted(FreeList(l, a, n), lo)
  {
    if l != [] {
      var b := l[0];
      assert IsFree(l, b.start) && IsFree(l, Stop(b) - 1);
      if Stop(b) == a {
        FreeBehind(l, lo, a, n);
      } else if b.start < a + n {
        assert Stop(b) < a by {
          if a < Stop(b) {
            assert IsFree(l, if a < b.start then b.start else a);
          }
        }
        assert AllTaken(l[1..], a, n) by {
          forall p | a <= p < a + n
            ensures !IsFree(l[1..], p)
          {
            assert !IsFree(l, p);
          }
        }
        FreeSorted(l[1..], Stop(b), a, n);
      }
    }
  }

  // The pages come right behind the first run.
  lemma FreeBehind(l: seq<Run>, lo: int, a: int, n: int)
    requires Sorted(l, lo) && n > 0 && AllTaken(l, a, n) && l != [] && Stop(l[0]) == a
    ensures Sorted(FreeList(l, a, n), lo)
  {
    if |l| > 1 {
      assert l[1..][0] == l[1] && l[1..][1..] == l[2..];
      assert IsFree(l[1..], l[1].start);
      assert IsFree(l, l[1].start);
      assert a + n <= l[1].start;
    }
  }

  /* ------------------------------- the consequences ------------------------------- */

  // Freeing a run right after it was allocated restores the list.
  lemma FreeUndoesAlloc(l: seq<Run>, lo: int, n: int)
    requires Sorted(l, lo) && n > 0 && AllocAt(l, n).Some?
    ensures FreeList(AllocList(l, n), AllocAt(l, n).value, n) == l
  {
    var a, m := AllocAt(l, n).value, AllocList(l, n);
    AllocSorted(l, lo, n);
    forall p
      ensures IsFree(m, p) <==> IsFree(l, p) && !(a <= p < a + n)
    {
      AllocPages(l, lo, n, p);
    }
    AllocPages(l, lo, n, a);
    FreeSorted(m, lo, a, n);
    forall p
      ensures IsFree(FreeList(m, a, n), p) <==> IsFree(l, p)
    {
      FreePages(m, lo, a, n, p);
    }
    Determined(FreeList(m, a, n), l, lo);
  }

  // The order in which two runs are freed does not matter.
  lemma FreesCommute(l: seq<Run>, lo: int, a: int, n: int, b: int, k: int)
    requires Sorted(l, lo) && n > 0 && k > 0 && lo < a && lo < b
    requires AllTaken(l, a, n) && AllTaken(l, b, k) && (a + n <= b || b + k <= a)
    ensures FreeList(FreeList(l, a, n), b, k) == FreeList(FreeList(l, b, k), a, n)
  {
    FreeTwice(l, lo, a, n, b, k);
    FreeTwice(l, lo, b, k, a, n);
    Determined(FreeList(FreeList(l, a, n), b, k), FreeList(FreeList(l, b, k), a, n), lo);
  }

  lemma FreeTwice(l: seq<Run>, lo: int, a: int, n: int, b: int, k: int)
    requires Sorted(l, lo) && n > 0 && k > 0 && lo < a && lo < b
    requires AllTaken(l, a, n) && AllTaken(l, b, k) && (a + n <= b || b + k <= a)
    ensures Sorted(FreeList(FreeList(l, a, n), b, k), lo)
    ensures forall p :: IsFree(FreeList(FreeList(l, a, n), b, k), p) <==> IsFree(l, p) || a <= p < a + n || b <= p < b + k
  {
    var m := FreeList(l, a, n);
    FreeSorted(l, lo, a, n);
    forall p
      ensures IsFree(m, p) <==> IsFree(l, p) || a <= p < a + n
    {
      FreePages(l, lo, a, n, p);
    }
    FreeSorted(m, lo, b, k);
    forall p
      ensures IsFree(FreeList(m, b, k), p) <==> IsFree(l, p) || a <= p < a + n || b <= p < b + k
    {
      FreePages(m, lo, b, k, p);
    }
  }
}
