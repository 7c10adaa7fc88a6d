/** The page allocator in place: free runs linked through their first pages, with a cursor that
  remembers the link it came by.
 */
module PageList {
  import opened Seqs
  import opened PageRuns

  const NULL: int := -1

  // Following the links from page from leads along the runs of l and ends at to.
  ghost predicate Seg(next: map<int, int>, page: map<int, int>, from: int, l: seq<Run>, to: int)
    decreases |l|
  {
    if l == [] then from == to
    else
      && from == l[0].start && from in next && from in page && page[from] == l[0].len
      && Seg(next, page, next[from], l[1..], to)
  }

  ghost predicate Same(next: map<int, int>, page: map<int, int>, next': map<int, int>, page': map<int, int>, x: int) {
    x in next && x in next' && next'[x] == next[x] && x in page && x in page' && page'[x] == page[x]
  }

  // Writes at or below lo do not touch runs that are all above.
  lemma {:induction false} SegAbove(next: map<int, int>, page: map<int, int>, next': map<int, int>, page': map<int, int>,
      from: int, l: seq<Run>, to: int, lo: int)
    requires Seg(next, page, from, l, to) && Sorted(l, lo)
    requires forall x :: x > lo && x in next && x in page ==> Same(next, page, next', page', x)
    ensures Seg(next', page', from, l, to)
    decreases |l|
  {
    if l != [] {
      assert Same(next, page, next', page', from);
      SegAbove(next, page, next', page', next[from], l[1..], to, Stop(l[0]));
    }
  }

  // The runs of l, linked as before except that the last one now leads to to'.
  lemma {:induction false} SegRelink(next: map<int, int>, page: map<int, int>, next': map<int, int>, page': map<int, int>,
      from: int, l: seq<Run>, to: int, to': int, lo: int)
    requires Seg(next, page, from, l, to) && l != [] && Sorted(l, lo)
    requires var last := l[|l| - 1].start;
      && last in next' && next'[last] == to' && last in page && last in page' && page'[last] == page[last]
      && forall x :: x < last && x in next && x in page ==> Same(next, page, next', page', x)
    ensures Seg(next', page', from, l, to')
    decreases |l|
  {
    if |l| > 1 {
      SortedOrder(l, lo, 0, |l| - 1);
      assert Same(next, page, next', page', from);
      SegRelink(next, page, next', page', next[from], l[1..], to, to', Stop(l[0]));
    }
  }

  lemma {:induction false} SegJoin(next: map<int, int>, page: map<int, int>, from: int, l: seq<Run>, mid: int, m: seq<Run>, to: int)
    requires Seg(next, page, from, l, mid) && Seg(next, page, mid, m, to)
    ensures Seg(next, page, from, l + m, to)
    decreases |l|
  {
    if l == [] {
      assert l + m == m;
    } else {
      SegJoin(next, page, next[from], l[1..], mid, m, to);
      assert (l + m)[1..] == l[1..] + m;
    }
  }

  lemma {:induction false} SegLast(next: map<int, int>, page: map<int, int>, from: int, l: seq<Run>, to: int)
    requires Seg(next, page, from, l, to) && l != []
    ensures var x := l[|l| - 1].start; x in next && next[x] == to && x in page
    decreases |l|
  {
    if |l| > 1 {
      SegLast(next, page, next[from], l[1..], to);
    }
  }

  // Runs further on start behind the end of earlier ones.
  lemma {:induction false} SortedOrder(l: seq<Run>, lo: int, i: nat, j: nat)
    requires Sorted(l, lo) && i < j < |l|
    ensures lo < l[i].start < Stop(l[i]) < l[j].start && l[j].len > 0
    decreases j
  {
    if i > 0 {
      SortedOrder(l[1..], Stop(l[0]), i - 1, j - 1);
    } else if j > 1 {
      SortedOrder(l[1..], Stop(l[0]), 0, j - 1);
    }
  }

  // Where the runs behind done + rest go when everything from rest on is replaced by tail.
  lemma Replace(next: map<int, int>, page: map<int, int>, next': map<int, int>, page': map<int, int>,
      head: int, done: seq<Run>, b: int, x: int, tail: seq<Run>)
    requires Seg(next, page, head, done, b) && Sorted(done, -1)
    requires done != [] ==>
      var last := done[|done| - 1].start;
      && last in next' && next'[last] == x && last in page && last in page' && page'[last] == page[last]
      && forall y :: y < last && y in next && y in page ==> Same(next, page, next', page', y)
    requires Seg(next', page', x, tail, NULL)
    ensures Seg(next', page', if done == [] then x else head, done + tail, NULL)
  {
    if done == [] {
      assert done + tail == tail;
    } else {
      SegRelink(next, page, next', page', head, done, b, x, -1);
      SegJoin(next', page', head, done, x, tail, NULL);
    }
  }

  class Pages {
    var head: int             // rt_page_list
    var next: map<int, int>
    var page: map<int, int>
    ghost var runs: seq<Run>

    ghost predicate Valid()
      reads this
    {
      Sorted(runs, -1) && Seg(next, page, head, runs, NULL)
    }

    // rt_page_init: a list of one run.
    constructor (addr: int, npages: int)
      requires addr >= 0 && npages > 0
      ensures Valid() && runs == [Run(addr, npages)]
    {
      head, next, page := addr, map[addr := NULL], map[addr := npages];
      runs := [Run(addr, npages)];
    }

    // The cursor stands between the runs of done and the runs of rest.
    ghost predicate Cursor(done: seq<Run>, rest: seq<Run>, prev: int, b: int)
      reads this
    {
      && Sorted(runs, -1) && runs == done + rest
      && Seg(next, page, head, done, b) && Seg(next, page, b, rest, NULL)
      && prev == (if done == [] then NULL else done[|done| - 1].start)
    }

    lemma CursorFacts(done: seq<Run>, rest: seq<Run>, prev: int, b: int)
      requires Cursor(done, rest, prev, b)
      ensures done != [] ==> prev in next && prev in page && next[prev] == b && 0 <= prev && (rest != [] ==> prev < b)
      ensures b == NULL <==> rest == []
      ensures rest != [] ==> b in next && b in page && rest[0] == Run(b, page[b]) && b >= 0 && page[b] > 0
      ensures Sorted(done, -1) && Sorted(rest, if done == [] then -1 else Stop(done[|done| - 1]))
    {
      if done != [] {
        SegLast(next, page, head, done, b);
        if rest != [] {
          SortedOrder(runs, -1, |done| - 1, |done|);
        }
      }
      SortedParts(done, rest, -1);
      SortedLow(done, -1);
    }

    // Takes the cursor one run further.
    lemma CursorStep(done: seq<Run>, rest: seq<Run>, prev: int, b: int)
      requires Cursor(done, rest, prev, b) && rest != []
      ensures Cursor(done + [rest[0]], rest[1..], b, next[b])
    {
      assert done + rest == done + [rest[0]] + rest[1..];
      SegJoin(next, page, head, done, b, [rest[0]], next[b]);
    }

    // *prev = x
    method SetLink(prev: int, x: int)
      modifies this`head, this`next
      ensures head == (if prev == NULL then x else old(head))
      ensures next == (if prev == NULL then old(next) else old(next)[prev := x])
    {
      if prev == NULL {
        head := x;
      } else {
        next := next[prev := x];
      }
    }

    // The whole list after writes behind the cursor; next0, page0 and head0 are what was there.
    lemma Written(next0: map<int, int>, page0: map<int, int>, head0: int, done: seq<Run>, rest: seq<Run>,
        prev: int, b: int, x: int, tail: seq<Run>)
      requires Sorted(done + rest, -1) && Seg(next0, page0, head0, done, b)
      requires prev == (if done == [] then NULL else done[|done| - 1].start)
      requires done != [] ==>
        && prev in next && next[prev] == x && prev in page0 && prev in page && page[prev] == page0[prev]
        && forall y :: y < prev && y in next0 && y in page0 ==> Same(next0, page0, next, page, y)
      requires head == if done == [] then x else head0
      requires Seg(next, page, x, tail, NULL)
      ensures Seg(next, page, head, done + tail, NULL)
    {
      SortedParts(done, rest, -1);
      Replace(next0, page0, next, page, head0, done, b, x, tail);
    }

    method Alloc(npages: int) returns (b: int)
      requires Valid() && npages >= 0
      modifies this
      ensures Valid()
      ensures npages == 0 ==> b == NULL && unchanged(this)
      ensures npages > 0 ==> b == (match AllocAt(old(runs), npages) case None => NULL case Some(a) => a)
      ensures npages > 0 ==> runs == AllocList(old(runs), npages)
    {
      b := NULL;
      if npages == 0 {
        return;
      }
      var prev := NULL;
      b := head;
      ghost var done: seq<Run>, rest := [], runs;
      AllocSorted(runs, -1, npages);
      while b != NULL
        invariant Cursor(done, rest, prev, b) && unchanged(this)
        invariant AllocAt(runs, npages) == AllocAt(rest, npages)
        invariant AllocList(runs, npages) == done + AllocList(rest, npages)
        decreases |rest|
      {
        CursorFacts(done, rest, prev, b);
        if page[b] > npages {
        }
        if page[b] >= npages {
          TakeFrom(npages, done, rest, prev, b);
          return;
        }
        AllocStep(done, rest, npages);
        CursorStep(done, rest, prev, b);
        prev, b := b, next[b];
        done, rest := done + [rest[0]], rest[1..];
      }
      CursorFacts(done, rest, prev, b);
    }

    // Takes npages off the run at b, or the whole run.
    method TakeFrom(npages: int, ghost done: seq<Run>, ghost rest: seq<Run>, prev: int, b: int)
      requires Cursor(done, rest, prev, b) && rest != [] && b in page && 0 < npages <= page[b]
      modifies this
      ensures Seg(next, page, head, runs, NULL) && runs == done + AllocList(rest, npages)
    {
      if page[b] > npages {
        TakePart(npages, done, rest, prev, b);
      } else {
        TakeWhole(done, rest, prev, b);
      }
    }

    // The front of the run at b is taken; what is left of it begins further on.
    method TakePart(npages: int, ghost done: seq<Run>, ghost rest: seq<Run>, prev: int, b: int)
      requires Cursor(done, rest, prev, b) && rest != [] && b in page && 0 < npages < page[b]
      modifies this
      ensures Seg(next, page, head, runs, NULL) && runs == done + AllocList(rest, npages)
    {
      CursorFacts(done, rest, prev, b);
      var n := b + npages;
      next := next[n := next[b]];
      page := page[n := page[b] - npages];
      SetLink(prev, n);
      ghost var tail := [Run(n, page[n])] + rest[1..];
      SegAbove(old(next), old(page), next, page, next[n], rest[1..], NULL, Stop(rest[0]));
      Written(old(next), old(page), old(head), done, rest, prev, b, n, tail);
      runs := done + tail;
    }

    // The run at b has as many pages as are asked for.
    method TakeWhole(ghost done: seq<Run>, ghost rest: seq<Run>, prev: int, b: int)
      requires Cursor(done, rest, prev, b) && rest != [] && b in page && page[b] > 0
      modifies this
      ensures Seg(next, page, head, runs, NULL) && runs == done + AllocList(rest, old(page)[b])
    {
      CursorFacts(done, rest, prev, b);
      SetLink(prev, next[b]);
      SegAbove(old(next), old(page), next, page, old(next)[b], rest[1..], NULL, Stop(rest[0]));
      Written(old(next), old(page), old(head), done, rest, prev, b, old(next)[b], rest[1..]);
      runs := done + rest[1..];
    }

    method Free(addr: int, npages: int)
      requires Valid() && addr >= 0 && npages > 0 && AllTaken(runs, addr, npages)
      modifies this
      ensures Valid() && runs == FreeList(old(runs), addr, npages)
    {
      var n := addr;
      var prev := NULL;
      var b := head;
      ghost var done: seq<Run>, rest := [], runs;
      FreeSorted(runs, -1, addr, npages);
      while b != NULL
        invariant Cursor(done, rest, prev, b) && unchanged(this)
        invariant FreeList(runs, n, npages) == done + FreeList(rest, n, npages)
        invariant AllTaken(rest, n, npages)
        invariant done != [] ==> Stop(done[|done| - 1]) < n
        decreases |rest|
      {
        CursorFacts(done, rest, prev, b);
        Clear(rest, -1, n, npages);
        if b + page[b] == n {
          ExtendRun(npages, done, rest, prev, b);
          return;
        }
        if b == n + npages {
          ExtendDown(n, npages, done, rest, prev, b);
          return;
        }
        if b > n + npages {
          break;
        }
        FreeStep(done, rest, n, npages);
        CursorStep(done, rest, prev, b);
        prev, b := b, next[b];
        done, rest := done + [rest[0]], rest[1..];
      }
      CursorFacts(done, rest, prev, b);
      InsertRun(n, npages, done, rest, prev, b);
    }

    // The pages come right behind the run at b, and perhaps right before the next one.
    method ExtendRun(npages: int, ghost done: seq<Run>, ghost rest: seq<Run>, prev: int, b: int)
      requires Cursor(done, rest, prev, b) && rest != [] && b in page && npages > 0
      requires AllTaken(rest, b + page[b], npages)
      modifies this`next, this`page, this`runs
      ensures Seg(next, page, head, runs, NULL) && runs == done + FreeList(rest, b + old(page[b]), npages)
    {
      CursorFacts(done, rest, prev, b);
      ghost var tail := FreeList(rest, b + page[b], npages);
      LastBelow(done);
      NextRun(rest, if done == [] then -1 else Stop(done[|done| - 1]), b);
      page := page[b := page[b] + npages];
      if b + page[b] == next[b] {
        page := page[b := page[b] + page[next[b]]];
        next := next[b := next[next[b]]];
        SegAbove(old(next), old(page), next, page, next[b], rest[2..], NULL, Stop(rest[1]));
      } else {
        SegAbove(old(next), old(page), next, page, next[b], rest[1..], NULL, Stop(rest[0]));
      }
      assert Seg(next, page, b, tail, NULL);
      Written(old(next), old(page), old(head), done, rest, prev, b, b, tail);
      runs := done + tail;
    }

    // The pages come right before the run at b.
    method ExtendDown(n: int, npages: int, ghost done: seq<Run>, ghost rest: seq<Run>, prev: int, b: int)
      requires Cursor(done, rest, prev, b) && rest != [] && npages > 0 && b == n + npages
      requires done != [] ==> Stop(done[|done| - 1]) < n
      requires n >= 0
      modifies this
      ensures Seg(next, page, head, runs, NULL) && runs == done + FreeList(rest, n, npages)
    {
      CursorFacts(done, rest, prev, b);
      LastBelow(done);
      page := page[n := page[b] + npages];
      next := next[n := next[b]];
      SetLink(prev, n);
      ghost var tail := [Run(n, npages + rest[0].len)] + rest[1..];
      SegAbove(old(next), old(page), next, page, next[n], rest[1..], NULL, Stop(rest[0]));
      Written(old(next), old(page), old(head), done, rest, prev, b, n, tail);
      runs := done + tail;
    }

    // The pages touch no run.
    method InsertRun(n: int, npages: int, ghost done: seq<Run>, ghost rest: seq<Run>, prev: int, b: int)
      requires Cursor(done, rest, prev, b) && npages > 0
      requires rest != [] ==> rest[0].start > n + npages
      requires done != [] ==> Stop(done[|done| - 1]) < n
      requires n >= 0
      modifies this
      ensures Seg(next, page, head, runs, NULL) && runs == done + FreeList(rest, n, npages)
    {
      CursorFacts(done, rest, prev, b);
      LastBelow(done);
      page := page[n := npages];
      next := next[n := b];
      SetLink(prev, n);
      ghost var tail := [Run(n, npages)] + rest;
      SegAbove(old(next), old(page), next, page, b, rest, NULL, n);
      Written(old(next), old(page), old(head), done, rest, prev, b, n, tail);
      runs := done + tail;
    }

    // The run after the one at b, if there is one.
    lemma NextRun(rest: seq<Run>, lo: int, b: int)
      requires rest != [] && Sorted(rest, lo) && lo >= -1 && Seg(next, page, b, rest, NULL)
      ensures b in next && (next[b] == NULL <==> |rest| == 1)
      ensures |rest| > 1 ==>
        && next[b] == rest[1].start > Stop(rest[0]) && next[b] in page && page[next[b]] == rest[1].len && next[b] in next
        && rest[1..][1..] == rest[2..] && Seg(next, page, next[next[b]], rest[2..], NULL) && Sorted(rest[2..], Stop(rest[1]))
    {
    }
  }

  lemma LastBelow(done: seq<Run>)
    requires Sorted(done, -1)
    ensures done != [] ==> 0 <= done[|done| - 1].start < Stop(done[|done| - 1])
  {
    LastLong(done, -1);
    SortedLow(done, -1);
  }

  lemma {:induction false} LastLong(l: seq<Run>, lo: int)
    requires Sorted(l, lo)
    ensures l != [] ==> l[|l| - 1].len > 0
  {
    if |l| > 1 {
      LastLong(l[1..], Stop(l[0]));
    }
  }

  lemma AllocStep(done: seq<Run>, rest: seq<Run>, n: int)
    requires rest != [] && rest[0].len < n
    ensures AllocAt(rest, n) == AllocAt(rest[1..], n)
    ensures done + AllocList(rest, n) == done + [rest[0]] + AllocList(rest[1..], n)
  {
  }

  lemma FreeStep(done: seq<Run>, rest: seq<Run>, a: int, n: int)
    requires rest != [] && Stop(rest[0]) != a && rest[0].start < a + n
    ensures done + FreeList(rest, a, n) == done + [rest[0]] + FreeList(rest[1..], a, n)
  {
  }

  // Pages that come back lie clear of every run.
  lemma Clear(rest: seq<Run>, lo: int, a: int, n: int)
    requires Sorted(rest, lo) && rest != [] && AllTaken(rest, a, n) && n > 0
    ensures AllTaken(rest[1..], a, n)
    ensures rest[0].start >= a + n || Stop(rest[0]) <= a
  {
    forall p | a <= p < a + n
      ensures !IsFree(rest[1..], p)
    {
      assert !IsFree(rest, p);
    }
    if rest[0].start < a + n && Stop(rest[0]) > a {
      assert IsFree(rest, if a < rest[0].start then rest[0].start else a);
    }
  }

  // All starts are above the bound.
  lemma {:induction false} SortedLow(l: seq<Run>, lo: int)
    requires Sorted(l, lo)
    ensures l != [] ==> l[|l| - 1].start > lo
  {
    if |l| > 1 {
      SortedOrder(l, lo, 0, |l| - 1);
    }
  }

  // The parts of a sorted list are sorted.
  lemma {:induction false} SortedParts(done: seq<Run>, rest: seq<Run>, lo: int)
    requires Sorted(done + rest, lo)
    ensures Sorted(done, lo) && Sorted(rest, if done == [] then lo else Stop(done[|done| - 1]))
  {
    if done == [] {
      assert done + rest == rest;
    } else {
      assert (done + rest)[1..] == done[1..] + rest;
      SortedParts(done[1..], rest, Stop(done[0]));
    }
  }
}
