/** What a memory pool looks like from outside its links: the row of blocks by address, and
  the free list in the order in which it is searched. Addresses are offsets from the start of the
  pool; the last block of the row is the tailer, which is never free.
 */
module MemHeapPool {
  import opened Seqs
  import opened Rings
  import opened Sizes

  const HEADER: int := 24  // RT_MEMHEAP_SIZE

  datatype Pool = Pool(row: seq<int>, free: seq<int>)

  // The bytes a caller can use in block i.
  function Room(row: seq<int>, i: nat): int
    requires i + 1 < |row|
  {
    row[i + 1] - row[i] - HEADER
  }

  // Only a pool that consists of a single block may have less room than the minimum.
  ghost predicate Gap(row: seq<int>, i: nat)
    requires i + 1 < |row|
  {
    Room(row, i) >= if |row| == 2 then 0 else MIN
  }

  ghost predicate Spaced(row: seq<int>) {
    |row| >= 2 && row[0] == 0 && forall i :: 0 <= i < |row| - 1 ==> Gap(row, i)
  }

  ghost predicate Merged(p: Pool, i: nat)
    requires i + 1 < |p.row|
  {
    p.row[i] !in p.free || p.row[i + 1] !in p.free
  }

  ghost predicate Listed(p: Pool, k: nat)
    requires k < |p.free|
  {
    p.free[k] in p.row
  }

  // The blocks tile the pool, the free list holds some of them, each once, and free blocks are
  // never neighbours.
  ghost predicate Sound(p: Pool, size: int) {
    && Spaced(p.row) && p.row[|p.row| - 1] == size - HEADER && size - HEADER !in p.free
    && Distinct(p.free) && (forall k :: 0 <= k < |p.free| ==> Listed(p, k))
    && forall i :: 0 <= i < |p.row| - 1 ==> Merged(p, i)
  }

  lemma {:induction false} Ordered(row: seq<int>, i: nat, j: nat)
    requires Spaced(row) && i < j < |row|
    ensures row[i] + HEADER <= row[j]
    ensures |row| > 2 ==> row[i] + HEADER + MIN <= row[j]
    decreases j - i
  {
    assert Gap(row, i);
    if i + 1 < j {
      Ordered(row, i + 1, j);
    }
  }

  // Different positions of the row carry different addresses.
  lemma Elsewhere(row: seq<int>, i: nat, j: nat)
    requires Spaced(row) && i < |row| && j < |row| && i != j
    ensures row[i] != row[j]
  {
    if i < j {
      Ordered(row, i, j);
    } else {
      Ordered(row, j, i);
    }
  }

  /* ------------------------------- blocks, in order of address ------------------------------- */

  datatype Span = Span(start: int, stop: int, free: bool)

  // The row with its addresses and flags; the tailer is not counted.
  function Blocks(p: Pool): (bs: seq<Span>)
    requires |p.row| >= 1
    ensures |bs| == |p.row| - 1
    ensures forall i {:trigger bs[i]} :: 0 <= i < |bs| ==> bs[i] == Span(p.row[i], p.row[i + 1], p.row[i] in p.free)
  {
    seq(|p.row| - 1, i requires 0 <= i < |p.row| - 1 => Span(p.row[i], p.row[i + 1], p.row[i] in p.free))
  }

  // The payload bytes of a free block.
  function Weight(b: Span): int {
    if b.free then b.stop - b.start - HEADER else 0
  }

  // The payload bytes of all free blocks.
  function FreeBytes(bs: seq<Span>): int
    decreases |bs|
  {
    if bs == [] then 0
    else
      var n := |bs| - 1;
      FreeBytes(bs[..n]) + Weight(bs[n])
  }

  lemma {:induction false} FreeBytesConcat(a: seq<Span>, b: seq<Span>)
    ensures FreeBytes(a + b) == FreeBytes(a) + FreeBytes(b)
    decreases |b|
  {
    if b == [] {
      assert a + b == a;
    } else {
      var n := |b| - 1;
      assert (a + b)[..|a| + n] == a + b[..n];
      FreeBytesConcat(a, b[..n]);
    }
  }

  function Owned(b: Span): seq<Span> {
    if b.free then [] else [b]
  }

  // What callers own: the used blocks, in order.
  function Live(bs: seq<Span>): seq<Span>
    decreases |bs|
  {
    if bs == [] then []
    else
      var n := |bs| - 1;
      Live(bs[..n]) + Owned(bs[n])
  }

  lemma {:induction false} LiveConcat(a: seq<Span>, b: seq<Span>)
    ensures Live(a + b) == Live(a) + Live(b)
    decreases |b|
  {
    if b == [] {
      assert a + b == a;
    } else {
      var n := |b| - 1;
      assert (a + b)[..|a| + n] == a + b[..n];
      LiveConcat(a, b[..n]);
    }
  }

  // The part of bs before i and from j on stays; mid takes the place of what is between.
  function Splice(bs: seq<Span>, i: nat, j: nat, mid: seq<Span>): (cs: seq<Span>)
    requires i <= j <= |bs|
    ensures |cs| == |bs| - (j - i) + |mid|
    ensures forall k {:trigger cs[k]} :: 0 <= k < |cs| ==>
      cs[k] == if k < i then bs[k] else if k < i + |mid| then mid[k - i] else bs[k - |mid| + (j - i)]
  {
    bs[..i] + mid + bs[j..]
  }

  lemma Concat3(a: seq<Span>, b: seq<Span>, c: seq<Span>)
    ensures FreeBytes(a + b + c) == FreeBytes(a) + FreeBytes(b) + FreeBytes(c)
    ensures Live(a + b + c) == Live(a) + Live(b) + Live(c)
  {
    FreeBytesConcat(a, b);
    FreeBytesConcat(a + b, c);
    LiveConcat(a, b);
    LiveConcat(a + b, c);
  }

  lemma SpliceCounts(bs: seq<Span>, i: nat, j: nat, mid: seq<Span>)
    requires i <= j <= |bs|
    ensures FreeBytes(bs) == FreeBytes(bs[..i]) + FreeBytes(bs[i..j]) + FreeBytes(bs[j..])
    ensures FreeBytes(Splice(bs, i, j, mid)) == FreeBytes(bs) - FreeBytes(bs[i..j]) + FreeBytes(mid)
    ensures Live(bs) == Live(bs[..i]) + Live(bs[i..j]) + Live(bs[j..])
    ensures Live(Splice(bs, i, j, mid)) == Live(bs[..i]) + Live(mid) + Live(bs[j..])
  {
    assert bs == bs[..i] + bs[i..j] + bs[j..];
    Concat3(bs[..i], bs[i..j], bs[j..]);
    Concat3(bs[..i], mid, bs[j..]);
  }

  lemma CountOne(b: Span)
    ensures FreeBytes([b]) == Weight(b) && Live([b]) == Owned(b)
  {
    assert [b][..0] == [];
  }

  lemma CountTwo(b: Span, c: Span)
    ensures FreeBytes([b, c]) == Weight(b) + Weight(c) && Live([b, c]) == Owned(b) + Owned(c)
  {
    CountOne(b);
    assert [b, c][..1] == [b];
  }

  lemma ReplaceOne(bs: seq<Span>, i: nat, mid: seq<Span>)
    requires i < |bs|
    ensures FreeBytes(bs) == FreeBytes(bs[..i]) + Weight(bs[i]) + FreeBytes(bs[i + 1..])
    ensures FreeBytes(Splice(bs, i, i + 1, mid)) == FreeBytes(bs) - Weight(bs[i]) + FreeBytes(mid)
    ensures Live(bs) == Live(bs[..i]) + Owned(bs[i]) + Live(bs[i + 1..])
    ensures Live(Splice(bs, i, i + 1, mid)) == Live(bs[..i]) + Live(mid) + Live(bs[i + 1..])
  {
    assert bs[i..i + 1] == [bs[i]];
    CountOne(bs[i]);
    SpliceCounts(bs, i, i + 1, mid);
  }

  /* ------------------------------- the operations ------------------------------- */

  // The room of the block at address x.
  function RoomOf(p: Pool, x: int): int {
    if x in p.row && IndexOf(p.row, x) + 1 < |p.row| then Room(p.row, IndexOf(p.row, x)) else -1
  }

  // Where in the free list the first block with enough room stands, from position k on.
  function FirstFit(p: Pool, need: int, k: nat): (r: nat)
    requires k <= |p.free|
    ensures k <= r <= |p.free|
    ensures forall j :: k <= j < r ==> RoomOf(p, p.free[j]) < need
    ensures r < |p.free| ==> RoomOf(p, p.free[r]) >= need
    decreases |p.free| - k
  {
    if k == |p.free| || RoomOf(p, p.free[k]) >= need then k else FirstFit(p, need, k + 1)
  }

  // A block is split only if the rest holds a minimal block.
  predicate Splits(row: seq<int>, i: nat, need: int)
    requires i + 1 < |row|
  {
    Room(row, i) >= need + HEADER + MIN
  }

  // Block i, which stands at position k of the free list, goes to a caller.
  function Take(p: Pool, i: nat, k: nat, need: int): Pool
    requires i + 1 < |p.row| && k < |p.free|
  {
    if Splits(p.row, i, need) then
      var a := p.row[i] + HEADER + need;
      Pool(InsertAt(p.row, i + 1, a), [a] + RemoveAt(p.free, k))
    else Pool(p.row, RemoveAt(p.free, k))
  }

  // The block behind i, if free, is joined with block i.
  function JoinRight(p: Pool, i: nat): Pool
    requires i + 1 < |p.row|
  {
    if p.row[i + 1] in p.free then
      Pool(RemoveAt(p.row, i + 1), RemoveAt(p.free, IndexOf(p.free, p.row[i + 1])))
    else p
  }

  // Block i comes back from its caller.
  function Give(p: Pool, i: nat): Pool
    requires i + 1 < |p.row|
  {
    if i > 0 && p.row[i - 1] in p.free then JoinRight(Pool(RemoveAt(p.row, i), p.free), i - 1)
    else
      var q := JoinRight(p, i);
      Pool(q.row, [p.row[i]] + q.free)
  }

  // Block i gets a room of n bytes by moving the start of the free block behind it.
  function MoveBorder(p: Pool, i: nat, n: int): Pool
    requires i + 1 < |p.row| && p.row[i + 1] in p.free
  {
    var a := p.row[i] + HEADER + n;
    Pool(p.row[i + 1 := a], [a] + RemoveAt(p.free, IndexOf(p.free, p.row[i + 1])))
  }

  // Block i is cut down to n bytes; what is left is joined with a free block behind it.
  function Shrink(p: Pool, i: nat, n: int): Pool
    requires i + 1 < |p.row|
  {
    var a := p.row[i] + HEADER + n;
    if p.row[i + 1] in p.free then MoveBorder(p, i, n)
    else Pool(InsertAt(p.row, i + 1, a), [a] + p.free)
  }

  /* ------------------------------- allocating ------------------------------- */

  lemma TakeSound(p: Pool, size: int, i: nat, k: nat, need: int)
    requires Sound(p, size) && i + 1 < |p.row| && k < |p.free| && p.free[k] == p.row[i]
    requires MIN <= need <= Room(p.row, i)
    ensures Sound(Take(p, i, k, need), size)
  {
    var q := Take(p, i, k, need);
    RemoveMembers(p.free, k);
    TakeSpaced(p, size, i, k, need);
    forall j | 0 <= j < |q.row| - 1
      ensures Merged(q, j)
    {
      if q.row == p.row {
        assert Merged(p, j);
      } else if j < i {
        assert Merged(p, j);
        Ordered(p.row, j, i);
        if j + 1 < i {
          Ordered(p.row, j + 1, i);
        }
      } else if j == i {
        Elsewhere(q.row, i, i + 1);
      } else if j == i + 1 {
        assert Merged(p, i);
        Elsewhere(q.row, i + 1, i + 2);
      } else {
        assert Merged(p, j - 1);
        Elsewhere(q.row, i + 1, j);
        Elsewhere(q.row, i + 1, j + 1);
      }
    }
  }

  lemma TakeSpaced(p: Pool, size: int, i: nat, k: nat, need: int)
    requires Sound(p, size) && i + 1 < |p.row| && k < |p.free| && p.free[k] == p.row[i]
    requires MIN <= need <= Room(p.row, i)
    ensures var q := Take(p, i, k, need);
      && Spaced(q.row) && q.row[|q.row| - 1] == size - HEADER && size - HEADER !in q.free
      && Distinct(q.free) && (forall j :: 0 <= j < |q.free| ==> Listed(q, j))
  {
    var q := Take(p, i, k, need);
    RemoveMembers(p.free, k);
    if Splits(p.row, i, need) {
      var a := p.row[i] + HEADER + need;
      InsertMembers(p.row, i + 1, a);
      SplitSpaced(p.row, i, a);
      assert forall j :: 0 <= j < |q.free| ==> q.free[j] == a || q.free[j] in p.free;
      NotListed(p, size, a, i);
    }
    forall j | 0 <= j < |q.free|
      ensures Listed(q, j)
    {
      assert q.free[j] in p.free ==> q.free[j] in p.row by {
        if q.free[j] in p.free {
          assert Listed(p, IndexOf(p.free, q.free[j]));
        }
      }
    }
  }

  lemma SplitSpaced(row: seq<int>, i: nat, a: int)
    requires Spaced(row) && i + 1 < |row| && row[i] + HEADER + MIN <= a && a + HEADER + MIN <= row[i + 1]
    ensures Spaced(InsertAt(row, i + 1, a))
  {
    var m := InsertAt(row, i + 1, a);
    forall j | 0 <= j < |m| - 1
      ensures Gap(m, j)
    {
      if j < i {
        assert Gap(row, j);
      } else if j > i + 1 {
        assert Gap(row, j - 1);
      }
    }
  }

  // No block starts inside block i.
  lemma NotListed(p: Pool, size: int, a: int, i: nat)
    requires Sound(p, size) && i + 1 < |p.row| && p.row[i] < a < p.row[i + 1]
    ensures a !in p.row && a !in p.free && a != size - HEADER
  {
    if a in p.row {
      var j := IndexOf(p.row, a);
      if j < i {
        Ordered(p.row, j, i);
      } else if i + 1 < j {
        Ordered(p.row, i + 1, j);
      }
    }
    forall k | 0 <= k < |p.free|
      ensures p.free[k] != a
    {
      assert Listed(p, k);
    }
  }

  // Apart from block i and the rest that is split off it, the free blocks are the same.
  lemma TakeFree(p: Pool, size: int, i: nat, k: nat, need: int, j: nat)
    requires Sound(p, size) && i + 1 < |p.row| && k < |p.free| && p.free[k] == p.row[i]
    requires MIN <= need <= Room(p.row, i) && j < |p.row|
    ensures p.row[j] in Take(p, i, k, need).free <==> p.row[j] in p.free && j != i
    ensures Splits(p.row, i, need) ==> p.row[i] + HEADER + need in Take(p, i, k, need).free
  {
    RemoveMembers(p.free, k);
    if j != i {
      Elsewhere(p.row, i, j);
    }
    if Splits(p.row, i, need) {
      NotListed(p, size, p.row[i] + HEADER + need, i);
    }
  }

  // Allocating turns the free block into a used one and perhaps a free rest; all else stays.
  lemma TakeBlocks(p: Pool, size: int, i: nat, k: nat, need: int)
    requires Sound(p, size) && i + 1 < |p.row| && k < |p.free| && p.free[k] == p.row[i]
    requires MIN <= need <= Room(p.row, i)
    ensures Blocks(Take(p, i, k, need)) == Splice(Blocks(p), i, i + 1, Taken(p, i, need))
  {
    var q, cs := Take(p, i, k, need), Splice(Blocks(p), i, i + 1, Taken(p, i, need));
    forall j | 0 <= j < |cs|
      ensures Blocks(q)[j] == cs[j]
    {
      TakeFree(p, size, i, k, need, if q.row == p.row || j <= i then j else j - 1);
    }
  }

  function Taken(p: Pool, i: nat, need: int): seq<Span>
    requires i + 1 < |p.row|
  {
    var x, stop := p.row[i], p.row[i + 1];
    if Splits(p.row, i, need) then [Span(x, x + HEADER + need, false), Span(x + HEADER + need, stop, true)]
    else [Span(x, stop, false)]
  }

  /* ------------------------------- freeing ------------------------------- */

  // The stretch of the row that becomes one free block when block i comes back.
  function From(p: Pool, i: nat): (lo: nat)
    requires i + 1 < |p.row|
    ensures lo <= i
  {
    if i > 0 && p.row[i - 1] in p.free then i - 1 else i
  }

  function To(p: Pool, i: nat): (hi: nat)
    requires i + 1 < |p.row|
  {
    if p.row[i + 1] in p.free then i + 2 else i + 1
  }

  lemma ToInRow(p: Pool, size: int, i: nat)
    requires Sound(p, size) && i + 1 < |p.row|
    ensures To(p, i) < |p.row|
  {
  }

  // The addresses after the join of lo with everything up to hi.
  ghost predicate Joined(row: seq<int>, lo: nat, hi: nat, row': seq<int>) {
    && lo < hi < |row| && |row'| == |row| - (hi - lo - 1)
    && forall j {:trigger row'[j]} :: 0 <= j < |row'| ==> row'[j] == row[if j <= lo then j else j + (hi - lo - 1)]
  }

  lemma GiveRow(p: Pool, size: int, i: nat)
    requires Sound(p, size) && i + 1 < |p.row| && p.row[i] !in p.free
    ensures Joined(p.row, From(p, i), To(p, i), Give(p, i).row)
  {
  }

  lemma GiveMembers(p: Pool, size: int, i: nat)
    requires Sound(p, size) && i + 1 < |p.row| && p.row[i] !in p.free
    ensures Distinct(Give(p, i).free)
    ensures forall x :: GiveMember(p, i, From(p, i), Give(p, i), x)
  {
    Elsewhere(p.row, i, i + 1);
    if p.row[i + 1] in p.free {
      RemoveMembers(p.free, IndexOf(p.free, p.row[i + 1]));
    }
  }

  lemma JoinedSpaced(row: seq<int>, lo: nat, hi: nat, row': seq<int>)
    requires Spaced(row) && Joined(row, lo, hi, row')
    ensures Spaced(row') && row'[|row'| - 1] == row[|row| - 1]
  {
    forall j | 0 <= j < |row'| - 1
      ensures Gap(row', j)
    {
      if j == lo {
        assert Gap(row, lo);
        Ordered(row, lo, hi);
      } else if j < lo {
        assert Gap(row, j);
      } else {
        assert Gap(row, j + (hi - lo - 1));
      }
    }
  }

  ghost predicate GiveMember(p: Pool, i: nat, lo: nat, q: Pool, x: int)
    requires i + 1 < |p.row|
  {
    x in q.free <==> (x in p.free && x != p.row[i + 1]) || (x == p.row[i] && lo == i)
  }

  // q is the pool p after block i has come back and has become one block from lo to hi.
  ghost predicate Gives(p: Pool, size: int, i: nat, lo: nat, hi: nat, q: Pool) {
    && Sound(p, size) && lo <= i < hi < |p.row| && p.row[i] !in p.free
    && (lo == i || (lo == i - 1 && p.row[lo] in p.free))
    && (hi == i + 1 || (hi == i + 2 && p.row[i + 1] in p.free))
    && Joined(p.row, lo, hi, q.row)
    && Distinct(q.free)
    && (forall x :: GiveMember(p, i, lo, q, x))
    && (lo == i && i > 0 ==> p.row[i - 1] !in p.free)
    && (hi == i + 1 ==> p.row[i + 1] !in p.free)
  }

  lemma GiveGives(p: Pool, size: int, i: nat)
    requires Sound(p, size) && i + 1 < |p.row| && p.row[i] !in p.free
    ensures Gives(p, size, i, From(p, i), To(p, i), Give(p, i))
  {
    GiveRow(p, size, i);
    GiveMembers(p, size, i);
  }

  // Which blocks are free afterwards.
  lemma GivesFree(p: Pool, size: int, i: nat, lo: nat, hi: nat, q: Pool, j: nat)
    requires Gives(p, size, i, lo, hi, q) && j < |p.row|
    ensures p.row[j] in q.free <==> j == lo || (p.row[j] in p.free && j != i + 1)
  {
    assert GiveMember(p, i, lo, q, p.row[j]);
    if j != i {
      Elsewhere(p.row, j, i);
    }
    if j != i + 1 {
      Elsewhere(p.row, j, i + 1);
    }
  }

  lemma GivesSound(p: Pool, size: int, i: nat, lo: nat, hi: nat, q: Pool)
    requires Gives(p, size, i, lo, hi, q)
    ensures Sound(q, size)
  {
    JoinedSpaced(p.row, lo, hi, q.row);
    Elsewhere(p.row, i, |p.row| - 1);
    assert GiveMember(p, i, lo, q, size - HEADER);
    forall k | 0 <= k < |q.free|
      ensures Listed(q, k)
    {
      GivesListed(p, size, i, lo, hi, q, q.free[k]);
    }
    forall j | 0 <= j < |q.row| - 1
      ensures Merged(q, j)
    {
      GivesMerged(p, size, i, lo, hi, q, j);
    }
  }

  lemma GivesListed(p: Pool, size: int, i: nat, lo: nat, hi: nat, q: Pool, x: int)
    requires Gives(p, size, i, lo, hi, q) && x in q.free
    ensures x in q.row
  {
    assert GiveMember(p, i, lo, q, x);
    if x == p.row[i] && lo == i {
      assert q.row[i] == x;
    } else {
      assert Listed(p, IndexOf(p.free, x));
      var j := IndexOf(p.row, x);
      assert q.row[if j <= lo then j else j - (hi - lo - 1)] == x;
    }
  }

  lemma GivesMerged(p: Pool, size: int, i: nat, lo: nat, hi: nat, q: Pool, j: nat)
    requires Gives(p, size, i, lo, hi, q) && j + 1 < |q.row|
    ensures Merged(q, j)
  {
    var d := hi - lo - 1;
    if j < lo {
      assert Merged(p, j);
      GivesFree(p, size, i, lo, hi, q, j);
      GivesFree(p, size, i, lo, hi, q, j + 1);
      assert j + 1 < lo || lo == i || p.row[j] !in p.free;
    } else if j > lo {
      assert Merged(p, j + d);
      GivesFree(p, size, i, lo, hi, q, j + d);
      GivesFree(p, size, i, lo, hi, q, j + d + 1);
    } else {
      GivesFree(p, size, i, lo, hi, q, hi);
      assert hi < |p.row| - 1 ==> Merged(p, hi - 1);
    }
  }

  lemma GivesAbove(p: Pool, size: int, i: nat, lo: nat, hi: nat, q: Pool, j: nat)
    requires Gives(p, size, i, lo, hi, q) && lo < j < |q.row| - 1
    ensures Blocks(q)[j] == Blocks(p)[j + (hi - lo - 1)]
  {
    GivesFree(p, size, i, lo, hi, q, j + (hi - lo - 1));
  }

  // Freeing joins the block with its free neighbours into one free block; all else stays.
  lemma GivesBlocks(p: Pool, size: int, i: nat, lo: nat, hi: nat, q: Pool)
    requires Gives(p, size, i, lo, hi, q)
    ensures Blocks(q) == Splice(Blocks(p), lo, hi, [Span(p.row[lo], p.row[hi], true)])
  {
    var cs := Splice(Blocks(p), lo, hi, [Span(p.row[lo], p.row[hi], true)]);
    forall j | 0 <= j < |cs|
      ensures Blocks(q)[j] == cs[j]
    {
      if j < lo {
        GivesFree(p, size, i, lo, hi, q, j);
        assert cs[j] == Blocks(p)[j];
      } else if j == lo {
        GivesFree(p, size, i, lo, hi, q, j);
        assert q.row[j] == p.row[lo] && q.row[j + 1] == p.row[hi];
      } else {
        GivesAbove(p, size, i, lo, hi, q, j);
      }
    }
  }

  lemma GiveSound(p: Pool, size: int, i: nat)
    requires Sound(p, size) && i + 1 < |p.row| && p.row[i] !in p.free
    ensures Sound(Give(p, i), size)
    ensures From(p, i) < To(p, i) < |p.row|
    ensures var lo, hi := From(p, i), To(p, i);
      Blocks(Give(p, i)) == Splice(Blocks(p), lo, hi, [Span(p.row[lo], p.row[hi], true)])
  {
    GiveGives(p, size, i);
    GivesSound(p, size, i, From(p, i), To(p, i), Give(p, i));
    GivesBlocks(p, size, i, From(p, i), To(p, i), Give(p, i));
  }

  /* ------------------------------- growing and shrinking ------------------------------- */

  ghost predicate CutMember(p: Pool, i: nat, a: int, q: Pool, x: int)
    requires i + 1 < |p.row|
  {
    x in q.free <==> x == a || (x in p.free && x != p.row[i + 1])
  }

  ghost predicate CutAt(p: Pool, i: nat, hi: nat, a: int, q: Pool, j: nat)
    requires i < hi < |p.row| && j < |q.row| == |p.row| - (hi - i - 2) && hi <= i + 2
  {
    q.row[j] == if j <= i then p.row[j] else if j == i + 1 then a else p.row[j + (hi - i - 2)]
  }

  // q is the pool p after used block i has been made to end at a, where a free block now
  // starts that reaches to the block at position hi.
  ghost predicate Cuts(p: Pool, size: int, i: nat, hi: nat, a: int, q: Pool) {
    && Sound(p, size) && i < hi < |p.row| && p.row[i] !in p.free
    && p.row[i] + HEADER + MIN <= a && a + HEADER + MIN <= p.row[hi]
    && (hi == i + 1 || (hi == i + 2 && p.row[i + 1] in p.free))
    && (hi == i + 1 ==> p.row[i + 1] !in p.free)
    && |q.row| == |p.row| - (hi - i - 2)
    && (forall j :: 0 <= j < |q.row| ==> CutAt(p, i, hi, a, q, j))
    && Distinct(q.free)
    && forall x :: CutMember(p, i, a, q, x)
  }

  lemma ShrinkCuts(p: Pool, size: int, i: nat, n: int)
    requires Sound(p, size) && i + 1 < |p.row| && p.row[i] !in p.free
    requires MIN <= n && n + HEADER + MIN <= Room(p.row, i)
    ensures To(p, i) < |p.row|
    ensures Cuts(p, size, i, To(p, i), p.row[i] + HEADER + n, Shrink(p, i, n))
  {
    var a := p.row[i] + HEADER + n;
    NotListed(p, size, a, i);
    if p.row[i + 1] in p.free {
      Ordered(p.row, i + 1, i + 2);
      RemoveMembers(p.free, IndexOf(p.free, p.row[i + 1]));
    }
  }

  // The payload bytes won when the free space behind block i is made to start at a.
  ghost function Gain(p: Pool, i: nat, a: int): int
    requires i + 1 < |p.row| && To(p, i) < |p.row|
  {
    if p.row[i + 1] in p.free then (p.row[i + 2] - a - HEADER) - Room(p.row, i + 1) else p.row[i + 1] - a - HEADER
  }

  // What a shrink does to the two lists.
  ghost predicate Shrunk(p: Pool, i: nat, a: int, q: Pool)
    requires i + 1 < |p.row|
  {
    if p.row[i + 1] in p.free then
      q == Pool(p.row[i + 1 := a], [a] + RemoveAt(p.free, IndexOf(p.free, p.row[i + 1])))
    else q == Pool(InsertAt(p.row, i + 1, a), [a] + p.free)
  }

  lemma GrowCuts(p: Pool, size: int, i: nat, n: int)
    requires Sound(p, size) && i + 1 < |p.row| && p.row[i] !in p.free && p.row[i + 1] in p.free
    requires i + 2 < |p.row| && Room(p.row, i) < n && n + MIN <= Room(p.row, i) + Room(p.row, i + 1)
    ensures Cuts(p, size, i, i + 2, p.row[i] + HEADER + n, MoveBorder(p, i, n))
  {
    var a := p.row[i] + HEADER + n;
    Ordered(p.row, i, i + 1);
    NotListed(p, size, a, i + 1);
    RemoveMembers(p.free, IndexOf(p.free, p.row[i + 1]));
  }

  lemma CutsSpaced(p: Pool, size: int, i: nat, hi: nat, a: int, q: Pool)
    requires Cuts(p, size, i, hi, a, q)
    ensures Spaced(q.row) && q.row[|q.row| - 1] == size - HEADER
  {
    forall j | 0 <= j < |q.row| - 1
      ensures Gap(q.row, j)
    {
      assert CutAt(p, i, hi, a, q, j) && CutAt(p, i, hi, a, q, j + 1);
      if j < i {
        assert Gap(p.row, j);
      } else if j > i + 1 {
        assert Gap(p.row, j + (hi - i - 2));
      }
    }
    assert CutAt(p, i, hi, a, q, 0) && CutAt(p, i, hi, a, q, |q.row| - 1);
  }

  lemma CutsFree(p: Pool, size: int, i: nat, hi: nat, a: int, q: Pool, j: nat)
    requires Cuts(p, size, i, hi, a, q) && j < |p.row| && j != i + 1
    ensures p.row[j] in q.free <==> p.row[j] in p.free
    ensures p.row[j] != a
  {
    assert CutMember(p, i, a, q, p.row[j]);
    Elsewhere(p.row, j, i + 1);
    if j < i {
      Ordered(p.row, j, i);
    } else if hi < j {
      Ordered(p.row, hi, j);
    }
  }

  lemma CutsSound(p: Pool, size: int, i: nat, hi: nat, a: int, q: Pool)
    requires Cuts(p, size, i, hi, a, q)
    ensures Sound(q, size)
  {
    CutsSpaced(p, size, i, hi, a, q);
    forall k | 0 <= k < |q.free|
      ensures Listed(q, k)
    {
      CutsListed(p, size, i, hi, a, q, q.free[k]);
    }
    assert CutMember(p, i, a, q, size - HEADER);
    assert size - HEADER !in q.free by {
      if hi < |p.row| - 1 {
        CutsFree(p, size, i, hi, a, q, |p.row| - 1);
      }
    }
    forall j | 0 <= j < |q.row| - 1
      ensures Merged(q, j)
    {
      CutsMerged(p, size, i, hi, a, q, j);
    }
  }

  lemma CutsListed(p: Pool, size: int, i: nat, hi: nat, a: int, q: Pool, x: int)
    requires Cuts(p, size, i, hi, a, q) && x in q.free
    ensures x in q.row
  {
    assert CutMember(p, i, a, q, x);
    if x == a {
      assert CutAt(p, i, hi, a, q, i + 1);
    } else {
      assert Listed(p, IndexOf(p.free, x));
      var j := IndexOf(p.row, x);
      assert j != i + 1 && (j <= i || j >= hi);
      var m := if j <= i then j else j - (hi - i - 2);
      assert CutAt(p, i, hi, a, q, m);
    }
  }

  lemma CutsMerged(p: Pool, size: int, i: nat, hi: nat, a: int, q: Pool, j: nat)
    requires Cuts(p, size, i, hi, a, q) && j + 1 < |q.row|
    ensures Merged(q, j)
  {
    var d := hi - i - 2;
    assert CutMember(p, i, a, q, p.row[i + 1]);
    assert CutAt(p, i, hi, a, q, j) && CutAt(p, i, hi, a, q, j + 1);
    if j < i {
      assert Merged(p, j);
      CutsFree(p, size, i, hi, a, q, j);
      CutsFree(p, size, i, hi, a, q, j + 1);
    } else if j == i {
      CutsFree(p, size, i, hi, a, q, i);
    } else if j == i + 1 {
      assert hi == i + 2 ==> Merged(p, i + 1);
      if hi == i + 2 {
        CutsFree(p, size, i, hi, a, q, hi);
      }
    } else {
      assert Merged(p, j + d);
      CutsFree(p, size, i, hi, a, q, j + d + 1);
      if j + d != i + 1 {
        CutsFree(p, size, i, hi, a, q, j + d);
      }
    }
  }

  // Moving the end of a used block changes that block and the free space behind it only.
  lemma CutsBlocks(p: Pool, size: int, i: nat, hi: nat, a: int, q: Pool)
    requires Cuts(p, size, i, hi, a, q)
    ensures Blocks(q) == Splice(Blocks(p), i, hi, [Span(p.row[i], a, false), Span(a, p.row[hi], true)])
  {
    var cs := Splice(Blocks(p), i, hi, [Span(p.row[i], a, false), Span(a, p.row[hi], true)]);
    assert CutMember(p, i, a, q, a) && CutMember(p, i, a, q, p.row[i + 1]);
    forall j | 0 <= j < |cs|
      ensures Blocks(q)[j] == cs[j]
    {
      assert CutAt(p, i, hi, a, q, j) && CutAt(p, i, hi, a, q, j + 1);
      if j <= i {
        CutsFree(p, size, i, hi, a, q, j);
      } else if j > i + 1 {
        var m := j + (hi - i - 2);
        if m != i + 1 {
          CutsFree(p, size, i, hi, a, q, m);
        }
        assert cs[j] == Blocks(p)[m];
      }
    }
  }

  /* ------------------------------- how much is handed out, and where the rest goes ------------------------------- */

  // What is handed out is as large as asked for, and larger only by what would not make a block of
  // its own; the rest of a larger block is the first of the free list.
  lemma TakeBounded(p: Pool, i: nat, k: nat, need: int)
    requires i + 1 < |p.row| && k < |p.free| && Room(p.row, i) >= need
    ensures var q, was := Take(p, i, k, need), Room(p.row, i);
      && i + 1 < |q.row| && need <= Room(q.row, i) < need + HEADER + MIN
      && (was >= need + HEADER + MIN ==>
        && i + 2 < |q.row| && Room(q.row, i) == need && Room(q.row, i + 1) == was - need - HEADER
        && q.free == [q.row[i + 1]] + RemoveAt(p.free, k))
      && (was < need + HEADER + MIN ==> q.row == p.row && q.free == RemoveAt(p.free, k))
  {
  }

  // What a shrinking block gives up is the first of the free list, together with a free block behind
  // it, which leaves its place.
  lemma ShrinkBounded(p: Pool, size: int, i: nat, n: int)
    requires Sound(p, size) && i + 1 < |p.row| && n + HEADER + MIN < Room(p.row, i) && n >= MIN
    ensures var q := Shrink(p, i, n);
      && i + 2 < |q.row| && Room(q.row, i) == n && q.free != [] && q.free[0] == q.row[i + 1]
      && Room(q.row, i + 1) == (if p.row[i + 1] in p.free && i + 2 < |p.row| then p.row[i + 2] else p.row[i + 1]) - p.row[i] - n - 2 * HEADER
      && q.free[1..] == if p.row[i + 1] in p.free then RemoveAt(p.free, IndexOf(p.free, p.row[i + 1])) else p.free
  {
  }

  /* ------------------------------- what the operations mean ------------------------------- */

  // Allocating hands out block i with at least the size asked for, and costs the free bytes
  // that payload and, if it splits, one header.
  lemma TakeCounts(p: Pool, size: int, i: nat, k: nat, need: int)
    requires Sound(p, size) && i + 1 < |p.row| && k < |p.free| && p.free[k] == p.row[i]
    requires MIN <= need <= Room(p.row, i)
    ensures var bs, cs := Blocks(p), Blocks(Take(p, i, k, need));
      && FreeBytes(cs) == FreeBytes(bs) - (if Splits(p.row, i, need) then need + HEADER else Room(p.row, i))
      && Live(bs) == Live(bs[..i]) + Live(bs[i + 1..])
      && Live(cs) == Live(bs[..i]) + [Taken(p, i, need)[0]] + Live(bs[i + 1..])
      && Taken(p, i, need)[0].start == p.row[i]
      && p.row[i] + HEADER + need <= Taken(p, i, need)[0].stop <= p.row[i + 1]
  {
    assert Blocks(Take(p, i, k, need)) == Splice(Blocks(p), i, i + 1, Taken(p, i, need)) by {
      TakeBlocks(p, size, i, k, need);
    }
    CountTaken(Blocks(p), i, Taken(p, i, need));
  }

  // A free block is replaced by a used one, perhaps followed by a free one.
  lemma CountTaken(bs: seq<Span>, i: nat, mid: seq<Span>)
    requires i < |bs| && bs[i].free && 1 <= |mid| <= 2 && !mid[0].free && (|mid| == 2 ==> mid[1].free)
    ensures var cs := Splice(bs, i, i + 1, mid);
      && FreeBytes(cs) == FreeBytes(bs) - Weight(bs[i]) + (if |mid| == 2 then Weight(mid[1]) else 0)
      && Live(bs) == Live(bs[..i]) + Live(bs[i + 1..])
      && Live(cs) == Live(bs[..i]) + [mid[0]] + Live(bs[i + 1..])
  {
    var f, l := FreeBytes(mid), Live(mid);
    assert f == (if |mid| == 2 then Weight(mid[1]) else 0) && l == [mid[0]] by {
      CountMid(mid);
    }
    var before, was, after := Live(bs[..i]), Owned(bs[i]), Live(bs[i + 1..]);
    assert was == [] && before + was == before;
    ReplaceOne(bs, i, mid);
  }

  // A free block is replaced by a used one, perhaps followed by a free one.
  lemma CountMid(mid: seq<Span>)
    requires 1 <= |mid| <= 2 && !mid[0].free && (|mid| == 2 ==> mid[1].free)
    ensures FreeBytes(mid) == (if |mid| == 2 then Weight(mid[1]) else 0) && Live(mid) == [mid[0]]
  {
    if |mid| == 2 {
      assert mid == [mid[0], mid[1]];
      CountTwo(mid[0], mid[1]);
    } else {
      assert mid == [mid[0]];
      CountOne(mid[0]);
    }
  }

  // Freeing gives back the payload, and one header for each neighbour it is joined with; the
  // other callers keep what they own.
  lemma GiveCounts(p: Pool, size: int, i: nat)
    requires Sound(p, size) && i + 1 < |p.row| && p.row[i] !in p.free
    ensures From(p, i) < To(p, i) < |p.row|
    ensures var bs, cs := Blocks(p), Blocks(Give(p, i));
      && FreeBytes(cs) == FreeBytes(bs) + Room(p.row, i) + HEADER * (To(p, i) - From(p, i) - 1)
      && Live(bs) == Live(bs[..i]) + [bs[i]] + Live(bs[i + 1..])
      && Live(cs) == Live(bs[..i]) + Live(bs[i + 1..])
  {
    ToInRow(p, size, i);
    var bs, lo, hi := Blocks(p), From(p, i), To(p, i);
    assert Blocks(Give(p, i)) == Splice(bs, lo, hi, [Span(p.row[lo], p.row[hi], true)]) by {
      GiveSound(p, size, i);
    }
    CountGiven(bs, i, lo, hi);
  }

  lemma CountGiven(bs: seq<Span>, i: nat, lo: nat, hi: nat)
    requires lo <= i < hi <= |bs| && !bs[i].free
    requires lo == i || (lo == i - 1 && bs[lo].free && bs[lo].stop == bs[i].start)
    requires hi == i + 1 || (hi == i + 2 && bs[i + 1].free && bs[i + 1].start == bs[i].stop)
    ensures var cs := Splice(bs, lo, hi, [Span(bs[lo].start, bs[hi - 1].stop, true)]);
      && FreeBytes(cs) == FreeBytes(bs) + (bs[i].stop - bs[i].start - HEADER) + HEADER * (hi - lo - 1)
      && Live(bs) == Live(bs[..i]) + [bs[i]] + Live(bs[i + 1..])
      && Live(cs) == Live(bs[..i]) + Live(bs[i + 1..])
  {
    var mid := [Span(bs[lo].start, bs[hi - 1].stop, true)];
    assert FreeBytes(mid) == Weight(mid[0]) && Live(mid) == [] by {
      CountOne(mid[0]);
    }
    CountGivenMid(bs, i, lo, hi);
    SpliceCounts(bs, lo, hi, mid);
    CountGivenLive(bs, i, lo, hi);
    assert Live(bs[..lo]) + [] == Live(bs[..lo]);
    assert Weight(mid[0]) - FreeBytes(bs[lo..hi]) == bs[i].stop - bs[i].start - HEADER + HEADER * (hi - lo - 1);
  }

  lemma CountGivenMid(bs: seq<Span>, i: nat, lo: nat, hi: nat)
    requires lo <= i < hi <= |bs| && !bs[i].free
    requires lo == i || (lo == i - 1 && bs[lo].free)
    requires hi == i + 1 || (hi == i + 2 && bs[i + 1].free)
    ensures Live(bs[lo..hi]) == [bs[i]]
    ensures FreeBytes(bs[lo..hi]) == (if lo < i then Weight(bs[lo]) else 0) + (if hi == i + 2 then Weight(bs[i + 1]) else 0)
  {
    CountMid(bs[i..hi]);
    if lo < i {
      assert bs[lo..hi] == [bs[lo]] + bs[i..hi];
      CountOne(bs[lo]);
      FreeBytesConcat([bs[lo]], bs[i..hi]);
      LiveConcat([bs[lo]], bs[i..hi]);
    }
  }

  lemma CountGivenLive(bs: seq<Span>, i: nat, lo: nat, hi: nat)
    requires lo <= i < hi <= |bs|
    requires lo == i || (lo == i - 1 && bs[lo].free)
    requires hi == i + 1 || (hi == i + 2 && bs[i + 1].free)
    ensures Live(bs[..lo]) == Live(bs[..i]) && Live(bs[hi..]) == Live(bs[i + 1..])
  {
    if lo == i - 1 {
      DropLast(bs, i);
    }
    if hi == i + 2 {
      DropFirst(bs, i + 1);
    }
  }

  lemma DropLast(bs: seq<Span>, i: nat)
    requires 0 < i <= |bs| && bs[i - 1].free
    ensures Live(bs[..i]) == Live(bs[..i - 1])
  {
    assert bs[..i][..i - 1] == bs[..i - 1];
  }

  lemma DropFirst(bs: seq<Span>, i: nat)
    requires i < |bs| && bs[i].free
    ensures Live(bs[i..]) == Live(bs[i + 1..])
  {
    assert bs[i..] == [bs[i]] + bs[i + 1..];
    LiveConcat([bs[i]], bs[i + 1..]);
    CountOne(bs[i]);
  }

  // Moving the end of a block leaves its start, and everything else that is owned, in place.
  lemma CutsCounts(p: Pool, size: int, i: nat, hi: nat, a: int, q: Pool)
    requires Cuts(p, size, i, hi, a, q)
    ensures var bs, cs := Blocks(p), Blocks(q);
      && FreeBytes(cs) == FreeBytes(bs) + (p.row[hi] - a - HEADER) - (if hi == i + 2 then Room(p.row, i + 1) else 0)
      && Live(bs) == Live(bs[..i]) + [bs[i]] + Live(bs[hi..])
      && Live(cs) == Live(bs[..i]) + [Span(p.row[i], a, false)] + Live(bs[hi..])
  {
    var bs := Blocks(p);
    var b, c := Span(p.row[i], a, false), Span(a, p.row[hi], true);
    assert Blocks(q) == Splice(bs, i, hi, [b, c]) by {
      CutsBlocks(p, size, i, hi, a, q);
    }
    CountCut(bs, i, hi, b, c);
  }

  // A used block, and perhaps the free one behind it, are replaced by a used and a free one.
  lemma CountCut(bs: seq<Span>, i: nat, hi: nat, b: Span, c: Span)
    requires i < hi <= |bs| && !bs[i].free && !b.free && c.free
    requires hi == i + 1 || (hi == i + 2 && bs[i + 1].free)
    ensures var cs := Splice(bs, i, hi, [b, c]);
      && FreeBytes(cs) == FreeBytes(bs) + Weight(c) - (if hi == i + 2 then Weight(bs[i + 1]) else 0)
      && Live(bs) == Live(bs[..i]) + [bs[i]] + Live(bs[hi..])
      && Live(cs) == Live(bs[..i]) + [b] + Live(bs[hi..])
  {
    CountMid([b, c]);
    CountMid(bs[i..hi]);
    SpliceCounts(bs, i, hi, [b, c]);
  }

  // Freeing a block right after it was allocated restores the row; the block is now the first
  // of the free list.
  lemma GiveUndoesTake(p: Pool, size: int, i: nat, k: nat, need: int)
    requires Sound(p, size) && i + 1 < |p.row| && k < |p.free| && p.free[k] == p.row[i]
    requires MIN <= need <= Room(p.row, i)
    ensures Give(Take(p, i, k, need), i) == Pool(p.row, [p.row[i]] + RemoveAt(p.free, k))
  {
    var q := Take(p, i, k, need);
    NotListedBeside(p, size, i, k, need);
    if Splits(p.row, i, need) {
      SplitUndone(p, i, k, need);
    } else {
      assert JoinRight(q, i) == q;
    }
  }

  // Nothing free is beside the block taken, except what was split off.
  lemma NotListedBeside(p: Pool, size: int, i: nat, k: nat, need: int)
    requires Sound(p, size) && i + 1 < |p.row| && k < |p.free| && p.free[k] == p.row[i]
    requires MIN <= need <= Room(p.row, i)
    ensures var q := Take(p, i, k, need);
      && (i > 0 ==> q.row[i - 1] !in q.free)
      && (!Splits(p.row, i, need) ==> q.row[i + 1] !in q.free)
  {
    assert Merged(p, i);
    TakeFree(p, size, i, k, need, i + 1);
    if i > 0 {
      assert Merged(p, i - 1);
      TakeFree(p, size, i, k, need, i - 1);
    }
  }

  lemma SplitUndone(p: Pool, i: nat, k: nat, need: int)
    requires i + 1 < |p.row| && k < |p.free| && Splits(p.row, i, need)
    ensures var q := Take(p, i, k, need); JoinRight(q, i) == Pool(p.row, RemoveAt(p.free, k))
  {
    var q, a := Take(p, i, k, need), p.row[i] + HEADER + need;
    assert q.row[i + 1] == a && q.free[0] == a && IndexOf(q.free, a) == 0;
    assert RemoveAt(q.row, i + 1) == p.row;
    assert RemoveAt(q.free, 0) == RemoveAt(p.free, k);
  }

  /* ------------------------------- when an allocation fails ------------------------------- */

  lemma {:induction false} SomethingFree(bs: seq<Span>)
    requires forall i :: 0 <= i < |bs| && bs[i].free ==> bs[i].stop - bs[i].start - HEADER >= MIN
    ensures if exists i :: 0 <= i < |bs| && bs[i].free then FreeBytes(bs) >= MIN else FreeBytes(bs) == 0
    decreases |bs|
  {
    if bs != [] {
      var n := |bs| - 1;
      SomethingFree(bs[..n]);
      if i :| 0 <= i < |bs| && bs[i].free {
        assert i < n ==> bs[..n][i].free;
      }
    }
  }

  // The free bytes are those of block i exactly if no other block is free, else more.
  lemma FreeBytesRest(bs: seq<Span>, i: nat)
    requires i < |bs|
    requires |bs| > 1 ==> forall j :: 0 <= j < |bs| && bs[j].free ==> bs[j].stop - bs[j].start - HEADER >= MIN
    ensures FreeBytes(bs) >= Weight(bs[i])
    ensures FreeBytes(bs) == Weight(bs[i]) <==> forall j :: 0 <= j < |bs| && j != i ==> !bs[j].free
  {
    assert FreeBytes(bs) == FreeBytes(bs[..i]) + Weight(bs[i]) + FreeBytes(bs[i + 1..]) by {
      ReplaceOne(bs, i, []);
    }
    SomethingFree(bs[..i]);
    SomethingFree(bs[i + 1..]);
    if j :| 0 <= j < |bs| && j != i && bs[j].free {
      assert if j < i then bs[..i][j].free else bs[i + 1..][j - i - 1].free;
    }
  }

  lemma FreeBytesOf(p: Pool, size: int, i: nat)
    requires Sound(p, size) && i + 1 < |p.row| && p.row[i] in p.free
    ensures FreeBytes(Blocks(p)) >= Room(p.row, i)
    ensures FreeBytes(Blocks(p)) == Room(p.row, i) <==> |p.free| == 1
  {
    var bs := Blocks(p);
    forall j | 0 <= j < |bs|
      ensures |bs| > 1 ==> bs[j].stop - bs[j].start - HEADER >= MIN
    {
      assert Gap(p.row, j);
    }
    FreeBytesRest(bs, i);
    OnlyFree(p, size, i);
  }

  lemma OnlyFree(p: Pool, size: int, i: nat)
    requires Sound(p, size) && i + 1 < |p.row| && p.row[i] in p.free
    ensures |p.free| == 1 <==> forall j :: 0 <= j < |p.row| - 1 && j != i ==> !Blocks(p)[j].free
  {
    if |p.free| == 1 {
      forall j | 0 <= j < |p.row| - 1 && j != i
        ensures !Blocks(p)[j].free
      {
        Elsewhere(p.row, i, j);
      }
    } else {
      var x := if p.free[0] == p.row[i] then p.free[1] else p.free[0];
      assert Listed(p, 0) && Listed(p, 1);
      var j := IndexOf(p.row, x);
      assert Blocks(p)[j].free;
    }
  }

  // An allocation fails exactly when no free block has the room, or when the only free block
  // would be filled to the last byte.
  lemma FailureExact(p: Pool, size: int, need: int)
    requires Sound(p, size)
    ensures need >= FreeBytes(Blocks(p)) || FirstFit(p, need, 0) == |p.free| <==>
      || (forall k :: 0 <= k < |p.free| ==> RoomOf(p, p.free[k]) < need)
      || (|p.free| == 1 && RoomOf(p, p.free[0]) == need)
  {
    forall k | 0 <= k < |p.free|
      ensures FreeBytes(Blocks(p)) >= RoomOf(p, p.free[k])
      ensures FreeBytes(Blocks(p)) == RoomOf(p, p.free[k]) <==> |p.free| == 1
    {
      assert Listed(p, k);
      FreeBytesOf(p, size, IndexOf(p.row, p.free[k]));
    }
  }
}
