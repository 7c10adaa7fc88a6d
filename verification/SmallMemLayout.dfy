/** The small-memory heap as a row of blocks, and what allocating, shrinking and freeing do to
  the row. Addresses are offsets from the start of the heap; a block runs from its header to
  the next block, and the last one ends at the end sentinel.
 */
module SmallMemLayout {
  import opened Seqs
  import opened Sizes

  const HEADER: int := 12  // SIZEOF_STRUCT_MEM

  const LEAST: int := HEADER + ALIGN  // no block is smaller: payloads are never empty

  datatype Block = Block(addr: int, used: bool)

  function AddrAt(bs: seq<Block>, end: int, i: nat): int
    requires i <= |bs|
  {
    if i < |bs| then bs[i].addr else end
  }

  function Payload(bs: seq<Block>, end: int, i: nat): int
    requires i < |bs|
  {
    AddrAt(bs, end, i + 1) - bs[i].addr - HEADER
  }

  // Block i has room for its header and some payload before the next block.
  ghost predicate Gap(bs: seq<Block>, i: int)
    requires 0 <= i < |bs| - 1
  {
    bs[i].addr + LEAST <= bs[i + 1].addr
  }

  // The blocks follow each other from offset 0 to the end, each with a header and some payload.
  ghost predicate Spaced(bs: seq<Block>, end: int) {
    && |bs| >= 1 && bs[0].addr == 0
    && (forall i :: 0 <= i < |bs| - 1 ==> Gap(bs, i))
    && bs[|bs| - 1].addr + LEAST <= end
  }

  // Recursive, so that the remainders are looked at only where they matter.
  ghost predicate Aligned(bs: seq<Block>)
    decreases |bs|
  {
    bs == [] || (bs[0].addr % ALIGN == 0 && Aligned(bs[1..]))
  }

  lemma {:induction false} AlignedEach(bs: seq<Block>)
    ensures Aligned(bs) <==> forall i :: 0 <= i < |bs| ==> bs[i].addr % ALIGN == 0
    decreases |bs|
  {
    if bs != [] {
      AlignedEach(bs[1..]);
      assert forall i :: 1 <= i < |bs| ==> bs[i] == bs[1..][i - 1];
    }
  }

  ghost predicate Pair(bs: seq<Block>, i: int)
    requires 0 <= i < |bs| - 1
  {
    bs[i].used || bs[i + 1].used
  }

  // No two free blocks are neighbours, except that block x may have free neighbours.
  ghost predicate NoFreePair(bs: seq<Block>, x: int) {
    forall i :: 0 <= i < |bs| - 1 && i != x && i + 1 != x ==> Pair(bs, i)
  }

  // The blocks tile the heap and everything that is free in one piece is one block.
  ghost predicate Tiles(bs: seq<Block>, end: int) {
    Spaced(bs, end) && Aligned(bs) && NoFreePair(bs, -1)
  }

  // The bytes in used blocks, headers included.
  function UsedBytes(bs: seq<Block>, end: int): int
    decreases |bs|
  {
    if bs == [] then 0
    else
      var n := |bs| - 1;
      UsedBytes(bs[..n], bs[n].addr) + if bs[n].used then end - bs[n].addr else 0
  }

  // The first free block from i on, or one past the last block.
  function LowestFree(bs: seq<Block>, i: nat): (k: nat)
    requires i <= |bs|
    ensures i <= k <= |bs|
    ensures forall j :: i <= j < k ==> bs[j].used
    ensures k < |bs| ==> !bs[k].used
    decreases |bs| - i
  {
    if i == |bs| || !bs[i].used then i else LowestFree(bs, i + 1)
  }

  /* ------------------------------- the operations ------------------------------- */

  // Free, large enough, and not reaching to the very end of the heap.
  predicate Fits(bs: seq<Block>, end: int, need: int, i: nat)
    requires i < |bs|
  {
    !bs[i].used && Payload(bs, end, i) >= need && bs[i].addr < end - HEADER - need
  }

  function FirstFit(bs: seq<Block>, end: int, need: int, i: nat): (k: nat)
    requires i <= |bs|
    ensures i <= k <= |bs|
    ensures forall j :: i <= j < k ==> !Fits(bs, end, need, j)
    ensures k < |bs| ==> Fits(bs, end, need, k)
    decreases |bs| - i
  {
    if i == |bs| || Fits(bs, end, need, i) then i else FirstFit(bs, end, need, i + 1)
  }

  // The remainder is split off only if it can hold a minimal block.
  predicate Splits(bs: seq<Block>, end: int, need: int, i: nat)
    requires i < |bs|
  {
    Payload(bs, end, i) >= need + HEADER + MIN
  }

  function Occupy(bs: seq<Block>, end: int, need: int, i: nat): seq<Block>
    requires i < |bs|
  {
    var b := Block(bs[i].addr, true);
    var cs := bs[i := b];
    if Splits(bs, end, need, i) then InsertAt(cs, i + 1, Block(bs[i].addr + HEADER + need, false)) else cs
  }

  lemma OccupyBySplitting(bs: seq<Block>, end: int, need: int, i: nat)
    requires i < |bs| && Splits(bs, end, need, i)
    ensures Occupy(bs, end, need, i) ==
      InsertAt(bs, i + 1, Block(bs[i].addr + HEADER + need, false))[i := Block(bs[i].addr, true)]
  {
  }

  // Joins block i with its right neighbour if that is free, then with its left one. The block
  // that goes leaves its space to the one before it.
  function Plug(bs: seq<Block>, i: nat): seq<Block>
    requires i < |bs| && !bs[i].used
  {
    var cs := if i + 1 < |bs| && !bs[i + 1].used then RemoveAt(bs, i + 1) else bs;
    if i > 0 && !cs[i - 1].used then RemoveAt(cs, i) else cs
  }

  function Release(bs: seq<Block>, i: nat): seq<Block>
    requires i < |bs|
  {
    Plug(bs[i := Block(bs[i].addr, false)], i)
  }

  // Cuts block i down to a payload of size bytes; the rest becomes a free block.
  function Cut(bs: seq<Block>, i: nat, size: int): (cs: seq<Block>)
    requires i < |bs|
    ensures |cs| == |bs| + 1 && cs[i + 1] == Block(bs[i].addr + HEADER + size, false)
  {
    InsertAt(bs, i + 1, Block(bs[i].addr + HEADER + size, false))
  }

  function Shrink(bs: seq<Block>, i: nat, size: int): seq<Block>
    requires i < |bs|
  {
    Plug(Cut(bs, i, size), i + 1)
  }

  /* ------------------------------- tiling is kept ------------------------------- */

  lemma InsertSpaced(bs: seq<Block>, end: int, i: nat, b: Block)
    requires Spaced(bs, end) && Aligned(bs) && 0 < i <= |bs|
    requires bs[i - 1].addr + LEAST <= b.addr && b.addr + LEAST <= AddrAt(bs, end, i) && b.addr % ALIGN == 0
    ensures Spaced(InsertAt(bs, i, b), end) && Aligned(InsertAt(bs, i, b))
  {
    var cs := InsertAt(bs, i, b);
    forall k | 0 <= k < |cs| - 1
      ensures Gap(cs, k)
    {
      if k < i - 1 {
        assert Gap(bs, k);
      } else if k > i {
        assert Gap(bs, k - 1);
      }
    }
    AlignedEach(bs);
    AlignedEach(cs);
  }

  lemma RemoveSpaced(bs: seq<Block>, end: int, i: nat)
    requires Spaced(bs, end) && Aligned(bs) && 0 < i < |bs|
    ensures Spaced(RemoveAt(bs, i), end) && Aligned(RemoveAt(bs, i))
  {
    var cs := RemoveAt(bs, i);
    assert Gap(bs, i - 1) && (i < |bs| - 1 ==> Gap(bs, i));
    forall k | 0 <= k < |cs| - 1
      ensures Gap(cs, k)
    {
      if k < i - 1 {
        assert Gap(bs, k);
      } else if k >= i {
        assert Gap(bs, k + 1);
      }
    }
    AlignedEach(bs);
    AlignedEach(cs);
  }

  lemma SetSpaced(bs: seq<Block>, end: int, i: nat, u: bool)
    requires Spaced(bs, end) && Aligned(bs) && i < |bs|
    ensures var cs := bs[i := Block(bs[i].addr, u)]; Spaced(cs, end) && Aligned(cs)
  {
    var cs := bs[i := Block(bs[i].addr, u)];
    forall k | 0 <= k < |cs| - 1
      ensures Gap(cs, k)
    {
      assert Gap(bs, k);
    }
    AlignedEach(bs);
    AlignedEach(cs);
  }

  ghost predicate Multiple(a: int) {
    a % ALIGN == 0
  }

  lemma RestAligned(bs: seq<Block>, i: nat, need: int)
    requires Aligned(bs) && i < |bs| && need % ALIGN == 0
    ensures Multiple(bs[i].addr + HEADER + need)
  {
    AlignedEach(bs);
  }

  lemma OccupyTiles(bs: seq<Block>, end: int, need: int, i: nat)
    requires Tiles(bs, end) && i < |bs| && !bs[i].used
    requires need >= ALIGN && need % ALIGN == 0 && Payload(bs, end, i) >= need
    ensures Tiles(Occupy(bs, end, need, i), end)
  {
    OccupyPairs(bs, end, need, i);
    if Splits(bs, end, need, i) {
      RestAligned(bs, i, need);
      OccupySplitSpaced(bs, end, need, i);
    } else {
      SetSpaced(bs, end, i, true);
    }
  }

  lemma OccupySplitSpaced(bs: seq<Block>, end: int, need: int, i: nat)
    requires Spaced(bs, end) && Aligned(bs) && i < |bs| && Splits(bs, end, need, i)
    requires need >= ALIGN && Multiple(bs[i].addr + HEADER + need)
    ensures Spaced(Occupy(bs, end, need, i), end) && Aligned(Occupy(bs, end, need, i))
  {
    var cs := bs[i := Block(bs[i].addr, true)];
    assert Spaced(cs, end) && Aligned(cs) by {
      SetSpaced(bs, end, i, true);
    }
    InsertSpaced(cs, end, i + 1, Block(bs[i].addr + HEADER + need, false));
  }

  lemma PlugTiles(bs: seq<Block>, end: int, i: nat)
    requires Spaced(bs, end) && Aligned(bs) && NoFreePair(bs, i)
    requires i < |bs| && !bs[i].used
    ensures Tiles(Plug(bs, i), end)
  {
    var cs := bs;
    if i + 1 < |bs| && !bs[i + 1].used {
      RemoveSpaced(bs, end, i + 1);
      cs := RemoveAt(bs, i + 1);
    }
    PlugPairs(bs, i);
    if i > 0 && !cs[i - 1].used {
      RemoveSpaced(cs, end, i);
    }
  }

  lemma PlugPairs(bs: seq<Block>, i: nat)
    requires NoFreePair(bs, i) && i < |bs| && !bs[i].used
    ensures NoFreePair(Plug(bs, i), -1)
  {
    var cs := if i + 1 < |bs| && !bs[i + 1].used then RemoveAt(bs, i + 1) else bs;
    assert NoPairBut(cs, i - 1) by {
      PlugRightPairs(bs, i);
    }
    var ds := Plug(bs, i);
    forall k | 0 <= k < |ds| - 1
      ensures Pair(ds, k)
    {
      assert Pair(cs, if ds == cs || k < i - 1 then k else k + 1);
    }
  }

  // Only blocks k and k + 1 may both be free.
  ghost predicate NoPairBut(bs: seq<Block>, k: int) {
    forall j :: 0 <= j < |bs| - 1 && (j != k || bs[j].used) ==> Pair(bs, j)
  }

  lemma PlugRightPairs(bs: seq<Block>, i: nat)
    requires NoFreePair(bs, i) && i < |bs| && !bs[i].used
    ensures NoPairBut(if i + 1 < |bs| && !bs[i + 1].used then RemoveAt(bs, i + 1) else bs, i - 1)
  {
    if i + 1 < |bs| && !bs[i + 1].used {
      var cs := RemoveAt(bs, i + 1);
      forall k | 0 <= k < |cs| - 1 && (k != i - 1 || cs[k].used)
        ensures Pair(cs, k)
      {
        assert k != i - 1 ==> Pair(bs, if k < i then k else k + 1);
      }
    } else {
      forall k | 0 <= k < |bs| - 1 && (k != i - 1 || bs[k].used)
        ensures Pair(bs, k)
      {
        assert k != i && k != i - 1 ==> Pair(bs, k);
      }
    }
  }

  lemma OccupyPairs(bs: seq<Block>, end: int, need: int, i: nat)
    requires NoFreePair(bs, -1) && i < |bs| && !bs[i].used
    ensures NoFreePair(Occupy(bs, end, need, i), -1)
  {
    var cs := Occupy(bs, end, need, i);
    forall k | 0 <= k < |cs| - 1
      ensures Pair(cs, k)
    {
      if k < i {
        assert Pair(bs, k);
      } else if k > i + 1 {
        assert Pair(bs, k - (|cs| - |bs|));
      } else if k == i + 1 {
        if i < |bs| - 1 {
          assert Pair(bs, i);
        }
        if |cs| == |bs| {
          assert Pair(bs, k);
        }
      }
    }
  }

  lemma FreeInPlace(bs: seq<Block>, end: int, i: nat)
    requires Tiles(bs, end) && i < |bs|
    ensures var cs := bs[i := Block(bs[i].addr, false)]; Spaced(cs, end) && Aligned(cs) && NoFreePair(cs, i)
  {
    SetSpaced(bs, end, i, false);
    var cs := bs[i := Block(bs[i].addr, false)];
    forall k | 0 <= k < |cs| - 1 && k != i && k + 1 != i
      ensures Pair(cs, k)
    {
      assert Pair(bs, k);
    }
  }

  lemma ReleaseTiles(bs: seq<Block>, end: int, i: nat)
    requires Tiles(bs, end) && i < |bs| && bs[i].used
    ensures Tiles(Release(bs, i), end)
  {
    FreeInPlace(bs, end, i);
    PlugTiles(bs[i := Block(bs[i].addr, false)], end, i);
  }

  lemma CutSpaced(bs: seq<Block>, end: int, i: nat, size: int)
    requires Tiles(bs, end) && i < |bs| && bs[i].used
    requires ALIGN <= size && size % ALIGN == 0 && size + LEAST <= Payload(bs, end, i)
    ensures var cs := Cut(bs, i, size); Spaced(cs, end) && Aligned(cs) && NoFreePair(cs, i + 1)
  {
    AlignedEach(bs);
    InsertSpaced(bs, end, i + 1, Block(bs[i].addr + HEADER + size, false));
    var cs := Cut(bs, i, size);
    forall k | 0 <= k < |cs| - 1 && k != i + 1 && k + 1 != i + 1
      ensures Pair(cs, k)
    {
      if k < i {
        assert Pair(bs, k);
      } else {
        assert Pair(bs, k - 1);
      }
    }
  }

  lemma ShrinkTiles(bs: seq<Block>, end: int, i: nat, size: int)
    requires Tiles(bs, end) && i < |bs| && bs[i].used
    requires ALIGN <= size && size % ALIGN == 0 && size + LEAST <= Payload(bs, end, i)
    ensures Tiles(Shrink(bs, i, size), end)
  {
    CutSpaced(bs, end, i, size);
    PlugTiles(Cut(bs, i, size), end, i + 1);
  }

  // Blocks stand in the order of their addresses.
  lemma {:induction false} Ordered(bs: seq<Block>, end: int, i: nat, j: nat)
    requires Spaced(bs, end)
    requires i < j <= |bs|
    ensures bs[i].addr + LEAST <= AddrAt(bs, end, j)
    decreases j - i
  {
    assert i < |bs| - 1 ==> Gap(bs, i);
    if i + 1 < j {
      Ordered(bs, end, i + 1, j);
    }
  }

  /* ------------------------------- the accounting ------------------------------- */

  lemma {:induction false} UsedConcat(a: seq<Block>, b: seq<Block>, end: int)
    ensures UsedBytes(a + b, end) == UsedBytes(a, AddrAt(b, end, 0)) + UsedBytes(b, end)
    decreases |b|
  {
    if b == [] {
      assert a + b == a;
    } else {
      var n := |b| - 1;
      assert (a + b)[..|a| + n] == a + b[..n];
      UsedConcat(a, b[..n], b[n].addr);
    }
  }

  lemma UsedAround(bs: seq<Block>, end: int, i: nat)
    requires i < |bs|
    ensures UsedBytes(bs, end) == UsedBytes(bs[..i], bs[i].addr)
      + (if bs[i].used then AddrAt(bs, end, i + 1) - bs[i].addr else 0) + UsedBytes(bs[i + 1..], end)
  {
    assert bs == bs[..i + 1] + bs[i + 1..];
    UsedConcat(bs[..i + 1], bs[i + 1..], end);
    assert bs[..i + 1][..i] == bs[..i];
  }

  lemma UsedSet(bs: seq<Block>, end: int, i: nat, u: bool)
    requires i < |bs|
    ensures UsedBytes(bs[i := Block(bs[i].addr, u)], end) == UsedBytes(bs, end)
      + (if u then AddrAt(bs, end, i + 1) - bs[i].addr else 0) - (if bs[i].used then AddrAt(bs, end, i + 1) - bs[i].addr else 0)
  {
    var cs := bs[i := Block(bs[i].addr, u)];
    UsedAround(bs, end, i);
    UsedAround(cs, end, i);
    assert cs[..i] == bs[..i] && cs[i + 1..] == bs[i + 1..];
  }

  lemma UsedInsertFree(bs: seq<Block>, end: int, i: nat, a: int)
    requires 0 < i <= |bs|
    ensures UsedBytes(InsertAt(bs, i, Block(a, false)), end) ==
      UsedBytes(bs, end) - (if bs[i - 1].used then AddrAt(bs, end, i) - a else 0)
  {
    var cs := InsertAt(bs, i, Block(a, false));
    UsedAround(bs, end, i - 1);
    UsedAround(cs, end, i);
    assert cs[..i] == bs[..i] && cs[i + 1..] == bs[i..];
    assert bs[..i][..i - 1] == bs[..i - 1];
  }

  lemma UsedRemoveFree(bs: seq<Block>, end: int, i: nat)
    requires 0 < i < |bs| && !bs[i].used && !bs[i - 1].used
    ensures UsedBytes(RemoveAt(bs, i), end) == UsedBytes(bs, end)
  {
    var cs := RemoveAt(bs, i);
    assert InsertAt(cs, i, bs[i]) == bs;
    UsedInsertFree(cs, end, i, bs[i].addr);
  }

  lemma PlugUsed(bs: seq<Block>, end: int, i: nat)
    requires i < |bs| && !bs[i].used
    ensures UsedBytes(Plug(bs, i), end) == UsedBytes(bs, end)
  {
    if i + 1 < |bs| && !bs[i + 1].used {
      UsedRemoveFree(bs, end, i + 1);
    }
    var cs := if i + 1 < |bs| && !bs[i + 1].used then RemoveAt(bs, i + 1) else bs;
    if i > 0 && !cs[i - 1].used {
      UsedRemoveFree(cs, end, i);
    }
  }

  // Allocating, freeing and shrinking move the byte count by exactly the bytes concerned.
  lemma OccupyUsed(bs: seq<Block>, end: int, need: int, i: nat)
    requires i < |bs| && !bs[i].used
    ensures UsedBytes(Occupy(bs, end, need, i), end) ==
      UsedBytes(bs, end) + HEADER + (if Splits(bs, end, need, i) then need else Payload(bs, end, i))
  {
    var cs := bs[i := Block(bs[i].addr, true)];
    UsedSet(bs, end, i, true);
    assert AddrAt(cs, end, i + 1) == AddrAt(bs, end, i + 1);
    if Splits(bs, end, need, i) {
      UsedInsertFree(cs, end, i + 1, bs[i].addr + HEADER + need);
    }
  }

  lemma ReleaseUsed(bs: seq<Block>, end: int, i: nat)
    requires i < |bs| && bs[i].used
    ensures UsedBytes(Release(bs, i), end) == UsedBytes(bs, end) - HEADER - Payload(bs, end, i)
  {
    UsedSet(bs, end, i, false);
    PlugUsed(bs[i := Block(bs[i].addr, false)], end, i);
  }

  lemma ShrinkUsed(bs: seq<Block>, end: int, i: nat, size: int)
    requires i < |bs| && bs[i].used
    ensures UsedBytes(Shrink(bs, i, size), end) == UsedBytes(bs, end) - (Payload(bs, end, i) - size)
  {
    UsedInsertFree(bs, end, i + 1, bs[i].addr + HEADER + size);
    PlugUsed(Cut(bs, i, size), end, i + 1);
  }

  /* ------------------------------- the live extents ------------------------------- */

  // The payload of a used block: what a caller owns.
  datatype Extent = Extent(start: int, stop: int)

  // The payloads of the used blocks, lowest address first.
  function Live(bs: seq<Block>, end: int): seq<Extent>
    decreases |bs|
  {
    if bs == [] then []
    else
      var n := |bs| - 1;
      Live(bs[..n], bs[n].addr) + if bs[n].used then [Extent(bs[n].addr + HEADER, end)] else []
  }

  // The payloads below and above block i.
  function Below(bs: seq<Block>, i: nat): seq<Extent>
    requires i < |bs|
  {
    Live(bs[..i], bs[i].addr)
  }

  function Above(bs: seq<Block>, end: int, i: nat): seq<Extent>
    requires i < |bs|
  {
    Live(bs[i + 1..], end)
  }

  lemma {:induction false} LiveConcat(a: seq<Block>, b: seq<Block>, end: int)
    ensures Live(a + b, end) == Live(a, AddrAt(b, end, 0)) + Live(b, end)
    decreases |b|
  {
    if b == [] {
      assert a + b == a;
    } else {
      var n := |b| - 1;
      assert (a + b)[..|a| + n] == a + b[..n];
      LiveConcat(a, b[..n], b[n].addr);
    }
  }

  lemma LiveAround(bs: seq<Block>, end: int, i: nat)
    requires i < |bs|
    ensures Live(bs, end) == Below(bs, i)
      + (if bs[i].used then [Extent(bs[i].addr + HEADER, AddrAt(bs, end, i + 1))] else []) + Above(bs, end, i)
  {
    assert bs == bs[..i + 1] + bs[i + 1..];
    LiveConcat(bs[..i + 1], bs[i + 1..], end);
    LiveUpTo(bs, AddrAt(bs, end, i + 1), i);
  }

  lemma LiveUpTo(bs: seq<Block>, stop: int, i: nat)
    requires i < |bs|
    ensures Live(bs[..i + 1], stop) == Below(bs, i) + if bs[i].used then [Extent(bs[i].addr + HEADER, stop)] else []
  {
    assert bs[..i + 1][..i] == bs[..i];
  }

  lemma LiveOfSet(bs: seq<Block>, end: int, i: nat, u: bool)
    requires i < |bs|
    ensures var cs := bs[i := Block(bs[i].addr, u)];
      && Below(cs, i) == Below(bs, i) && Above(cs, end, i) == Above(bs, end, i)
      && Live(cs, end) == Below(bs, i)
        + (if u then [Extent(bs[i].addr + HEADER, AddrAt(bs, end, i + 1))] else []) + Above(bs, end, i)
  {
    var cs := bs[i := Block(bs[i].addr, u)];
    LiveAround(cs, end, i);
    assert cs[..i] == bs[..i] && cs[i + 1..] == bs[i + 1..];
  }

  // A free block behind block i only sets the end of what i owns.
  lemma LiveInsertFree(bs: seq<Block>, end: int, i: nat, a: int)
    requires i < |bs|
    ensures Live(InsertAt(bs, i + 1, Block(a, false)), end) ==
      Below(bs, i) + (if bs[i].used then [Extent(bs[i].addr + HEADER, a)] else []) + Above(bs, end, i)
  {
    var cs := InsertAt(bs, i + 1, Block(a, false));
    LiveAround(cs, end, i + 1);
    assert cs[..i + 1] == bs[..i + 1] && cs[i + 2..] == bs[i + 1..];
    assert bs[..i + 1][..i] == bs[..i];
  }

  lemma LiveRemoveFree(bs: seq<Block>, end: int, i: nat)
    requires 0 < i < |bs| && !bs[i].used && !bs[i - 1].used
    ensures Live(RemoveAt(bs, i), end) == Live(bs, end)
  {
    var cs := RemoveAt(bs, i);
    assert InsertAt(cs, i, bs[i]) == bs;
    LiveInsertFree(cs, end, i - 1, bs[i].addr);
    LiveAround(cs, end, i - 1);
  }

  lemma PlugLive(bs: seq<Block>, end: int, i: nat)
    requires i < |bs| && !bs[i].used
    ensures Live(Plug(bs, i), end) == Live(bs, end)
  {
    if i + 1 < |bs| && !bs[i + 1].used {
      LiveRemoveFree(bs, end, i + 1);
    }
    var cs := if i + 1 < |bs| && !bs[i + 1].used then RemoveAt(bs, i + 1) else bs;
    if i > 0 && !cs[i - 1].used {
      LiveRemoveFree(cs, end, i);
    }
  }

  // Allocating adds one extent of at least the size asked for, inside the chosen free block,
  // and leaves every other extent alone.
  lemma OccupyLive(bs: seq<Block>, end: int, need: int, i: nat)
    requires i < |bs| && !bs[i].used
    ensures Live(bs, end) == Below(bs, i) + Above(bs, end, i)
    ensures Live(Occupy(bs, end, need, i), end) == Below(bs, i)
      + [Extent(bs[i].addr + HEADER,
                if Splits(bs, end, need, i) then bs[i].addr + HEADER + need else AddrAt(bs, end, i + 1))]
      + Above(bs, end, i)
  {
    LiveAround(bs, end, i);
    LiveOfSet(bs, end, i, true);
    if Splits(bs, end, need, i) {
      LiveInsertFree(bs[i := Block(bs[i].addr, true)], end, i, bs[i].addr + HEADER + need);
    }
  }

  // What is handed out is as large as asked for, and larger only by what would not make a block of
  // its own; the rest of a larger block stays free.
  lemma GrantBounded(bs: seq<Block>, end: int, need: int, i: nat)
    requires i < |bs| && Payload(bs, end, i) >= need
    ensures var cs, was := Occupy(bs, end, need, i), Payload(bs, end, i);
      && i < |cs| && need <= Payload(cs, end, i) < need + HEADER + MIN
      && (was >= need + HEADER + MIN ==>
        Payload(cs, end, i) == need && i + 1 < |cs| && !cs[i + 1].used && Payload(cs, end, i + 1) == was - need - HEADER)
      && (was < need + HEADER + MIN ==> Payload(cs, end, i) == was && |cs| == |bs|)
  {
  }

  // The payload handed out for n bytes holds n bytes exactly when rounding n up does not wrap
  // around: above that bound the smallest payload is handed out instead.
  lemma GrantExact(bs: seq<Block>, end: int, n: Size, i: nat)
    requires Spaced(bs, end) && end + HEADER < WORD && i < |bs| && Payload(bs, end, i) >= Request(n)
    ensures var granted := if Splits(bs, end, Request(n), i) then Request(n) else Payload(bs, end, i);
      granted >= n <==> n <= WORD - ALIGN
  {
    AlignExact(n);
    InHeap(bs, end, i);
  }

  // Freeing takes away exactly the extent of the block.
  lemma ReleaseLive(bs: seq<Block>, end: int, i: nat)
    requires i < |bs| && bs[i].used
    ensures Live(bs, end) == Below(bs, i) + [Extent(bs[i].addr + HEADER, AddrAt(bs, end, i + 1))] + Above(bs, end, i)
    ensures Live(Release(bs, i), end) == Below(bs, i) + Above(bs, end, i)
  {
    LiveAround(bs, end, i);
    LiveOfSet(bs, end, i, false);
    PlugLive(bs[i := Block(bs[i].addr, false)], end, i);
  }

  // Shrinking keeps the start of the extent and moves its end.
  lemma ShrinkLive(bs: seq<Block>, end: int, i: nat, size: int)
    requires i < |bs| && bs[i].used
    ensures Live(Shrink(bs, i, size), end) ==
      Below(bs, i) + [Extent(bs[i].addr + HEADER, bs[i].addr + HEADER + size)] + Above(bs, end, i)
  {
    LiveInsertFree(bs, end, i, bs[i].addr + HEADER + size);
    PlugLive(Cut(bs, i, size), end, i + 1);
  }

  /* ------------------------------- what the extents determine ------------------------------- */

  // The live extents determine the whole row: what is free is merged as far as it goes.
  lemma {:induction false} LayoutDetermined(bs: seq<Block>, cs: seq<Block>, end: int)
    requires Spaced(bs, end) && NoFreePair(bs, -1)
    requires Spaced(cs, end) && NoFreePair(cs, -1)
    requires Live(bs, end) == Live(cs, end)
    ensures bs == cs
    decreases |bs|
  {
    var n, m := |bs| - 1, |cs| - 1;
    LastExtent(bs, end);
    LastExtent(cs, end);
    InHeap(bs, end, n);
    InHeap(cs, end, m);
    assert bs[n] == cs[m];
    assert bs == bs[..n] + [bs[n]] && cs == cs[..m] + [cs[m]];
    if n > 0 && m > 0 {
      SpacedPrefix(bs, end);
      SpacedPrefix(cs, end);
      var k := |Live(bs[..n], bs[n].addr)|;
      assert Live(bs, end)[..k] == Live(bs[..n], bs[n].addr) && Live(cs, end)[..k] == Live(cs[..m], cs[m].addr);
      LayoutDetermined(bs[..n], cs[..m], bs[n].addr);
    }
  }

  lemma SpacedPrefix(bs: seq<Block>, end: int)
    requires Spaced(bs, end) && |bs| >= 2
    ensures var n := |bs| - 1; Spaced(bs[..n], bs[n].addr) && (NoFreePair(bs, -1) ==> NoFreePair(bs[..n], -1))
  {
    var n := |bs| - 1;
    assert Gap(bs, n - 1);
    forall k | 0 <= k < n - 1
      ensures Gap(bs[..n], k) && (NoFreePair(bs, -1) ==> Pair(bs[..n], k))
    {
      assert Gap(bs, k);
      assert NoFreePair(bs, -1) ==> Pair(bs, k);
    }
  }

  lemma InHeap(bs: seq<Block>, end: int, i: nat)
    requires Spaced(bs, end) && i < |bs|
    ensures 0 <= bs[i].addr && bs[i].addr + LEAST <= AddrAt(bs, end, i + 1) <= end
    ensures i > 0 ==> bs[i].addr > 0
  {
    if i > 0 {
      Ordered(bs, end, 0, i);
    }
    Ordered(bs, end, i, i + 1);
    if i + 1 < |bs| {
      Ordered(bs, end, i + 1, |bs|);
    }
  }

  // The last extent tells where the last block is.
  lemma LastExtent(bs: seq<Block>, end: int)
    requires Spaced(bs, end) && NoFreePair(bs, -1)
    ensures var n := |bs| - 1;
      if bs[n].used then Live(bs, end) != [] && Live(bs, end)[|Live(bs, end)| - 1] == Extent(bs[n].addr + HEADER, end)
      else if n > 0 then Live(bs, end) != [] && Live(bs, end)[|Live(bs, end)| - 1].stop == bs[n].addr < end
      else Live(bs, end) == []
  {
    var n := |bs| - 1;
    if n > 0 && !bs[n].used {
      assert Pair(bs, n - 1);
      assert bs[..n][n - 1] == bs[n - 1];
    }
  }

  // Freeing a block right after allocating it restores the row.
  lemma ReleaseUndoesOccupy(bs: seq<Block>, end: int, need: int, i: nat)
    requires NoFreePair(bs, -1) && i < |bs| && !bs[i].used
    ensures Release(Occupy(bs, end, need, i), i) == bs
  {
    assert i < |bs| - 1 ==> Pair(bs, i);
    assert i > 0 ==> Pair(bs, i - 1);
    var cs := Occupy(bs, end, need, i);
    var ds := cs[i := Block(cs[i].addr, false)];
    if Splits(bs, end, need, i) {
      assert RemoveAt(ds, i + 1) == bs;
    } else {
      assert ds == bs;
    }
  }

  // A free block that is large enough is passed over only if it is the last one and would
  // be filled to the last byte.
  lemma PassedOver(bs: seq<Block>, end: int, need: int, i: nat)
    requires Tiles(bs, end) && i < |bs| && !bs[i].used && Payload(bs, end, i) >= need
    ensures Fits(bs, end, need, i) <==> !(i == |bs| - 1 && Payload(bs, end, i) == need)
  {
    if i + 1 < |bs| {
      Ordered(bs, end, i + 1, |bs|);
    }
  }

  // An allocation fails exactly when no free block is large enough, the last one counting
  // only if it leaves something over.
  lemma FailureExact(bs: seq<Block>, end: int, need: int)
    requires Tiles(bs, end)
    ensures FirstFit(bs, end, need, 0) == |bs| <==>
      forall i :: 0 <= i < |bs| && !bs[i].used ==>
        Payload(bs, end, i) < need || (i == |bs| - 1 && Payload(bs, end, i) == need)
  {
    forall i | 0 <= i < |bs| && !bs[i].used && Payload(bs, end, i) >= need
      ensures Fits(bs, end, need, i) <==> !(i == |bs| - 1 && Payload(bs, end, i) == need)
    {
      PassedOver(bs, end, need, i);
    }
  }

  // Extents in order, each ending a header before the next begins.
  ghost predicate Apart(l: seq<Extent>, end: int) {
    && (forall k :: 0 <= k < |l| ==> HEADER <= l[k].start <= l[k].stop <= end)
    && (forall j, k :: 0 <= j < k < |l| ==> l[j].stop + HEADER <= l[k].start)
  }

  lemma ApartAppend(l: seq<Extent>, a: int, end: int)
    requires Apart(l, a) && 0 <= a && a + HEADER <= end
    ensures Apart(l, end) && Apart(l + [Extent(a + HEADER, end)], end)
  {
  }

  // Live extents never overlap.
  lemma {:induction false} LiveApart(bs: seq<Block>, end: int)
    requires Spaced(bs, end)
    ensures Apart(Live(bs, end), end)
    decreases |bs|
  {
    var n := |bs| - 1;
    InHeap(bs, end, n);
    var m := Live(bs[..n], bs[n].addr);
    if n > 0 {
      SpacedPrefix(bs, end);
      LiveApart(bs[..n], bs[n].addr);
    } else {
      assert m == [];
    }
    ApartAppend(m, bs[n].addr, end);
    assert Live(bs, end) == if bs[n].used then m + [Extent(bs[n].addr + HEADER, end)] else m;
  }

  ghost predicate Avoids(l: seq<Extent>, from: int, to: int) {
    forall k :: 0 <= k < |l| ==> l[k].stop <= from || to <= l[k].start
  }

  // No live extent reaches into a free block.
  lemma {:induction false} LiveAvoids(bs: seq<Block>, end: int, i: nat)
    requires Spaced(bs, end) && i < |bs| && !bs[i].used
    ensures Avoids(Live(bs, end), bs[i].addr, AddrAt(bs, end, i + 1))
    decreases |bs|
  {
    var n := |bs| - 1;
    var m := Live(bs[..n], bs[n].addr);
    if n > 0 {
      SpacedPrefix(bs, end);
      LiveApart(bs[..n], bs[n].addr);
      if i < n {
        LiveAvoids(bs[..n], bs[n].addr, i);
        if i + 1 < n {
          Ordered(bs, end, i + 1, n);
        }
        assert Avoids(m, bs[i].addr, AddrAt(bs, end, i + 1));
      }
    } else {
      assert m == [];
    }
    assert Live(bs, end) == if bs[n].used then m + [Extent(bs[n].addr + HEADER, end)] else m;
  }

  // Nothing that is live after a shrink reaches into the header that the rest was given.
  lemma ShrinkAvoids(bs: seq<Block>, end: int, i: nat, size: int)
    requires Tiles(bs, end) && i < |bs| && bs[i].used
    requires ALIGN <= size && size % ALIGN == 0 && size + LEAST <= Payload(bs, end, i)
    ensures Live(Shrink(bs, i, size), end) == Live(Cut(bs, i, size), end)
    ensures var a := bs[i].addr + HEADER + size; Avoids(Live(Cut(bs, i, size), end), a, a + HEADER)
  {
    var cs := Cut(bs, i, size);
    CutSpaced(bs, end, i, size);
    PlugLive(cs, end, i + 1);
    LiveAvoids(cs, end, i + 1);
    Ordered(cs, end, i + 1, i + 2);
  }

  lemma FirstFitIs(bs: seq<Block>, end: int, need: int, k: nat)
    requires k <= |bs| && forall i :: 0 <= i < k ==> !Fits(bs, end, need, i)
    requires k < |bs| ==> Fits(bs, end, need, k)
    ensures FirstFit(bs, end, need, 0) == k
  {
  }

  lemma LowestFreeIs(bs: seq<Block>, k: nat)
    requires k <= |bs| && forall i :: 0 <= i < k ==> bs[i].used
    requires k < |bs| ==> !bs[k].used
    ensures LowestFree(bs, 0) == k
  {
  }

  // Occupying a block moves the lowest free block only if it was that block.
  lemma OccupyLowest(bs: seq<Block>, end: int, need: int, k: nat)
    requires Spaced(bs, end) && k < |bs| && !bs[k].used
    ensures var f := LowestFree(bs, 0); var cs := Occupy(bs, end, need, k);
      && f <= k
      && (bs[k].addr == bs[f].addr <==> k == f)
      && (k == f ==> forall j :: 0 <= j < k ==> cs[j].used)
      && (k != f ==> LowestFree(cs, 0) == f && AddrAt(cs, end, f) == bs[f].addr)
  {
    var f := LowestFree(bs, 0);
    var cs := Occupy(bs, end, need, k);
    if f < k {
      Ordered(bs, end, f, k);
      LowestFreeIs(cs, f);
    }
  }

  // A block that becomes free at position i is the lowest one unless one below it is free.
  lemma LowestAfterFreeing(bs: seq<Block>, end: int, cs: seq<Block>, i: nat)
    requires Spaced(bs, end) && i < |cs| && !cs[i].used && i <= |bs|
    requires forall j :: 0 <= j < i ==> cs[j] == bs[j]
    requires cs[i].addr <= AddrAt(bs, end, i) && (i > 0 ==> bs[i - 1].addr < cs[i].addr)
    requires cs[i].addr == AddrAt(bs, end, i) ==> i < |bs| && bs[i].used
    ensures var f := LowestFree(bs, 0);
      LowestFree(cs, 0) == (if f < i then f else i)
      && (f < i <==> AddrAt(bs, end, f) <= cs[i].addr)
      && AddrAt(cs, end, LowestFree(cs, 0)) == (if cs[i].addr < AddrAt(bs, end, f) then cs[i].addr else AddrAt(bs, end, f))
  {
    var f := LowestFree(bs, 0);
    if f < i {
      LowestFreeIs(cs, f);
      if f < i - 1 {
        Ordered(bs, end, f, i - 1);
      }
    } else {
      LowestFreeIs(cs, i);
      if i < f {
        Ordered(bs, end, i, f);
      }
    }
  }

  lemma RemoveLowest(bs: seq<Block>, end: int, i: nat)
    requires Spaced(bs, end) && 0 < i < |bs| && !bs[i].used && !bs[i - 1].used
    ensures LowestFree(RemoveAt(bs, i), 0) == LowestFree(bs, 0) <= i - 1
    ensures AddrAt(RemoveAt(bs, i), end, LowestFree(bs, 0)) == AddrAt(bs, end, LowestFree(bs, 0))
    ensures AddrAt(bs, end, LowestFree(bs, 0)) <= bs[i - 1].addr < bs[i].addr
  {
    var f := LowestFree(bs, 0);
    assert Gap(bs, i - 1);
    LowestFreeIs(RemoveAt(bs, i), f);
    if f < i - 1 {
      Ordered(bs, end, f, i - 1);
    }
  }

  // Where a used block stands after another block has been occupied.
  lemma OccupyBeside(bs: seq<Block>, end: int, need: int, k: nat, i: nat) returns (j: nat)
    requires i < |bs| && k < |bs| && i != k
    ensures var cs := Occupy(bs, end, need, k); j < |cs| && cs[j] == bs[i]
  {
    j := if Splits(bs, end, need, k) && k < i then i + 1 else i;
  }

  // Two different blocks do not overlap.
  lemma BlocksApart(bs: seq<Block>, end: int, k: nat, i: nat)
    requires Spaced(bs, end) && i < |bs| && k < |bs| && i != k
    ensures AddrAt(bs, end, k + 1) <= bs[i].addr || AddrAt(bs, end, i + 1) <= bs[k].addr
  {
    if k + 1 < i {
      Ordered(bs, end, k + 1, i);
    } else if i + 1 < k {
      Ordered(bs, end, i + 1, k);
    }
  }

  // A used block's payload is one of the live extents.
  lemma LiveHas(bs: seq<Block>, end: int, i: nat) returns (m: nat)
    requires i < |bs| && bs[i].used
    ensures m < |Live(bs, end)| && Live(bs, end)[m] == Extent(bs[i].addr + HEADER, AddrAt(bs, end, i + 1))
  {
    LiveAround(bs, end, i);
    m := |Below(bs, i)|;
  }
}
