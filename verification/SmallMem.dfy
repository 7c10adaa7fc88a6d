/** The small-memory heap itself: headers linked through offsets, the pointer to the lowest
  free block, the byte counters, and the bytes that callers see.
 */
module SmallMem {
  import opened Seqs
  import opened Sizes
  import opened SmallMemLayout

  type Byte = bv8

  // The fields of a header; next and prev are offsets.
  datatype Header = Header(used: bool, next: int, prev: int)

  ghost predicate HeaderOk(hdr: map<int, Header>, bs: seq<Block>, end: int, i: nat)
    requires i < |bs|
  {
    && bs[i].addr in hdr
    && hdr[bs[i].addr] == Header(bs[i].used, AddrAt(bs, end, i + 1), if i == 0 then 0 else bs[i - 1].addr)
  }

  // The headers of the row, and of the sentinel behind it. The back link of the sentinel is
  // not kept up to date.
  ghost predicate Stored(hdr: map<int, Header>, bs: seq<Block>, end: int) {
    && (forall i :: 0 <= i < |bs| ==> HeaderOk(hdr, bs, end, i))
    && end in hdr && hdr[end].used && hdr[end].next == end
  }

  // Changing the used flag of block i.
  lemma StoredSet(hdr: map<int, Header>, bs: seq<Block>, end: int, i: nat, u: bool)
    requires Stored(hdr, bs, end) && Spaced(bs, end) && i < |bs|
    ensures bs[i].addr in hdr && Stored(hdr[bs[i].addr := hdr[bs[i].addr].(used := u)], bs[i := Block(bs[i].addr, u)], end)
  {
    assert HeaderOk(hdr, bs, end, i);
    var cs := bs[i := Block(bs[i].addr, u)];
    var h := hdr[bs[i].addr := hdr[bs[i].addr].(used := u)];
    Ordered(bs, end, i, |bs|);
    forall k | 0 <= k < |cs|
      ensures HeaderOk(h, cs, end, k)
    {
      assert HeaderOk(hdr, bs, end, k);
      if k < i {
        Ordered(bs, end, k, i);
      } else if k > i {
        Ordered(bs, end, i, k);
      }
    }
  }

  // The headers after linking a new block in before position i.
  function LinkIn(hdr: map<int, Header>, bs: seq<Block>, end: int, i: nat, b: Block): map<int, Header>
    requires 0 < i <= |bs| && bs[i - 1].addr in hdr && AddrAt(bs, end, i) in hdr
  {
    var next := AddrAt(bs, end, i);
    var h := hdr[b.addr := Header(b.used, next, bs[i - 1].addr)][bs[i - 1].addr := hdr[bs[i - 1].addr].(next := b.addr)];
    if next != end then h[next := hdr[next].(prev := b.addr)] else h
  }

  lemma StoredInsert(hdr: map<int, Header>, bs: seq<Block>, end: int, i: nat, b: Block)
    requires Stored(hdr, bs, end) && Spaced(bs, end) && 0 < i <= |bs|
    requires bs[i - 1].addr < b.addr < AddrAt(bs, end, i)
    ensures bs[i - 1].addr in hdr && AddrAt(bs, end, i) in hdr
    ensures Stored(LinkIn(hdr, bs, end, i, b), InsertAt(bs, i, b), end)
  {
    assert HeaderOk(hdr, bs, end, i - 1);
    assert i < |bs| ==> HeaderOk(hdr, bs, end, i);
    if i < |bs| {
      Ordered(bs, end, i, |bs|);
    }
    forall k | 0 <= k < |bs| + 1
      ensures HeaderOk(LinkIn(hdr, bs, end, i, b), InsertAt(bs, i, b), end, k)
    {
      if k < i - 1 {
        StoredInsertBelow(hdr, bs, end, i, b, k);
      } else if k > i {
        StoredInsertAbove(hdr, bs, end, i, b, k);
      }
    }
  }

  lemma StoredInsertBelow(hdr: map<int, Header>, bs: seq<Block>, end: int, i: nat, b: Block, k: nat)
    requires Stored(hdr, bs, end) && Spaced(bs, end) && k + 1 < i <= |bs|
    requires bs[i - 1].addr < b.addr < AddrAt(bs, end, i)
    requires bs[i - 1].addr in hdr && AddrAt(bs, end, i) in hdr
    ensures HeaderOk(LinkIn(hdr, bs, end, i, b), InsertAt(bs, i, b), end, k)
  {
    assert HeaderOk(hdr, bs, end, k);
    Ordered(bs, end, k, i - 1);
  }

  lemma StoredInsertAbove(hdr: map<int, Header>, bs: seq<Block>, end: int, i: nat, b: Block, k: nat)
    requires Stored(hdr, bs, end) && Spaced(bs, end) && 0 < i < k <= |bs|
    requires bs[i - 1].addr < b.addr < AddrAt(bs, end, i)
    requires bs[i - 1].addr in hdr && AddrAt(bs, end, i) in hdr
    ensures HeaderOk(LinkIn(hdr, bs, end, i, b), InsertAt(bs, i, b), end, k)
  {
    assert HeaderOk(hdr, bs, end, k - 1);
    Ordered(bs, end, k - 1, |bs|);
    if i < k - 1 {
      Ordered(bs, end, i, k - 1);
    }
  }

  // The headers after the block before position i has taken over block i.
  function LinkOut(hdr: map<int, Header>, bs: seq<Block>, end: int, i: nat): map<int, Header>
    requires 0 < i < |bs| && bs[i - 1].addr in hdr && AddrAt(bs, end, i + 1) in hdr
  {
    var next := AddrAt(bs, end, i + 1);
    hdr[bs[i - 1].addr := hdr[bs[i - 1].addr].(next := next)][next := hdr[next].(prev := bs[i - 1].addr)]
  }

  lemma StoredRemove(hdr: map<int, Header>, bs: seq<Block>, end: int, i: nat)
    requires Stored(hdr, bs, end) && Spaced(bs, end) && 0 < i < |bs|
    ensures bs[i - 1].addr in hdr && AddrAt(bs, end, i + 1) in hdr
    ensures Stored(LinkOut(hdr, bs, end, i), RemoveAt(bs, i), end)
  {
    assert HeaderOk(hdr, bs, end, i - 1) && HeaderOk(hdr, bs, end, i);
    assert i + 1 < |bs| ==> HeaderOk(hdr, bs, end, i + 1);
    Ordered(bs, end, i - 1, i + 1);
    Ordered(bs, end, i - 1, |bs|);
    forall k | 0 <= k < |bs| - 1
      ensures HeaderOk(LinkOut(hdr, bs, end, i), RemoveAt(bs, i), end, k)
    {
      if k < i - 1 {
        StoredRemoveBelow(hdr, bs, end, i, k);
      } else if k >= i {
        StoredRemoveAbove(hdr, bs, end, i, k);
      }
    }
  }

  lemma StoredRemoveAbove(hdr: map<int, Header>, bs: seq<Block>, end: int, i: nat, k: nat)
    requires Stored(hdr, bs, end) && Spaced(bs, end) && 0 < i <= k < |bs| - 1
    requires bs[i - 1].addr in hdr && AddrAt(bs, end, i + 1) in hdr
    ensures HeaderOk(LinkOut(hdr, bs, end, i), RemoveAt(bs, i), end, k)
  {
    assert HeaderOk(hdr, bs, end, k + 1);
    Ordered(bs, end, i - 1, k + 1);
    if i < k {
      Ordered(bs, end, i + 1, k + 1);
    }
  }

  lemma StoredRemoveBelow(hdr: map<int, Header>, bs: seq<Block>, end: int, i: nat, k: nat)
    requires Stored(hdr, bs, end) && Spaced(bs, end) && k + 1 < i < |bs|
    requires bs[i - 1].addr in hdr && AddrAt(bs, end, i + 1) in hdr
    ensures HeaderOk(LinkOut(hdr, bs, end, i), RemoveAt(bs, i), end, k)
  {
    assert HeaderOk(hdr, bs, end, k);
    Ordered(bs, end, k, i - 1);
    Ordered(bs, end, i - 1, i + 1);
  }

  // The bytes of the extents l are the same before and after.
  ghost predicate Kept(before: seq<Byte>, after: seq<Byte>, l: seq<Extent>) {
    && |after| == |before|
    && forall k, x :: 0 <= k < |l| && 0 <= x < |after| && l[k].start <= x < l[k].stop ==> after[x] == before[x]
  }

  ghost predicate SamePiece(before: seq<Byte>, p: int, after: seq<Byte>, q: int, n: int) {
    0 <= n && 0 <= p && 0 <= q && p + n <= |before| && q + n <= |after| && after[q..q + n] == before[p..p + n]
  }

  // A piece of one of the extents is among what is kept.
  lemma KeptPiece(before: seq<Byte>, after: seq<Byte>, l: seq<Extent>, m: nat, p: int, n: int)
    requires Kept(before, after, l) && m < |l| && 0 <= n && 0 <= p && p + n <= |after|
    requires l[m].start <= p && p + n <= l[m].stop
    ensures |after| == |before| && after[p..p + n] == before[p..p + n]
  {
    assert forall x :: p <= x < p + n ==> after[x] == before[x];
  }

  // Some extent of l covers x.
  ghost predicate Owns(l: seq<Extent>, x: int) {
    exists k :: 0 <= k < |l| && l[k].start <= x < l[k].stop
  }

  ghost predicate SameOutside(before: seq<Byte>, after: seq<Byte>, a: int, b: int) {
    |after| == |before| && forall x :: 0 <= x < |after| && !(a <= x < b) ==> after[x] == before[x]
  }

  lemma AvoidedKeeps(before: seq<Byte>, after: seq<Byte>, l: seq<Extent>, a: int, b: int)
    requires SameOutside(before, after, a, b) && Avoids(l, a, b)
    ensures Kept(before, after, l)
  {
    forall k, x | 0 <= k < |l| && 0 <= x < |after| && l[k].start <= x < l[k].stop
      ensures after[x] == before[x]
    {
      assert l[k].stop <= a || b <= l[k].start;
    }
  }

  // The bytes that are covered both by l and by m are the same.
  ghost predicate KeptBoth(before: seq<Byte>, after: seq<Byte>, l: seq<Extent>, m: seq<Extent>) {
    && |after| == |before|
    && forall x :: 0 <= x < |after| && Owns(l, x) && Owns(m, x) ==> after[x] == before[x]
  }

  lemma OwnedKept(before: seq<Byte>, after: seq<Byte>, l: seq<Extent>, m: seq<Extent>)
    requires Kept(before, after, l) || Kept(before, after, m)
    ensures KeptBoth(before, after, l, m)
  {
  }

  class SmallHeap {
    const size: int  // mem_size_aligned
    var hdr: map<int, Header>
    var bytes: seq<Byte>
    var lfree: int
    var usedMem: int
    var maxMem: int
    ghost var blocks: seq<Block>

    function End(): int {
      size + HEADER
    }

    ghost predicate Valid()
      reads this
    {
      && MIN <= size && size % ALIGN == 0 && size + 2 * HEADER < WORD
      && |bytes| == size + 2 * HEADER
      && Tiles(blocks, End())
      && Stored(hdr, blocks, End())
      && lfree == AddrAt(blocks, End(), LowestFree(blocks, 0))
      && usedMem == UsedBytes(blocks, End()) <= maxMem
    }

    // The bytes that callers own in the extents l have not changed.
    twostate predicate KeepsBytes(l: seq<Extent>)
      reads this
    {
      Kept(old(bytes), bytes, l)
    }

    // Only the bytes from a up to b may have changed.
    twostate predicate KeepsOutside(a: int, b: int)
      reads this
    {
      SameOutside(old(bytes), bytes, a, b)
    }

    // rt_system_heap_init, for a region that leaves size bytes between its two headers.
    constructor (size: int)
      requires MIN <= size && size % ALIGN == 0 && size + 2 * HEADER < WORD
      ensures Valid() && this.size == size && blocks == [Block(0, false)]
    {
      this.size := size;
      hdr := map[0 := Header(false, size + HEADER, 0), size + HEADER := Header(true, size + HEADER, size + HEADER)];
      bytes := seq(size + 2 * HEADER, _ => 0);
      lfree, usedMem, maxMem := 0, 0, 0;
      blocks := [Block(0, false)];
    }

    // The block that an allocation of n bytes takes, if there is one.
    ghost function Choice(n: Size): Option<nat>
      reads this
    {
      var k := FirstFit(blocks, End(), Request(n), 0);
      if n == 0 || Align(n) > size || k == |blocks| then None else Some(k)
    }

    // Block i is free and large enough, and something is left over of the last one.
    ghost predicate Suits(need: int, i: nat)
      requires i < |blocks|
      reads this
    {
      !blocks[i].used && (Payload(blocks, End(), i) > need || (Payload(blocks, End(), i) == need && i + 1 < |blocks|))
    }

    // An allocation takes the lowest block that suits, and fails exactly if none does or nothing is
    // asked for.
    lemma ChoiceExact(n: Size)
      requires Valid()
      ensures Choice(n).None? <==> n == 0 || forall i :: 0 <= i < |blocks| ==> !Suits(Request(n), i)
      ensures Choice(n).Some? ==>
        var k := Choice(n).value; k < |blocks| && Suits(Request(n), k) && forall j :: 0 <= j < k ==> !Suits(Request(n), j)
    {
      forall i | 0 <= i < |blocks|
        ensures Suits(Request(n), i) <==> Fits(blocks, End(), Request(n), i)
        ensures Payload(blocks, End(), i) <= size
      {
        InHeap(blocks, End(), i);
        if !blocks[i].used && Payload(blocks, End(), i) >= Request(n) {
          PassedOver(blocks, End(), Request(n), i);
        }
      }
      RequestExact(n);
    }

    // A new header overwrites the bytes it stands on.
    method MakeHeader(a: int, h: Header)
      requires 0 <= a && a + HEADER <= |bytes|
      modifies this`hdr, this`bytes
      ensures hdr == old(hdr)[a := h]
      ensures KeepsOutside(a, a + HEADER)
    {
      hdr := hdr[a := h];
      assert |seq(HEADER, _ => 0 as Byte)| == HEADER;
      var junk: seq<Byte> :| |junk| == HEADER;
      bytes := bytes[..a] + junk + bytes[a + HEADER..];
    }

    // Cuts block k after need bytes of payload; what follows becomes a free block.
    method SplitBlock(ptr: int, need: int, ghost k: nat)
      requires Tiles(blocks, End()) && Stored(hdr, blocks, End()) && |bytes| == size + 2 * HEADER
      requires k < |blocks| && blocks[k].addr == ptr
      requires 0 <= need && need + HEADER <= Payload(blocks, End(), k)
      modifies this`hdr, this`bytes, this`blocks
      ensures blocks == InsertAt(old(blocks), k + 1, Block(ptr + HEADER + need, false))
      ensures Stored(hdr, blocks, End())
      ensures KeepsOutside(ptr + HEADER + need, ptr + HEADER + need + HEADER)
    {
      assert HeaderOk(hdr, blocks, End(), k);
      InHeap(blocks, End(), k);
      var ptr2 := ptr + HEADER + need;
      ghost var b := Block(ptr2, false);
      StoredInsert(hdr, blocks, End(), k + 1, b);
      var next := hdr[ptr].next;
      MakeHeader(ptr2, Header(false, next, ptr));
      hdr := hdr[ptr := hdr[ptr].(next := ptr2)];
      if next != size + HEADER {
        hdr := hdr[next := hdr[next].(prev := ptr2)];
      }
      assert hdr == LinkIn(old(hdr), blocks, End(), k + 1, b);
      blocks := InsertAt(blocks, k + 1, b);
    }

    // Gives block k, which is free and large enough, to a caller; taken is its span.
    method TakeBlock(ptr: int, need: int, ghost k: nat) returns (taken: int)
      requires Valid() && k < |blocks| && blocks[k].addr == ptr
      requires ALIGN <= need && need % ALIGN == 0 && Fits(blocks, End(), need, k)
      modifies this`hdr, this`bytes, this`blocks
      ensures Tiles(blocks, End()) && Stored(hdr, blocks, End())
      ensures blocks == Occupy(old(blocks), End(), need, k)
      ensures taken == UsedBytes(blocks, End()) - old(UsedBytes(blocks, End()))
      ensures old(!Splits(blocks, End(), need, k)) ==> bytes == old(bytes)
      ensures KeepsOutside(ptr + HEADER + need, ptr + HEADER + need + HEADER)
    {
      OccupyUsed(blocks, End(), need, k);
      assert HeaderOk(hdr, blocks, End(), k);
      taken := hdr[ptr].next - ptr;
      assert taken == Payload(blocks, End(), k) + HEADER;
      if taken - HEADER >= need + HEADER + MIN {
        taken := need + HEADER;
        TakeFront(ptr, need, k);
      } else {
        OccupyTiles(blocks, End(), need, k);
        Mark(ptr, true, k);
      }
    }

    method TakeFront(ptr: int, need: int, ghost k: nat)
      requires Valid() && k < |blocks| && blocks[k].addr == ptr
      requires ALIGN <= need && need % ALIGN == 0 && !blocks[k].used && Splits(blocks, End(), need, k)
      modifies this`hdr, this`bytes, this`blocks
      ensures Tiles(blocks, End()) && Stored(hdr, blocks, End())
      ensures blocks == Occupy(old(blocks), End(), need, k)
      ensures KeepsOutside(ptr + HEADER + need, ptr + HEADER + need + HEADER)
    {
      OccupyTiles(blocks, End(), need, k);
      OccupyBySplitting(blocks, End(), need, k);
      AlignedEach(blocks);
      InsertSpaced(blocks, End(), k + 1, Block(ptr + HEADER + need, false));
      SplitBlock(ptr, need, k);
      Mark(ptr, true, k);
    }

    // Writes the used flag of block k.
    method Mark(ptr: int, u: bool, ghost k: nat)
      requires Stored(hdr, blocks, End()) && Spaced(blocks, End()) && k < |blocks| && blocks[k].addr == ptr
      modifies this`hdr, this`blocks
      ensures Stored(hdr, blocks, End()) && blocks == old(blocks)[k := Block(ptr, u)]
    {
      assert HeaderOk(hdr, blocks, End(), k);
      StoredSet(hdr, blocks, End(), k, u);
      hdr := hdr[ptr := hdr[ptr].(used := u)];
      blocks := blocks[k := Block(ptr, u)];
    }

    // Moves lfree on from a block that has just been taken.
    method AdvanceLfree(ghost k: nat)
      requires Tiles(blocks, End()) && Stored(hdr, blocks, End())
      requires k < |blocks| && lfree == blocks[k].addr && forall j :: 0 <= j < k ==> blocks[j].used
      modifies this`lfree
      ensures lfree == AddrAt(blocks, End(), LowestFree(blocks, 0))
    {
      ghost var i := k;
      assert HeaderOk(hdr, blocks, End(), k);
      while hdr[lfree].used && lfree != size + HEADER
        invariant i <= |blocks| && lfree == AddrAt(blocks, End(), i)
        invariant lfree in hdr && (i < |blocks| ==> HeaderOk(hdr, blocks, End(), i))
        invariant forall j :: 0 <= j < i ==> blocks[j].used
        decreases |blocks| - i
      {
        assert i + 1 < |blocks| ==> HeaderOk(hdr, blocks, End(), i + 1);
        lfree := hdr[lfree].next;
        i := i + 1;
      }
      if i < |blocks| {
        Ordered(blocks, End(), i, |blocks|);
      }
      LowestFreeIs(blocks, i);
    }

    // The search of rt_malloc: from the lowest free block to the first one that fits.
    method Search(need: int) returns (ptr: int, ghost k: nat)
      requires Valid() && MIN <= need <= size
      ensures k == FirstFit(blocks, End(), need, 0)
      ensures if k < |blocks| then ptr == blocks[k].addr else ptr == -1
    {
      ptr := lfree;
      k := LowestFree(blocks, 0);
      while ptr < size - need
        invariant k <= |blocks| && ptr == AddrAt(blocks, End(), k)
        invariant forall j :: 0 <= j < k ==> !Fits(blocks, End(), need, j)
        decreases |blocks| - k
      {
        assert HeaderOk(hdr, blocks, End(), k);
        var mem := hdr[ptr];
        if !mem.used && mem.next - (ptr + HEADER) >= need {
          FirstFitIs(blocks, End(), need, k);
          return;
        }
        ptr := mem.next;
        k := k + 1;
      }
      forall j | k <= j < |blocks|
        ensures !Fits(blocks, End(), need, j)
      {
        if k < j {
          Ordered(blocks, End(), k, j);
        }
      }
      FirstFitIs(blocks, End(), need, |blocks|);
      ptr, k := -1, |blocks|;
    }

    method Malloc(n: Size) returns (r: Option<int>)
      requires Valid()
      modifies this
      ensures Valid()
      ensures match old(Choice(n))
        case None => r == None && unchanged(this)
        case Some(k) => r == Some(old(blocks)[k].addr + HEADER) && blocks == Occupy(old(blocks), End(), Request(n), k)
      ensures maxMem == if old(maxMem) < usedMem then usedMem else old(maxMem)
      ensures KeepsBytes(old(Live(blocks, End())))
    {
      if n == 0 || Align(n) > size {
        return None;
      }
      var need := Request(n);
      var ptr, k := Search(need);
      if k < |blocks| {
        InHeap(blocks, End(), k);
      }
      if ptr == -1 {
        return None;
      }
      TakeAndAdvance(ptr, need, k);
      r := Some(ptr + HEADER);
    }

    method TakeAndAdvance(ptr: int, need: int, ghost k: nat)
      requires Valid() && k < |blocks| && blocks[k].addr == ptr
      requires ALIGN <= need && need % ALIGN == 0 && Fits(blocks, End(), need, k)
      modifies this
      ensures Valid() && blocks == Occupy(old(blocks), End(), need, k)
      ensures maxMem == if old(maxMem) < usedMem then usedMem else old(maxMem)
      ensures KeepsBytes(old(Live(blocks, End())))
    {
      LiveAvoids(blocks, End(), k);
      ghost var l, stop := Live(blocks, End()), AddrAt(blocks, End(), k + 1);
      assert Avoids(l, ptr, stop);
      OccupyLowest(blocks, End(), need, k);
      var isLowest := ptr == lfree;
      var taken := TakeBlock(ptr, need, k);
      usedMem := usedMem + taken;
      if maxMem < usedMem {
        maxMem := usedMem;
      }
      forall m, x | 0 <= m < |l| && 0 <= x < |bytes| && l[m].start <= x < l[m].stop
        ensures bytes[x] == old(bytes[x])
      {
        assert l[m].stop <= ptr || stop <= l[m].start;
      }
      if isLowest {
        AdvanceLfree(k);
      }
    }
  
    // The block at mem, just before position i, takes over block i, which ends at next.
    method TakeOver(mem: int, next: int, ghost i: nat)
      requires Spaced(blocks, End()) && Stored(hdr, blocks, End())
      requires 0 < i < |blocks| && blocks[i - 1].addr == mem && AddrAt(blocks, End(), i + 1) == next
      modifies this`hdr, this`blocks
      ensures blocks == RemoveAt(old(blocks), i) && Stored(hdr, blocks, End())
    {
      StoredRemove(hdr, blocks, End(), i);
      ghost var h := LinkOut(hdr, blocks, End(), i);
      Ordered(blocks, End(), i - 1, i + 1);
      hdr := hdr[mem := hdr[mem].(next := next)];
      hdr := hdr[next := hdr[next].(prev := mem)];
      assert hdr == h;
      blocks := RemoveAt(blocks, i);
    }

    // plug_holes, forward half: block i takes over a free right neighbour.
    method PlugForward(mem: int, ghost i: nat)
      requires Spaced(blocks, End()) && Aligned(blocks) && Stored(hdr, blocks, End())
      requires lfree == AddrAt(blocks, End(), LowestFree(blocks, 0))
      requires i < |blocks| && blocks[i].addr == mem && !blocks[i].used
      modifies this`hdr, this`lfree, this`blocks
      ensures blocks == (if i + 1 < |old(blocks)| && !old(blocks)[i + 1].used then RemoveAt(old(blocks), i + 1) else old(blocks))
      ensures Spaced(blocks, End()) && Aligned(blocks) && Stored(hdr, blocks, End())
      ensures lfree == AddrAt(blocks, End(), LowestFree(blocks, 0))
    {
      assert HeaderOk(hdr, blocks, End(), i);
      assert i + 1 < |blocks| ==> HeaderOk(hdr, blocks, End(), i + 1);
      Ordered(blocks, End(), i, i + 1);
      if i + 1 < |blocks| {
        Ordered(blocks, End(), i + 1, |blocks|);
      }
      var nmem := hdr[mem].next;
      if mem != nmem && !hdr[nmem].used && nmem != size + HEADER {
        RemoveSpaced(blocks, End(), i + 1);
        RemoveLowest(blocks, End(), i + 1);
        lfree := if lfree == nmem then mem else lfree;
        TakeOver(mem, hdr[nmem].next, i + 1);
      }
    }

    // plug_holes, backward half: a free left neighbour takes over block i.
    method PlugBackward(mem: int, ghost i: nat)
      requires Spaced(blocks, End()) && Aligned(blocks) && Stored(hdr, blocks, End())
      requires lfree == AddrAt(blocks, End(), LowestFree(blocks, 0))
      requires i < |blocks| && blocks[i].addr == mem && !blocks[i].used
      modifies this`hdr, this`lfree, this`blocks
      ensures blocks == (if i > 0 && !old(blocks)[i - 1].used then RemoveAt(old(blocks), i) else old(blocks))
      ensures Stored(hdr, blocks, End())
      ensures lfree == AddrAt(blocks, End(), LowestFree(blocks, 0))
    {
      assert HeaderOk(hdr, blocks, End(), i);
      assert i > 0 ==> HeaderOk(hdr, blocks, End(), i - 1) && Gap(blocks, i - 1);
      var pmem := hdr[mem].prev;
      if pmem != mem && !hdr[pmem].used {
        RemoveLowest(blocks, End(), i);
        lfree := if lfree == mem then pmem else lfree;
        TakeOver(pmem, hdr[mem].next, i);
      }
    }

    method PlugHoles(mem: int, ghost i: nat)
      requires Spaced(blocks, End()) && Aligned(blocks) && NoFreePair(blocks, i) && Stored(hdr, blocks, End())
      requires lfree == AddrAt(blocks, End(), LowestFree(blocks, 0))
      requires i < |blocks| && blocks[i].addr == mem && !blocks[i].used
      modifies this`hdr, this`lfree, this`blocks
      ensures blocks == Plug(old(blocks), i)
      ensures Tiles(blocks, End()) && Stored(hdr, blocks, End())
      ensures lfree == AddrAt(blocks, End(), LowestFree(blocks, 0))
    {
      PlugTiles(blocks, End(), i);
      PlugForward(mem, i);
      PlugBackward(mem, i);
    }

    // A pointer handed out and not yet returned.
    ghost predicate Owned(p: int)
      reads this
    {
      exists i :: 0 <= i < |blocks| && blocks[i].used && blocks[i].addr + HEADER == p
    }

    ghost function BlockOf(p: int): (i: nat)
      requires Owned(p)
      reads this
      ensures i < |blocks| && blocks[i].used && blocks[i].addr + HEADER == p
    {
      var i :| 0 <= i < |blocks| && blocks[i].used && blocks[i].addr + HEADER == p;
      i
    }

    predicate OutOfRange(rmem: Option<int>) {
      rmem.Some? && (rmem.value < 0 || rmem.value >= size + HEADER)
    }

    // What a caller owns is never taken for being outside the heap.
    lemma OwnedInRange(p: int)
      requires Valid() && Owned(p)
      ensures HEADER <= p < size + HEADER && !OutOfRange(Some(p))
    {
      InHeap(blocks, End(), BlockOf(p));
    }

    method Free(rmem: Option<int>)
      requires Valid()
      requires rmem.None? || OutOfRange(rmem) || Owned(rmem.value)
      modifies this
      ensures Valid() && maxMem == old(maxMem) && bytes == old(bytes)
      ensures if rmem.None? || OutOfRange(rmem) then unchanged(this)
        else blocks == Release(old(blocks), old(BlockOf(rmem.value)))
    {
      if rmem.None? || rmem.value < 0 || rmem.value >= size + HEADER {
        return;
      }
      ghost var i := BlockOf(rmem.value);
      var mem := rmem.value - HEADER;
      MarkFree(mem, i);
      PlugHoles(mem, i);
    }

    // Clears the used flag of block i and keeps the counters right.
    method MarkFree(mem: int, ghost i: nat)
      requires Valid() && i < |blocks| && blocks[i].used && blocks[i].addr == mem
      modifies this`hdr, this`blocks, this`lfree, this`usedMem
      ensures blocks == old(blocks)[i := Block(mem, false)]
      ensures Spaced(blocks, End()) && Aligned(blocks) && NoFreePair(blocks, i) && Stored(hdr, blocks, End())
      ensures lfree == AddrAt(blocks, End(), LowestFree(blocks, 0))
      ensures usedMem == UsedBytes(Release(old(blocks), i), End()) < old(usedMem)
    {
      InHeap(blocks, End(), i);
      ghost var used := usedMem - HEADER - Payload(blocks, End(), i);
      assert UsedBytes(Release(blocks, i), End()) == used by {
        ReleaseUsed(blocks, End(), i);
      }
      FreeInPlace(blocks, End(), i);
      assert i > 0 ==> Gap(blocks, i - 1);
      LowestAfterFreeing(blocks, End(), blocks[i := Block(mem, false)], i);
      Mark(mem, false, i);
      assert HeaderOk(hdr, blocks, End(), i);
      if mem < lfree {
        lfree := mem;
      }
      usedMem := usedMem - (hdr[mem].next - mem);
    }

    // A payload after the copy of a realloc: its first n bytes are those that stood at p.
    twostate predicate Copied(q: int, p: int, n: int)
      reads this
    {
      SamePiece(old(bytes), p, bytes, q, n)
    }

    method Memcpy(q: int, p: int, n: int)
      requires 0 <= n && 0 <= p && 0 <= q && p + n <= |bytes| && q + n <= |bytes|
      requires p + n <= q || q + n <= p
      modifies this`bytes
      ensures KeepsOutside(q, q + n) && Copied(q, p, n)
    {
      for k := 0 to n
        invariant KeepsOutside(q, q + n)
        invariant forall y :: q <= y < q + k ==> bytes[y] == old(bytes)[p + y - q]
      {
        assert bytes[p + k] == old(bytes[p + k]);
        bytes := bytes[q + k := bytes[p + k]];
      }
      assert bytes[q..q + n] == old(bytes)[p..p + n];
    }

    // Cuts block i, which is in use, down to newsize bytes.
    method ShrinkInPlace(rmem: int, newsize: int, ghost i: nat)
      requires Valid() && i < |blocks| && blocks[i].used && blocks[i].addr + HEADER == rmem
      requires 0 < newsize && newsize % ALIGN == 0 && newsize + HEADER + MIN < Payload(blocks, End(), i)
      modifies this
      ensures Valid() && maxMem == old(maxMem)
      ensures blocks == Shrink(old(blocks), i, newsize)
      ensures KeepsBytes(Live(blocks, End()))
    {
      ghost var cut := Cut(blocks, i, newsize);
      ghost var l := Live(cut, End());
      assert Live(Shrink(blocks, i, newsize), End()) == l && Avoids(l, rmem + newsize, rmem + newsize + HEADER) by {
        ShrinkAvoids(blocks, End(), i, newsize);
      }
      ghost var used := usedMem - (Payload(blocks, End(), i) - newsize);
      assert UsedBytes(Shrink(blocks, i, newsize), End()) == used by {
        ShrinkUsed(blocks, End(), i, newsize);
      }
      CutOff(rmem - HEADER, newsize, i);
      assert KeepsBytes(l) by {
        AvoidedKeeps(old(bytes), bytes, l, rmem + newsize, rmem + newsize + HEADER);
      }
      PlugHoles(rmem + newsize, i + 1);
    }

    // Splits the free rest off block i, before it is joined with what follows.
    method CutOff(ptr: int, newsize: int, ghost i: nat)
      requires Valid() && i < |blocks| && blocks[i].used && blocks[i].addr == ptr
      requires 0 < newsize && newsize % ALIGN == 0 && newsize + HEADER + MIN < Payload(blocks, End(), i)
      modifies this`hdr, this`bytes, this`blocks, this`lfree, this`usedMem
      ensures blocks == Cut(old(blocks), i, newsize)
      ensures Spaced(blocks, End()) && Aligned(blocks) && NoFreePair(blocks, i + 1) && Stored(hdr, blocks, End())
      ensures lfree == AddrAt(blocks, End(), LowestFree(blocks, 0))
      ensures usedMem == old(usedMem) - (old(Payload(blocks, End(), i)) - newsize)
      ensures KeepsOutside(ptr + HEADER + newsize, ptr + HEADER + newsize + HEADER)
    {
      CutSpaced(blocks, End(), i, newsize);
      LowestAfterFreeing(blocks, End(), Cut(blocks, i, newsize), i + 1);
      assert HeaderOk(hdr, blocks, End(), i);
      usedMem := usedMem - (hdr[ptr].next - ptr - HEADER - newsize);
      SplitBlock(ptr, newsize, i);
      if ptr + HEADER + newsize < lfree {
        lfree := ptr + HEADER + newsize;
      }
    }
  
    // What a realloc that has to move does: a new block, a copy, and the old block freed.
    method Move(rmem: int, newsize: int, oldsize: int, ghost i: nat) returns (r: Option<int>)
      requires Valid() && i < |blocks| && blocks[i].used && blocks[i].addr + HEADER == rmem
      requires oldsize == Payload(blocks, End(), i) && 0 < newsize <= size && newsize % ALIGN == 0
      modifies this
      ensures Valid()
      ensures Moved(r, newsize, rmem, oldsize)
      ensures KeepsBytes(old(Live(blocks, End())))
    {
      r := MallocAndCopy(rmem, newsize, oldsize, i);
      if r.Some? {
        ghost var mid, j := blocks, BlockOf(rmem);
        InHeap(blocks, End(), j);
        Free(Some(rmem));
        assert IsWithout(mid, rmem, blocks) by {
          assert mid[j].used && mid[j].addr + HEADER == rmem && blocks == Release(mid, j);
        }
      }
    }

    method MallocAndCopy(rmem: int, newsize: int, oldsize: int, ghost i: nat) returns (r: Option<int>)
      requires Valid() && i < |blocks| && blocks[i].used && blocks[i].addr + HEADER == rmem
      requires oldsize == Payload(blocks, End(), i) && 0 < newsize <= size && newsize % ALIGN == 0
      modifies this
      ensures Valid()
      ensures match old(Choice(newsize))
        case None => r == None && unchanged(this)
        case Some(k) =>
          && r == Some(old(blocks)[k].addr + HEADER)
          && blocks == Occupy(old(blocks), End(), Request(newsize), k) && Owned(rmem)
          && Copied(r.value, rmem, if oldsize < newsize then oldsize else newsize)
      ensures KeepsBytes(old(Live(blocks, End())))
    {
      ghost var bs, choice := blocks, Choice(newsize);
      r := Malloc(newsize);
      if r.Some? {
        ghost var k := choice.value;
        var n := if oldsize < newsize then oldsize else newsize;
        InHeap(bs, End(), i);
        CopyBetween(old(bytes), bs, k, i, r.value, rmem, n);
        assert Owned(rmem) by {
          ghost var j := OccupyBeside(bs, End(), Request(newsize), k, i);
          assert blocks[j].used && blocks[j].addr + HEADER == rmem;
        }
      }
    }

    // The copy from block i to the free block k of the row bs touches no live extent of bs. The
    // source has not changed since the bytes were as in before.
    method CopyBetween(ghost before: seq<Byte>, ghost bs: seq<Block>, ghost k: nat, ghost i: nat, q: int, p: int, n: int)
      requires Spaced(bs, End()) && |bytes| == size + 2 * HEADER && Kept(before, bytes, Live(bs, End()))
      requires i < |bs| && k < |bs| && bs[i].used && !bs[k].used
      requires q == bs[k].addr + HEADER && p == bs[i].addr + HEADER
      requires 0 <= n <= Payload(bs, End(), i) && n <= Payload(bs, End(), k)
      modifies this`bytes
      ensures Kept(before, bytes, Live(bs, End())) && SamePiece(before, p, bytes, q, n)
    {
      InHeap(bs, End(), i);
      InHeap(bs, End(), k);
      BlocksApart(bs, End(), k, i);
      LiveAvoids(bs, End(), k);
      ghost var l := Live(bs, End());
      ghost var m := LiveHas(bs, End(), i);
      KeptPiece(before, bytes, l, m, p, n);
      Memcpy(q, p, n);
      forall e, x | 0 <= e < |l| && 0 <= x < |bytes| && l[e].start <= x < l[e].stop
        ensures bytes[x] == before[x]
      {
        assert l[e].stop <= bs[k].addr || AddrAt(bs, End(), k + 1) <= l[e].start;
      }
    }

    // What a caller owned before and still owns has kept its bytes.
    twostate predicate KeepsOwned(l: seq<Extent>)
      reads this
    {
      KeptBoth(old(bytes), bytes, l, Live(blocks, End()))
    }

    // What the outcome of an allocation of n bytes is when the block at p moves there.
    twostate predicate Moved(new r: Option<int>, n: Size, p: int, payload: int)
      reads this
    {
      match old(Choice(n))
      case None => r == None && unchanged(this)
      case Some(k) =>
        && r == Some(old(blocks)[k].addr + HEADER)
        && IsWithout(Occupy(old(blocks), End(), Request(n), k), p, blocks)
        && Copied(r.value, p, if payload < n then payload else n)
    }

    method Realloc(rmem: Option<int>, newsize: Size) returns (r: Option<int>)
      requires Valid()
      requires rmem.None? || OutOfRange(rmem) || Owned(rmem.value)
      modifies this
      ensures Valid() && KeepsOwned(old(Live(blocks, End())))
      ensures var n := Align(newsize);
        if n > size then r == None && unchanged(this)
        else if n == 0 then
          && r == None
          && if rmem.None? || OutOfRange(rmem) then unchanged(this)
            else blocks == Release(old(blocks), old(BlockOf(rmem.value)))
        else if rmem.None? then
          match old(Choice(n))
          case None => r == None && unchanged(this)
          case Some(k) => r == Some(old(blocks)[k].addr + HEADER) && blocks == Occupy(old(blocks), End(), Request(n), k)
        else if OutOfRange(rmem) then r == rmem && unchanged(this)
        else
          var i := old(BlockOf(rmem.value));
          var payload := old(Payload(blocks, End(), i));
          if n == payload then r == rmem && unchanged(this)
          else if n + HEADER + MIN < payload then r == rmem && blocks == Shrink(old(blocks), i, n)
          else Moved(r, n, rmem.value, payload)
    {
      var n := Align(newsize);
      AlignExact(newsize);
      if n > size {
        return None;
      } else if n == 0 {
        Free(rmem);
        return None;
      }
      if rmem.None? {
        r := Malloc(n);
        OwnedKept(old(bytes), bytes, old(Live(blocks, End())), Live(blocks, End()));
      } else if rmem.value < 0 || rmem.value >= size + HEADER {
        r := rmem;
      } else {
        r := Resize(rmem.value, n, BlockOf(rmem.value));
      }
    }

    // The part of rt_realloc for a block in use.
    method Resize(rmem: int, n: Size, ghost i: nat) returns (r: Option<int>)
      requires Valid() && i < |blocks| && blocks[i].used && blocks[i].addr + HEADER == rmem
      requires 0 < n <= size && n % ALIGN == 0
      modifies this
      ensures Valid() && KeepsOwned(old(Live(blocks, End())))
      ensures var payload := old(Payload(blocks, End(), i));
        if n == payload then r == Some(rmem) && unchanged(this)
        else if n + HEADER + MIN < payload then r == Some(rmem) && blocks == Shrink(old(blocks), i, n)
        else Moved(r, n, rmem, payload)
    {
      assert HeaderOk(hdr, blocks, End(), i);
      var payload := hdr[rmem - HEADER].next - (rmem - HEADER) - HEADER;
      if payload == n {
        return Some(rmem);
      }
      if n + HEADER + MIN < payload {
        ShrinkInPlace(rmem, n, i);
        r := Some(rmem);
      } else {
        r := Move(rmem, n, payload, i);
      }
      OwnedKept(old(bytes), bytes, old(Live(blocks, End())), Live(blocks, End()));
    }

    // after is the row before without the block whose payload starts at p.
    ghost predicate IsWithout(before: seq<Block>, p: int, after: seq<Block>) {
      exists j :: 0 <= j < |before| && before[j].used && before[j].addr + HEADER == p && after == Release(before, j)
    }
  }
}
