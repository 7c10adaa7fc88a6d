/** The memory pool allocator: blocks on one circular list by address, free blocks on a second
  circular list through a header of its own, and the byte counters.
 */
module MemHeap {
  import opened Seqs
  import opened Rings
  import opened Sizes
  import opened MemHeapPool

  const HEAD: int := -1  // free_header, which stands outside the pool

  // The test by which a block grows into the free block behind it, in unsigned arithmetic.
  predicate GrowTest(oldsize: int, nextsize: int, n: int) {
    (nextsize + oldsize) % WORD > (n + MIN) % WORD
  }

  // The test says whether the rest still holds a minimal block exactly as long as the right-hand
  // side does not wrap around; beyond that it lets a block grow over its neighbours.
  lemma GrowTestExact(oldsize: int, nextsize: int, n: Size)
    requires MIN <= oldsize && MIN <= nextsize && oldsize + nextsize < WORD - 3 * HEADER
    requires n % ALIGN == 0
    ensures (GrowTest(oldsize, nextsize, n) <==> nextsize + oldsize > n + MIN) <==> n + MIN < WORD
  {
  }

  // An owner who asks for nearly 2^32 bytes, with a free block behind, is told that the block has
  // grown, though there is never so much room.
  lemma GrowTestWraps(p: Pool, size: int, i: nat, n: Size)
    requires Sound(p, size) && size < WORD && i + 2 < |p.row| && n % ALIGN == 0 && n + MIN >= WORD
    ensures GrowTest(Room(p.row, i), Room(p.row, i + 1), n)
    ensures Room(p.row, i) + Room(p.row, i + 1) < n
  {
    Together(p, size, i);
    assert Gap(p.row, i) && Gap(p.row, i + 1);
  }

  // Two neighbouring blocks together are smaller than the pool.
  lemma Together(p: Pool, size: int, i: nat)
    requires Sound(p, size) && size < WORD && i + 2 < |p.row|
    ensures 0 <= Room(p.row, i) && 0 <= Room(p.row, i + 1) && Room(p.row, i) + Room(p.row, i + 1) < WORD - 3 * HEADER
  {
    assert Gap(p.row, i) && Gap(p.row, i + 1);
    InPool(p.row, i);
    if i + 2 < |p.row| - 1 {
      Ordered(p.row, i + 2, |p.row| - 1);
    }
  }

  ghost predicate Flag(used: map<int, bool>, p: Pool, i: nat)
    requires i < |p.row|
  {
    p.row[i] in used && (used[p.row[i]] <==> p.row[i] !in p.free)
  }

  ghost predicate Flags(used: map<int, bool>, p: Pool) {
    forall i :: 0 <= i < |p.row| ==> Flag(used, p, i)
  }

  datatype Pick = Pick(k: nat, i: nat)

  function Greater(a: int, b: int): int {
    if a < b then b else a
  }

  class Heap {
    const size: int  // pool_size
    var used: map<int, bool>
    var next: map<int, int>
    var prev: map<int, int>
    var nextFree: map<int, int>
    var prevFree: map<int, int>
    var available: int
    var maxUsed: int
    ghost var p: Pool

    ghost predicate Stored()
      reads this
    {
      && Sound(p, size) && size < WORD
      && Ring(next, prev, p.row)
      && Ring(nextFree, prevFree, [HEAD] + p.free)
      && Flags(used, p)
    }

    ghost predicate Valid()
      reads this
    {
      && Stored()
      && available == FreeBytes(Blocks(p))
      && size - available <= maxUsed
    }

    // rt_memheap_init, for a region of the given size.
    constructor (n: Size)
      requires n / ALIGN * ALIGN >= 2 * HEADER
      ensures Valid() && size == n / ALIGN * ALIGN
      ensures p == Pool([0, size - HEADER], [0])
      ensures available == size - 2 * HEADER
    {
      var s := n / ALIGN * ALIGN;
      size := s;
      available := s - 2 * HEADER;
      maxUsed := 2 * HEADER;
      used := map[0 := false, s - HEADER := true];
      next := map[0 := s - HEADER, s - HEADER := 0];
      prev := map[0 := s - HEADER, s - HEADER := 0];
      nextFree := map[HEAD := 0, 0 := HEAD];
      prevFree := map[HEAD := 0, 0 := HEAD];
      p := Pool([0, s - HEADER], [0]);
      new;
      NewPool(size);
    }

    /* ------------------------------- the two lists ------------------------------- */

    method UnlinkFree(x: int, ghost fl: seq<int>, ghost k: nat)
      requires Ring(nextFree, prevFree, [HEAD] + fl) && k < |fl| && fl[k] == x
      modifies this`nextFree, this`prevFree
      ensures Ring(nextFree, prevFree, [HEAD] + RemoveAt(fl, k))
    {
      ghost var l := [HEAD] + fl;
      assert Linked(nextFree, prevFree, l, k + 1);
      RemoveRing(nextFree, prevFree, l, k + 1);
      assert RemoveAt(l, k + 1) == [HEAD] + RemoveAt(fl, k);
      var before, after := prevFree[x], nextFree[x];
      prevFree := prevFree[after := before];
      nextFree := nextFree[before := after];
    }

    // New free blocks go to the front.
    method LinkFree(x: int, ghost fl: seq<int>)
      requires Ring(nextFree, prevFree, [HEAD] + fl) && x !in fl && x != HEAD
      modifies this`nextFree, this`prevFree
      ensures Ring(nextFree, prevFree, [HEAD] + ([x] + fl))
    {
      ghost var l := [HEAD] + fl;
      assert Linked(nextFree, prevFree, l, 0);
      InsertRing(nextFree, prevFree, l, 0, x);
      assert InsertAt(l, 1, x) == [HEAD] + ([x] + fl);
      var first := nextFree[HEAD];
      nextFree := nextFree[x := first];
      prevFree := prevFree[x := HEAD];
      prevFree := prevFree[first := x];
      nextFree := nextFree[HEAD := x];
    }

    // A block starting at a goes behind the block at x.
    method LinkBlock(x: int, a: int, ghost row: seq<int>, ghost i: nat)
      requires Ring(next, prev, row) && i < |row| && row[i] == x && a !in row
      modifies this`next, this`prev
      ensures Ring(next, prev, InsertAt(row, i + 1, a))
    {
      assert Linked(next, prev, row, i);
      InsertRing(next, prev, row, i, a);
      var after := next[x];
      prev := prev[a := x];
      next := next[a := after];
      prev := prev[after := a];
      next := next[x := a];
    }

    method UnlinkBlock(x: int, ghost row: seq<int>, ghost i: nat)
      requires Ring(next, prev, row) && i < |row| && row[i] == x && |row| > 1
      modifies this`next, this`prev
      ensures Ring(next, prev, RemoveAt(row, i))
    {
      assert Linked(next, prev, row, i);
      RemoveRing(next, prev, row, i);
      var before, after := prev[x], next[x];
      prev := prev[after := before];
      next := next[before := after];
    }

    /* ------------------------------- allocating ------------------------------- */

    // Where in the free list, and where in the row, an allocation of need bytes finds its block.
    ghost function Choice(need: int): Option<Pick>
      reads this
    {
      var k := FirstFit(p, need, 0);
      if |p.row| < 1 || need >= FreeBytes(Blocks(p)) || k == |p.free| || p.free[k] !in p.row then None
      else Some(Pick(k, IndexOf(p.row, p.free[k])))
    }

    // An allocation takes the first block of the free list that has the room, and fails exactly if
    // none has or the only free block would be filled to the last byte.
    lemma ChoiceExact(need: int)
      requires Valid()
      ensures Choice(need).None? <==>
        || (forall k :: 0 <= k < |p.free| ==> RoomOf(p, p.free[k]) < need)
        || (|p.free| == 1 && RoomOf(p, p.free[0]) == need)
      ensures Choice(need).Some? ==>
        var c := Choice(need).value;
        && c.k < |p.free| && c.i + 1 < |p.row| && p.row[c.i] == p.free[c.k] && Room(p.row, c.i) >= need
        && forall j :: 0 <= j < c.k ==> RoomOf(p, p.free[j]) < need
    {
      FailureExact(p, size, need);
      var k := FirstFit(p, need, 0);
      if k < |p.free| {
        assert Listed(p, k);
      }
    }

    ghost predicate Fitting(k: nat, i: nat, need: int)
      reads this
    {
      && k < |p.free| && i + 1 < |p.row| && p.free[k] == p.row[i]
      && MIN <= need <= Room(p.row, i)
    }

    method Search(need: int) returns (x: int, ghost k: nat, ghost i: nat)
      requires Valid() && MIN <= need
      ensures k == FirstFit(p, need, 0)
      ensures if k < |p.free| then Fitting(k, i, need) && x == p.row[i] && i == IndexOf(p.row, p.free[k]) else x == HEAD
      ensures x == HEAD ==> k == |p.free|
    {
      FreeOrder(-1);
      x := nextFree[HEAD];
      k, i := 0, 0;
      var freeSize := 0;
      while x != HEAD && freeSize < need
        invariant k <= |p.free| && x == FreeAt(k)
        invariant FirstFit(p, need, 0) == FirstFit(p, need, k)
        invariant freeSize >= need ==> Fitting(k, i, need) && x == p.row[i] && i == IndexOf(p.row, p.free[k])
        decreases |p.free| - k, need - freeSize
      {
        i := AtFree(k);
        freeSize := next[x] - x - HEADER;
        if freeSize < need {
          FreeOrder(k);
          x := nextFree[x];
          k := k + 1;
        }
      }
      if k < |p.free| {
        FreeOrder(k);
      }
      assert freeSize >= need ==> RoomOf(p, p.free[k]) >= need by {
        if freeSize >= need {
          var j := AtFree(k);
        }
      }
    }

    // What stands at position k of the free list, the header coming after the last block.
    ghost function FreeAt(k: nat): int
      reads this
    {
      if k < |p.free| then p.free[k] else HEAD
    }

    // How the free list is linked; position -1 is the header.
    lemma FreeOrder(k: int)
      requires Ring(nextFree, prevFree, [HEAD] + p.free) && -1 <= k < |p.free|
      ensures var x := if k == -1 then HEAD else p.free[k]; x in nextFree && nextFree[x] == FreeAt(k + 1)
      ensures k >= 0 ==> p.free[k] != HEAD
    {
      var l := [HEAD] + p.free;
      assert Linked(nextFree, prevFree, l, k + 1);
      assert k >= 0 ==> l[0] != l[k + 1];
    }

    // The block at position k of the free list.
    lemma AtFree(k: nat) returns (i: nat)
      requires Stored() && k < |p.free|
      ensures i + 1 < |p.row| && p.row[i] == p.free[k] && i == IndexOf(p.row, p.free[k])
      ensures p.row[i] in next && next[p.row[i]] == p.row[i + 1]
      ensures RoomOf(p, p.free[k]) == Room(p.row, i)
    {
      assert Listed(p, k);
      i := IndexOf(p.row, p.free[k]);
      assert Linked(next, prev, p.row, i);
    }

    method Alloc(n: Size) returns (r: Option<int>)
      requires Valid()
      modifies this
      ensures Valid()
      ensures AllocResult(r, n)
      ensures maxUsed == Greater(old(maxUsed), size - available)
    {
      var need := Request(n);
      if need < available {
        var x, k, i := Search(need);
        if x != HEAD {
          FreeOrder(k);
          Carve(x, need, k, i);
          return Some(x + HEADER);
        }
      }
      r := None;
    }

    // The outcome of an allocation: a block, the first of the free list that is large enough,
    // or nothing at all.
    twostate predicate AllocResult(new r: Option<int>, n: Size)
      reads this
    {
      match old(Choice(Request(n)))
      case None => r == None && unchanged(this)
      case Some(c) =>
        && old(Fitting(c.k, c.i, Request(n))) && r == Some(old(p).row[c.i] + HEADER)
        && p == Take(old(p), c.i, c.k, Request(n))
    }

    // Gives the block at x to a caller and counts its bytes.
    method Carve(x: int, need: int, ghost k: nat, ghost i: nat)
      requires Valid() && Fitting(k, i, need) && x == p.row[i] && x != HEAD
      modifies this
      ensures Valid() && p == Take(old(p), i, k, need)
      ensures maxUsed == Greater(old(maxUsed), size - available)
    {
      ghost var left := CountsAfter(k, i, need);
      assert Linked(next, prev, p.row, i);
      var freeSize := next[x] - x - HEADER;
      if freeSize >= need + HEADER + MIN {
        SplitOff(x, need, k, i);
        available := available - need - HEADER;
      } else {
        TakeWhole(x, need, k, i);
        available := available - freeSize;
      }
      assert available == left;
      if size - available > maxUsed {
        maxUsed := size - available;
      }
    }

    lemma CountsAfter(k: nat, i: nat, need: int) returns (left: int)
      requires Valid() && Fitting(k, i, need)
      ensures left == available - (if Splits(p.row, i, need) then need + HEADER else Room(p.row, i))
      ensures left == FreeBytes(Blocks(Take(p, i, k, need)))
    {
      TakeCounts(p, size, i, k, need);
      left := FreeBytes(Blocks(Take(p, i, k, need)));
    }

    // Hands out the whole block at x.
    method TakeWhole(x: int, need: int, ghost k: nat, ghost i: nat)
      requires Stored() && Fitting(k, i, need) && x == p.row[i] && !Splits(p.row, i, need)
      modifies this`used, this`nextFree, this`prevFree, this`p
      ensures Stored() && p == Take(old(p), i, k, need)
    {
      ghost var after := Take(p, i, k, need);
      assert Sound(after, size) by {
        TakeSound(p, size, i, k, need);
      }
      TakeFlags(used, p, size, i, k, need);
      UnlinkFree(x, p.free, k);
      used := used[x := true];
      p := after;
    }

    // Splits the block at x in two; the second part goes to the front of the free list.
    method SplitOff(x: int, need: int, ghost k: nat, ghost i: nat)
      requires Stored() && Fitting(k, i, need) && x == p.row[i] && Splits(p.row, i, need)
      modifies this`used, this`next, this`prev, this`nextFree, this`prevFree, this`p
      ensures Stored() && p == Take(old(p), i, k, need)
    {
      var a := x + need + HEADER;
      NotListed(p, size, a, i);
      RemoveMembers(p.free, k);
      InHeap(i);
      used := used[a := false];
      assert Flags(used, p) by {
        forall j | 0 <= j < |p.row|
          ensures Flag(used, p, j)
        {
          assert Flag(old(used), p, j);
        }
      }
      LinkBlock(x, a, p.row, i);
      UnlinkFree(x, p.free, k);
      LinkFree(a, RemoveAt(p.free, k));
      ghost var after := Take(p, i, k, need);
      TakeSound(p, size, i, k, need);
      TakeFlags(used, p, size, i, k, need);
      used := used[x := true];
      p := after;
    }

    lemma InHeap(i: nat)
      requires Stored() && i < |p.row|
      ensures 0 <= p.row[i] <= size - HEADER
    {
      if i > 0 {
        Ordered(p.row, 0, i);
      }
      if i + 1 < |p.row| {
        Ordered(p.row, i, |p.row| - 1);
      }
    }

    /* ------------------------------- freeing ------------------------------- */

    // The block whose header stands at x belongs to a caller.
    ghost predicate Owns(x: int)
      reads this
    {
      x in p.row && x != size - HEADER && x !in p.free
    }

    lemma OwnedIndex(x: int) returns (i: nat)
      requires Stored() && Owns(x)
      ensures i == IndexOf(p.row, x) && i + 1 < |p.row| && p.row[i] == x && p.row[i] !in p.free
    {
      i := IndexOf(p.row, x);
    }

    // The header at h takes over the block behind it if that is free. The lists are those of q.
    method JoinNext(h: int, ghost q: Pool, ghost j: nat)
      requires Ring(next, prev, q.row) && Ring(nextFree, prevFree, [HEAD] + q.free) && Distinct(q.free)
      requires j + 1 < |q.row| && q.row[j] == h && q.row[j + 1] in used
      requires used[q.row[j + 1]] <==> q.row[j + 1] !in q.free
      modifies this`next, this`prev, this`nextFree, this`prevFree, this`available
      ensures Ring(next, prev, JoinRight(q, j).row) && Ring(nextFree, prevFree, [HEAD] + JoinRight(q, j).free)
      ensures available == old(available) + if q.row[j + 1] in q.free then HEADER else 0
    {
      assert Linked(next, prev, q.row, j);
      var after := next[h];
      if !used[after] {
        available := available + HEADER;
        UnlinkBlock(after, q.row, j + 1);
        UnlinkFree(after, q.free, IndexOf(q.free, after));
      }
    }

    method Free(ptr: Option<int>)
      requires Valid()
      requires ptr.Some? ==> Owns(ptr.value - HEADER)
      modifies this
      ensures Valid() && maxUsed == old(maxUsed)
      ensures if ptr.None? then unchanged(this) else p == Give(old(p), old(IndexOf(p.row, ptr.value - HEADER)))
    {
      if ptr.None? {
        return;
      }
      var x := ptr.value - HEADER;
      ghost var i := OwnedIndex(x);
      ghost var room := FreeCounts(x, i);
      ComeBack(x, i);
      p := Give(p, i);
      assert available == room;
    }

    // Clears the flag of the block at x, counts its bytes and joins it with its neighbours.
    method ComeBack(x: int, ghost i: nat)
      requires Stored() && i + 1 < |p.row| && p.row[i] == x && x !in p.free
      modifies this`used, this`next, this`prev, this`nextFree, this`prevFree, this`available
      ensures Ring(next, prev, Give(p, i).row) && Ring(nextFree, prevFree, [HEAD] + Give(p, i).free)
      ensures used == old(used)[x := false]
      ensures available == old(available) + Room(p.row, i) + HEADER * (To(p, i) - From(p, i) - 1)
    {
      assert Linked(next, prev, p.row, i);
      assert Flag(used, p, if i > 0 then i - 1 else |p.row| - 1);
      Elsewhere(p.row, i, if i > 0 then i - 1 else |p.row| - 1);
      used := used[x := false];
      assert Flags(old(used), p) && used == old(used)[x := false];
      available := available + (next[x] - x - HEADER);
      if !used[prev[x]] {
        available := available + HEADER;
        JoinLeft(x, i);
      } else {
        NoJoinLeft(x, i);
      }
    }

    lemma FreeCounts(x: int, i: nat) returns (room: int)
      requires Valid() && i + 1 < |p.row| && p.row[i] == x && x !in p.free
      ensures room == FreeBytes(Blocks(Give(p, i))) >= available
      ensures room == available + Room(p.row, i) + HEADER * (To(p, i) - From(p, i) - 1)
      ensures Sound(Give(p, i), size)
      ensures Flags(used[x := false], Give(p, i))
    {
      GiveCounts(p, size, i);
      GiveSound(p, size, i);
      Ordered(p.row, i, i + 1);
      room := FreeBytes(Blocks(Give(p, i)));
      GiveFlags(used, p, size, i);
    }

    // The two ways in which a block comes back: into the free block before it, or to the front
    // of the free list.
    method JoinLeft(x: int, ghost i: nat)
      requires Sound(p, size) && Ring(next, prev, p.row) && Ring(nextFree, prevFree, [HEAD] + p.free)
      requires 0 < i < |p.row| - 1 && p.row[i] == x && x !in p.free && p.row[i - 1] in p.free
      requires exists u :: Flags(u, p) && used == u[x := false]
      modifies this`next, this`prev, this`nextFree, this`prevFree, this`available
      ensures Ring(next, prev, Give(p, i).row) && Ring(nextFree, prevFree, [HEAD] + Give(p, i).free)
      ensures available == old(available) + if p.row[i + 1] in p.free then HEADER else 0
    {
      assert Linked(next, prev, p.row, i);
      FlagBehind(x, i);
      var h := prev[x];
      UnlinkBlock(x, p.row, i);
      JoinNext(h, Pool(RemoveAt(p.row, i), p.free), i - 1);
    }

    method NoJoinLeft(x: int, ghost i: nat)
      requires Sound(p, size) && Ring(next, prev, p.row) && Ring(nextFree, prevFree, [HEAD] + p.free)
      requires i < |p.row| - 1 && p.row[i] == x && x !in p.free && (i > 0 ==> p.row[i - 1] !in p.free)
      requires exists u :: Flags(u, p) && used == u[x := false]
      modifies this`next, this`prev, this`nextFree, this`prevFree, this`available
      ensures Ring(next, prev, Give(p, i).row) && Ring(nextFree, prevFree, [HEAD] + Give(p, i).free)
      ensures available == old(available) + if p.row[i + 1] in p.free then HEADER else 0
    {
      FlagBehind(x, i);
      InPool(p.row, i);
      JoinNext(x, p, i);
      ghost var q := JoinRight(p, i);
      if p.row[i + 1] in p.free {
        RemoveMembers(p.free, IndexOf(p.free, p.row[i + 1]));
      }
      LinkFree(x, q.free);
    }

    lemma FlagBehind(x: int, i: nat)
      requires Sound(p, size) && i < |p.row| - 1 && p.row[i] == x
      requires exists u :: Flags(u, p) && used == u[x := false]
      ensures Flag(used, p, i + 1)
    {
      var u :| Flags(u, p) && used == u[x := false];
      assert Flag(u, p, i + 1);
      Elsewhere(p.row, i, i + 1);
    }

    /* ------------------------------- resizing ------------------------------- */

    // A new free block at a, behind the used block at x, takes the place of what is free there.
    ghost predicate Borders(i: nat, a: int, q: Pool)
      reads this
    {
      i + 1 < |p.row| && Cuts(p, size, i, To(p, i), a, q)
    }

    lemma BorderCounts(i: nat, a: int, q: Pool) returns (left: int)
      requires Valid() && Borders(i, a, q)
      ensures left == FreeBytes(Blocks(q))
      ensures To(p, i) < |p.row| && left == available + Gain(p, i, a)
      ensures Sound(q, size) && Flags(used[a := false], q)
    {
      CutsCounts(p, size, i, To(p, i), a, q);
      CutsSound(p, size, i, To(p, i), a, q);
      CutsFlags(used, p, size, i, To(p, i), a, q);
      left := FreeBytes(Blocks(q));
    }

    // Takes the free block at y, behind the used block i, off both lists.
    method Absorb(y: int, ghost row: seq<int>, ghost j: nat)
      requires Ring(next, prev, row) && j < |row| && row[j] == y && |row| > 1
      requires Ring(nextFree, prevFree, [HEAD] + p.free) && y in p.free
      modifies this`next, this`prev, this`nextFree, this`prevFree
      ensures Ring(next, prev, RemoveAt(row, j))
      ensures Ring(nextFree, prevFree, [HEAD] + RemoveAt(p.free, IndexOf(p.free, y)))
    {
      UnlinkFree(y, p.free, IndexOf(p.free, y));
      UnlinkBlock(y, row, j);
    }

    // Moves the start of the free block behind block i to give block i a room of n bytes.
    method GrowInto(x: int, n: int, ghost i: nat)
      requires Valid() && i + 2 < |p.row| && p.row[i] == x && x !in p.free && p.row[i + 1] in p.free
      requires Room(p.row, i) < n && n + MIN < Room(p.row, i) + Room(p.row, i + 1)
      modifies this
      ensures Valid() && p == MoveBorder(old(p), i, n)
      ensures maxUsed == Greater(old(maxUsed), size - available)
    {
      var a := x + HEADER + n;
      ghost var after := MoveBorder(p, i, n);
      GrowCuts(p, size, i, n);
      ghost var left := BorderCounts(i, a, after);
      assert Linked(next, prev, p.row, i);
      var y := next[x];
      CountTaken(n - (y - x - HEADER));
      MoveFree(x, y, a, i);
      used := used[a := false];
      p := after;
      assert available == left;
    }

    method CountTaken(taken: int)
      modifies this`available, this`maxUsed
      ensures available == old(available) - taken && maxUsed == Greater(old(maxUsed), size - available)
    {
      available := available - taken;
      if size - available > maxUsed {
        maxUsed := size - available;
      }
    }

    method MoveFree(x: int, y: int, a: int, ghost i: nat)
      requires Stored() && i + 2 < |p.row| && p.row[i] == x && x !in p.free && p.row[i + 1] == y && y in p.free
      requires y < a < p.row[i + 2]
      modifies this`next, this`prev, this`nextFree, this`prevFree
      ensures Ring(next, prev, p.row[i + 1 := a])
      ensures Ring(nextFree, prevFree, [HEAD] + ([a] + RemoveAt(p.free, IndexOf(p.free, y))))
    {
      InPool(p.row, i + 1);
      NotListed(p, size, a, i + 1);
      RemoveMembers(p.row, i + 1);
      RemoveMembers(p.free, IndexOf(p.free, y));
      Absorb(y, p.row, i + 1);
      assert InsertAt(RemoveAt(p.row, i + 1), i + 1, a) == p.row[i + 1 := a];
      LinkBlock(x, a, RemoveAt(p.row, i + 1), i);
      LinkFree(a, RemoveAt(p.free, IndexOf(p.free, y)));
    }

    // Cuts block i down to n bytes.
    method ShrinkInPlace(x: int, n: int, ghost i: nat)
      requires Valid() && i + 1 < |p.row| && p.row[i] == x && x !in p.free
      requires MIN <= n && n + HEADER + MIN < Room(p.row, i)
      modifies this
      ensures Valid() && p == Shrink(old(p), i, n) && maxUsed == old(maxUsed)
    {
      ghost var q := Shrink(p, i, n);
      ShrinkCuts(p, size, i, n);
      assert Cuts(p, size, i, To(p, i), x + HEADER + n, q) && Shrunk(p, i, x + HEADER + n, q);
      ShrinkTo(x, x + HEADER + n, i, q);
    }

    // Ends the block at x at the address a; q is what the pool looks like then.
    method ShrinkTo(x: int, a: int, ghost i: nat, ghost q: Pool)
      requires Valid() && i + 1 < |p.row| && p.row[i] == x && x !in p.free && x < a && a + HEADER < p.row[i + 1]
      requires Borders(i, a, q) && Shrunk(p, i, a, q)
      modifies this
      ensures Valid() && p == q && maxUsed == old(maxUsed)
    {
      ghost var left := BorderCounts(i, a, q);
      CutBehind(x, a, i, q, left - available);
      used := used[a := false];
      p := q;
      assert available == left;
    }

    method CutBehind(x: int, a: int, ghost i: nat, ghost q: Pool, ghost gain: int)
      requires Stored() && i + 1 < |p.row| && p.row[i] == x && x !in p.free && x < a && a + HEADER < p.row[i + 1]
      requires Shrunk(p, i, a, q) && To(p, i) < |p.row| && gain == Gain(p, i, a)
      modifies this`next, this`prev, this`nextFree, this`prevFree, this`available
      ensures Ring(next, prev, q.row) && Ring(nextFree, prevFree, [HEAD] + q.free)
      ensures available == old(available) + gain && gain >= 0
    {
      NotListed(p, size, a, i);
      InPool(p.row, i);
      LinkBlock(x, a, p.row, i);
      ghost var row := InsertAt(p.row, i + 1, a);
      assert Linked(next, prev, row, i + 1);
      assert Flag(used, p, i + 1);
      var y := next[a];
      if !used[y] {
        assert RemoveAt(row, i + 2) == p.row[i + 1 := a];
        assert Linked(next, prev, row, i + 2);
        available := available - (next[y] - y - HEADER);
        RemoveMembers(p.free, IndexOf(p.free, y));
        Absorb(y, row, i + 2);
        assert Linked(next, prev, p.row[i + 1 := a], i + 1);
      }
      LinkFree(a, FreeBehind(i));
      available := available + (next[a] - a - HEADER);
    }

    // The free list without the block behind block i.
    ghost function FreeBehind(i: nat): seq<int>
      requires i + 1 < |p.row|
      reads this
    {
      if p.row[i + 1] in p.free then RemoveAt(p.free, IndexOf(p.free, p.row[i + 1])) else p.free
    }

    // The grow test for the block at x is not made with a right-hand side that wraps around.
    ghost predicate GrowSafe(x: int, n: int)
      reads this
    {
      Owns(x) ==>
        var i := IndexOf(p.row, x);
        i + 1 < |p.row| && p.row[i + 1] in p.free ==> n + MIN < WORD
    }

    // rt_memheap_realloc; a block with a free one behind it is not asked to grow by so much that
    // the grow test wraps around.
    method Realloc(ptr: Option<int>, newsize: Size) returns (r: Option<int>)
      requires Valid()
      requires ptr.Some? ==> Owns(ptr.value - HEADER)
      requires ptr.Some? && newsize > 0 ==> GrowSafe(ptr.value - HEADER, Request(newsize))
      modifies this
      ensures Valid()
      ensures
        if newsize == 0 then
          && r == None
          && if ptr.None? then unchanged(this) else p == Give(old(p), old(IndexOf(p.row, ptr.value - HEADER)))
        else if ptr.None? then AllocResult(r, Request(newsize))
        else Resized(r, ptr.value - HEADER, Request(newsize))
    {
      if newsize == 0 {
        Free(ptr);
        return None;
      }
      var n := Request(newsize);
      if ptr.None? {
        r := Alloc(n);
      } else {
        r := Resize(ptr.value - HEADER, n);
      }
    }

    // What becomes of the block with header x when it is to have a room of n bytes.
    twostate predicate Resized(new r: Option<int>, x: int, n: Size)
      reads this
      requires old(Owns(x))
    {
      var i := old(IndexOf(p.row, x));
      if i + 1 >= |old(p).row| then false
      else
        var oldsize := Room(old(p).row, i);
        if n <= oldsize then
          && r == Some(x + HEADER)
          && if n + HEADER + MIN >= oldsize then unchanged(this) else p == Shrink(old(p), i, n)
        else if old(Grows(i, n)) then r == Some(x + HEADER) && p == MoveBorder(old(p), i, n)
        else Moved(r, x, n)
    }

    // There is a free block behind block i that leaves a minimal block over.
    ghost predicate Grows(i: nat, n: int)
      reads this
    {
      i + 2 < |p.row| && p.row[i + 1] in p.free && Room(p.row, i) + Room(p.row, i + 1) > n + MIN
    }

    // The block has been allocated elsewhere and given back where it was.
    twostate predicate Moved(new r: Option<int>, x: int, n: Size)
      reads this
    {
      match old(Choice(Request(n)))
      case None => r == None && unchanged(this)
      case Some(c) =>
        && old(Fitting(c.k, c.i, Request(n))) && r == Some(old(p).row[c.i] + HEADER)
        && GivenBack(Take(old(p), c.i, c.k, Request(n)), x, p)
    }

    method Resize(x: int, n: Size) returns (r: Option<int>)
      requires Valid() && Owns(x) && MIN <= n && n % ALIGN == 0 && GrowSafe(x, n)
      modifies this
      ensures Valid() && Resized(r, x, n)
    {
      ghost var i := OwnedIndex(x);
      assert Linked(next, prev, p.row, i);
      var oldsize := next[x] - x - HEADER;
      if n > oldsize {
        r := GrowOrMove(x, n, i);
      } else if n + HEADER + MIN >= oldsize {
        r := Some(x + HEADER);
      } else {
        ShrinkInPlace(x, n, i);
        r := Some(x + HEADER);
      }
    }

    method GrowOrMove(x: int, n: Size, ghost i: nat) returns (r: Option<int>)
      requires Valid() && Owns(x) && i == IndexOf(p.row, x) && i + 1 < |p.row| && p.row[i] == x
      requires Room(p.row, i) < n && MIN <= n && n % ALIGN == 0 && GrowSafe(x, n)
      modifies this
      ensures Valid()
      ensures if old(Grows(i, n)) then r == Some(x + HEADER) && p == MoveBorder(old(p), i, n) else Moved(r, x, n)
    {
      var grown := TryGrow(x, n, i);
      if grown {
        r := Some(x + HEADER);
      } else {
        r := Move(x, n);
      }
    }

    method TryGrow(x: int, n: Size, ghost i: nat) returns (grown: bool)
      requires Valid() && Owns(x) && i + 1 < |p.row| && p.row[i] == x && i == IndexOf(p.row, x)
      requires Room(p.row, i) < n && MIN <= n && GrowSafe(x, n)
      modifies this
      ensures Valid() && grown == old(Grows(i, n))
      ensures if grown then p == MoveBorder(old(p), i, n) else unchanged(this)
    {
      assert Linked(next, prev, p.row, i);
      assert Flag(used, p, i + 1);
      var y := next[x];
      if used[y] {
        return false;
      }
      assert Linked(next, prev, p.row, i + 1);
      grown := GrowTest(y - x - HEADER, next[y] - y - HEADER, n);
      TestHolds(i, n);
      if grown {
        GrowInto(x, n, i);
      }
    }

    lemma TestHolds(i: nat, n: Size)
      requires Stored() && i + 2 < |p.row| && n + MIN < WORD
      ensures GrowTest(Room(p.row, i), Room(p.row, i + 1), n) <==> Room(p.row, i) + Room(p.row, i + 1) > n + MIN
    {
      Together(p, size, i);
    }

    method Move(x: int, n: Size) returns (r: Option<int>)
      requires Valid() && Owns(x)
      modifies this
      ensures Valid() && Moved(r, x, n)
    {
      r := Alloc(n);
      if r.Some? {
        ghost var c := old(Choice(Request(n))).value;
        assert Owns(x) by {
          TakeOwns(old(p), size, c.i, c.k, Request(n), x);
        }
        GiveUp(x, p);
      }
    }

    // The old block goes back; q is the pool as it was before.
    method GiveUp(x: int, ghost q: Pool)
      requires Valid() && Owns(x) && q == p
      modifies this
      ensures Valid() && GivenBack(q, x, p)
    {
      ghost var j := OwnedIndex(x);
      Free(Some(x + HEADER));
      assert p == Give(q, j);
    }
  }

  // A pool in which that can happen: one allocation in a new pool of 104 bytes leaves a used block
  // of 16 bytes in front of a free one of 16 bytes.
  method WrapReachable() returns (h: Heap, ptr: int)
    ensures fresh(h) && h.Valid() && h.Owns(ptr - HEADER)
    ensures h.p == Pool([0, 40, 80], [40]) && ptr == HEADER
    ensures forall n: Size :: n % ALIGN == 0 && n + MIN >= WORD ==> GrowTest(16, 16, n) && !h.GrowSafe(ptr - HEADER, n)
  {
    h := new Heap(104);
    TakeExample(h.p);
    var r := h.Alloc(16);
    ptr := r.value;
    assert h.p.row[0] == 0 && h.p.row[1] == 40 && h.p.free[0] == 40;
    WrapExample();
  }

  lemma TakeExample(p: Pool)
    requires p == Pool([0, 80], [0])
    ensures FirstFit(p, 16, 0) == 0 && IndexOf(p.row, 0) == 0 && Request(16) == 16
    ensures Take(p, 0, 0, 16) == Pool([0, 40, 80], [40])
  {
    var q := Take(p, 0, 0, 16);
    assert |q.row| == 3 && q.row[0] == 0 && q.row[1] == 40 && q.row[2] == 80;
    assert q.row == [0, 40, 80];
    assert q.free == [40] + RemoveAt(p.free, 0) == [40];
  }

  lemma WrapExample()
    ensures forall n: Size :: n % ALIGN == 0 && n + MIN >= WORD ==> GrowTest(16, 16, n)
  {
  }

  lemma NewPool(size: int)
    requires 2 * HEADER <= size < WORD
    ensures var p := Pool([0, size - HEADER], [0]); Sound(p, size) && FreeBytes(Blocks(p)) == size - 2 * HEADER
  {
    var p := Pool([0, size - HEADER], [0]);
    assert Listed(p, 0) && Merged(p, 0) && Gap(p.row, 0);
    CountOne(Span(0, size - HEADER, true));
    assert Blocks(p) == [Span(0, size - HEADER, true)];
  }

  // q, after the block with header x has come back.
  ghost predicate GivenBack(q: Pool, x: int, after: Pool) {
    x in q.row && IndexOf(q.row, x) + 1 < |q.row| && after == Give(q, IndexOf(q.row, x))
  }

  // A block that belonged to a caller still does after another one has been taken.
  lemma TakeOwns(p: Pool, size: int, i: nat, k: nat, need: int, x: int)
    requires Sound(p, size) && i + 1 < |p.row| && k < |p.free| && p.free[k] == p.row[i]
    requires MIN <= need <= Room(p.row, i)
    requires x in p.row && x != size - HEADER && x !in p.free
    ensures var q := Take(p, i, k, need); x in q.row && x !in q.free
  {
    var j := IndexOf(p.row, x);
    TakeFree(p, size, i, k, need, j);
    if Splits(p.row, i, need) {
      InsertMembers(p.row, i + 1, p.row[i] + HEADER + need);
    }
  }

  // The flags after a free block has been made at a.
  lemma CutsFlags(used: map<int, bool>, p: Pool, size: int, i: nat, hi: nat, a: int, q: Pool)
    requires Cuts(p, size, i, hi, a, q) && Flags(used, p)
    ensures Flags(used[a := false], q)
  {
    assert CutMember(p, i, a, q, a) && CutMember(p, i, a, q, p.row[i + 1]);
    var u := used[a := false];
    forall j | 0 <= j < |q.row|
      ensures Flag(u, q, j)
    {
      assert CutAt(p, i, hi, a, q, j);
      if j != i + 1 {
        var m := if j <= i then j else j + (hi - i - 2);
        assert Flag(used, p, m);
        if m != i + 1 {
          CutsFree(p, size, i, hi, a, q, m);
        }
      }
    }
  }

  lemma InPool(row: seq<int>, i: nat)
    requires Spaced(row) && i < |row|
    ensures row[i] >= 0
  {
    if i > 0 {
      Ordered(row, 0, i);
    }
  }

  // The flags after block i has come back.
  lemma GiveFlags(used: map<int, bool>, p: Pool, size: int, i: nat)
    requires Sound(p, size) && i + 1 < |p.row| && p.row[i] !in p.free && Flags(used, p)
    ensures Flags(used[p.row[i] := false], Give(p, i))
  {
    GiveGives(p, size, i);
    GivesFlags(used, p, size, i, From(p, i), To(p, i), Give(p, i));
  }

  lemma GivesFlags(used: map<int, bool>, p: Pool, size: int, i: nat, lo: nat, hi: nat, q: Pool)
    requires Gives(p, size, i, lo, hi, q) && Flags(used, p)
    ensures Flags(used[p.row[i] := false], q)
  {
    var u := used[p.row[i] := false];
    forall j | 0 <= j < |q.row|
      ensures Flag(u, q, j)
    {
      var m := if j <= lo then j else j + (hi - lo - 1);
      assert Flag(used, p, m);
      GivesFree(p, size, i, lo, hi, q, m);
      if m != i {
        Elsewhere(p.row, m, i);
      }
    }
  }

  // The flags after block i has been taken; a rest that was split off carries its flag already.
  lemma TakeFlags(used: map<int, bool>, p: Pool, size: int, i: nat, k: nat, need: int)
    requires Sound(p, size) && i + 1 < |p.row| && k < |p.free| && p.free[k] == p.row[i]
    requires MIN <= need <= Room(p.row, i)
    requires Flags(used, p)
    requires Splits(p.row, i, need) ==> var a := p.row[i] + HEADER + need; a in used && !used[a]
    ensures Flags(used[p.row[i] := true], Take(p, i, k, need))
  {
    var q, u := Take(p, i, k, need), used[p.row[i] := true];
    forall j | 0 <= j < |q.row|
      ensures Flag(u, q, j)
    {
      var m := if q.row == p.row || j <= i then j else j - 1;
      assert Flag(used, p, m);
      TakeFree(p, size, i, k, need, m);
      if q.row[j] == p.row[m] && m != i {
        Elsewhere(p.row, m, i);
      }
    }
  }
}
