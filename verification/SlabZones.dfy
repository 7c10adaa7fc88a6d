/** The slab allocator on top of the page allocator: zones of equal chunks, the lists of zones
  with something left, the zones that are parked, and large blocks of whole pages.
 */
module SlabZones {
  import opened Seqs
  import opened PageRuns
  import opened PageList
  import opened ZoneIndex
  import opened Arith

  const PAGE: nat := 4096
  const ZONE_HEADER: nat := 36        // sizeof(slab_zone)
  const RELEASE_THRESH: nat := 2      // ZONE_RELEASE_THRESH

  // Chunks are named by their numbers within the zone.
  datatype Zone = Zone(index: nat, chunk: nat, off: nat, nmax: int, nfree: int, uindex: int, freechunk: seq<int>)

  datatype Ptr = Null | Chunk(z: int, i: int) | Large(page: int)

  /* ------------------------------- one zone ------------------------------- */

  // The free chunks are those never used yet and those given back, each listed once.
  ghost predicate ZoneOk(z: Zone, size: nat) {
    && z.index < NZONES && z.chunk == SizeOfIndex(z.index) && z.chunk > 0
    && z.off >= ZONE_HEADER && z.nmax >= 2 && z.off + z.nmax * z.chunk <= size
    && 0 <= z.uindex < z.nmax
    && z.nfree == (z.nmax - 1 - z.uindex) + |z.freechunk|
    && Distinct(z.freechunk) && forall k :: 0 <= k < |z.freechunk| ==> 0 <= z.freechunk[k] <= z.uindex
  }

  // Chunk i of the zone is in a caller's hands.
  ghost predicate InUse(z: Zone, i: int) {
    0 <= i <= z.uindex && i !in z.freechunk
  }

  // Chunks of one zone do not overlap, stay clear of its header and inside its pages.
  lemma ChunksApart(z: Zone, size: nat, i: int, j: int)
    requires ZoneOk(z, size) && 0 <= i < j < z.nmax
    ensures ZONE_HEADER <= z.off + i * z.chunk
    ensures z.off + i * z.chunk + z.chunk <= z.off + j * z.chunk
    ensures z.off + j * z.chunk + z.chunk <= size
  {
    Multiples(z.chunk, i, j, z.nmax);
  }

  lemma Multiples(c: int, i: int, j: int, n: int)
    requires c > 0 && 0 <= i < j < n
    ensures 0 <= i * c && i * c + c <= j * c && j * c + c <= n * c
  {
    MulOrder(c, i, 0);
    MulOrder(c, j, i);
    MulOrder(c, n, j);
  }

  // The next chunk: one never used as long as there is one, else the last given back.
  function Taken(z: Zone): (Zone, int) {
    if z.uindex + 1 != z.nmax then (z.(nfree := z.nfree - 1, uindex := z.uindex + 1), z.uindex + 1)
    else if z.freechunk == [] then (z, -1)
    else (z.(nfree := z.nfree - 1, freechunk := z.freechunk[1..]), z.freechunk[0])
  }

  function Returned(z: Zone, i: int): Zone {
    z.(nfree := z.nfree + 1, freechunk := [i] + z.freechunk)
  }

  lemma TakenOk(z: Zone, size: nat)
    requires ZoneOk(z, size) && z.nfree > 0
    ensures var (r, i) := Taken(z);
      && ZoneOk(r, size) && r.index == z.index && r.chunk == z.chunk && r.off == z.off && r.nfree == z.nfree - 1
      && !InUse(z, i) && InUse(r, i) && 0 <= i < z.nmax
      && forall j: int :: j != i ==> (InUse(r, j) <==> InUse(z, j))
  {
    if z.uindex + 1 == z.nmax {
      assert z.freechunk == [z.freechunk[0]] + z.freechunk[1..];
      assert forall k :: 0 <= k < |z.freechunk| - 1 ==> z.freechunk[1..][k] == z.freechunk[k + 1];
    }
  }

  lemma ReturnedOk(z: Zone, size: nat, i: int)
    requires ZoneOk(z, size) && InUse(z, i)
    ensures var r := Returned(z, i);
      && ZoneOk(r, size) && r.nfree > 0 && !InUse(r, i)
      && forall j: int :: j != i ==> (InUse(r, j) <==> InUse(z, j))
  {
  }

  ghost predicate Below(l: seq<int>, m: int) {
    forall k :: 0 <= k < |l| ==> 0 <= l[k] < m
  }

  // Distinct numbers below m are at most m, and if they are m then all of them.
  lemma {:induction false} Pigeonhole(l: seq<int>, m: nat)
    requires Distinct(l) && Below(l, m)
    ensures |l| <= m
    ensures |l| == m ==> forall x :: 0 <= x < m ==> x in l
    decreases m
  {
    assert |l| > 0 ==> 0 <= l[0] < m;
    if m > 0 {
      PigeonStep(l, m - 1);
      Pigeonhole(Without(l, m - 1), m - 1);
    }
  }

  lemma PigeonStep(l: seq<int>, m: nat)
    requires Distinct(l) && Below(l, m + 1)
    ensures var r := Without(l, m); Distinct(r) && Below(r, m) && |r| == |l| - (if m in l then 1 else 0)
  {
    WithoutDistinct(l, m);
    WithoutBelow(l, m);
  }

  lemma WithoutBelow(l: seq<int>, m: int)
    requires Below(l, m + 1)
    ensures Below(Without(l, m), m)
  {
    var r := Without(l, m);
    forall k | 0 <= k < |r|
      ensures 0 <= r[k] < m
    {
      assert r[k] in r;
    }
  }

  // As long as there are chunks never used they come first, in order; after that the chunk given
  // back last is handed out first, and giving back undoes that.
  lemma TakenExactly(z: Zone, size: nat)
    requires ZoneOk(z, size) && z.nfree > 0
    ensures var (r, i) := Taken(z);
      if z.uindex + 1 < z.nmax then i == z.uindex + 1 && r.uindex == i && r.freechunk == z.freechunk
      else z.freechunk != [] && i == z.freechunk[0] && r.uindex == z.uindex && Returned(r, i) == z
  {
    if z.uindex + 1 == z.nmax {
      assert z.freechunk == [z.freechunk[0]] + z.freechunk[1..];
    }
  }

  // A zone whose count says that everything is free has nothing in use.
  lemma AllFreeExactly(z: Zone, size: nat)
    requires ZoneOk(z, size)
    ensures z.nfree <= z.nmax
    ensures z.nfree == z.nmax <==> forall i: int :: !InUse(z, i)
  {
    Pigeonhole(z.freechunk, z.uindex + 1);
    if z.nfree != z.nmax && forall i: int :: !InUse(z, i) {
      forall i | 0 <= i <= z.uindex
        ensures i in z.freechunk
      {
        assert !InUse(z, i);
      }
      AllListed(z.freechunk, z.uindex + 1);
    }
  }

  lemma {:induction false} AllListed(l: seq<int>, m: nat)
    requires Distinct(l) && forall x :: 0 <= x < m ==> x in l
    ensures |l| >= m
    decreases m
  {
    if m > 0 {
      WithoutDistinct(l, m - 1);
      AllListed(Without(l, m - 1), m - 1);
    }
  }

  /* ------------------------------- a new zone ------------------------------- */

  predicate IsPow2(n: nat) {
    n == 1 || (n > 0 && n % 2 == 0 && IsPow2(n / 2))
  }

  // Where the chunks begin.
  function Offset(chunk: nat): nat
    requires chunk > 0
  {
    if IsPow2(chunk) then Up(ZONE_HEADER, chunk) else Up(ZONE_HEADER, 8)
  }

  ghost predicate PowerOfTwo(n: nat) {
    exists k: nat :: n == Pow2(k)
  }

  lemma {:induction false} IsPow2Exactly(n: nat)
    ensures IsPow2(n) <==> PowerOfTwo(n)
  {
    if IsPow2(n) {
      var k := Exponent(n);
    }
    if k: nat :| n == Pow2(k) {
      PowersArePow2(k);
    }
  }

  lemma {:induction false} Exponent(n: nat) returns (k: nat)
    requires IsPow2(n)
    ensures n == Pow2(k)
  {
    if n == 1 {
      k := 0;
    } else {
      var j := Exponent(n / 2);
      k := j + 1;
    }
  }

  lemma {:induction false} PowersArePow2(k: nat)
    ensures IsPow2(Pow2(k))
  {
    if k > 0 {
      PowersArePow2(k - 1);
    }
  }

  // Chunks begin at the first place behind the header that is aligned to their own size if that is
  // a power of two, and to eight bytes otherwise.
  lemma OffsetExact(chunk: nat)
    requires chunk > 0
    ensures var off := Offset(chunk);
      if PowerOfTwo(chunk) then MultipleOf(off, chunk) && ZONE_HEADER <= off < ZONE_HEADER + chunk
      else off % 8 == 0 && ZONE_HEADER <= off < ZONE_HEADER + 8
  {
    IsPow2Exactly(chunk);
    UpBetween(ZONE_HEADER, chunk);
    UpBetween(ZONE_HEADER, 8);
    if IsPow2(chunk) {
      UpIsMultiple(ZONE_HEADER, chunk);
      assert Offset(chunk) == Up(ZONE_HEADER, chunk);
    }
  }

  lemma UpIsMultiple(n: nat, u: nat)
    requires u > 0
    ensures MultipleOf(Up(n, u), u)
  {
    var q: nat := (n + u - 1) / u;
    assert Up(n, u) == Times(q, u);
  }

  function Times(q: nat, u: nat): nat {
    q * u
  }

  ghost predicate MultipleOf(n: nat, u: nat) {
    exists q: nat :: n == Times(q, u)
  }

  function NewZone(zi: nat, chunk: nat, size: nat): Zone
    requires chunk > 0
  {
    var off := Offset(chunk);
    var nmax := (size - off) / chunk;
    Zone(zi, chunk, off, nmax, nmax - 1, 0, [])
  }

  lemma UpBetween(n: nat, u: nat)
    requires u > 0
    ensures n <= Up(n, u) < n + u
  {
    var q := (n + u - 1) / u;
    assert n + u - 1 == u * q + (n + u - 1) % u;
    assert u * q == q * u;
  }

  lemma NewZoneOk(zi: nat, chunk: nat, size: nat)
    requires zi < NZONES && chunk == SizeOfIndex(zi) && chunk * 4 <= size && size >= 32768
    ensures ZoneOk(NewZone(zi, chunk, size), size) && forall i: int :: InUse(NewZone(zi, chunk, size), i) <==> i == 0
  {
    var z := NewZone(zi, chunk, size);
    UpBetween(ZONE_HEADER, chunk);
    UpBetween(ZONE_HEADER, 8);
    assert z.off <= chunk + 36 || z.off <= 44;
    var room := size - z.off;
    assert room >= 2 * chunk;
    Quotient(room, chunk);
  }

  // What is left at the end of a new zone is less than a chunk.
  lemma NewZoneFull(zi: nat, chunk: nat, size: nat)
    requires chunk > 0
    ensures var z := NewZone(zi, chunk, size);
      z.index == zi && z.chunk == chunk && z.off == Offset(chunk) && size - z.off - chunk < z.nmax * chunk <= size - z.off
  {
    var room := size - Offset(chunk);
    assert room == chunk * (room / chunk) + room % chunk;
  }

  lemma Quotient(a: int, c: nat)
    requires c > 0 && a >= 2 * c
    ensures a / c >= 2 && a / c * c <= a
  {
    var q := a / c;
    assert a == c * q + a % c;
    assert c * q == q * c;
    MulOrder(c, q, 1);
  }

  /* ------------------------------- pages and their owners ------------------------------- */

  ghost predicate Owns(runs: seq<Run>, owned: map<int, nat>, a: int)
    requires a in owned
  {
    a >= 0 && owned[a] > 0 && AllTaken(runs, a, owned[a])
  }

  // What is owned is taken, and no two owners share a page.
  ghost predicate Owned(runs: seq<Run>, owned: map<int, nat>) {
    && (forall a :: a in owned ==> Owns(runs, owned, a))
    && forall a, b :: a in owned && b in owned && a < b ==> a + owned[a] <= b
  }

  // A page of what the allocator was given is free or has an owner: none is lost.
  ghost predicate Accounted(given: seq<Run>, runs: seq<Run>, owned: map<int, nat>) {
    forall p :: IsFree(given, p) ==> IsFree(runs, p) || Covered(owned, p)
  }

  ghost predicate Covered(owned: map<int, nat>, p: int) {
    exists a :: a in owned && a <= p < a + owned[a]
  }

  lemma AccountMore(given: seq<Run>, runs: seq<Run>, owned: map<int, nat>, n: nat)
    requires Sorted(runs, -1) && n > 0 && AllocAt(runs, n).Some? && AllocAt(runs, n).value !in owned
    requires Accounted(given, runs, owned)
    ensures Accounted(given, AllocList(runs, n), owned[AllocAt(runs, n).value := n])
  {
    var a := AllocAt(runs, n).value;
    var more := owned[a := n];
    forall p | IsFree(given, p)
      ensures IsFree(AllocList(runs, n), p) || Covered(more, p)
    {
      AllocPages(runs, -1, n, p);
      if Covered(owned, p) {
        var b :| b in owned && b <= p < b + owned[b];
        assert b in more && more[b] == owned[b];
      } else if a <= p < a + n {
        assert a in more && more[a] == n;
      }
    }
  }

  lemma AccountLess(given: seq<Run>, runs: seq<Run>, owned: map<int, nat>, a: int)
    requires Sorted(runs, -1) && a in owned && owned[a] > 0 && Accounted(given, runs, owned)
    ensures Accounted(given, FreeList(runs, a, owned[a]), owned - {a})
  {
    var less := owned - {a};
    forall p | IsFree(given, p)
      ensures IsFree(FreeList(runs, a, owned[a]), p) || Covered(less, p)
    {
      FreePages(runs, -1, a, owned[a], p);
      if Covered(owned, p) {
        var b :| b in owned && b <= p < b + owned[b];
        assert b != a ==> b in less && less[b] == owned[b];
      }
    }
  }

  lemma OwnMore(runs: seq<Run>, owned: map<int, nat>, n: nat)
    requires Sorted(runs, -1) && Owned(runs, owned) && n > 0 && AllocAt(runs, n).Some?
    ensures var a := AllocAt(runs, n).value;
      a !in owned && a >= 0 && Owned(AllocList(runs, n), owned[a := n])
  {
    var a := AllocAt(runs, n).value;
    var more := owned[a := n];
    AllocPages(runs, -1, n, a);
    forall b | b in owned
      ensures b + owned[b] <= a || a + n <= b
    {
      assert Owns(runs, owned, b);
      AllocPages(runs, -1, n, b);
      AllocPages(runs, -1, n, a);
    }
    forall b | b in more
      ensures Owns(AllocList(runs, n), more, b)
    {
      assert b != a ==> Owns(runs, owned, b);
      forall p | b <= p < b + more[b]
        ensures !IsFree(AllocList(runs, n), p)
      {
        AllocPages(runs, -1, n, p);
      }
    }
  }

  lemma OwnLess(runs: seq<Run>, owned: map<int, nat>, a: int)
    requires Sorted(runs, -1) && Owned(runs, owned) && a in owned
    ensures Owns(runs, owned, a) && Owned(FreeList(runs, a, owned[a]), owned - {a})
  {
    assert Owns(runs, owned, a);
    forall b | b in owned - {a}
      ensures Owns(FreeList(runs, a, owned[a]), owned - {a}, b)
    {
      assert Owns(runs, owned, b);
      forall p | b <= p < b + owned[b]
        ensures !IsFree(FreeList(runs, a, owned[a]), p)
      {
        FreePages(runs, -1, a, owned[a], p);
      }
    }
  }

  /* ------------------------------- zone lists ------------------------------- */

  // The list of an index holds exactly its zones with something left, each once.
  ghost predicate Listed(zones: map<int, Zone>, l: seq<int>, zi: int) {
    && Distinct(l)
    && forall z :: z in l <==> z in zones && zones[z].index == zi && zones[z].nfree > 0
  }

  ghost predicate AllListedRight(zones: map<int, Zone>, lists: seq<seq<int>>) {
    |lists| == NZONES && forall zi :: 0 <= zi < NZONES ==> Listed(zones, lists[zi], zi)
  }

  // A change to one zone concerns the list of its index only.
  lemma OneList(zones: map<int, Zone>, zones': map<int, Zone>, lists: seq<seq<int>>, z: int, zi: nat, l: seq<int>)
    requires AllListedRight(zones, lists) && zi < NZONES && Listed(zones', l, zi)
    requires forall x :: x != z ==> (x in zones <==> x in zones') && (x in zones ==> zones'[x] == zones[x])
    requires (z in zones ==> zones[z].index == zi) && (z in zones' ==> zones'[z].index == zi)
    ensures AllListedRight(zones', lists[zi := l])
  {
    var more := lists[zi := l];
    forall k | 0 <= k < NZONES
      ensures Listed(zones', more[k], k)
    {
      assert Listed(zones, lists[k], k);
    }
  }

  /* ------------------------------- the allocator ------------------------------- */

  ghost predicate SamePlace(zones: map<int, Zone>, zones': map<int, Zone>, z: int) {
    z in zones && z in zones' && zones'[z].off == zones[z].off && zones'[z].chunk == zones[z].chunk
  }

  // The pages for a large request, in 32-bit arithmetic.
  function PagesFor(size: nat): nat {
    Up(size, PAGE) % 0x1_0000_0000 / PAGE
  }

  // It wraps around exactly in the last page of the range.
  lemma PagesForExact(size: nat)
    requires 0 < size < 0x1_0000_0000
    ensures PagesFor(size) == 0 <==> size > 0x1_0000_0000 - PAGE
    ensures PagesFor(size) > 0 ==> size <= PagesFor(size) * PAGE < size + PAGE
  {
  }

  class Slab {
    const zonePages: nat
    const pages: Pages
    var zones: map<int, Zone>         // by their first pages
    var zoneArray: seq<seq<int>>
    var zoneFree: seq<int>
    var large: map<int, nat>
    ghost var owned: map<int, nat>
    ghost const given: seq<Run>       // the pages that were free at the start

    // Every page is free or owned, and by one owner only.
    ghost predicate PagesOk()
      reads this, pages
    {
      pages.Valid() && Owned(pages.runs, owned) && Accounted(given, pages.runs, owned)
    }

    function ZoneSize(): nat {
      zonePages * PAGE
    }

    function ZoneLimit(): nat {
      if ZoneSize() / 4 > 16384 then 16384 else ZoneSize() / 4
    }

    // Zones are 32, 64 or 128 KB; a request of a quarter of a zone or of 16 KB is a large one.
    lemma LimitIs()
      requires zonePages == 8 || zonePages == 16 || zonePages == 32
      ensures ZoneSize() == zonePages * 4096
      ensures ZoneLimit() == if zonePages == 8 then 8192 else 16384
    {
    }

    // Who owns which pages: zones in use, parked zones, large blocks.
    ghost predicate Roles()
      reads this
    {
      && (forall a :: a in owned <==> a in zones || a in zoneFree || a in large)
      && (forall a :: a in zones ==> a !in zoneFree && a !in large && owned[a] == zonePages)
      && (forall a :: a in zoneFree ==> a !in large && owned[a] == zonePages)
      && (forall a :: a in large ==> owned[a] == large[a])
    }

    ghost predicate Valid()
      reads this, pages
    {
      && (zonePages == 8 || zonePages == 16 || zonePages == 32)
      && PagesOk() && Roles()
      && (forall z :: z in zones ==> ZoneOk(zones[z], ZoneSize()))
      && AllListedRight(zones, zoneArray)
      && Distinct(zoneFree) && |zoneFree| <= RELEASE_THRESH
    }

    // p is in a caller's hands.
    ghost predicate Live(p: Ptr)
      reads this
    {
      match p
      case Null => false
      case Chunk(z, i) => z in zones && InUse(zones[z], i)
      case Large(a) => a in large
    }

    // How many bytes p points to.
    function Room(p: Ptr): int
      reads this
    {
      match p
      case Null => 0
      case Chunk(z, i) => if z in zones then zones[z].chunk else 0
      case Large(a) => if a in large then large[a] * PAGE else 0
    }

    // Callers other than the one of p keep what they have, where it is.
    twostate predicate Others(p: Ptr)
      reads this
    {
      && (forall q: Ptr :: q != p ==> (Live(q) <==> old(Live(q))))
      && forall z, i :: Live(Chunk(z, i)) && old(Live(Chunk(z, i))) ==> SamePlace(old(zones), zones, z)
    }

    // rt_system_heap_init, after the page allocator has been given its pages.
    constructor (pages: Pages, zonePages: nat)
      requires pages.Valid() && (zonePages == 8 || zonePages == 16 || zonePages == 32)
      ensures Valid() && this.pages == pages && given == pages.runs && forall p: Ptr :: !Live(p)
    {
      this.zonePages := zonePages;
      this.pages := pages;
      zones, large, zoneFree, owned := map[], map[], [], map[];
      given := pages.runs;
      zoneArray := seq(NZONES, _ => []);
    }

    // rt_page_alloc, with the owner noted.
    method AllocPagesFor(n: nat) returns (a: int)
      requires PagesOk() && n > 0
      modifies pages, this`owned
      ensures PagesOk()
      ensures a == NULL <==> AllocAt(old(pages.runs), n).None?
      ensures if a == NULL then owned == old(owned)
        else a !in old(owned) && owned == old(owned)[a := n]
    {
      if AllocAt(pages.runs, n).Some? {
        OwnMore(pages.runs, owned, n);
        AccountMore(given, pages.runs, owned, n);
      }
      ghost var runs := pages.runs;
      a := pages.Alloc(n);
      if a != NULL {
        owned := owned[a := n];
      } else {
        AllocNone(runs, n);
      }
    }

    lemma AllocNone(runs: seq<Run>, n: nat)
      requires n > 0 && Sorted(runs, -1) && match AllocAt(runs, n) case None => true case Some(a) => a == NULL
      ensures AllocAt(runs, n).None? && AllocList(runs, n) == runs
    {
      AllocPages(runs, -1, n, 0);
    }

    // rt_page_free, with the owner gone.
    method FreePagesOf(a: int, n: nat)
      requires PagesOk() && a in owned && owned[a] == n
      modifies pages, this`owned
      ensures PagesOk() && owned == old(owned) - {a}
    {
      OwnLess(pages.runs, owned, a);
      AccountLess(given, pages.runs, owned, a);
      pages.Free(a, n);
      owned := owned - {a};
    }

    // A request for which there is nothing: no pages in a row, and for a small one no zone with
    // something left and none parked either.
    ghost predicate Refused(size: nat)
      reads this, pages
    {
      || size == 0
      || if size >= ZoneLimit() then PagesFor(size) == 0 || AllocAt(pages.runs, PagesFor(size)).None?
        else if size >= 16384 || |zoneArray| != NZONES || !(0 <= ClassIndex(size) < NZONES) then false
        else zoneArray[ClassIndex(size)] == [] && zoneFree == [] && AllocAt(pages.runs, zonePages).None?
    }

    // rt_malloc; size is of 32 bits, and what rounding it up to pages wraps around to zero is
    // refused.
    method Malloc(size: nat) returns (p: Ptr)
      requires Valid() && size < 0x1_0000_0000
      modifies this, pages
      ensures Valid() && Others(p)
      ensures p == Null <==> old(Refused(size))
      ensures p != Null ==> !old(Live(p)) && Live(p) && Room(p) >= size
    {
      p := Null;
      if size == 0 {
        return;
      }
      if size >= ZoneLimit() {
        p := MallocLarge(size);
        return;
      }
      var zi, chunk := FindZone(size);
      if zoneArray[zi] != [] {
        p := TakeChunk(zi);
      } else {
        p := OpenZone(zi, chunk);
      }
    }

    // The zone for a small request, whose chunks stay within the limit as well.
    method FindZone(size: nat) returns (zi: nat, chunk: nat)
      requires (zonePages == 8 || zonePages == 16 || zonePages == 32) && 0 < size < ZoneLimit()
      ensures size < 16384 && zi == ClassIndex(size)
      ensures zi < NZONES && size <= chunk == SizeOfIndex(zi) && chunk * 4 <= ZoneSize() && ZoneSize() >= 32768
    {
      assert ZoneLimit() == 8192 || ZoneLimit() == 16384;
      IndexFits(size);
      zi, chunk := ZoneIndex.ZoneIndex(size);
    }

    method MallocLarge(size: nat) returns (p: Ptr)
      requires Valid() && 0 < size < 0x1_0000_0000
      modifies this, pages
      ensures Valid() && Others(p)
      ensures p == Null <==> PagesFor(size) == 0 || AllocAt(old(pages.runs), PagesFor(size)).None?
      ensures p != Null ==> !old(Live(p)) && Live(p) && Room(p) >= size
    {
      var n := PagesFor(size);
      if n == 0 {
        return Null;
      }
      assert n * PAGE >= size;
      var a := AllocPagesFor(n);
      if a == NULL {
        return Null;
      }
      large := large[a := n];
      p := Large(a);
    }

    // The first zone with something left gives a chunk, and leaves its list with the last.
    method TakeChunk(zi: nat) returns (p: Ptr)
      requires Valid() && zi < NZONES && zoneArray[zi] != []
      modifies this`zones, this`zoneArray
      ensures Valid() && Others(p) && p.Chunk? && !old(Live(p)) && Live(p) && Room(p) == SizeOfIndex(zi)
    {
      var l := zoneArray[zi];
      assert Listed(zones, l, zi);
      var z := l[0];
      assert z in l;
      TakenOk(zones[z], ZoneSize());
      HeadApart(l);
      var (zone, i) := Taken(zones[z]);
      ghost var left := if zone.nfree == 0 then l[1..] else l;
      OneList(zones, zones[z := zone], zoneArray, z, zi, left);
      if zone.nfree == 0 {
        zoneArray := zoneArray[zi := l[1..]];
      }
      assert zoneArray == old(zoneArray)[zi := left];
      SetZone(z, zone, i);
      p := Chunk(z, i);
    }

    // Zone z changes, in that chunk i of it is in use from now on.
    method SetZone(z: int, zone: Zone, ghost i: int)
      requires z in zones && SamePlace(zones, zones[z := zone], z)
      requires forall k: int :: InUse(zone, k) <==> k == i || InUse(zones[z], k)
      modifies this`zones
      ensures zones == old(zones)[z := zone] && Live(Chunk(z, i)) && Others(Chunk(z, i))
    {
      zones := zones[z := zone];
    }

    // A new zone, made of a parked one or of new pages, whose first chunk is given away.
    method OpenZone(zi: nat, chunk: nat) returns (p: Ptr)
      requires Valid() && zi < NZONES && chunk == SizeOfIndex(zi) && chunk > 0 && chunk * 4 <= ZoneSize() && ZoneSize() >= 32768
      modifies this, pages
      ensures Valid() && Others(p)
      ensures p == Null <==> old(zoneFree) == [] && AllocAt(old(pages.runs), zonePages).None?
      ensures p != Null ==> !old(Live(p)) && Live(p) && Room(p) == chunk
    {
      var z := GetZone();
      if z == NULL {
        return Null;
      }
      SetUp(z, zi, chunk);
      p := Chunk(z, 0);
    }

    // Makes the pages from z on a zone and puts it on its list.
    method SetUp(z: int, zi: nat, chunk: nat)
      requires zi < NZONES && chunk == SizeOfIndex(zi) && chunk > 0 && chunk * 4 <= ZoneSize() && ZoneSize() >= 32768
      requires AllListedRight(zones, zoneArray) && z !in zones
      modifies this`zones, this`zoneArray
      ensures zones == old(zones)[z := NewZone(zi, chunk, ZoneSize())] && AllListedRight(zones, zoneArray)
      ensures ZoneOk(zones[z], ZoneSize()) && forall i: int :: InUse(zones[z], i) <==> i == 0
    {
      NewZoneOk(zi, chunk, ZoneSize());
      ghost var zones0 := zones;
      zones := zones[z := NewZone(zi, chunk, ZoneSize())];
      assert Listed(zones0, zoneArray[zi], zi);
      OneList(zones0, zones, zoneArray, z, zi, [z] + zoneArray[zi]);
      zoneArray := zoneArray[zi := [z] + zoneArray[zi]];
    }

    // The pages for a new zone: the zone parked last, or fresh ones.
    method GetZone() returns (z: int)
      requires Valid()
      modifies this`zoneFree, this`owned, pages
      ensures PagesOk() && Distinct(zoneFree) && |zoneFree| <= RELEASE_THRESH
      ensures z == NULL ==> Roles()
      ensures z == NULL <==> old(zoneFree) == [] && AllocAt(old(pages.runs), zonePages).None?
      ensures z != NULL ==> z !in zones && z !in zoneFree && z !in large && z in owned && owned[z] == zonePages && RolesBut(z)
    {
      if zoneFree != [] {
        z := zoneFree[0];
        HeadApart(zoneFree);
        zoneFree := zoneFree[1..];
        assert Owns(pages.runs, owned, z);
      } else {
        z := AllocPagesFor(zonePages);
      }
    }

    // The roles of all owners but z, which has none yet.
    ghost predicate RolesBut(z: int)
      reads this
    {
      && (forall a :: a in owned <==> a in zones || a in zoneFree || a in large || a == z)
      && (forall a :: a in zones ==> a !in zoneFree && a !in large && owned[a] == zonePages)
      && (forall a :: a in zoneFree ==> a !in large && owned[a] == zonePages)
      && (forall a :: a in large ==> owned[a] == large[a])
    }

    // The list of zone z after a chunk of it has come back: it returns to the front of the list
    // if it had left it.
    ghost function Relisted(z: int): seq<int>
      requires Valid() && z in zones && 0 <= zones[z].index < NZONES
      reads this, pages
    {
      var l := zoneArray[zones[z].index];
      if zones[z].nfree == 0 then [z] + l else l
    }

    // What becomes of the zone of a chunk: it stays with one more free chunk, unless nothing of it
    // is in use and its list holds another zone. Then it is parked, and if RELEASE_THRESH zones
    // are parked already its pages go back instead.
    twostate predicate ChunkFreed(z: int, i: int)
      requires old(Valid()) && z in old(zones) && 0 <= old(zones)[z].index < NZONES
      reads this, pages
    {
      var zi, l, zone := old(zones)[z].index, old(Relisted(z)), Returned(old(zones)[z], i);
      if zone.nfree == zone.nmax && |l| > 1 then
        && zones == old(zones) - {z} && zoneArray == old(zoneArray)[zi := Without(l, z)]
        && zoneFree == if |old(zoneFree)| >= RELEASE_THRESH then old(zoneFree) else [z] + old(zoneFree)
      else
        zones == old(zones)[z := zone] && zoneArray == old(zoneArray)[zi := l] && zoneFree == old(zoneFree)
    }

    // rt_free
    method Free(p: Ptr)
      requires Valid() && (p == Null || Live(p))
      modifies this, pages
      ensures Valid() && Others(p) && !Live(p)
      ensures match p
        case Null => unchanged(this)
        case Large(a) => large == old(large) - {a} && unchanged(this`zones, this`zoneArray, this`zoneFree)
        case Chunk(z, i) => large == old(large) && ChunkFreed(z, i)
    {
      if p == Null {
        return;
      }
      if p.Large? {
        FreeLarge(p.page);
        return;
      }
      FreeSmall(p.z, p.i);
    }

    method FreeSmall(z: int, i: int)
      requires Valid() && Live(Chunk(z, i))
      modifies this`zones, this`zoneArray, this`zoneFree, this`owned, pages
      ensures Valid() && Others(Chunk(z, i)) && !Live(Chunk(z, i)) && ChunkFreed(z, i)
    {
      var empty := FreeChunk(z, i);
      if empty {
        ParkOrRelease(z);
      }
    }

    // Parks an empty zone; if that makes too many, the pages of one go back.
    method ParkOrRelease(z: int)
      requires Valid() && z in zones && zones[z].nfree == zones[z].nmax && zones[z].index < NZONES
      modifies this`zones, this`zoneArray, this`zoneFree, this`owned, pages
      ensures Valid() && zones == old(zones) - {z}
      ensures var zi := old(zones)[z].index; zoneArray == old(zoneArray)[zi := Without(old(zoneArray)[zi], z)]
      ensures zoneFree == if |old(zoneFree)| >= RELEASE_THRESH then old(zoneFree) else [z] + old(zoneFree)
      ensures forall q: Ptr :: Live(q) <==> old(Live(q))
    {
      Park(z);
      if |zoneFree| > RELEASE_THRESH {
        Release();
      }
    }

    method FreeLarge(a: int)
      requires Valid() && a in large
      modifies this`large, this`owned, pages
      ensures Valid() && Others(Large(a)) && !Live(Large(a)) && large == old(large) - {a}
    {
      var n := large[a];
      large := large - {a};
      FreePagesOf(a, n);
    }

    // Gives a chunk back; answers whether the zone is all free and not the only one of its list.
    method FreeChunk(z: int, i: int) returns (empty: bool)
      requires Valid() && Live(Chunk(z, i))
      modifies this`zones, this`zoneArray
      ensures Valid() && Others(Chunk(z, i)) && !Live(Chunk(z, i))
      ensures z in zones && zones[z].nfree > 0 && zones[z].index < NZONES
      ensures empty == (zones[z].nfree == zones[z].nmax && |zoneArray[zones[z].index]| > 1)
      ensures zones == old(zones)[z := Returned(old(zones)[z], i)]
      ensures zoneArray == old(zoneArray)[zones[z].index := old(Relisted(z))]
    {
      var zi := zones[z].index;
      var l := zoneArray[zi];
      assert Listed(zones, l, zi);
      ReturnedOk(zones[z], ZoneSize(), i);
      var zone := Returned(zones[z], i);
      OneList(zones, zones[z := zone], zoneArray, z, zi, Relisted(z));
      zones := zones[z := zone];
      if zone.nfree - 1 == 0 {
        zoneArray := zoneArray[zi := [z] + l];
      }
      assert zoneArray == old(zoneArray)[zi := old(Relisted(z))];
      empty := zone.nfree == zone.nmax && |zoneArray[zi]| > 1;
    }

    // Takes an empty zone off its list and parks it.
    method Park(z: int)
      requires Valid() && z in zones && zones[z].nfree == zones[z].nmax && zones[z].index < NZONES
      modifies this`zones, this`zoneArray, this`zoneFree
      ensures zoneFree == [z] + old(zoneFree) && zones == old(zones) - {z}
      ensures var zi := old(zones)[z].index; zoneArray == old(zoneArray)[zi := Without(old(zoneArray)[zi], z)]
      ensures Roles() && AllListedRight(zones, zoneArray) && Distinct(zoneFree)
      ensures forall q: Ptr :: Live(q) <==> old(Live(q))
    {
      var zi := zones[z].index;
      AllFreeExactly(zones[z], ZoneSize());
      var l := zoneArray[zi];
      assert Listed(zones, l, zi);
      WithoutDistinct(l, z);
      ghost var zones0 := zones;
      zones := zones - {z};
      OneList(zones0, zones, zoneArray, z, zi, Without(l, z));
      zoneArray := zoneArray[zi := Without(l, z)];
      zoneFree := [z] + zoneFree;
    }

    // Gives the pages of the zone parked last back.
    method Release()
      requires (zonePages == 8 || zonePages == 16 || zonePages == 32) && zoneFree != [] && Distinct(zoneFree)
      requires PagesOk() && Roles()
      modifies this`zoneFree, this`owned, pages
      ensures PagesOk() && Roles() && Distinct(zoneFree)
      ensures zoneFree == old(zoneFree)[1..]
    {
      HeadApart(zoneFree);
      var z := zoneFree[0];
      zoneFree := zoneFree[1..];
      FreePagesOf(z, zonePages);
    }
  }

  // The bytes that two pointers point to, counted from the start of the heap.
  ghost function Start(s: Slab, p: Ptr): int
    reads s
  {
    match p
    case Null => 0
    case Chunk(z, i) => if z in s.zones then z * PAGE + s.zones[z].off + i * s.zones[z].chunk else 0
    case Large(a) => a * PAGE
  }

  // Nothing that two callers have been given overlaps.
  lemma LiveApart(s: Slab, p: Ptr, q: Ptr)
    requires s.Valid() && s.Live(p) && s.Live(q) && p != q
    ensures Start(s, p) + s.Room(p) <= Start(s, q) || Start(s, q) + s.Room(q) <= Start(s, p)
  {
    var a, b := Owner(p), Owner(q);
    Inside(s, p);
    Inside(s, q);
    if a == b {
      var z := s.zones[a];
      if p.i < q.i {
        ChunksApart(z, s.ZoneSize(), p.i, q.i);
      } else {
        ChunksApart(z, s.ZoneSize(), q.i, p.i);
      }
    }
  }

  // The first page of what p belongs to.
  ghost function Owner(p: Ptr): int {
    match p
    case Null => 0
    case Chunk(z, i) => z
    case Large(a) => a
  }

  // Everything lies within its owner's pages.
  lemma Inside(s: Slab, p: Ptr)
    requires s.Valid() && s.Live(p)
    ensures var a := Owner(p);
      a in s.owned && a * PAGE <= Start(s, p) && Start(s, p) + s.Room(p) <= (a + s.owned[a]) * PAGE
  {
    if p.Chunk? {
      var z := s.zones[p.z];
      if p.i + 1 < z.nmax {
        ChunksApart(z, s.ZoneSize(), p.i, p.i + 1);
      } else {
        ChunksApart(z, s.ZoneSize(), 0, p.i);
      }
    }
  }
}
