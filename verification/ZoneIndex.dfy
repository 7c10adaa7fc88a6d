/** How the slab allocator sorts requests into zones by chunk size.
 */
module ZoneIndex {

  const NZONES: nat := 72

  // Rounds n up to a multiple of u, which is a power of two.
  function Up(n: nat, u: nat): nat
    requires u > 0
  {
    (n + u - 1) / u * u
  }

  // The unit in which requests of n bytes are counted, and what is added to the count.
  datatype Class = Class(unit: nat, base: int)

  function ClassOf(n: nat): Class
    requires n < 16384
  {
    if n < 128 then Class(8, -1)
    else if n < 256 then Class(16, 7)
    else if n < 512 then Class(32, 15)
    else if n < 1024 then Class(64, 23)
    else if n < 2048 then Class(128, 31)
    else if n < 4096 then Class(256, 39)
    else if n < 8192 then Class(512, 47)
    else Class(1024, 55)
  }

  // zoneindex: the zone's index, and the chunk size that the request is rounded up to.
  method ZoneIndex(bytes: nat) returns (zi: int, chunk: nat)
    ensures bytes < 16384 ==> chunk == ChunkOf(bytes) && zi == ClassIndex(bytes)
    ensures bytes >= 16384 ==> chunk == bytes && zi == 0
  {
    var n := bytes;
    if n < 128 {
      n := Up(n, 8);
      zi, chunk := n / 8, n;
      zi := zi - 1;
      return;
    }
    if n < 256 {
      n := Up(n, 16);
      return n / 16 + 7, n;
    }
    if n < 8192 {
      if n < 512 {
        n := Up(n, 32);
        return n / 32 + 15, n;
      }
      if n < 1024 {
        n := Up(n, 64);
        return n / 64 + 23, n;
      }
      if n < 2048 {
        n := Up(n, 128);
        return n / 128 + 31, n;
      }
      if n < 4096 {
        n := Up(n, 256);
        return n / 256 + 39, n;
      }
      n := Up(n, 512);
      return n / 512 + 47, n;
    }
    if n < 16384 {
      n := Up(n, 1024);
      return n / 1024 + 55, n;
    }
    zi, chunk := 0, bytes;
  }

  function ChunkOf(n: nat): nat
    requires n < 16384
  {
    Up(n, ClassOf(n).unit)
  }

  function ClassIndex(n: nat): int
    requires n < 16384
  {
    ChunkOf(n) / ClassOf(n).unit + ClassOf(n).base
  }

  // The chunk size that belongs to an index, going by the index alone.
  function SizeOfIndex(zi: nat): nat
    requires zi < NZONES
  {
    if zi < 16 then (zi + 1) * 8
    else if zi < 24 then (zi - 7) * 16
    else if zi < 32 then (zi - 15) * 32
    else if zi < 40 then (zi - 23) * 64
    else if zi < 48 then (zi - 31) * 128
    else if zi < 56 then (zi - 39) * 256
    else if zi < 64 then (zi - 47) * 512
    else (zi - 55) * 1024
  }

  // Every request gets a chunk that holds it, in a zone of that chunk size: one index never
  // serves two sizes, although the classes meet at their borders.
  lemma IndexFits(n: nat)
    requires 0 < n < 16384
    ensures 0 <= ClassIndex(n) < NZONES && n <= ChunkOf(n) == SizeOfIndex(ClassIndex(n)) <= 16384
    ensures ChunkOf(n) % 8 == 0
  {
    if n < 512 {
      FitsSmall(n);
    } else if n < 2048 {
      FitsMedium(n);
    } else if n < 4096 {
      Fits2048(n);
    } else if n < 8192 {
      Fits4096(n);
    } else {
      Fits8192(n);
    }
  }

  lemma FitsSmall(n: nat)
    requires 0 < n < 512
    ensures 0 <= ClassIndex(n) < 32 && n <= ChunkOf(n) == SizeOfIndex(ClassIndex(n)) && ChunkOf(n) <= 512 && ChunkOf(n) % 8 == 0
  {
  }

  lemma FitsMedium(n: nat)
    requires 512 <= n < 2048
    ensures 31 <= ClassIndex(n) < 48 && n <= ChunkOf(n) == SizeOfIndex(ClassIndex(n)) && ChunkOf(n) <= 2048 && ChunkOf(n) % 8 == 0
  {
  }

  lemma Fits2048(n: nat)
    requires 2048 <= n < 4096
    ensures 47 <= ClassIndex(n) < 56 && n <= ChunkOf(n) == SizeOfIndex(ClassIndex(n)) && ChunkOf(n) <= 4096 && ChunkOf(n) % 8 == 0
  {
  }

  lemma Fits4096(n: nat)
    requires 4096 <= n < 8192
    ensures 55 <= ClassIndex(n) < 64 && n <= ChunkOf(n) == SizeOfIndex(ClassIndex(n)) && ChunkOf(n) <= 8192 && ChunkOf(n) % 8 == 0
  {
  }

  lemma Fits8192(n: nat)
    requires 8192 <= n < 16384
    ensures 63 <= ClassIndex(n) < NZONES && n <= ChunkOf(n) == SizeOfIndex(ClassIndex(n)) && ChunkOf(n) <= 16384 && ChunkOf(n) % 8 == 0
  {
  }

  // A chunk size asked for again is given the same zone, which realloc relies on.
  lemma IndexStable(n: nat)
    requires 0 < n && n < 16384 && ChunkOf(n) < 16384
    ensures ChunkOf(ChunkOf(n)) == ChunkOf(n) && ClassIndex(ChunkOf(n)) == ClassIndex(n)
  {
    IndexFits(n);
    SizeStable(ClassIndex(n));
  }

  lemma SizeStable(zi: nat)
    requires zi < NZONES && SizeOfIndex(zi) < 16384
    ensures ChunkOf(SizeOfIndex(zi)) == SizeOfIndex(zi) && ClassIndex(SizeOfIndex(zi)) == zi
  {
    // a size at the border of two classes counts in the unit of the upper one
    if zi < 15 {
      Stable8(zi);
    } else if zi < 23 {
      Stable16(zi);
    } else if zi < 31 {
      Stable32(zi);
    } else if zi < 39 {
      Stable64(zi);
    } else if zi < 47 {
      Stable128(zi);
    } else if zi < 55 {
      Stable256(zi);
    } else if zi < 63 {
      Stable512(zi);
    } else {
      Stable1024(zi);
    }
  }

  lemma Stable8(zi: nat)
    requires zi < 15
    ensures SizeOfIndex(zi) < 16384 && ChunkOf(SizeOfIndex(zi)) == SizeOfIndex(zi) && ClassIndex(SizeOfIndex(zi)) == zi
  {
  }

  lemma Stable16(zi: nat)
    requires 15 <= zi < 23
    ensures SizeOfIndex(zi) < 16384 && ChunkOf(SizeOfIndex(zi)) == SizeOfIndex(zi) && ClassIndex(SizeOfIndex(zi)) == zi
  {
  }

  lemma Stable32(zi: nat)
    requires 23 <= zi < 31
    ensures SizeOfIndex(zi) < 16384 && ChunkOf(SizeOfIndex(zi)) == SizeOfIndex(zi) && ClassIndex(SizeOfIndex(zi)) == zi
  {
  }

  lemma Stable64(zi: nat)
    requires 31 <= zi < 39
    ensures SizeOfIndex(zi) < 16384 && ChunkOf(SizeOfIndex(zi)) == SizeOfIndex(zi) && ClassIndex(SizeOfIndex(zi)) == zi
  {
  }

  lemma Stable128(zi: nat)
    requires 39 <= zi < 47
    ensures SizeOfIndex(zi) < 16384 && ChunkOf(SizeOfIndex(zi)) == SizeOfIndex(zi) && ClassIndex(SizeOfIndex(zi)) == zi
  {
  }

  lemma Stable256(zi: nat)
    requires 47 <= zi < 55
    ensures SizeOfIndex(zi) < 16384 && ChunkOf(SizeOfIndex(zi)) == SizeOfIndex(zi) && ClassIndex(SizeOfIndex(zi)) == zi
  {
  }

  lemma Stable512(zi: nat)
    requires 55 <= zi < 63
    ensures SizeOfIndex(zi) < 16384 && ChunkOf(SizeOfIndex(zi)) == SizeOfIndex(zi) && ClassIndex(SizeOfIndex(zi)) == zi
  {
  }

  lemma Stable1024(zi: nat)
    requires 63 <= zi < NZONES && SizeOfIndex(zi) < 16384
    ensures SizeOfIndex(zi) < 16384 && ChunkOf(SizeOfIndex(zi)) == SizeOfIndex(zi) && ClassIndex(SizeOfIndex(zi)) == zi
  {
  }

  // Larger requests go to later zones, and different indices mean different sizes.
  lemma SizesGrow(a: nat, b: nat)
    requires a < b < NZONES
    ensures SizeOfIndex(a) < SizeOfIndex(b)
  {
  }

  // No chunk of a smaller zone would have held the request.
  lemma IndexTight(n: nat, zi: nat)
    requires 0 < n < 16384 && zi < ClassIndex(n)
    ensures zi < NZONES && SizeOfIndex(zi) < n
  {
    IndexFits(n);
    if zi < ClassIndex(n) - 1 {
      SizesGrow(zi, ClassIndex(n) - 1);
    }
    Below(n);
  }

  lemma Below(n: nat)
    requires 0 < n < 16384
    ensures 0 < ClassIndex(n) < NZONES ==> SizeOfIndex(ClassIndex(n) - 1) < n
  {
  }
}
