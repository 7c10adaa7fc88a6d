/** Sizes of requests, rounded as the heaps round them.
 */
module Sizes {

  const WORD: int := 0x1_0000_0000  // one past the largest rt_size_t
  const ALIGN: int := 4             // RT_ALIGN_SIZE
  const MIN: int := 12              // MIN_SIZE_ALIGNED and RT_MEMHEAP_MINIALLOC

  type Size = n: int | 0 <= n < WORD

  // Rounds up to the alignment, in the arithmetic of rt_size_t.
  function Align(n: Size): Size {
    (n + ALIGN - 1) % WORD / ALIGN * ALIGN
  }

  // The payload that a request for n bytes looks for.
  function Request(n: Size): Size {
    if Align(n) < MIN then MIN else Align(n)
  }

  // Rounding is faithful exactly as long as it does not wrap around to zero.
  lemma AlignExact(n: Size)
    ensures Align(n) >= n <==> n <= WORD - ALIGN
    ensures n <= WORD - ALIGN ==> Align(n) < n + ALIGN
    ensures n > WORD - ALIGN ==> Align(n) == 0
    ensures Align(n) % ALIGN == 0
  {
  }

  // The least multiple of the alignment that holds n bytes and is no less than the minimum, as long
  // as rounding does not wrap around; the minimum above that.
  lemma RequestExact(n: Size)
    ensures Request(n) % 4 == 0 && Request(n) >= 12
    ensures n <= WORD - ALIGN ==> Request(n) >= n && (Request(n) == 12 || Request(n) - 4 < n)
    ensures n > WORD - ALIGN ==> Request(n) == 12
  {
    AlignExact(n);
  }
}
