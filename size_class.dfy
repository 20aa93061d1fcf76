/**
 * Request sizing and bucket selection of the malloc lab allocators:
 * `align_size` (and the inline sizing of the explicit-list allocator) and
 * `get_list`, which picks one of the 20 segregated free lists by the bit
 * length of a block size.
 */
module SizeClass {

  /** Double word: every block size and block pointer is a multiple of it. */
  const DSIZE: nat := 8
  /** Number of segregated free lists. */
  const NUM_LISTS: nat := 20

  /**
   * Adjusted block size for a request of `size` payload bytes, given the
   * per-block overhead (16 bytes of header and footer in the segregated
   * allocators, 24 in the explicit one) and the minimum block size.
   * It is the minimum block for requests up to a double word, otherwise the
   * least multiple of 8 that holds the payload and the overhead.
   */
  function AlignSize(size: nat, overhead: nat, minSize: nat): (r: nat)
    ensures size <= DSIZE ==> r == minSize
    ensures size > DSIZE ==> r % DSIZE == 0 && size + overhead <= r < size + overhead + DSIZE
  {
    if size <= DSIZE then minSize
    else DSIZE * ((size + overhead + (DSIZE - 1)) / DSIZE)
  }

  /** With the constants of either allocator, the adjusted size is a legal block size. */
  lemma AlignSizeLegal(size: nat, overhead: nat, minSize: nat)
    requires (overhead == 16 && minSize == 24) || (overhead == 24 && minSize == 32)
    ensures AlignSize(size, overhead, minSize) % DSIZE == 0
    ensures AlignSize(size, overhead, minSize) >= minSize
    ensures AlignSize(size, overhead, minSize) >= size + overhead
  {
  }

  /** align_size gives the smallest such size: every aligned size of at least minSize bytes that holds size bytes plus overhead is at least as large. */
  lemma AlignSizeLeast(size: nat, overhead: nat, minSize: nat, s: nat)
    requires overhead + DSIZE <= minSize
    requires s % DSIZE == 0 && s >= minSize && s >= size + overhead
    ensures AlignSize(size, overhead, minSize) <= s
  {
  }

  /** An adjusted size beyond an aligned block size s means the request does not fit in s with its overhead. */
  lemma AlignSizeExceeds(size: nat, overhead: nat, minSize: nat, s: nat)
    requires overhead + DSIZE <= minSize && s % DSIZE == 0 && s >= minSize
    requires AlignSize(size, overhead, minSize) > s
    ensures size + overhead > s
  {
    if size + overhead <= s {
      AlignSizeLeast(size, overhead, minSize, s);
    }
  }

  /** Number of significant bits of n (0 for 0). */
  function BitLength(n: nat): nat
  {
    if n == 0 then 0 else 1 + BitLength(n / 2)
  }

  function Pow2(k: nat): (r: nat)
    ensures r >= 1
  {
    if k == 0 then 1 else 2 * Pow2(k - 1)
  }

  /** The bucket `get_list` picks: the bit length of the size, capped at the last list. */
  function ListIndex(size: nat): (r: nat)
    ensures r < NUM_LISTS
  {
    if BitLength(size) < NUM_LISTS - 1 then BitLength(size) else NUM_LISTS - 1
  }

  /** A positive n has bit length k exactly when 2^(k-1) <= n < 2^k. */
  lemma {:induction false} BitLengthBounds(n: nat)
    requires n > 0
    ensures BitLength(n) >= 1
    ensures Pow2(BitLength(n) - 1) <= n < Pow2(BitLength(n))
  {
    if n > 1 {
      BitLengthBounds(n / 2);
    }
  }

  /** Bit length is monotone. */
  lemma {:induction false} BitLengthMonotone(a: nat, b: nat)
    requires a <= b
    ensures BitLength(a) <= BitLength(b)
  {
    if a > 0 {
      BitLengthMonotone(a / 2, b / 2);
    }
  }

  /** Larger sizes never land in a lower bucket. */
  lemma ListIndexMonotone(a: nat, b: nat)
    requires a <= b
    ensures ListIndex(a) <= ListIndex(b)
  {
    BitLengthMonotone(a, b);
  }

  /**
   * The size range of each bucket: bucket 0 holds only size 0, bucket i in
   * 1..18 holds exactly the sizes in [2^(i-1), 2^i), and bucket 19 every
   * size from 2^18 up.
   */
  lemma ListIndexRange(size: nat)
    ensures ListIndex(size) == 0 <==> size == 0
    ensures 1 <= ListIndex(size) < NUM_LISTS - 1 ==>
      Pow2(ListIndex(size) - 1) <= size < Pow2(ListIndex(size))
    ensures ListIndex(size) == NUM_LISTS - 1 <==> size >= Pow2(NUM_LISTS - 2)
  {
    if size > 0 {
      BitLengthBounds(size);
      if BitLength(size) < NUM_LISTS - 1 {
        Pow2Monotone(BitLength(size), NUM_LISTS - 2);
      } else {
        Pow2Monotone(NUM_LISTS - 2, BitLength(size) - 1);
      }
    }
  }

  lemma {:induction false} Pow2Monotone(i: nat, j: nat)
    requires i <= j
    ensures Pow2(i) <= Pow2(j)
  {
    if i < j {
      Pow2Monotone(i, j - 1);
    }
  }

  /**
   * get_list: shifts the size right until it is zero or the last list is
   * reached, counting the shifts.
   */
  method GetList(size: nat) returns (list: nat)
    ensures list == ListIndex(size)
  {
    list := 0;
    var s := size;
    while list < NUM_LISTS - 1 && s > 0
      invariant list <= NUM_LISTS - 1
      invariant list + BitLength(s) == BitLength(size)
    {
      s := s / 2;
      list := list + 1;
    }
  }
}
