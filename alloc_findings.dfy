/**
 * The allocator code paths that behave differently from what their
 * comments and the C library contract promise, modelled as written. The
 * corrected behaviour is the one the Allocator module implements.
 *
 * A pointer is an address here, with NULL written as 0; no block pointer
 * is 0, since every block lies above the prologue.
 */
module AllocFindings {
  import opened Options
  import opened SizeClass
  import opened HeapLayout
  import opened HeapLayoutLemmas
  import opened HeapSteps
  import opened Allocator

  /** A memset or memcpy destination range: len bytes written from dst. */
  datatype Write = Write(dst: nat, len: nat)

  /** The write goes through NULL. */
  predicate WritesNull(w: Write)
  {
    w.dst == 0 && w.len > 0
  }

  /** A pointer as C holds it: NULL for None. */
  function Addr(p: Option<nat>): nat
  {
    if p.Some? then p.value else 0
  }

  /**
   * realloc's shrinking branch in mm_segregated.c as written: the block
   * is freed, listed, split and marked allocated again, which leaves the
   * shrink tags (ShrinkHdr) with the remainder listed but never
   * coalesced. When the block's successor is free, the remainder and
   * that successor are two neighbouring free blocks.
   */
  lemma ShrinkAsWrittenLeavesFreePair(c: Config, hdr: map<nat, Tag>, ftr: map<nat, Tag>, B: set<nat>, E: nat,
                                      x: nat, a: nat)
    requires SplitPre(c, hdr, ftr, B, E, x, a) && hdr[x].alloc
    requires x + hdr[x].size in B && x + hdr[x].size in hdr && !hdr[x + hdr[x].size].alloc
    ensures !NoAdjFree(ShrinkHdr(hdr, x, a), B + {x + a}, {})
  {
    SplitFresh(c, hdr, ftr, B, E, x, a);
    var h2, r, n := ShrinkHdr(hdr, x, a), x + a, x + hdr[x].size;
    assert h2[r] == Tag(hdr[x].size - a, false) && r + h2[r].size == n;
    assert n != r && n != x && h2[n] == hdr[n];
    assert IsBlock(B + {r}, r);
  }

  /** The write overlaps the range of the same length read from srcStart. */
  predicate Overlap(w: Write, srcStart: nat)
  {
    w.len > 0 && w.dst < srcStart + w.len && srcStart < w.dst + w.len
  }

  /**
   * realloc's growing branch in mm_segregated.c as written: after coalesce
   * merged a free predecessor of prevSize bytes, memcpy(newptr, ptr,
   * oldsize) copies oldsize bytes from bp down to the predecessor. The
   * two ranges overlap whenever the predecessor is smaller than the
   * block, and memcpy leaves that case undefined.
   */
  function GrowCopyAsWritten(bp: nat, prevSize: nat, oldsize: nat): (w: Write)
    requires 0 < prevSize <= bp
    ensures w.dst < bp && w.len == oldsize
  {
    Write(bp - prevSize, oldsize)
  }

  lemma GrowCopyOverlaps(bp: nat, prevSize: nat, oldsize: nat)
    requires 0 < prevSize < oldsize && prevSize <= bp
    ensures Overlap(GrowCopyAsWritten(bp, prevSize, oldsize), bp)
  {
  }

  /**
   * The number of bytes the naive realloc of mm_oldrealloc.c and
   * mm_explicit.c copies: the smaller of size and the old block's size,
   * header and footer included. The segregated allocator's moving branch
   * copies oldsize, the block size, as well.
   */
  function NaiveCopyAsWritten(size: nat, blockSize: nat): (n: nat)
    ensures n <= size && n <= blockSize && (n == size || n == blockSize)
  {
    if size < blockSize then size else blockSize
  }

  /**
   * For the last block of the heap, the bytes that copy reads run past
   * the break whenever size reaches the block size: the block ends
   * hdrOff bytes past the epilogue header word, which is the last word
   * below the break. h is the heap as realloc finds it, before its
   * malloc(size): the read passes the break the copy sees when that
   * malloc finds a fit without extending the heap, because an extension
   * moves the break beyond bp plus the block size.
   */
  lemma {:induction false} NaiveCopyReadsPastBreak(h: Heap, bp: nat, size: nat)
    requires h.Valid() && h.IsAllocated(bp) && bp + h.hdr[bp].size == h.Epilogue() && size >= h.hdr[bp].size
    ensures bp + NaiveCopyAsWritten(size, h.hdr[bp].size) > h.brk
    ensures bp + Min(size, h.Payload(bp)) <= h.brk
  {
    assert IsBlock(h.blocks, bp);
    BlockInside(h.cfg, h.hdr, h.ftr, h.blocks, h.Epilogue(), bp);
  }

  /**
   * Both moving branches of mm_segregated.c's realloc copy oldsize bytes,
   * the whole block: the payload, the block's own footer and the next
   * block's header. For the last block of the heap that read ends past
   * the break (the coalescing branch never moves the break; the fallback
   * does not when malloc(newsize) finds a fit without extending the heap),
   * while a copy of the payload alone stays below it.
   */
  lemma {:induction false} OldsizeCopyReadsPastBreak(h: Heap, bp: nat)
    requires h.Valid() && h.IsAllocated(bp) && bp + h.hdr[bp].size == h.Epilogue()
    ensures forall prevSize: nat | 0 < prevSize <= bp ::
      bp + GrowCopyAsWritten(bp, prevSize, h.hdr[bp].size).len > h.brk
    ensures forall got: Option<nat> :: bp + FallbackCopyAsWritten(got, h.hdr[bp].size).len > h.brk
    ensures bp + h.Payload(bp) <= h.brk
  {
    NaiveCopyReadsPastBreak(h, bp, h.hdr[bp].size);
  }

  /**
   * The moving branch of mm_segregated.c's realloc as written: the result
   * of malloc(newsize) goes to memcpy unchecked, so a failing malloc
   * makes it write oldsize bytes through NULL (and the old block is freed
   * after it).
   */
  function FallbackCopyAsWritten(got: Option<nat>, oldsize: nat): (w: Write)
    ensures w.len == oldsize && (got.Some? ==> w.dst == got.value)
  {
    Write(Addr(got), oldsize)
  }

  lemma FallbackWritesNull(oldsize: nat)
    requires oldsize > 0
    ensures WritesNull(FallbackCopyAsWritten(None, oldsize))
  {
  }

  /**
   * calloc as written in all three allocators: the byte count is the
   * size_t product, reduced modulo 2^64, and memset runs on whatever
   * malloc returned, NULL included.
   */
  function CallocRequestAsWritten(nmemb: nat, size: nat): (n: nat)
    ensures n < SizeLimit && (nmemb * size < SizeLimit ==> n == nmemb * size)
  {
    (nmemb * size) % SizeLimit
  }

  function CallocFillAsWritten(got: Option<nat>, nmemb: nat, size: nat): (w: Write)
    ensures w.len == CallocRequestAsWritten(nmemb, size) && (got.Some? ==> w.dst == got.value)
  {
    Write(Addr(got), CallocRequestAsWritten(nmemb, size))
  }

  /** 2^32 + 1 elements of 2^32 bytes ask malloc for only 2^32 bytes. */
  lemma CallocRequestWraps()
    ensures CallocRequestAsWritten(0x1_0000_0001, 0x1_0000_0000) == 0x1_0000_0000
    ensures 0x1_0000_0001 * 0x1_0000_0000 > 0x1_0000_0000
  {
  }

  /** A failing malloc makes calloc zero nmemb * size bytes at NULL. */
  lemma CallocFillsNull(nmemb: nat, size: nat)
    requires 0 < nmemb * size < SizeLimit
    ensures WritesNull(CallocFillAsWritten(None, nmemb, size))
  {
  }

  /**
   * align_size (and the explicit allocator's inline sizing) as written:
   * the rounding sum size + overhead + 7 is a size_t, so it wraps modulo
   * 2^64 before the division. Below the wrap it is the adjusted size;
   * at the wrap it is a legal-looking multiple of 8 smaller than both
   * the minimum block and the request.
   */
  function AlignSizeAsWritten(c: Config, size: nat): (r: nat)
    requires ConfigOk(c) && size < SizeLimit
    ensures !Oversized(c, size) ==> r == Adjusted(c, size)
    ensures Oversized(c, size) ==> r % DSIZE == 0 && r < c.minSize && r < size
  {
    if size <= DSIZE then c.minSize
    else DSIZE * ((size + Overhead(c) + (DSIZE - 1)) % SizeLimit / DSIZE)
  }

  /** malloc(2^64 - 1) asks for a 16-byte block in mm_segregated.c and a 24-byte one in mm_explicit.c. */
  lemma AlignSizeWraps()
    ensures AlignSizeAsWritten(Segregated, SizeLimit - 1) == 16
    ensures AlignSizeAsWritten(Explicit, SizeLimit - 1) == 24
  {
  }
}
