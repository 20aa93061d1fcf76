/**
 * Block layout of the malloc lab allocators and the invariants that the
 * heap checker tests.
 *
 * Memory words are kept in four maps keyed by block pointer (bp):
 *   hdr[bp]       the header tag word at HDRP(bp)
 *   nextLink[bp]  the next-free link word stored in the header
 *   ftr[bp]       the footer tag word of the block that ENDS at bp, which is
 *                 the word PREV_BLKP(bp) reads; the footer of a block bp of
 *                 size s is therefore ftr[bp + s]
 *   prevLink[bp]  the prev-free link word stored in that same footer
 * A tag packs a size (a multiple of 8) and the allocated bit. A link word
 * is None for NULL (the segregated allocator stores the offset 0 for it) or
 * the block pointer it designates.
 */
module HeapLayout {
  import opened Options
  import opened SizeClass

  datatype Tag = Tag(size: nat, alloc: bool)

  /**
   * The constants that distinguish the three allocators: offset from the
   * header to bp, minimum block size, number of free lists, the floor of a
   * heap extension, and the prologue's block pointer and size.
   */
  datatype Config = Config(hdrOff: nat, minSize: nat, numLists: nat, extendFloor: nat,
                           prologue: nat, prologueSize: nat)

  /** mm_segregated.c: 8-byte header, 24-byte minimum, 20 lists, CHUNKSIZE 256. */
  const Segregated := Config(8, 24, 20, 256, 8, 16)
  /** mm_oldrealloc.c: as above but heap extensions are floored at MIN_SIZE. */
  const OldRealloc := Config(8, 24, 20, 24, 8, 16)
  /** mm_explicit.c: 12-byte header (tag and an 8-byte pointer), one list. */
  const Explicit := Config(12, 32, 1, 32, 16, 24)

  predicate ConfigOk(c: Config)
  {
    c == Segregated || c == OldRealloc || c == Explicit
  }

  /** Bytes of header plus footer in every block. */
  function Overhead(c: Config): nat { 2 * c.hdrOff }

  /** Block pointer of the first block after the prologue. */
  function FirstBlock(c: Config): nat { c.prologue + c.prologueSize }

  /** The free list a block of this size belongs to. */
  function Bucket(c: Config, size: nat): nat
  {
    if c.numLists == 1 then 0 else ListIndex(size)
  }

  lemma BucketInRange(c: Config, size: nat)
    requires ConfigOk(c)
    ensures Bucket(c, size) < c.numLists
  {
  }

  /** Larger blocks never go to a lower list. */
  lemma BucketMonotone(c: Config, a: nat, b: nat)
    requires ConfigOk(c) && a <= b
    ensures Bucket(c, a) <= Bucket(c, b)
  {
    if c.numLists != 1 {
      ListIndexMonotone(a, b);
    }
  }

  /** The adjusted size of a request (align_size, or the explicit allocator's inline sizing). */
  function Adjusted(c: Config, size: nat): nat
  {
    AlignSize(size, Overhead(c), c.minSize)
  }

  lemma AdjustedLegal(c: Config, size: nat)
    requires ConfigOk(c)
    ensures Adjusted(c, size) % DSIZE == 0 && Adjusted(c, size) >= c.minSize
    ensures Adjusted(c, size) >= size + Overhead(c)
  {
    AlignSizeLegal(size, Overhead(c), c.minSize);
  }

  function Head(s: seq<nat>): Option<nat>
  {
    if s == [] then None else Some(s[0])
  }

  /**
   * Membership in the block set. Quantifiers over blocks are triggered on
   * this predicate only, so that the successor and predecessor addresses
   * they mention do not start a chain of instantiations.
   */
  ghost predicate IsBlock(B: set<nat>, x: nat) { x in B }

  /** The block x in B is well formed: inside the heap, aligned, legal size, footer equal to header, followed by a block or the epilogue. */
  ghost predicate BlockOk(c: Config, hdr: map<nat, Tag>, ftr: map<nat, Tag>, B: set<nat>, E: nat, x: nat)
  {
    FirstBlock(c) <= x < E && x % 8 == 0 && x in hdr &&
    hdr[x].size >= c.minSize && hdr[x].size % 8 == 0 &&
    x + hdr[x].size in ftr && ftr[x + hdr[x].size] == hdr[x] &&
    (x + hdr[x].size == E || x + hdr[x].size in B)
  }

  /** PREV_BLKP(y) is a block of B that ends exactly at y. */
  ghost predicate HasPrev(hdr: map<nat, Tag>, ftr: map<nat, Tag>, B: set<nat>, y: nat)
  {
    y in ftr && ftr[y].size <= y && y - ftr[y].size in B &&
    y - ftr[y].size in hdr && hdr[y - ftr[y].size].size == ftr[y].size
  }

  /**
   * The heap is a tiling of blocks: an allocated 16-byte (24 for the
   * explicit list) prologue, the blocks of B in address order without gaps
   * or overlap, and a size-0 allocated epilogue header at E.
   */
  ghost predicate LayoutOk(c: Config, hdr: map<nat, Tag>, ftr: map<nat, Tag>, B: set<nat>, E: nat)
  {
    ConfigOk(c) &&
    c.prologue in hdr && hdr[c.prologue] == Tag(c.prologueSize, true) &&
    FirstBlock(c) in ftr && ftr[FirstBlock(c)] == Tag(c.prologueSize, true) &&
    E in hdr && hdr[E] == Tag(0, true) && FirstBlock(c) <= E && E % 8 == 0 &&
    (FirstBlock(c) == E || FirstBlock(c) in B) &&
    (forall x: nat :: IsBlock(B, x) ==> BlockOk(c, hdr, ftr, B, E, x)) &&
    (forall y: nat :: IsBlock(B, y) && y != FirstBlock(c) ==> HasPrev(hdr, ftr, B, y)) &&
    (E != FirstBlock(c) ==> HasPrev(hdr, ftr, B, E)) &&
    (forall x: nat, y: nat {:trigger IsBlock(B, x), IsBlock(B, y)} ::
      IsBlock(B, x) && IsBlock(B, y) && x < y && x in hdr ==> x + hdr[x].size <= y)
  }

  /** The position-i member of list s of bucket b is a listed free block whose link words point to its neighbours in s. */
  ghost predicate Linked(c: Config, hdr: map<nat, Tag>, nextLink: map<nat, Option<nat>>,
                         prevLink: map<nat, Option<nat>>, B: set<nat>, out: set<nat>,
                         s: seq<nat>, b: nat, i: nat)
    requires i < |s|
  {
    var x := s[i];
    x in B && x !in out && x in hdr && !hdr[x].alloc && Bucket(c, hdr[x].size) == b &&
    x in nextLink && nextLink[x] == (if i + 1 < |s| then Some(s[i + 1]) else None) &&
    x + hdr[x].size in prevLink &&
    prevLink[x + hdr[x].size] == (if i > 0 then Some(s[i - 1]) else None)
  }

  /**
   * The free lists: heads[b] is the first member of L[b], consecutive
   * members are doubly linked, no block is listed twice, and every free
   * block of B outside `out` is listed in the bucket of its size. Blocks in
   * `out` are exempt: they are being split, merged, allocated or freed.
   */
  ghost predicate ListsOk(c: Config, hdr: map<nat, Tag>, nextLink: map<nat, Option<nat>>,
                          prevLink: map<nat, Option<nat>>, heads: seq<Option<nat>>,
                          L: seq<seq<nat>>, B: set<nat>, out: set<nat>)
  {
    ConfigOk(c) && |heads| == c.numLists && |L| == c.numLists &&
    (forall b :: 0 <= b < |L| ==> heads[b] == Head(L[b])) &&
    (forall b, i :: 0 <= b < |L| && 0 <= i < |L[b]| ==>
      Linked(c, hdr, nextLink, prevLink, B, out, L[b], b, i)) &&
    (forall b, i, j :: 0 <= b < |L| && 0 <= i < j < |L[b]| ==> L[b][i] != L[b][j]) &&
    (forall x: nat {:trigger IsBlock(B, x)} :: IsBlock(B, x) && x in hdr && !hdr[x].alloc && x !in out ==>
      x in L[Bucket(c, hdr[x].size)]) &&
    out <= B
  }

  /** No two neighbouring blocks are both free, except pairs touching `out`. */
  ghost predicate NoAdjFree(hdr: map<nat, Tag>, B: set<nat>, out: set<nat>)
  {
    forall x: nat {:trigger IsBlock(B, x)} ::
      (IsBlock(B, x) && x in hdr && x !in out && !hdr[x].alloc &&
       x + hdr[x].size in B && x + hdr[x].size in hdr && x + hdr[x].size !in out) ==>
        hdr[x + hdr[x].size].alloc
  }
}

module HeapLayoutLemmas {
  import opened Options
  import opened SizeClass
  import opened HeapLayout

  /** Distinct blocks end at distinct addresses; a block never starts strictly inside another. */
  lemma Disjoint(c: Config, hdr: map<nat, Tag>, ftr: map<nat, Tag>, B: set<nat>, E: nat, x: nat, y: nat)
    requires LayoutOk(c, hdr, ftr, B, E) && IsBlock(B, x) && IsBlock(B, y) && x != y
    ensures x in hdr && y in hdr
    ensures x + hdr[x].size != y + hdr[y].size
    ensures x < y ==> x + hdr[x].size <= y
    ensures y < x ==> y + hdr[y].size <= x
  {
    assert BlockOk(c, hdr, ftr, B, E, x) && BlockOk(c, hdr, ftr, B, E, y);
  }

  /** The new tag maps of a split of block x at offset a. */
  function SplitHdr(hdr: map<nat, Tag>, x: nat, a: nat): map<nat, Tag>
    requires x in hdr && hdr[x].size >= a
  {
    hdr[x := Tag(a, false)][x + a := Tag(hdr[x].size - a, false)]
  }

  function SplitFtr(hdr: map<nat, Tag>, ftr: map<nat, Tag>, x: nat, a: nat): map<nat, Tag>
    requires x in hdr && hdr[x].size >= a
  {
    ftr[x + a := Tag(a, false)][x + hdr[x].size := Tag(hdr[x].size - a, false)]
  }

  ghost predicate SplitPre(c: Config, hdr: map<nat, Tag>, ftr: map<nat, Tag>, B: set<nat>, E: nat, x: nat, a: nat)
  {
    LayoutOk(c, hdr, ftr, B, E) && IsBlock(B, x) &&
    a >= c.minSize && a % 8 == 0 && x in hdr && hdr[x].size >= a + c.minSize
  }

  lemma SplitFresh(c: Config, hdr: map<nat, Tag>, ftr: map<nat, Tag>, B: set<nat>, E: nat, x: nat, a: nat)
    requires SplitPre(c, hdr, ftr, B, E, x, a)
    ensures x + a !in B && x + a != E && x + a != c.prologue && x + a != x
    ensures x + hdr[x].size <= E && x >= FirstBlock(c)
  {
    assert BlockOk(c, hdr, ftr, B, E, x);
    if x + a in B {
      Disjoint(c, hdr, ftr, B, E, x, x + a);
    }
    if x + hdr[x].size != E {
      assert IsBlock(B, x + hdr[x].size);
    }
  }

  lemma SplitBlocks(c: Config, hdr: map<nat, Tag>, ftr: map<nat, Tag>, B: set<nat>, E: nat, x: nat, a: nat,
                    h2: map<nat, Tag>, f2: map<nat, Tag>, B2: set<nat>)
    requires SplitPre(c, hdr, ftr, B, E, x, a)
    requires h2 == SplitHdr(hdr, x, a) && f2 == SplitFtr(hdr, ftr, x, a) && B2 == B + {x + a}
    ensures forall y: nat :: IsBlock(B2, y) ==> BlockOk(c, h2, f2, B2, E, y)
  {
    var o := hdr[x].size;
    var r := x + a;
    SplitFresh(c, hdr, ftr, B, E, x, a);
    assert BlockOk(c, hdr, ftr, B, E, x);
    forall y: nat | IsBlock(B2, y)
      ensures BlockOk(c, h2, f2, B2, E, y)
    {
      if y != x && y != r {
        assert BlockOk(c, hdr, ftr, B, E, y);
        Disjoint(c, hdr, ftr, B, E, x, y);
        if y < x {
          assert y + hdr[y].size <= x;
        }
      }
    }
  }

  lemma SplitPrev(c: Config, hdr: map<nat, Tag>, ftr: map<nat, Tag>, B: set<nat>, E: nat, x: nat, a: nat,
                  h2: map<nat, Tag>, f2: map<nat, Tag>, B2: set<nat>)
    requires SplitPre(c, hdr, ftr, B, E, x, a)
    requires h2 == SplitHdr(hdr, x, a) && f2 == SplitFtr(hdr, ftr, x, a) && B2 == B + {x + a}
    ensures forall y: nat :: IsBlock(B2, y) && y != FirstBlock(c) ==> HasPrev(h2, f2, B2, y)
    ensures E != FirstBlock(c) ==> HasPrev(h2, f2, B2, E)
  {
    var o := hdr[x].size;
    var r := x + a;
    SplitFresh(c, hdr, ftr, B, E, x, a);
    forall y: nat | (IsBlock(B2, y) && y != FirstBlock(c)) || (y == E && E != FirstBlock(c))
      ensures HasPrev(h2, f2, B2, y)
    {
      if y == E {
        if E == x + o {
          assert f2[E] == Tag(o - a, false);
        } else {
          assert HasPrev(hdr, ftr, B, E);
          var p := E - ftr[E].size;
          assert IsBlock(B, p);
          if p == x {
            assert false;
          }
          assert f2[E] == ftr[E];
          assert h2[p] == hdr[p];
        }
      } else if y == r {
        assert f2[y] == Tag(a, false);
        assert y - f2[y].size == x;
      } else if y == x + o {
        assert f2[y] == Tag(o - a, false);
        assert y - f2[y].size == r;
      } else {
        assert HasPrev(hdr, ftr, B, y);
        var p := y - ftr[y].size;
        assert IsBlock(B, p);
        if p == x {
          assert false;
        }
        assert f2[y] == ftr[y];
        assert h2[p] == hdr[p];
      }
    }
  }

  lemma SplitDisjoint(c: Config, hdr: map<nat, Tag>, ftr: map<nat, Tag>, B: set<nat>, E: nat, x: nat, a: nat,
                      h2: map<nat, Tag>, B2: set<nat>)
    requires SplitPre(c, hdr, ftr, B, E, x, a)
    requires h2 == SplitHdr(hdr, x, a) && B2 == B + {x + a}
    ensures forall y: nat, z: nat :: IsBlock(B2, y) && IsBlock(B2, z) && y < z && y in h2 ==> y + h2[y].size <= z
  {
    var o := hdr[x].size;
    var r := x + a;
    SplitFresh(c, hdr, ftr, B, E, x, a);
    forall y: nat, z: nat | IsBlock(B2, y) && IsBlock(B2, z) && y < z && y in h2
      ensures y + h2[y].size <= z
    {
      if y == r {
        if z in B {
          assert x < z;
          Disjoint(c, hdr, ftr, B, E, x, z);
        }
      } else if y == x {
        if z != r {
          Disjoint(c, hdr, ftr, B, E, x, z);
        }
      } else if z == r {
        assert y < x by {
          if x < y {
            Disjoint(c, hdr, ftr, B, E, x, y);
          }
        }
        Disjoint(c, hdr, ftr, B, E, x, y);
      } else {
        Disjoint(c, hdr, ftr, B, E, y, z);
      }
    }
  }

  /**
   * split: block x of size o becomes a block of size a followed by a new
   * block of size o - a at x + a; both tags are written free, and the
   * tiling is kept.
   */
  lemma SplitLayout(c: Config, hdr: map<nat, Tag>, ftr: map<nat, Tag>, B: set<nat>, E: nat, x: nat, a: nat)
    requires SplitPre(c, hdr, ftr, B, E, x, a)
    ensures x + a !in B && x + a != E && x + a != c.prologue && x + a != x
    ensures LayoutOk(c, SplitHdr(hdr, x, a), SplitFtr(hdr, ftr, x, a), B + {x + a}, E)
  {
    var h2, f2, B2 := SplitHdr(hdr, x, a), SplitFtr(hdr, ftr, x, a), B + {x + a};
    SplitFresh(c, hdr, ftr, B, E, x, a);
    SplitBlocks(c, hdr, ftr, B, E, x, a, h2, f2, B2);
    SplitPrev(c, hdr, ftr, B, E, x, a, h2, f2, B2);
    SplitDisjoint(c, hdr, ftr, B, E, x, a, h2, B2);
    assert h2[c.prologue] == hdr[c.prologue] && f2[FirstBlock(c)] == ftr[FirstBlock(c)] && h2[E] == hdr[E];
  }

  /**
   * A merge makes block x run up to e (a later block or the epilogue):
   * the blocks strictly between x and e disappear, x gets size e - x in its
   * header and in the footer that ends at e, both written free.
   */
  ghost predicate MergePre(c: Config, hdr: map<nat, Tag>, ftr: map<nat, Tag>, B: set<nat>, E: nat,
                           x: nat, e: nat, B2: set<nat>)
  {
    LayoutOk(c, hdr, ftr, B, E) && IsBlock(B, x) && x < e && (e == E || e in B) &&
    (forall z :: z in B2 <==> z in B && !(x < z < e))
  }

  lemma MergeFacts(c: Config, hdr: map<nat, Tag>, ftr: map<nat, Tag>, B: set<nat>, E: nat, x: nat, e: nat, B2: set<nat>)
    requires MergePre(c, hdr, ftr, B, E, x, e, B2)
    ensures x in hdr && x + hdr[x].size <= e && e <= E && e % 8 == 0 && x % 8 == 0
    ensures FirstBlock(c) <= x && e - x >= c.minSize
  {
    assert BlockOk(c, hdr, ftr, B, E, x);
    var n := x + hdr[x].size;
    if n != E {
      assert IsBlock(B, n);
      assert BlockOk(c, hdr, ftr, B, E, n);
    }
    if e != E {
      assert BlockOk(c, hdr, ftr, B, E, e);
      Disjoint(c, hdr, ftr, B, E, x, e);
    }
  }

  lemma MergeBlocks(c: Config, hdr: map<nat, Tag>, ftr: map<nat, Tag>, B: set<nat>, E: nat, x: nat, e: nat, B2: set<nat>)
    requires MergePre(c, hdr, ftr, B, E, x, e, B2)
    ensures forall y: nat :: IsBlock(B2, y) ==>
      BlockOk(c, hdr[x := Tag(e - x, false)], ftr[e := Tag(e - x, false)], B2, E, y)
  {
    var h2, f2 := hdr[x := Tag(e - x, false)], ftr[e := Tag(e - x, false)];
    MergeFacts(c, hdr, ftr, B, E, x, e, B2);
    forall y: nat | IsBlock(B2, y)
      ensures BlockOk(c, h2, f2, B2, E, y)
    {
      if y != x {
        assert BlockOk(c, hdr, ftr, B, E, y);
        Disjoint(c, hdr, ftr, B, E, x, y);
        var n := y + hdr[y].size;
        if n != E {
          assert IsBlock(B, n);
          if n != x {
            Disjoint(c, hdr, ftr, B, E, x, n);
          }
        }
      }
    }
  }

  lemma MergePrev(c: Config, hdr: map<nat, Tag>, ftr: map<nat, Tag>, B: set<nat>, E: nat, x: nat, e: nat, B2: set<nat>)
    requires MergePre(c, hdr, ftr, B, E, x, e, B2)
    ensures forall y: nat :: IsBlock(B2, y) && y != FirstBlock(c) ==>
      HasPrev(hdr[x := Tag(e - x, false)], ftr[e := Tag(e - x, false)], B2, y)
    ensures E != FirstBlock(c) ==> HasPrev(hdr[x := Tag(e - x, false)], ftr[e := Tag(e - x, false)], B2, E)
  {
    var h2, f2 := hdr[x := Tag(e - x, false)], ftr[e := Tag(e - x, false)];
    MergeFacts(c, hdr, ftr, B, E, x, e, B2);
    forall y: nat | (IsBlock(B2, y) && y != FirstBlock(c)) || (y == E && E != FirstBlock(c))
      ensures HasPrev(h2, f2, B2, y)
    {
      if y == e {
        assert f2[y] == Tag(e - x, false);
      } else {
        assert HasPrev(hdr, ftr, B, y);
        var p := y - ftr[y].size;
        assert IsBlock(B, p);
        assert BlockOk(c, hdr, ftr, B, E, p);
        if y != E {
          assert BlockOk(c, hdr, ftr, B, E, y);
        }
        if e != E && p != e {
          Disjoint(c, hdr, ftr, B, E, p, e);
        }
        assert p != x && !(x < p < e);
        assert f2[y] == ftr[y];
        assert h2[p] == hdr[p];
      }
    }
  }

  lemma MergeDisjoint(c: Config, hdr: map<nat, Tag>, ftr: map<nat, Tag>, B: set<nat>, E: nat, x: nat, e: nat, B2: set<nat>)
    requires MergePre(c, hdr, ftr, B, E, x, e, B2)
    ensures forall y: nat, z: nat :: IsBlock(B2, y) && IsBlock(B2, z) && y < z && y in hdr[x := Tag(e - x, false)] ==>
      y + hdr[x := Tag(e - x, false)][y].size <= z
  {
    var h2 := hdr[x := Tag(e - x, false)];
    MergeFacts(c, hdr, ftr, B, E, x, e, B2);
    forall y: nat, z: nat | IsBlock(B2, y) && IsBlock(B2, z) && y < z && y in h2
      ensures y + h2[y].size <= z
    {
      if y != x {
        Disjoint(c, hdr, ftr, B, E, y, z);
      }
    }
  }

  /** coalesce: merging x with the free blocks that follow it up to e keeps the tiling. */
  lemma MergeLayout(c: Config, hdr: map<nat, Tag>, ftr: map<nat, Tag>, B: set<nat>, E: nat, x: nat, e: nat, B2: set<nat>)
    requires MergePre(c, hdr, ftr, B, E, x, e, B2)
    ensures x in B2 && x < e
    ensures LayoutOk(c, hdr[x := Tag(e - x, false)], ftr[e := Tag(e - x, false)], B2, E)
  {
    var h2, f2 := hdr[x := Tag(e - x, false)], ftr[e := Tag(e - x, false)];
    MergeFacts(c, hdr, ftr, B, E, x, e, B2);
    MergeBlocks(c, hdr, ftr, B, E, x, e, B2);
    MergePrev(c, hdr, ftr, B, E, x, e, B2);
    MergeDisjoint(c, hdr, ftr, B, E, x, e, B2);
    assert h2[c.prologue] == hdr[c.prologue] && f2[FirstBlock(c)] == ftr[FirstBlock(c)] && h2[E] == hdr[E];
    assert FirstBlock(c) == E || FirstBlock(c) in B2;
  }

  ghost predicate ExtendPre(c: Config, hdr: map<nat, Tag>, ftr: map<nat, Tag>, B: set<nat>, E: nat, s: nat,
                            h2: map<nat, Tag>, f2: map<nat, Tag>, B2: set<nat>)
  {
    LayoutOk(c, hdr, ftr, B, E) && s >= c.minSize && s % 8 == 0 &&
    h2 == hdr[E := Tag(s, false)][E + s := Tag(0, true)] && f2 == ftr[E + s := Tag(s, false)] && B2 == B + {E}
  }

  lemma ExtendFresh(c: Config, hdr: map<nat, Tag>, ftr: map<nat, Tag>, B: set<nat>, E: nat)
    requires LayoutOk(c, hdr, ftr, B, E)
    ensures E !in B && E >= FirstBlock(c)
    ensures forall y: nat :: IsBlock(B, y) ==> y < E && y + hdr[y].size <= E
  {
    assert IsBlock(B, E) ==> BlockOk(c, hdr, ftr, B, E, E);
    forall y: nat | IsBlock(B, y)
      ensures y < E && y + hdr[y].size <= E
    {
      assert BlockOk(c, hdr, ftr, B, E, y);
      var n := y + hdr[y].size;
      if n != E {
        assert IsBlock(B, n);
        assert BlockOk(c, hdr, ftr, B, E, n);
      }
    }
  }

  lemma ExtendBlocks(c: Config, hdr: map<nat, Tag>, ftr: map<nat, Tag>, B: set<nat>, E: nat, s: nat,
                     h2: map<nat, Tag>, f2: map<nat, Tag>, B2: set<nat>)
    requires ExtendPre(c, hdr, ftr, B, E, s, h2, f2, B2)
    ensures forall y: nat :: IsBlock(B2, y) ==> BlockOk(c, h2, f2, B2, E + s, y)
  {
    ExtendFresh(c, hdr, ftr, B, E);
    forall y: nat | IsBlock(B2, y)
      ensures BlockOk(c, h2, f2, B2, E + s, y)
    {
      if y != E {
        assert IsBlock(B, y);
        assert BlockOk(c, hdr, ftr, B, E, y);
      }
    }
  }

  lemma ExtendPrev(c: Config, hdr: map<nat, Tag>, ftr: map<nat, Tag>, B: set<nat>, E: nat, s: nat,
                   h2: map<nat, Tag>, f2: map<nat, Tag>, B2: set<nat>)
    requires ExtendPre(c, hdr, ftr, B, E, s, h2, f2, B2)
    ensures forall y: nat :: IsBlock(B2, y) && y != FirstBlock(c) ==> HasPrev(h2, f2, B2, y)
    ensures HasPrev(h2, f2, B2, E + s)
  {
    ExtendFresh(c, hdr, ftr, B, E);
    forall y: nat | (IsBlock(B2, y) && y != FirstBlock(c)) || y == E + s
      ensures HasPrev(h2, f2, B2, y)
    {
      if y != E + s {
        if y != E {
          assert IsBlock(B, y);
        }
        assert HasPrev(hdr, ftr, B, y);
        var p := y - ftr[y].size;
        assert IsBlock(B, p);
        assert f2[y] == ftr[y] && h2[p] == hdr[p];
      }
    }
  }

  lemma ExtendDisjoint(c: Config, hdr: map<nat, Tag>, ftr: map<nat, Tag>, B: set<nat>, E: nat, s: nat,
                       h2: map<nat, Tag>, f2: map<nat, Tag>, B2: set<nat>)
    requires ExtendPre(c, hdr, ftr, B, E, s, h2, f2, B2)
    ensures forall y: nat, z: nat :: IsBlock(B2, y) && IsBlock(B2, z) && y < z && y in h2 ==> y + h2[y].size <= z
  {
    ExtendFresh(c, hdr, ftr, B, E);
    forall y: nat, z: nat | IsBlock(B2, y) && IsBlock(B2, z) && y < z && y in h2
      ensures y + h2[y].size <= z
    {
      if z != E {
        assert IsBlock(B, z);
      }
      assert IsBlock(B, y);
      assert h2[y] == hdr[y];
    }
  }

  /**
   * extend_heap: the old epilogue word becomes the header of a new free
   * block of size s at E, whose footer ends at the new epilogue E + s.
   */
  lemma ExtendLayout(c: Config, hdr: map<nat, Tag>, ftr: map<nat, Tag>, B: set<nat>, E: nat, s: nat)
    requires LayoutOk(c, hdr, ftr, B, E) && s >= c.minSize && s % 8 == 0
    ensures E !in B && E >= FirstBlock(c)
    ensures LayoutOk(c, hdr[E := Tag(s, false)][E + s := Tag(0, true)], ftr[E + s := Tag(s, false)], B + {E}, E + s)
  {
    var h2, f2, B2 := hdr[E := Tag(s, false)][E + s := Tag(0, true)], ftr[E + s := Tag(s, false)], B + {E};
    ExtendFresh(c, hdr, ftr, B, E);
    ExtendBlocks(c, hdr, ftr, B, E, s, h2, f2, B2);
    ExtendPrev(c, hdr, ftr, B, E, s, h2, f2, B2);
    ExtendDisjoint(c, hdr, ftr, B, E, s, h2, f2, B2);
    assert h2[c.prologue] == hdr[c.prologue] && f2[FirstBlock(c)] == ftr[FirstBlock(c)];
    assert FirstBlock(c) == E + s || FirstBlock(c) in B2;
  }

  /** set_alloc / set_free: rewriting the allocated bit of x in both tags keeps the tiling. */
  lemma RetagLayout(c: Config, hdr: map<nat, Tag>, ftr: map<nat, Tag>, B: set<nat>, E: nat, x: nat, alloc: bool)
    requires LayoutOk(c, hdr, ftr, B, E) && IsBlock(B, x)
    ensures x in hdr
    ensures LayoutOk(c, hdr[x := Tag(hdr[x].size, alloc)], ftr[x + hdr[x].size := Tag(hdr[x].size, alloc)], B, E)
  {
    assert BlockOk(c, hdr, ftr, B, E, x);
    var t := Tag(hdr[x].size, alloc);
    var h2, f2 := hdr[x := t], ftr[x + hdr[x].size := t];
    forall y: nat | IsBlock(B, y)
      ensures BlockOk(c, h2, f2, B, E, y)
    {
      if y != x {
        Disjoint(c, hdr, ftr, B, E, x, y);
      }
    }
    forall y: nat | (IsBlock(B, y) && y != FirstBlock(c)) || (y == E && E != FirstBlock(c))
      ensures HasPrev(h2, f2, B, y)
    {
      if y != E {
        assert IsBlock(B, y) && y != FirstBlock(c);
      }
      assert HasPrev(hdr, ftr, B, y);
      var p := y - ftr[y].size;
      assert h2[p].size == hdr[p].size;
      if y == x + hdr[x].size {
        assert f2[y] == t;
      } else {
        assert f2[y] == ftr[y];
      }
    }
  }
}
