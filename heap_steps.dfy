/**
 * The composite steps of the allocator (split, the four coalesce cases,
 * heap extension, marking a block allocated or free) proved on the word
 * maps, so that the methods of Allocator.Heap only have to match terms.
 */
module HeapSteps {
  import opened Options
  import opened HeapLayout
  import opened HeapLayoutLemmas
  import opened FreeListLemmas

  /** Every allocated block of (hdr, B) outside skip is still a block of (hdr2, B2) with the same tag. */
  ghost predicate AllocKept(hdr: map<nat, Tag>, B: set<nat>, hdr2: map<nat, Tag>, B2: set<nat>, skip: set<nat>)
  {
    forall x: nat {:trigger IsBlock(B, x)} :: IsBlock(B, x) && x !in skip && x in hdr && hdr[x].alloc ==>
      IsBlock(B2, x) && x in hdr2 && hdr2[x] == hdr[x]
  }

  /**
   * PREV_BLKP and NEXT_BLKP of a block: the previous one is the prologue
   * (allocated) or the unique block ending at x; the next one is the
   * epilogue (allocated) or a block.
   */
  lemma Neighbours(c: Config, hdr: map<nat, Tag>, ftr: map<nat, Tag>, B: set<nat>, E: nat, x: nat)
    requires LayoutOk(c, hdr, ftr, B, E) && IsBlock(B, x)
    ensures x in hdr && x in ftr && ftr[x].size <= x && x < E && hdr[E].alloc
    ensures x - ftr[x].size in hdr && x + hdr[x].size in hdr
    ensures x + hdr[x].size == E || IsBlock(B, x + hdr[x].size)
    ensures !hdr[x - ftr[x].size].alloc ==>
      IsBlock(B, x - ftr[x].size) && x - ftr[x].size + hdr[x - ftr[x].size].size == x
    ensures !hdr[x + hdr[x].size].alloc ==> IsBlock(B, x + hdr[x].size)
    ensures forall y: nat {:trigger IsBlock(B, y)} :: IsBlock(B, y) && y in hdr && y + hdr[y].size == x ==>
      y == x - ftr[x].size
  {
    assert BlockOk(c, hdr, ftr, B, E, x);
    if x != FirstBlock(c) {
      assert HasPrev(hdr, ftr, B, x);
      var p := x - ftr[x].size;
      assert BlockOk(c, hdr, ftr, B, E, p);
      forall y: nat | IsBlock(B, y) && y in hdr && y + hdr[y].size == x
        ensures y == p
      {
        if y != p {
          Disjoint(c, hdr, ftr, B, E, y, p);
        }
      }
    }
    var n := x + hdr[x].size;
    if n != E {
      assert BlockOk(c, hdr, ftr, B, E, n);
    }
  }

  /**
   * split: cutting the free, exempt block x at a leaves the remainder
   * x + a as a new exempt block, keeps every allocated block, and creates
   * no free pair when x's successor was allocated.
   */
  lemma SplitStep(c: Config, hdr: map<nat, Tag>, ftr: map<nat, Tag>, nl: map<nat, Option<nat>>,
                  pl: map<nat, Option<nat>>, heads: seq<Option<nat>>, L: seq<seq<nat>>, B: set<nat>, E: nat,
                  out: set<nat>, x: nat, a: nat)
    requires SplitPre(c, hdr, ftr, B, E, x, a) && !hdr[x].alloc
    requires ListsOk(c, hdr, nl, pl, heads, L, B, out) && x in out
    ensures x + a !in B && x + a !in out && x + a != x
    ensures LayoutOk(c, SplitHdr(hdr, x, a), SplitFtr(hdr, ftr, x, a), B + {x + a}, E)
    ensures ListsOk(c, SplitHdr(hdr, x, a), nl, pl, heads, L, B + {x + a}, out + {x + a})
    ensures AllocKept(hdr, B, SplitHdr(hdr, x, a), B + {x + a}, {})
    ensures NoAdjFree(hdr, B, out) && x + hdr[x].size in hdr && hdr[x + hdr[x].size].alloc ==>
      NoAdjFree(SplitHdr(hdr, x, a), B + {x + a}, out)
  {
    SplitLayout(c, hdr, ftr, B, E, x, a);
    SplitLists(c, hdr, ftr, nl, pl, heads, L, B, E, out, x, a);
    if NoAdjFree(hdr, B, out) && x + hdr[x].size in hdr && hdr[x + hdr[x].size].alloc {
      SplitNoAdj(c, hdr, ftr, B, E, out, x, a);
    }
  }

  lemma SplitLists(c: Config, hdr: map<nat, Tag>, ftr: map<nat, Tag>, nl: map<nat, Option<nat>>,
                   pl: map<nat, Option<nat>>, heads: seq<Option<nat>>, L: seq<seq<nat>>, B: set<nat>, E: nat,
                   out: set<nat>, x: nat, a: nat)
    requires SplitPre(c, hdr, ftr, B, E, x, a)
    requires ListsOk(c, hdr, nl, pl, heads, L, B, out) && x in out
    ensures ListsOk(c, SplitHdr(hdr, x, a), nl, pl, heads, L, B + {x + a}, out + {x + a})
  {
    SplitFresh(c, hdr, ftr, B, E, x, a);
    ListsFrame(c, hdr, nl, pl, heads, L, B, out, SplitHdr(hdr, x, a), nl, pl, B + {x + a}, out + {x + a});
  }

  lemma SplitNoAdj(c: Config, hdr: map<nat, Tag>, ftr: map<nat, Tag>, B: set<nat>, E: nat,
                   out: set<nat>, x: nat, a: nat)
    requires SplitPre(c, hdr, ftr, B, E, x, a) && x in out
    requires NoAdjFree(hdr, B, out) && x + hdr[x].size in hdr && hdr[x + hdr[x].size].alloc
    ensures NoAdjFree(SplitHdr(hdr, x, a), B + {x + a}, out)
  {
    var h2, B2, r := SplitHdr(hdr, x, a), B + {x + a}, x + a;
    SplitFresh(c, hdr, ftr, B, E, x, a);
    forall y: nat | IsBlock(B2, y) && y in h2 && y !in out && !h2[y].alloc &&
        y + h2[y].size in B2 && y + h2[y].size in h2 && y + h2[y].size !in out
      ensures h2[y + h2[y].size].alloc
    {
      if y == r {
        assert y + h2[y].size == x + hdr[x].size;
      } else {
        assert IsBlock(B, y) && y != x;
        Disjoint(c, hdr, ftr, B, E, x, y);
        assert h2[y] == hdr[y];
        var s := y + hdr[y].size;
        assert s != r && s != x;
        assert IsBlock(B, s);
      }
    }
  }

  /** A merge of x up to e keeps the lists when the exempt set shrinks only by blocks that disappear. */
  lemma MergeLists(c: Config, hdr: map<nat, Tag>, ftr: map<nat, Tag>, nl: map<nat, Option<nat>>,
                   pl: map<nat, Option<nat>>, heads: seq<Option<nat>>, L: seq<seq<nat>>, B: set<nat>, E: nat,
                   out: set<nat>, x: nat, e: nat, B2: set<nat>, out2: set<nat>)
    requires MergePre(c, hdr, ftr, B, E, x, e, B2)
    requires ListsOk(c, hdr, nl, pl, heads, L, B, out) && x in out && x in out2 && out2 <= B2
    requires forall z: nat :: IsBlock(B, z) && z !in out ==> z in B2 && z !in out2
    requires forall z: nat :: IsBlock(B2, z) && z !in out2 ==> z !in out
    ensures ListsOk(c, hdr[x := Tag(e - x, false)], nl, pl, heads, L, B2, out2)
  {
    ListsFrame(c, hdr, nl, pl, heads, L, B, out, hdr[x := Tag(e - x, false)], nl, pl, B2, out2);
  }

  /**
   * The merged block x..e has no free neighbour when the block after e and
   * the block before x are allocated, and the only exempt block left is x.
   */
  lemma MergeNoAdj(c: Config, hdr: map<nat, Tag>, ftr: map<nat, Tag>, B: set<nat>, E: nat,
                   x: nat, e: nat, B2: set<nat>, out: set<nat>)
    requires MergePre(c, hdr, ftr, B, E, x, e, B2)
    requires NoAdjFree(hdr, B, out)
    requires forall z: nat :: z in out ==> z == x || z !in B2
    requires e == E || (e in hdr && hdr[e].alloc)
    requires forall y: nat {:trigger IsBlock(B, y)} :: IsBlock(B, y) && y in hdr && y + hdr[y].size == x ==> hdr[y].alloc
    ensures NoAdjFree(hdr[x := Tag(e - x, false)], B2, {})
  {
    var h2 := hdr[x := Tag(e - x, false)];
    MergeFacts(c, hdr, ftr, B, E, x, e, B2);
    forall y: nat | IsBlock(B2, y) && y in h2 && !h2[y].alloc &&
        y + h2[y].size in B2 && y + h2[y].size in h2
      ensures h2[y + h2[y].size].alloc
    {
      if y == x {
        assert y + h2[y].size == e;
        assert BlockOk(c, hdr, ftr, B, E, e);
      } else {
        assert IsBlock(B, y) && y !in out;
        assert h2[y] == hdr[y];
        var s := y + hdr[y].size;
        assert s != x;
        assert IsBlock(B, s) && s !in out;
      }
    }
  }

  /** A merge keeps every allocated block except possibly s, when the merged blocks other than s are free. */
  lemma MergeKept(c: Config, hdr: map<nat, Tag>, ftr: map<nat, Tag>, B: set<nat>, E: nat,
                  x: nat, e: nat, B2: set<nat>, s: nat)
    requires MergePre(c, hdr, ftr, B, E, x, e, B2)
    requires x == s || (x in hdr && !hdr[x].alloc)
    requires forall z: nat :: IsBlock(B, z) && x < z < e ==> z == s || (z in hdr && !hdr[z].alloc)
    ensures AllocKept(hdr, B, hdr[x := Tag(e - x, false)], B2, {s})
  {
  }

  /** coalesce, case 1: neither neighbour is free, so x alone closes the no-free-pair property. */
  lemma CoalesceNone(c: Config, hdr: map<nat, Tag>, ftr: map<nat, Tag>, B: set<nat>, E: nat, x: nat)
    requires LayoutOk(c, hdr, ftr, B, E) && IsBlock(B, x) && x in hdr && x in ftr && ftr[x].size <= x
    requires x - ftr[x].size in hdr && hdr[x - ftr[x].size].alloc
    requires x + hdr[x].size in hdr && hdr[x + hdr[x].size].alloc
    requires NoAdjFree(hdr, B, {x})
    ensures NoAdjFree(hdr, B, {})
  {
    Neighbours(c, hdr, ftr, B, E, x);
    forall y: nat | IsBlock(B, y) && y in hdr && !hdr[y].alloc &&
        y + hdr[y].size in B && y + hdr[y].size in hdr
      ensures hdr[y + hdr[y].size].alloc
    {
    }
  }

  /** coalesce, case 2: x absorbs its free successor n; the block after n is allocated. */
  lemma CoalesceNext(c: Config, hdr: map<nat, Tag>, ftr: map<nat, Tag>, nl: map<nat, Option<nat>>,
                     pl: map<nat, Option<nat>>, heads: seq<Option<nat>>, L: seq<seq<nat>>, B: set<nat>, E: nat,
                     x: nat, n: nat, size: nat)
    requires LayoutOk(c, hdr, ftr, B, E) && IsBlock(B, x) && x in hdr && x in ftr && ftr[x].size <= x
    requires x - ftr[x].size in hdr && hdr[x - ftr[x].size].alloc
    requires n == x + hdr[x].size && n in hdr && !hdr[n].alloc
    requires ListsOk(c, hdr, nl, pl, heads, L, B, {x} + {n})
    requires NoAdjFree(hdr, B, {x})
    requires size == hdr[x].size + hdr[n].size
    ensures x in B - {n}
    ensures LayoutOk(c, hdr[x := Tag(size, false)], ftr[x + size := Tag(size, false)], B - {n}, E)
    ensures ListsOk(c, hdr[x := Tag(size, false)], nl, pl, heads, L, B - {n}, {x})
    ensures NoAdjFree(hdr[x := Tag(size, false)], B - {n}, {})
    ensures AllocKept(hdr, B, hdr[x := Tag(size, false)], B - {n}, {x})
  {
    var e := x + size;
    var B2 := B - {n};
    Neighbours(c, hdr, ftr, B, E, x);
    Neighbours(c, hdr, ftr, B, E, n);
    assert e == n + hdr[n].size && e - x == size;
    forall z: nat
      ensures z in B2 <==> z in B && !(x < z < e)
    {
      if z in B && x < z < e && z != n {
        Disjoint(c, hdr, ftr, B, E, x, z);
        Disjoint(c, hdr, ftr, B, E, n, z);
      }
    }
    assert MergePre(c, hdr, ftr, B, E, x, e, B2);
    MergeLayout(c, hdr, ftr, B, E, x, e, B2);
    assert hdr[x := Tag(e - x, false)] == hdr[x := Tag(size, false)];
    assert ftr[e := Tag(e - x, false)] == ftr[x + size := Tag(size, false)];
    MergeLists(c, hdr, ftr, nl, pl, heads, L, B, E, {x} + {n}, x, e, B2, {x});
    if e != E {
      assert IsBlock(B, n) && IsBlock(B, e);
    }
    MergeNoAdj(c, hdr, ftr, B, E, x, e, B2, {x});
    MergeKept(c, hdr, ftr, B, E, x, e, B2, x);
  }

  /** coalesce, case 3: the free predecessor p absorbs x; the block after x is allocated. */
  lemma CoalescePrev(c: Config, hdr: map<nat, Tag>, ftr: map<nat, Tag>, nl: map<nat, Option<nat>>,
                     pl: map<nat, Option<nat>>, heads: seq<Option<nat>>, L: seq<seq<nat>>, B: set<nat>, E: nat,
                     x: nat, p: nat, size: nat)
    requires LayoutOk(c, hdr, ftr, B, E) && IsBlock(B, x) && x in hdr && x in ftr && ftr[x].size <= x
    requires p == x - ftr[x].size && p in hdr && !hdr[p].alloc
    requires x + hdr[x].size in hdr && hdr[x + hdr[x].size].alloc
    requires ListsOk(c, hdr, nl, pl, heads, L, B, {x} + {p})
    requires NoAdjFree(hdr, B, {x})
    requires size == hdr[x].size + hdr[p].size
    ensures p in B - {x} && p + size == x + hdr[x].size
    ensures LayoutOk(c, hdr[p := Tag(size, false)], ftr[p + size := Tag(size, false)], B - {x}, E)
    ensures ListsOk(c, hdr[p := Tag(size, false)], nl, pl, heads, L, B - {x}, {p})
    ensures NoAdjFree(hdr[p := Tag(size, false)], B - {x}, {})
    ensures AllocKept(hdr, B, hdr[p := Tag(size, false)], B - {x}, {x})
  {
    var e := x + hdr[x].size;
    var B2 := B - {x};
    Neighbours(c, hdr, ftr, B, E, x);
    assert IsBlock(B, p) && p < x;
    assert p + size == e && e - p == size;
    forall z: nat
      ensures z in B2 <==> z in B && !(p < z < e)
    {
      if z in B && p < z < e && z != x {
        Disjoint(c, hdr, ftr, B, E, p, z);
        Disjoint(c, hdr, ftr, B, E, x, z);
      }
    }
    assert MergePre(c, hdr, ftr, B, E, p, e, B2);
    MergeLayout(c, hdr, ftr, B, E, p, e, B2);
    assert hdr[p := Tag(e - p, false)] == hdr[p := Tag(size, false)];
    assert ftr[e := Tag(e - p, false)] == ftr[p + size := Tag(size, false)];
    MergeLists(c, hdr, ftr, nl, pl, heads, L, B, E, {x} + {p}, p, e, B2, {p});
    forall y: nat | IsBlock(B, y) && y in hdr && y + hdr[y].size == p
      ensures hdr[y].alloc
    {
      assert y != x;
    }
    MergeNoAdj(c, hdr, ftr, B, E, p, e, B2, {x});
    MergeKept(c, hdr, ftr, B, E, p, e, B2, x);
  }

  /** coalesce, case 4: the free predecessor p absorbs x and the free successor n. */
  lemma CoalesceBoth(c: Config, hdr: map<nat, Tag>, ftr: map<nat, Tag>, nl: map<nat, Option<nat>>,
                     pl: map<nat, Option<nat>>, heads: seq<Option<nat>>, L: seq<seq<nat>>, B: set<nat>, E: nat,
                     x: nat, p: nat, n: nat, size: nat)
    requires LayoutOk(c, hdr, ftr, B, E) && IsBlock(B, x) && x in hdr && x in ftr && ftr[x].size <= x
    requires p == x - ftr[x].size && p in hdr && !hdr[p].alloc
    requires n == x + hdr[x].size && n in hdr && !hdr[n].alloc
    requires ListsOk(c, hdr, nl, pl, heads, L, B, {x} + {n} + {p})
    requires NoAdjFree(hdr, B, {x})
    requires size == hdr[x].size + (hdr[p].size + hdr[n].size)
    ensures p in B - {x} - {n}
    ensures p + size == n + hdr[n].size
    ensures LayoutOk(c, hdr[p := Tag(size, false)], ftr[p + size := Tag(size, false)],
                     B - {x} - {n}, E)
    ensures ListsOk(c, hdr[p := Tag(size, false)], nl, pl, heads, L, B - {x} - {n}, {p})
    ensures NoAdjFree(hdr[p := Tag(size, false)], B - {x} - {n}, {})
    ensures AllocKept(hdr, B, hdr[p := Tag(size, false)], B - {x} - {n}, {x})
  {
    var e := n + hdr[n].size;
    var B2 := B - {x} - {n};
    Neighbours(c, hdr, ftr, B, E, x);
    Neighbours(c, hdr, ftr, B, E, n);
    assert IsBlock(B, p) && p < x && IsBlock(B, n);
    assert p + size == e && e - p == size;
    BothSpan(c, hdr, ftr, B, E, x, p, n, e);
    assert MergePre(c, hdr, ftr, B, E, p, e, B2);
    MergeLayout(c, hdr, ftr, B, E, p, e, B2);
    assert hdr[p := Tag(e - p, false)] == hdr[p := Tag(size, false)];
    assert ftr[e := Tag(e - p, false)] == ftr[p + size := Tag(size, false)];
    MergeLists(c, hdr, ftr, nl, pl, heads, L, B, E, {x} + {n} + {p}, p, e, B2, {p});
    BothAdj(c, hdr, ftr, B, E, x, p, n, e);
  }

  lemma BothAdj(c: Config, hdr: map<nat, Tag>, ftr: map<nat, Tag>, B: set<nat>, E: nat, x: nat, p: nat, n: nat, e: nat)
    requires LayoutOk(c, hdr, ftr, B, E) && IsBlock(B, x) && IsBlock(B, p) && IsBlock(B, n) && p < x < n
    requires p + hdr[p].size == x && x + hdr[x].size == n && e == n + hdr[n].size
    requires !hdr[p].alloc && !hdr[n].alloc && (e == E || IsBlock(B, e))
    requires NoAdjFree(hdr, B, {x})
    ensures NoAdjFree(hdr[p := Tag(e - p, false)], B - {x} - {n}, {})
    ensures AllocKept(hdr, B, hdr[p := Tag(e - p, false)], B - {x} - {n}, {x})
  {
    var B2 := B - {x} - {n};
    BothSpan(c, hdr, ftr, B, E, x, p, n, e);
    assert MergePre(c, hdr, ftr, B, E, p, e, B2);
    forall y: nat | IsBlock(B, y) && y in hdr && y + hdr[y].size == p
      ensures hdr[y].alloc
    {
      assert y != x;
    }
    if e != E {
      assert BlockOk(c, hdr, ftr, B, E, e);
      assert n !in {x} && e !in {x};
    }
    MergeNoAdj(c, hdr, ftr, B, E, p, e, B2, {x});
    MergeKept(c, hdr, ftr, B, E, p, e, B2, x);
  }

  /** The only blocks strictly inside p..e are x and its successor n. */
  lemma BothSpan(c: Config, hdr: map<nat, Tag>, ftr: map<nat, Tag>, B: set<nat>, E: nat, x: nat, p: nat, n: nat, e: nat)
    requires LayoutOk(c, hdr, ftr, B, E) && IsBlock(B, x) && IsBlock(B, p) && IsBlock(B, n) && p < x < n
    requires p + hdr[p].size == x && x + hdr[x].size == n && e == n + hdr[n].size
    ensures forall z: nat :: z in B - {x} - {n} <==> z in B && !(p < z < e)
  {
    forall z: nat
      ensures z in B - {x} - {n} <==> z in B && !(p < z < e)
    {
      if z in B && p < z < e && z != x && z != n {
        Disjoint(c, hdr, ftr, B, E, p, z);
        Disjoint(c, hdr, ftr, B, E, x, z);
        Disjoint(c, hdr, ftr, B, E, n, z);
      }
    }
  }

  /**
   * extend_heap: the old epilogue becomes a free block of size s at E,
   * exempt until coalesce lists it; nothing else changes.
   */
  lemma ExtendStep(c: Config, hdr: map<nat, Tag>, ftr: map<nat, Tag>, nl: map<nat, Option<nat>>,
                   pl: map<nat, Option<nat>>, heads: seq<Option<nat>>, L: seq<seq<nat>>, B: set<nat>, E: nat, s: nat)
    requires LayoutOk(c, hdr, ftr, B, E) && ListsOk(c, hdr, nl, pl, heads, L, B, {}) && NoAdjFree(hdr, B, {})
    requires s >= c.minSize && s % 8 == 0
    ensures E !in B && E in B + {E}
    ensures LayoutOk(c, hdr[E := Tag(s, false)][E + s := Tag(0, true)], ftr[E + s := Tag(s, false)], B + {E}, E + s)
    ensures ListsOk(c, hdr[E := Tag(s, false)][E + s := Tag(0, true)], nl, pl, heads, L, B + {E}, {E})
    ensures NoAdjFree(hdr[E := Tag(s, false)][E + s := Tag(0, true)], B + {E}, {E})
    ensures AllocKept(hdr, B, hdr[E := Tag(s, false)][E + s := Tag(0, true)], B + {E}, {})
  {
    var h2 := hdr[E := Tag(s, false)][E + s := Tag(0, true)];
    ExtendLayout(c, hdr, ftr, B, E, s);
    ExtendFresh(c, hdr, ftr, B, E);
    ListsFrame(c, hdr, nl, pl, heads, L, B, {}, h2, nl, pl, B + {E}, {E});
    ExtendNoAdj(c, hdr, ftr, B, E, s);
  }

  lemma ExtendNoAdj(c: Config, hdr: map<nat, Tag>, ftr: map<nat, Tag>, B: set<nat>, E: nat, s: nat)
    requires LayoutOk(c, hdr, ftr, B, E) && NoAdjFree(hdr, B, {})
    ensures NoAdjFree(hdr[E := Tag(s, false)][E + s := Tag(0, true)], B + {E}, {E})
  {
    var h2 := hdr[E := Tag(s, false)][E + s := Tag(0, true)];
    ExtendFresh(c, hdr, ftr, B, E);
    forall y: nat | IsBlock(B + {E}, y) && y in h2 && y !in {E} && !h2[y].alloc &&
        y + h2[y].size in B + {E} && y + h2[y].size in h2 && y + h2[y].size !in {E}
      ensures h2[y + h2[y].size].alloc
    {
      assert IsBlock(B, y) && h2[y] == hdr[y];
      assert IsBlock(B, y + hdr[y].size);
    }
  }

  /**
   * set_alloc on an exempt block x: the tiling is kept and x stops being
   * exempt, since an allocated block need not be listed.
   */
  lemma AllocStep(c: Config, hdr: map<nat, Tag>, ftr: map<nat, Tag>, nl: map<nat, Option<nat>>,
                  pl: map<nat, Option<nat>>, heads: seq<Option<nat>>, L: seq<seq<nat>>, B: set<nat>, E: nat,
                  out: set<nat>, x: nat)
    requires LayoutOk(c, hdr, ftr, B, E) && ListsOk(c, hdr, nl, pl, heads, L, B, out) && x in out
    ensures x in hdr && x + hdr[x].size in ftr && ftr[x + hdr[x].size] == hdr[x]
    ensures LayoutOk(c, hdr[x := Tag(hdr[x].size, true)], ftr[x + hdr[x].size := Tag(hdr[x].size, true)], B, E)
    ensures ListsOk(c, hdr[x := Tag(hdr[x].size, true)], nl, pl, heads, L, B, out - {x})
    ensures NoAdjFree(hdr, B, out) ==> NoAdjFree(hdr[x := Tag(hdr[x].size, true)], B, out - {x})
    ensures AllocKept(hdr, B, hdr[x := Tag(hdr[x].size, true)], B, {x})
  {
    assert IsBlock(B, x) && BlockOk(c, hdr, ftr, B, E, x);
    RetagLayout(c, hdr, ftr, B, E, x, true);
    RetagLists(c, hdr, nl, pl, heads, L, B, out, x, true, out - {x});
  }

  /**
   * set_free on an allocated block x: the tiling is kept and x becomes
   * exempt until coalesce lists it.
   */
  lemma FreeStep(c: Config, hdr: map<nat, Tag>, ftr: map<nat, Tag>, nl: map<nat, Option<nat>>,
                 pl: map<nat, Option<nat>>, heads: seq<Option<nat>>, L: seq<seq<nat>>, B: set<nat>, E: nat,
                 out: set<nat>, x: nat)
    requires LayoutOk(c, hdr, ftr, B, E) && ListsOk(c, hdr, nl, pl, heads, L, B, out)
    requires IsBlock(B, x) && x in hdr && hdr[x].alloc && x !in out
    ensures x + hdr[x].size in ftr && ftr[x + hdr[x].size] == hdr[x]
    ensures LayoutOk(c, hdr[x := Tag(hdr[x].size, false)], ftr[x + hdr[x].size := Tag(hdr[x].size, false)], B, E)
    ensures ListsOk(c, hdr[x := Tag(hdr[x].size, false)], nl, pl, heads, L, B, out + {x})
    ensures NoAdjFree(hdr, B, out) ==> NoAdjFree(hdr[x := Tag(hdr[x].size, false)], B, out + {x})
    ensures AllocKept(hdr, B, hdr[x := Tag(hdr[x].size, false)], B, {x})
  {
    assert BlockOk(c, hdr, ftr, B, E, x);
    RetagLayout(c, hdr, ftr, B, E, x, false);
    RetagLists(c, hdr, nl, pl, heads, L, B, out, x, false, out + {x});
  }

  /** Marking an exempt x allocated, or an allocated x free and exempt, keeps the lists. */
  lemma RetagLists(c: Config, hdr: map<nat, Tag>, nl: map<nat, Option<nat>>,
                   pl: map<nat, Option<nat>>, heads: seq<Option<nat>>, L: seq<seq<nat>>, B: set<nat>,
                   out: set<nat>, x: nat, alloc: bool, out2: set<nat>)
    requires ListsOk(c, hdr, nl, pl, heads, L, B, out) && x in B && x in hdr
    requires if alloc then x in out && out2 == out - {x} else x !in out && hdr[x].alloc && out2 == out + {x}
    ensures ListsOk(c, hdr[x := Tag(hdr[x].size, alloc)], nl, pl, heads, L, B, out2)
  {
    ListsFrame(c, hdr, nl, pl, heads, L, B, out, hdr[x := Tag(hdr[x].size, alloc)], nl, pl, B, out2);
  }

  /** Exempting one more block only weakens the no-free-pair property. */
  lemma NoAdjExempt(hdr: map<nat, Tag>, B: set<nat>, out: set<nat>, x: nat)
    requires NoAdjFree(hdr, B, out)
    ensures NoAdjFree(hdr, B, out + {x})
  {
  }
  /**
   * The footer word just below a block (or the epilogue) belongs to the
   * prologue (allocated) or to the block before it, and it is free
   * exactly when that block is. SPACE_LEFT reads it below the epilogue.
   */
  lemma PrevTag(c: Config, hdr: map<nat, Tag>, ftr: map<nat, Tag>, B: set<nat>, E: nat, x: nat)
    requires LayoutOk(c, hdr, ftr, B, E) && (x == E || IsBlock(B, x))
    ensures x in ftr && ftr[x].size <= x && x - ftr[x].size in hdr
    ensures hdr[x - ftr[x].size].alloc == ftr[x].alloc
    ensures !ftr[x].alloc ==> IsBlock(B, x - ftr[x].size) && hdr[x - ftr[x].size] == ftr[x]
  {
    if x != FirstBlock(c) {
      var p := x - ftr[x].size;
      assert IsBlock(B, p) && BlockOk(c, hdr, ftr, B, E, p);
    }
  }

  /** Two steps that keep the allocated blocks keep them together, when the first only skips a free block. */
  lemma AllocKeptChain(h1: map<nat, Tag>, B1: set<nat>, h2: map<nat, Tag>, B2: set<nat>,
                       h3: map<nat, Tag>, B3: set<nat>, x: nat, s2: set<nat>)
    requires AllocKept(h1, B1, h2, B2, {x}) && AllocKept(h2, B2, h3, B3, s2)
    requires x in h1 && !h1[x].alloc
    ensures AllocKept(h1, B1, h3, B3, s2)
  {
    forall y: nat | IsBlock(B1, y) && y !in s2 && y in h1 && h1[y].alloc
      ensures IsBlock(B3, y) && y in h3 && h3[y] == h1[y]
    {
      assert IsBlock(B2, y);
    }
  }
  /** A block lies between the prologue and the epilogue, and its size covers header and footer. */
  lemma BlockInside(c: Config, hdr: map<nat, Tag>, ftr: map<nat, Tag>, B: set<nat>, E: nat, x: nat)
    requires LayoutOk(c, hdr, ftr, B, E) && IsBlock(B, x)
    ensures x in hdr && FirstBlock(c) <= x && x + hdr[x].size <= E && hdr[x].size >= Overhead(c) + 8
  {
    assert BlockOk(c, hdr, ftr, B, E, x);
    if x + hdr[x].size != E {
      assert BlockOk(c, hdr, ftr, B, E, x + hdr[x].size);
    }
  }
  /** An allocated block is never listed, so exempting it changes nothing. */
  lemma ExemptAllocated(c: Config, hdr: map<nat, Tag>, nl: map<nat, Option<nat>>, pl: map<nat, Option<nat>>,
                        heads: seq<Option<nat>>, L: seq<seq<nat>>, B: set<nat>, x: nat)
    requires ListsOk(c, hdr, nl, pl, heads, L, B, {}) && x in B && x in hdr && hdr[x].alloc
    ensures ListsOk(c, hdr, nl, pl, heads, L, B, {x})
  {
    ListsFrame(c, hdr, nl, pl, heads, L, B, {}, hdr, nl, pl, B, {x});
  }

  /** Two steps keep the allocated blocks together, when the second only skips a block the first left free. */
  lemma AllocKeptThen(h1: map<nat, Tag>, B1: set<nat>, h2: map<nat, Tag>, B2: set<nat>,
                      h3: map<nat, Tag>, B3: set<nat>, s1: set<nat>, x: nat)
    requires AllocKept(h1, B1, h2, B2, s1) && AllocKept(h2, B2, h3, B3, {x})
    requires x in h2 && !h2[x].alloc
    ensures AllocKept(h1, B1, h3, B3, s1)
  {
    forall y: nat | IsBlock(B1, y) && y !in s1 && y in h1 && h1[y].alloc
      ensures IsBlock(B3, y) && y in h3 && h3[y] == h1[y]
    {
      assert IsBlock(B2, y);
    }
  }

  /** The tags of an allocated block x shrunk to a bytes, with the rest cut off as a free block. */
  function ShrinkHdr(hdr: map<nat, Tag>, x: nat, a: nat): map<nat, Tag>
    requires x in hdr && hdr[x].size >= a
  {
    hdr[x := Tag(a, true)][x + a := Tag(hdr[x].size - a, false)]
  }

  function ShrinkFtr(hdr: map<nat, Tag>, ftr: map<nat, Tag>, x: nat, a: nat): map<nat, Tag>
    requires x in hdr && hdr[x].size >= a
  {
    ftr[x + a := Tag(a, true)][x + hdr[x].size := Tag(hdr[x].size - a, false)]
  }

  /**
   * Shrinking an allocated block x in place: x keeps a bytes, the
   * remainder x + a is a new free block, exempt until coalesce lists it,
   * and the only possible free pair is the remainder with its successor.
   */
  lemma ShrinkStep(c: Config, hdr: map<nat, Tag>, ftr: map<nat, Tag>, nl: map<nat, Option<nat>>,
                   pl: map<nat, Option<nat>>, heads: seq<Option<nat>>, L: seq<seq<nat>>, B: set<nat>, E: nat,
                   x: nat, a: nat)
    requires SplitPre(c, hdr, ftr, B, E, x, a) && hdr[x].alloc
    requires ListsOk(c, hdr, nl, pl, heads, L, B, {}) && NoAdjFree(hdr, B, {})
    ensures x + a !in B && x + a != x
    ensures LayoutOk(c, ShrinkHdr(hdr, x, a), ShrinkFtr(hdr, ftr, x, a), B + {x + a}, E)
    ensures ListsOk(c, ShrinkHdr(hdr, x, a), nl, pl, heads, L, B + {x + a}, {x + a})
    ensures NoAdjFree(ShrinkHdr(hdr, x, a), B + {x + a}, {x + a})
    ensures AllocKept(hdr, B, ShrinkHdr(hdr, x, a), B + {x + a}, {x})
  {
    SplitFresh(c, hdr, ftr, B, E, x, a);
    ShrinkTags(c, hdr, ftr, nl, pl, heads, L, B, E, x, a);
    ShrinkNoAdj(c, hdr, ftr, B, E, x, a);
  }

  /** The three steps of a shrink: x freed and exempt, split at a, and x marked allocated again. */
  lemma ShrinkTags(c: Config, hdr: map<nat, Tag>, ftr: map<nat, Tag>, nl: map<nat, Option<nat>>,
                   pl: map<nat, Option<nat>>, heads: seq<Option<nat>>, L: seq<seq<nat>>, B: set<nat>, E: nat,
                   x: nat, a: nat)
    requires SplitPre(c, hdr, ftr, B, E, x, a) && hdr[x].alloc
    requires ListsOk(c, hdr, nl, pl, heads, L, B, {})
    ensures LayoutOk(c, ShrinkHdr(hdr, x, a), ShrinkFtr(hdr, ftr, x, a), B + {x + a}, E)
    ensures ListsOk(c, ShrinkHdr(hdr, x, a), nl, pl, heads, L, B + {x + a}, {x + a})
  {
    var size, r := hdr[x].size, x + a;
    var h1, f1 := hdr[x := Tag(size, false)], ftr[x + size := Tag(size, false)];
    ShrinkSplit(c, hdr, ftr, nl, pl, heads, L, B, E, x, a, h1, f1);
    var h2, f2 := SplitHdr(h1, x, a), SplitFtr(h1, f1, x, a);
    ShrinkMaps(hdr, ftr, x, a, h1, f1);
    assert {x} + {r} - {x} == {r};
    AllocStepTo(c, h2, f2, nl, pl, heads, L, B + {r}, E, {x} + {r}, x, ShrinkHdr(hdr, x, a), ShrinkFtr(hdr, ftr, x, a), {r});
  }

  /** AllocStep, with the new maps and exempt set given by the caller. */
  lemma AllocStepTo(c: Config, hdr: map<nat, Tag>, ftr: map<nat, Tag>, nl: map<nat, Option<nat>>,
                    pl: map<nat, Option<nat>>, heads: seq<Option<nat>>, L: seq<seq<nat>>, B: set<nat>, E: nat,
                    out: set<nat>, x: nat, h': map<nat, Tag>, f': map<nat, Tag>, out': set<nat>)
    requires LayoutOk(c, hdr, ftr, B, E) && ListsOk(c, hdr, nl, pl, heads, L, B, out) && x in out && x in hdr
    requires h' == hdr[x := Tag(hdr[x].size, true)] && f' == ftr[x + hdr[x].size := Tag(hdr[x].size, true)]
    requires out' == out - {x}
    ensures LayoutOk(c, h', f', B, E) && ListsOk(c, h', nl, pl, heads, L, B, out')
  {
    AllocStep(c, hdr, ftr, nl, pl, heads, L, B, E, out, x);
  }

  /** The first two steps of a shrink: x freed and exempt, then split at a. */
  lemma ShrinkSplit(c: Config, hdr: map<nat, Tag>, ftr: map<nat, Tag>, nl: map<nat, Option<nat>>,
                    pl: map<nat, Option<nat>>, heads: seq<Option<nat>>, L: seq<seq<nat>>, B: set<nat>, E: nat,
                    x: nat, a: nat, h1: map<nat, Tag>, f1: map<nat, Tag>)
    requires SplitPre(c, hdr, ftr, B, E, x, a) && hdr[x].alloc
    requires ListsOk(c, hdr, nl, pl, heads, L, B, {})
    requires h1 == hdr[x := Tag(hdr[x].size, false)] && f1 == ftr[x + hdr[x].size := Tag(hdr[x].size, false)]
    ensures x in h1 && h1[x].size >= a
    ensures LayoutOk(c, SplitHdr(h1, x, a), SplitFtr(h1, f1, x, a), B + {x + a}, E)
    ensures ListsOk(c, SplitHdr(h1, x, a), nl, pl, heads, L, B + {x + a}, {x} + {x + a})
  {
    assert IsBlock(B, x);
    FreeStep(c, hdr, ftr, nl, pl, heads, L, B, E, {}, x);
    assert {} + {x} == {x};
    SplitStep(c, h1, f1, nl, pl, heads, L, B, E, {x}, x, a);
  }

  lemma ShrinkNoAdj(c: Config, hdr: map<nat, Tag>, ftr: map<nat, Tag>, B: set<nat>, E: nat, x: nat, a: nat)
    requires SplitPre(c, hdr, ftr, B, E, x, a) && hdr[x].alloc && NoAdjFree(hdr, B, {})
    ensures NoAdjFree(ShrinkHdr(hdr, x, a), B + {x + a}, {x + a})
    ensures AllocKept(hdr, B, ShrinkHdr(hdr, x, a), B + {x + a}, {x})
  {
    var h2, B2, r := ShrinkHdr(hdr, x, a), B + {x + a}, x + a;
    SplitFresh(c, hdr, ftr, B, E, x, a);
    forall y: nat | IsBlock(B2, y) && y in h2 && y !in {r} && !h2[y].alloc &&
        y + h2[y].size in B2 && y + h2[y].size in h2 && y + h2[y].size !in {r}
      ensures h2[y + h2[y].size].alloc
    {
      assert IsBlock(B, y) && y != x && h2[y] == hdr[y];
      var s := y + hdr[y].size;
      if s != x {
        assert IsBlock(B, s);
      }
    }
  }
  /** Freeing, splitting and re-allocating x gives the shrink tags. */
  lemma ShrinkMaps(hdr: map<nat, Tag>, ftr: map<nat, Tag>, x: nat, a: nat, h1: map<nat, Tag>, f1: map<nat, Tag>)
    requires x in hdr && hdr[x].size > a > 0
    requires h1 == hdr[x := Tag(hdr[x].size, false)] && f1 == ftr[x + hdr[x].size := Tag(hdr[x].size, false)]
    ensures var h2 := SplitHdr(h1, x, a);
      h2[x := Tag(h2[x].size, true)] == ShrinkHdr(hdr, x, a)
    ensures var h2, f2 := SplitHdr(h1, x, a), SplitFtr(h1, f1, x, a);
      f2[x + h2[x].size := Tag(h2[x].size, true)] == ShrinkFtr(hdr, ftr, x, a)
  {
  }
}
