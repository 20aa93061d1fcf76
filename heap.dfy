/**
 * The allocator engine shared by mm_segregated.c, mm_oldrealloc.c and
 * mm_explicit.c: a heap of boundary-tagged blocks between a prologue and an
 * epilogue, free lists threaded through the free blocks, and the
 * operations that split, merge and grow blocks.
 *
 * The three files differ in the constants gathered in a Config (see
 * HeapLayout), in realloc (Realloc for mm_segregated.c, NaiveRealloc for
 * mm_oldrealloc.c and mm_explicit.c) and in what the checker tests
 * (CheckHeap's parameters). Their defects are kept as written in
 * AllocFindings and HeapCheck.
 */
module Allocator {
  import opened Options
  import opened SizeClass
  import opened HeapLayout
  import opened HeapLayoutLemmas
  import opened FreeListLemmas
  import opened HeapSteps
  import opened FirstFit
  import opened HeapCheck
  import opened HeapHealth

  /**
   * memmove on the heap bytes: n bytes from src land at dst, every other
   * byte is kept.
   */
  function MemMove(m: seq<bv8>, dst: nat, src: nat, n: nat): (r: seq<bv8>)
    requires dst + n <= |m| && src + n <= |m|
    ensures |r| == |m|
    ensures forall j {:trigger r[j]} :: 0 <= j < |m| ==> r[j] == if dst <= j < dst + n then m[src + (j - dst)] else m[j]
  {
    m[..dst] + m[src..src + n] + m[dst + n..]
  }

  function Min(a: nat, b: nat): nat
  {
    if a <= b then a else b
  }

  /** 2^64: values of size_t lie below it. */
  const SizeLimit: nat := 0x1_0000_0000_0000_0000

  /**
   * A request whose rounding sum size + overhead + 7 (align_size, or the
   * explicit allocator's inline sizing) does not fit in a size_t. No block
   * of the heap can hold it, and malloc answers NULL.
   */
  predicate Oversized(c: Config, size: nat)
  {
    size + Overhead(c) + (DSIZE - 1) >= SizeLimit
  }

  /** A slice inside a kept prefix is kept. */
  lemma PrefixSlice(m0: seq<bv8>, m1: seq<bv8>, i: nat, j: nat)
    requires i <= j <= |m0| <= |m1| && m1[..|m0|] == m0
    ensures m1[i..j] == m0[i..j]
  {
    forall k | 0 <= k < j - i
      ensures m1[i..j][k] == m0[i..j][k]
    {
      assert m1[i + k] == m1[..|m0|][i + k];
    }
  }

  /** The k bytes of m0 from src are the k bytes of m1 from dst. */
  predicate Moved(m0: seq<bv8>, src: nat, m1: seq<bv8>, dst: nat, k: nat)
  {
    src + k <= |m0| && dst + k <= |m1| && m1[dst..dst + k] == m0[src..src + k]
  }

  /**
   * m1 keeps every byte of m0 outside [lo, hi): the heap may only have
   * grown at the break and been written inside that range.
   */
  predicate SameOutside(m0: seq<bv8>, m1: seq<bv8>, lo: nat, hi: nat)
  {
    |m0| <= |m1| && forall j :: 0 <= j < |m0| && !(lo <= j < hi) ==> m1[j] == m0[j]
  }

  class Heap {
    /** Which of the three allocators this heap runs. */
    const cfg: Config
    /** Header tag words, keyed by block pointer. */
    var hdr: map<nat, Tag>
    /** Footer tag words, keyed by the block pointer just past the block. */
    var ftr: map<nat, Tag>
    /** NEXT_PTR words (in the header), keyed by block pointer. */
    var nextLink: map<nat, Option<nat>>
    /** PREV_PTR words (in the footer), keyed like ftr. */
    var prevLink: map<nat, Option<nat>>
    /** free_lists (one entry, free_list, for the explicit allocator). */
    var freeLists: seq<Option<nat>>
    /** Address of the epilogue header word. */
    var eptr: nat
    /** The break: the heap occupies addresses [0, brk). */
    var brk: nat
    /** The payload bytes of the heap. */
    var mem: seq<bv8>
    /** The block pointers of the blocks between prologue and epilogue. */
    ghost var blocks: set<nat>
    /** The members of each free list, from its head. */
    ghost var lists: seq<seq<nat>>

    /**
     * mm_init: the heap holds the prologue block (header and footer,
     * allocated) and the epilogue header, with every free list empty.
     */
    constructor (c: Config)
      requires ConfigOk(c)
      ensures Valid() && Coalesced() && cfg == c && blocks == {}
      ensures Epilogue() == FirstBlock(c) && brk == FirstBlock(c) - c.hdrOff + 4
      ensures forall b :: 0 <= b < |freeLists| ==> freeLists[b].None?
    {
      cfg := c;
      var heads: seq<Option<nat>> := [];
      var list := 0;
      while list < c.numLists
        invariant list <= c.numLists && |heads| == list
        invariant forall b :: 0 <= b < list ==> heads[b].None?
      {
        heads := heads + [None];
        list := list + 1;
      }
      var first := c.prologue + c.prologueSize;
      hdr := map[c.prologue := Tag(c.prologueSize, true), first := Tag(0, true)];
      ftr := map[first := Tag(c.prologueSize, true)];
      nextLink, prevLink := map[], map[];
      freeLists := heads;
      eptr := first - c.hdrOff;
      brk := first - c.hdrOff + 4;
      mem := seq(first - c.hdrOff + 4, _ => 0);
      blocks := {};
      ghost var empty: seq<seq<nat>> := seq(c.numLists, _ => []);
      assert forall b :: 0 <= b < |empty| ==> heads[b] == Head(empty[b]);
      lists := empty;
    }

    /**
     * mm_init with its failure path: growOk says whether mem_sbrk grants
     * the prologue and epilogue words; without them mm_init returns -1,
     * here null, and no heap exists.
     */
    static method Init(c: Config, growOk: bool) returns (h: Heap?)
      requires ConfigOk(c)
      ensures h != null <==> growOk
      ensures h != null ==> fresh(h) && h.Valid() && h.Coalesced() && h.cfg == c && h.blocks == {}
    {
      if !growOk {
        return null;
      }
      h := new Heap(c);
    }

    /** The block pointer the epilogue header belongs to. */
    function Epilogue(): nat
      reads this
    {
      eptr + cfg.hdrOff
    }

    /**
     * The heap invariant with the blocks of `out` exempt from the free-list
     * bookkeeping while an operation works on them.
     */
    ghost predicate Inv(out: set<nat>)
      reads this
    {
      LayoutOk(cfg, hdr, ftr, blocks, Epilogue()) &&
      brk == eptr + 4 && |mem| == brk &&
      ListsOk(cfg, hdr, nextLink, prevLink, freeLists, lists, blocks, out)
    }

    /** The invariant between calls: every free block is in the list of its size class. */
    ghost predicate Valid()
      reads this
    {
      Inv({})
    }

    /** No two neighbouring blocks are free (checker flag 128 clear). */
    ghost predicate Coalesced()
      reads this
    {
      NoAdjFree(hdr, blocks, {})
    }

    ghost predicate IsAllocated(bp: nat)
      reads this
    {
      bp in blocks && bp in hdr && hdr[bp].alloc
    }

    ghost predicate IsFree(bp: nat)
      reads this
    {
      bp in blocks && bp in hdr && !hdr[bp].alloc
    }

    /**
     * set_alloc on the block bp that split returned: both tags get the
     * allocated bit and the heap is whole again, with every free block
     * listed and no two free neighbours.
     */
    method SetAlloc(bp: nat)
      requires Inv({bp}) && IsFree(bp) && NoAdjFree(hdr, blocks, {bp})
      modifies this
      ensures Valid() && Coalesced() && IsAllocated(bp)
      ensures hdr == old(hdr)[bp := Tag(old(hdr[bp].size), true)]
      ensures ftr == old(ftr)[bp + old(hdr[bp].size) := Tag(old(hdr[bp].size), true)]
      ensures nextLink == old(nextLink) && prevLink == old(prevLink) && freeLists == old(freeLists)
      ensures eptr == old(eptr) && brk == old(brk) && mem == old(mem) && blocks == old(blocks)
      ensures AllocKept(old(hdr), old(blocks), hdr, blocks, {bp})
    {
      AllocStep(cfg, hdr, ftr, nextLink, prevLink, freeLists, lists, blocks, Epilogue(), {bp}, bp);
      var size := hdr[bp].size;
      assert {bp} - {bp} == {};
      hdr, ftr := hdr[bp := Tag(size, true)], ftr[bp + size := Tag(size, true)];
    }

    /**
     * set_free on an allocated block: both tags lose the allocated bit;
     * bp is free but not yet listed, which coalesce then does.
     */
    method SetFree(bp: nat)
      requires Valid() && Coalesced() && IsAllocated(bp)
      modifies this
      ensures Inv({bp}) && IsFree(bp) && NoAdjFree(hdr, blocks, {bp})
      ensures hdr == old(hdr)[bp := Tag(old(hdr[bp].size), false)]
      ensures ftr == old(ftr)[bp + old(hdr[bp].size) := Tag(old(hdr[bp].size), false)]
      ensures nextLink == old(nextLink) && prevLink == old(prevLink) && freeLists == old(freeLists)
      ensures eptr == old(eptr) && brk == old(brk) && mem == old(mem) && blocks == old(blocks)
      ensures AllocKept(old(hdr), old(blocks), hdr, blocks, {bp})
    {
      assert IsBlock(blocks, bp);
      FreeStep(cfg, hdr, ftr, nextLink, prevLink, freeLists, lists, blocks, Epilogue(), {}, bp);
      var size := hdr[bp].size;
      assert {} + {bp} == {bp};
      hdr, ftr := hdr[bp := Tag(size, false)], ftr[bp + size := Tag(size, false)];
    }

    /** The list index add_block and delete_block use: get_list, or 0 for the single explicit list. */
    method ListOf(size: nat) returns (list: nat)
      ensures list == Bucket(cfg, size)
    {
      if cfg.numLists == 1 {
        list := 0;
      } else {
        list := GetList(size);
      }
    }

    /**
     * add_block: bp becomes the head of the free list of its size class,
     * with no predecessor and the old head as its successor.
     */
    method AddBlock(bp: nat, ghost out: set<nat>)
      requires Inv(out) && bp in out && bp in hdr && !hdr[bp].alloc
      modifies this
      ensures unchanged(`hdr, `ftr, `blocks, `eptr, `brk, `mem)
      ensures Inv(out - {bp})
      ensures var b := Bucket(cfg, hdr[bp].size);
        b < |old(lists)| &&
        lists == old(lists)[b := [bp] + old(lists[b])] &&
        freeLists == old(freeLists)[b := Some(bp)] &&
        nextLink == PushNext(old(nextLink), bp, old(freeLists[b])) &&
        (old(freeLists[b]).Some? ==> old(freeLists[b]).value in hdr) &&
        prevLink == PushPrev(hdr, old(prevLink), bp, old(freeLists[b]))
    {
      var size := hdr[bp].size;
      var list := ListOf(size);
      BucketInRange(cfg, size);
      HeadListed(cfg, hdr, nextLink, prevLink, freeLists, lists, blocks, out, list);
      PushPrevWrites(hdr, prevLink, bp, freeLists[list]);
      var nl, pl := nextLink, prevLink;
      if freeLists[list] != None {
        var head := freeLists[list].value;
        pl := pl[head + hdr[head].size := Some(bp)];
        nl := nl[bp := Some(head)];
        pl := pl[bp + size := None];
      } else {
        pl := pl[bp + size := None];
        nl := nl[bp := None];
      }
      ghost var L2 := lists[list := [bp] + lists[list]];
      PushLinkedTo(cfg, hdr, ftr, Epilogue(), nextLink, prevLink, freeLists, lists, blocks, out, bp, list,
                   nl, pl, freeLists[list := Some(bp)], L2);
      nextLink, prevLink, freeLists, lists := nl, pl, freeLists[list := Some(bp)], L2;
    }

    /**
     * delete_block: unlinks the free block bp from the list of its size
     * class; its neighbours in the list are linked to each other and the
     * list head moves on when bp was the head.
     */
    method DeleteBlock(bp: nat, ghost out: set<nat>)
      requires Inv(out) && IsFree(bp) && bp !in out
      modifies this
      ensures unchanged(`hdr, `ftr, `blocks, `eptr, `brk, `mem)
      ensures Inv(out + {bp})
      ensures bp in old(nextLink) && bp + hdr[bp].size in old(prevLink)
      ensures var b := Bucket(cfg, hdr[bp].size);
        b < |old(lists)| && bp in old(lists[b]) &&
        lists == old(lists)[b := RemoveAt(old(lists[b]), IndexOf(old(lists[b]), bp))]
      ensures var b := Bucket(cfg, hdr[bp].size);
        var p := old(prevLink[bp + hdr[bp].size]);
        var n := old(nextLink[bp]);
        (n.Some? ==> n.value in hdr) &&
        nextLink == UnlinkNext(old(nextLink), p, n) &&
        prevLink == UnlinkPrev(hdr, old(prevLink), p, n) &&
        freeLists == (if p.None? then old(freeLists)[b := n] else old(freeLists))
    {
      var size := hdr[bp].size;
      var list := ListOf(size);
      BucketInRange(cfg, size);
      assert IsBlock(blocks, bp);
      assert bp in lists[list];
      ghost var k := IndexOf(lists[list], bp);
      UnlinkFacts(cfg, hdr, nextLink, prevLink, freeLists, lists, blocks, out, list, k);
      var prev := prevLink[bp + size];
      var next := nextLink[bp];
      var nl, pl, heads := nextLink, prevLink, freeLists;
      if prev == None && next == None {
        heads := heads[list := None];
      } else if prev == None {
        pl := pl[next.value + hdr[next.value].size := None];
        heads := heads[list := next];
      } else if next == None {
        nl := nl[prev.value := None];
      } else {
        nl := nl[prev.value := next];
        pl := pl[next.value + hdr[next.value].size := prev];
      }
      assert nl == UnlinkNext(nextLink, prev, next);
      assert pl == UnlinkPrev(hdr, prevLink, prev, next);
      ghost var L2 := lists[list := RemoveAt(lists[list], k)];
      UnlinkLinkedTo(cfg, hdr, ftr, Epilogue(), nextLink, prevLink, freeLists, lists, blocks, out, list, k, bp,
                     prev, next, nl, pl, heads, L2);
      nextLink, prevLink, freeLists, lists := nl, pl, heads, L2;
    }
  
    /**
     * The cutting half of split: bp, already off its list, keeps asize
     * bytes and the remainder becomes a free block at the head of its list.
     */
    method CutTail(bp: nat, asize: nat)
      requires Inv({bp}) && IsFree(bp) && asize >= cfg.minSize && asize % 8 == 0
      requires hdr[bp].size >= asize + cfg.minSize
      requires NoAdjFree(hdr, blocks, {bp}) && bp + hdr[bp].size in hdr && hdr[bp + hdr[bp].size].alloc
      modifies this
      ensures Inv({bp}) && IsFree(bp) && hdr[bp].size == asize
      ensures eptr == old(eptr) && brk == old(brk) && mem == old(mem)
      ensures hdr == SplitHdr(old(hdr), bp, asize) && ftr == SplitFtr(old(hdr), old(ftr), bp, asize)
      ensures blocks == old(blocks) + {bp + asize}
      ensures AllocKept(old(hdr), old(blocks), hdr, blocks, {})
      ensures NoAdjFree(hdr, blocks, {bp})
    {
      assert IsBlock(blocks, bp);
      SplitStep(cfg, hdr, ftr, nextLink, prevLink, freeLists, lists, blocks, Epilogue(), {bp}, bp, asize);
      var rest := bp + asize;
      hdr, ftr, blocks := SplitHdr(hdr, bp, asize), SplitFtr(hdr, ftr, bp, asize), blocks + {rest};
      AddBlock(rest, {bp} + {rest});
      assert {bp} + {rest} - {rest} == {bp};
    }

    /**
     * split: takes the free block bp off its list and, when at least
     * MIN_SIZE bytes would be left over, cuts it to asize bytes and lists
     * the remainder. bp is returned free and unlisted.
     */
    method Split(bp: nat, asize: nat) returns (r: nat)
      requires Valid() && Coalesced() && IsFree(bp) && asize >= cfg.minSize && asize % 8 == 0
      requires hdr[bp].size >= asize
      modifies this
      ensures r == bp && Inv({bp}) && IsFree(bp) && NoAdjFree(hdr, blocks, {bp})
      ensures asize <= hdr[bp].size < asize + cfg.minSize
      ensures eptr == old(eptr) && brk == old(brk) && mem == old(mem)
      ensures if old(hdr[bp].size) >= asize + cfg.minSize then
          hdr == SplitHdr(old(hdr), bp, asize) && ftr == SplitFtr(old(hdr), old(ftr), bp, asize) &&
          blocks == old(blocks) + {bp + asize}
        else
          hdr == old(hdr) && ftr == old(ftr) && blocks == old(blocks)
      ensures AllocKept(old(hdr), old(blocks), hdr, blocks, {})
    {
      var original := hdr[bp].size;
      assert IsBlock(blocks, bp);
      Neighbours(cfg, hdr, ftr, blocks, Epilogue(), bp);
      DeleteBlock(bp, {});
      assert {} + {bp} == {bp};
      if original >= asize + cfg.minSize {
        CutTail(bp, asize);
      }
      r := bp;
    }

    /**
     * The scanning loops of search_list: from the list of asize's size
     * class upwards, the first member, in list order, of at least asize
     * bytes. Nothing is changed.
     */
    method FindFit(asize: nat) returns (r: Option<nat>)
      requires Valid()
      ensures r == FitFrom(hdr, lists, asize, Bucket(cfg, asize))
      ensures r.Some? ==> IsFree(r.value) && hdr[r.value].size >= asize
      ensures r.None? ==> forall x :: IsFree(x) ==> hdr[x].size < asize
    {
      var list := ListOf(asize);
      BucketInRange(cfg, asize);
      while list < cfg.numLists
        invariant Bucket(cfg, asize) <= list <= cfg.numLists
        invariant FitFrom(hdr, lists, asize, Bucket(cfg, asize)) == FitFrom(hdr, lists, asize, list)
        decreases cfg.numLists - list
      {
        var bp := freeLists[list];
        ghost var k := 0;
        assert lists[list][k..] == lists[list];
        while bp.Some?
          invariant k <= |lists[list]|
          invariant bp == (if k < |lists[list]| then Some(lists[list][k]) else None)
          invariant FitIn(hdr, lists[list], asize) == FitIn(hdr, lists[list][k..], asize)
          decreases |lists[list]| - k
        {
          assert Linked(cfg, hdr, nextLink, prevLink, blocks, {}, lists[list], list, k);
          if hdr[bp.value].size >= asize {
            r := bp;
            FoundIsFree(cfg, hdr, nextLink, prevLink, freeLists, lists, blocks, asize, Bucket(cfg, asize));
            return;
          }
          FitInSkip(hdr, lists[list], asize, k);
          bp := nextLink[bp.value];
          k := k + 1;
        }
        assert lists[list][k..] == [];
        list := list + 1;
      }
      r := None;
      NoFitAnywhere(cfg, hdr, nextLink, prevLink, freeLists, lists, blocks, asize);
    }

    /**
     * search_list: the first fit from the size class of asize upwards,
     * split down to asize bytes and taken off its list; None, with nothing
     * changed, when no free block is large enough.
     */
    method SearchList(asize: nat) returns (r: Option<nat>)
      requires Valid() && Coalesced() && asize >= cfg.minSize && asize % 8 == 0
      modifies this
      ensures r == old(FitFrom(hdr, lists, asize, Bucket(cfg, asize)))
      ensures r.None? ==> unchanged(this) && forall x :: IsFree(x) ==> hdr[x].size < asize
      ensures r.Some? ==> var bp := r.value;
        Inv({bp}) && IsFree(bp) && NoAdjFree(hdr, blocks, {bp}) &&
        asize <= hdr[bp].size < asize + cfg.minSize &&
        eptr == old(eptr) && brk == old(brk) && mem == old(mem) &&
        AllocKept(old(hdr), old(blocks), hdr, blocks, {}) && old(IsFree(bp)) &&
        if old(hdr[bp].size) >= asize + cfg.minSize then
          hdr == SplitHdr(old(hdr), bp, asize) && ftr == SplitFtr(old(hdr), old(ftr), bp, asize) &&
          blocks == old(blocks) + {bp + asize}
        else
          hdr == old(hdr) && ftr == old(ftr) && blocks == old(blocks)
    {
      r := FindFit(asize);
      if r.Some? {
        var bp := Split(r.value, asize);
      }
    }

    /** SPACE_LEFT: the size of the last block when it is free, else 0. */
    function SpaceLeft(): nat
      reads this
    {
      var E := Epilogue();
      if E in ftr && !ftr[E].alloc then ftr[E].size else 0
    }

    /**
     * What SPACE_LEFT measures on a valid heap: a positive value is the
     * size of the free block that ends at the epilogue, and a free block
     * that ends there is the one it measures (0 means the last block is
     * allocated).
     */
    lemma SpaceLeftLast()
      requires Valid()
      ensures SpaceLeft() > 0 ==>
        SpaceLeft() <= Epilogue() && IsFree(Epilogue() - SpaceLeft()) && hdr[Epilogue() - SpaceLeft()].size == SpaceLeft()
      ensures forall x: nat :: IsFree(x) && x + hdr[x].size == Epilogue() ==> SpaceLeft() == hdr[x].size
    {
      var E := Epilogue();
      PrevTag(cfg, hdr, ftr, blocks, E, E);
      forall x: nat | IsFree(x) && x + hdr[x].size == E
        ensures ftr[E] == hdr[x]
      {
        assert BlockOk(cfg, hdr, ftr, blocks, E, x);
      }
    }

    /**
     * The growing half of extend_heap: mem_sbrk(size) moves the break,
     * set_size makes the new bytes one free block where the epilogue was,
     * and a new epilogue header closes the heap. The fresh bytes read as
     * zero. The block is returned unlisted, for coalesce.
     */
    method Grow(size: nat) returns (bp: nat)
      requires Valid() && Coalesced() && size >= cfg.minSize && size % 8 == 0
      modifies this
      ensures bp == old(Epilogue()) && bp !in old(blocks)
      ensures Inv({bp}) && IsFree(bp) && NoAdjFree(hdr, blocks, {bp})
      ensures hdr == old(hdr)[bp := Tag(size, false)][bp + size := Tag(0, true)]
      ensures ftr == old(ftr)[bp + size := Tag(size, false)]
      ensures blocks == old(blocks) + {bp}
      ensures eptr == old(eptr) + size && brk == old(brk) + size && mem == old(mem) + seq(size, _ => 0)
      ensures nextLink == old(nextLink) && prevLink == old(prevLink) && freeLists == old(freeLists)
      ensures AllocKept(old(hdr), old(blocks), hdr, blocks, {})
    {
      bp := brk + cfg.hdrOff - 4;
      ExtendStep(cfg, hdr, ftr, nextLink, prevLink, freeLists, lists, blocks, bp, size);
      hdr, ftr, blocks := hdr[bp := Tag(size, false)][bp + size := Tag(0, true)], ftr[bp + size := Tag(size, false)], blocks + {bp};
      eptr, brk, mem := eptr + size, brk + size, mem + seq(size, _ => 0);
    }

    /**
     * The closing half of extend_heap: coalesce the grown block with a
     * free last block before it, then split the result down to asize.
     */
    method MergeGrown(bp: nat, asize: nat) returns (r: nat)
      requires Inv({bp}) && IsFree(bp) && NoAdjFree(hdr, blocks, {bp}) && bp + hdr[bp].size == Epilogue()
      requires asize >= cfg.minSize && asize % 8 == 0
      requires bp in ftr && hdr[bp].size + (if ftr[bp].alloc then 0 else ftr[bp].size) >= asize
      modifies this
      ensures r == if old(ftr[bp].alloc) then bp else bp - old(ftr[bp].size)
      ensures Inv({r}) && IsFree(r) && NoAdjFree(hdr, blocks, {r})
      ensures asize <= hdr[r].size < asize + cfg.minSize
      ensures eptr == old(eptr) && brk == old(brk) && mem == old(mem)
      ensures AllocKept(old(hdr), old(blocks), hdr, blocks, {})
    {
      assert IsBlock(blocks, bp);
      Neighbours(cfg, hdr, ftr, blocks, Epilogue(), bp);
      PrevTag(cfg, hdr, ftr, blocks, Epilogue(), bp);
      ghost var h1, B1 := hdr, blocks;
      r := Coalesce(bp);
      ghost var h2, B2 := hdr, blocks;
      r := Split(r, asize);
      AllocKeptChain(h1, B1, h2, B2, hdr, blocks, bp, {});
    }

    /**
     * extend_heap, called when no free block fits asize: grows the heap by
     * what the free last block (if any) lacks, at least the configured
     * floor, merges the new space with that last block, and splits the
     * result down to asize. A failing mem_sbrk (growOk false) gives None
     * and changes nothing.
     */
    method ExtendHeap(asize: nat, growOk: bool) returns (r: Option<nat>)
      requires Valid() && Coalesced() && asize >= cfg.minSize && asize % 8 == 0
      requires forall x :: IsFree(x) ==> hdr[x].size < asize
      modifies this
      ensures old(SpaceLeft()) < asize
      ensures r.None? <==> !growOk
      ensures !growOk ==> unchanged(this)
      ensures r.Some? ==> var bp := r.value;
        Inv({bp}) && IsFree(bp) && NoAdjFree(hdr, blocks, {bp}) &&
        asize <= hdr[bp].size < asize + cfg.minSize &&
        AllocKept(old(hdr), old(blocks), hdr, blocks, {})
      ensures growOk ==>
        var grown := if asize - old(SpaceLeft()) < cfg.extendFloor then cfg.extendFloor else asize - old(SpaceLeft());
        r == Some(old(Epilogue()) - old(SpaceLeft())) &&
        eptr == old(eptr) + grown && brk == old(brk) + grown && |mem| == brk && mem[..old(brk)] == old(mem)
    {
      PrevTag(cfg, hdr, ftr, blocks, Epilogue(), Epilogue());
      var spaceLeft := SpaceLeft();
      var size := asize - spaceLeft;
      if size < cfg.extendFloor {
        size := cfg.extendFloor;
      }
      if !growOk {
        return None;
      }
      ghost var h0, B0, m0 := hdr, blocks, mem;
      var bp := Grow(size);
      assert mem[..|m0|] == m0;
      bp := MergeGrown(bp, asize);
      r := Some(bp);
    }

    /**
     * The common tail of the three merging cases of coalesce: set_size
     * writes the merged block's tags and add_block lists it.
     */
    method Relist(x: nat, size: nat, ghost B2: set<nat>)
      requires LayoutOk(cfg, hdr[x := Tag(size, false)], ftr[x + size := Tag(size, false)], B2, Epilogue())
      requires ListsOk(cfg, hdr[x := Tag(size, false)], nextLink, prevLink, freeLists, lists, B2, {x})
      requires NoAdjFree(hdr[x := Tag(size, false)], B2, {})
      requires brk == eptr + 4 && |mem| == brk && x in B2
      modifies this
      ensures Valid() && Coalesced() && IsFree(x)
      ensures hdr == old(hdr)[x := Tag(size, false)] && ftr == old(ftr)[x + size := Tag(size, false)]
      ensures blocks == B2 && eptr == old(eptr) && brk == old(brk) && mem == old(mem)
      ensures freeLists[Bucket(cfg, size)] == Some(x)
    {
      hdr, ftr, blocks := hdr[x := Tag(size, false)], ftr[x + size := Tag(size, false)], B2;
      AddBlock(x, {x});
      assert {x} - {x} == {};
    }

    /** coalesce when only the next block is free: bp absorbs it. */
    method MergeNext(bp: nat) returns (r: nat)
      requires Inv({bp}) && bp in blocks && bp in hdr && bp in ftr && ftr[bp].size <= bp
      requires bp - ftr[bp].size in hdr && hdr[bp - ftr[bp].size].alloc
      requires bp + hdr[bp].size in hdr && !hdr[bp + hdr[bp].size].alloc
      requires NoAdjFree(hdr, blocks, {bp})
      modifies this
      ensures Valid() && Coalesced() && IsFree(r) && r == bp
      ensures eptr == old(eptr) && brk == old(brk) && mem == old(mem)
      ensures freeLists[Bucket(cfg, hdr[r].size)] == Some(r)
      ensures r + hdr[r].size == old(bp + hdr[bp].size + hdr[bp + hdr[bp].size].size)
      ensures blocks == old(blocks) - {old(bp + hdr[bp].size)}
      ensures AllocKept(old(hdr), old(blocks), hdr, blocks, {bp})
    {
      var next := bp + hdr[bp].size;
      assert IsBlock(blocks, bp);
      Neighbours(cfg, hdr, ftr, blocks, Epilogue(), bp);
      DeleteBlock(next, {bp});
      var size := hdr[bp].size + hdr[next].size;
      CoalesceNext(cfg, hdr, ftr, nextLink, prevLink, freeLists, lists, blocks, Epilogue(), bp, next, size);
      Relist(bp, size, blocks - {next});
      r := bp;
    }

    /** coalesce when only the previous block is free: it absorbs bp. */
    method MergePrev(bp: nat) returns (r: nat)
      requires Inv({bp}) && bp in blocks && bp in hdr && bp in ftr && ftr[bp].size <= bp
      requires bp - ftr[bp].size in hdr && !hdr[bp - ftr[bp].size].alloc
      requires bp + hdr[bp].size in hdr && hdr[bp + hdr[bp].size].alloc
      requires NoAdjFree(hdr, blocks, {bp})
      modifies this
      ensures Valid() && Coalesced() && IsFree(r) && r == old(bp - ftr[bp].size)
      ensures eptr == old(eptr) && brk == old(brk) && mem == old(mem)
      ensures freeLists[Bucket(cfg, hdr[r].size)] == Some(r)
      ensures r + hdr[r].size == old(bp + hdr[bp].size)
      ensures blocks == old(blocks) - {bp}
      ensures AllocKept(old(hdr), old(blocks), hdr, blocks, {bp})
    {
      var prev := bp - ftr[bp].size;
      assert IsBlock(blocks, bp);
      Neighbours(cfg, hdr, ftr, blocks, Epilogue(), bp);
      DeleteBlock(prev, {bp});
      var size := hdr[bp].size + hdr[prev].size;
      CoalescePrev(cfg, hdr, ftr, nextLink, prevLink, freeLists, lists, blocks, Epilogue(), bp, prev, size);
      Relist(prev, size, blocks - {bp});
      r := prev;
    }

    /** coalesce when both neighbours are free: the previous block absorbs bp and the next block. */
    method MergeBoth(bp: nat) returns (r: nat)
      requires Inv({bp}) && bp in blocks && bp in hdr && bp in ftr && ftr[bp].size <= bp
      requires bp - ftr[bp].size in hdr && !hdr[bp - ftr[bp].size].alloc
      requires bp + hdr[bp].size in hdr && !hdr[bp + hdr[bp].size].alloc
      requires NoAdjFree(hdr, blocks, {bp})
      modifies this
      ensures Valid() && Coalesced() && IsFree(r) && r == old(bp - ftr[bp].size)
      ensures eptr == old(eptr) && brk == old(brk) && mem == old(mem)
      ensures freeLists[Bucket(cfg, hdr[r].size)] == Some(r)
      ensures r + hdr[r].size == old(bp + hdr[bp].size + hdr[bp + hdr[bp].size].size)
      ensures blocks == old(blocks) - {bp} - {old(bp + hdr[bp].size)}
      ensures AllocKept(old(hdr), old(blocks), hdr, blocks, {bp})
    {
      var prev := bp - ftr[bp].size;
      var next := bp + hdr[bp].size;
      assert IsBlock(blocks, bp);
      Neighbours(cfg, hdr, ftr, blocks, Epilogue(), bp);
      DeleteBlock(next, {bp});
      DeleteBlock(prev, {bp} + {next});
      var size := hdr[bp].size + (hdr[prev].size + hdr[next].size);
      CoalesceBoth(cfg, hdr, ftr, nextLink, prevLink, freeLists, lists, blocks, Epilogue(), bp, prev, next, size);
      Relist(prev, size, blocks - {bp} - {next});
      r := prev;
    }

    /**
     * coalesce: merges bp with whichever of its address neighbours are
     * free and lists the merged block at the head of its size class.
     * Returns the merged block, which starts at the free predecessor if
     * there is one.
     */
    method Coalesce(bp: nat) returns (r: nat)
      requires Inv({bp}) && bp in blocks && bp in hdr && bp in ftr && ftr[bp].size <= bp
      requires bp - ftr[bp].size in hdr && bp + hdr[bp].size in hdr
      requires NoAdjFree(hdr, blocks, {bp})
      requires !hdr[bp].alloc || !hdr[bp - ftr[bp].size].alloc || !hdr[bp + hdr[bp].size].alloc
      modifies this
      ensures Valid() && Coalesced() && IsFree(r)
      ensures eptr == old(eptr) && brk == old(brk) && mem == old(mem)
      ensures freeLists[Bucket(cfg, hdr[r].size)] == Some(r)
      ensures var p := old(bp - ftr[bp].size);
        var n := old(bp + hdr[bp].size);
        var prevFree := old(!hdr[p].alloc);
        var nextFree := old(!hdr[n].alloc);
        r == (if prevFree then p else bp) &&
        r + hdr[r].size == (if nextFree then n + old(hdr[n].size) else n) &&
        if prevFree && nextFree then blocks == old(blocks) - {bp} - {n}
        else if prevFree then blocks == old(blocks) - {bp}
        else if nextFree then blocks == old(blocks) - {n}
        else blocks == old(blocks)
      ensures AllocKept(old(hdr), old(blocks), hdr, blocks, {bp})
    {
      var prevAlloc := hdr[bp - ftr[bp].size].alloc;
      var nextAlloc := hdr[bp + hdr[bp].size].alloc;
      if prevAlloc && nextAlloc {
        assert IsBlock(blocks, bp);
        Neighbours(cfg, hdr, ftr, blocks, Epilogue(), bp);
        CoalesceNone(cfg, hdr, ftr, blocks, Epilogue(), bp);
        AddBlock(bp, {bp});
        assert {bp} - {bp} == {};
        r := bp;
      } else if prevAlloc {
        r := MergeNext(bp);
      } else if nextAlloc {
        r := MergePrev(bp);
      } else {
        r := MergeBoth(bp);
      }
    }

    /**
     * The placing part of malloc: the first fit from the size class of
     * asize, or fresh space from extend_heap when nothing fits, split down
     * to asize and still free. None, with nothing changed, when the heap
     * cannot grow.
     */
    method Place(asize: nat, growOk: bool) returns (r: Option<nat>)
      requires Valid() && Coalesced() && asize >= cfg.minSize && asize % 8 == 0
      modifies this
      ensures r.None? ==> unchanged(this) && !growOk && forall x :: IsFree(x) ==> hdr[x].size < asize
      ensures old(FitFrom(hdr, lists, asize, Bucket(cfg, asize))).Some? ==>
        r == old(FitFrom(hdr, lists, asize, Bucket(cfg, asize)))
      ensures r.Some? ==> var bp := r.value;
        Inv({bp}) && IsFree(bp) && NoAdjFree(hdr, blocks, {bp}) && !old(IsAllocated(bp)) &&
        asize <= hdr[bp].size < asize + cfg.minSize
      ensures AllocKept(old(hdr), old(blocks), hdr, blocks, {})
      ensures |mem| >= |old(mem)| && mem[..|old(mem)|] == old(mem)
    {
      r := SearchList(asize);
      if r.None? {
        PrevTag(cfg, hdr, ftr, blocks, Epilogue(), Epilogue());
        ExtendFresh(cfg, hdr, ftr, blocks, Epilogue());
        r := ExtendHeap(asize, growOk);
      }
    }

    /** The block the first-fit search picks for a request of size bytes. */
    ghost function FitFor(size: nat): Option<nat>
      reads this
    {
      FitFrom(hdr, lists, Adjusted(cfg, size), Bucket(cfg, Adjusted(cfg, size)))
    }

    /** No free block is large enough for a request of size bytes. */
    ghost predicate NoneFits(size: nat)
      reads this
    {
      forall x :: IsFree(x) ==> hdr[x].size < Adjusted(cfg, size)
    }

    /**
     * malloc: None for a zero-byte request; otherwise the block Place
     * finds for the adjusted size, marked allocated. Its payload, between
     * header and footer, holds at least size bytes inside the heap.
     */
    method Malloc(size: nat, growOk: bool) returns (r: Option<nat>)
      requires Valid() && Coalesced()
      modifies this
      ensures Valid() && Coalesced()
      ensures size == 0 || Oversized(cfg, size) ==> r.None?
      ensures r.None? ==> unchanged(this)
      ensures size > 0 && !Oversized(cfg, size) && r.None? ==> !growOk && NoneFits(size)
      ensures size > 0 && !Oversized(cfg, size) && old(FitFor(size)).Some? ==> r == old(FitFor(size))
      ensures r.Some? ==>
        size > 0 && IsAllocated(r.value) && !old(IsAllocated(r.value)) &&
        Adjusted(cfg, size) <= hdr[r.value].size < Adjusted(cfg, size) + cfg.minSize &&
        r.value + size <= r.value + hdr[r.value].size - Overhead(cfg) <= brk
      ensures AllocKept(old(hdr), old(blocks), hdr, blocks, {})
      ensures |mem| >= |old(mem)| && mem[..|old(mem)|] == old(mem)
    {
      if size == 0 || Oversized(cfg, size) {
        return None;
      }
      var asize := Adjusted(cfg, size);
      AdjustedLegal(cfg, size);
      r := Place(asize, growOk);
      if r.Some? {
        SetAlloc(r.value);
        BlockInside(cfg, hdr, ftr, blocks, Epilogue(), r.value);
      }
    }

    /**
     * free: nothing for NULL; otherwise the block is marked free and
     * coalesced with its free neighbours, so its bytes end up inside one
     * listed free block.
     */
    method Free(bp: Option<nat>)
      requires Valid() && Coalesced() && (bp.Some? ==> IsAllocated(bp.value))
      modifies this
      ensures Valid() && Coalesced()
      ensures bp.None? ==> unchanged(this)
      ensures bp.Some? ==> !IsAllocated(bp.value) && exists r: nat :: IsFree(r) && r <= bp.value < r + hdr[r].size
      ensures AllocKept(old(hdr), old(blocks), hdr, blocks, if bp.Some? then {bp.value} else {})
      ensures eptr == old(eptr) && brk == old(brk) && mem == old(mem)
    {
      if bp.None? {
        return;
      }
      var x := bp.value;
      SetFree(x);
      assert IsBlock(blocks, x);
      Neighbours(cfg, hdr, ftr, blocks, Epilogue(), x);
      BlockInside(cfg, hdr, ftr, blocks, Epilogue(), x);
      var r := Coalesce(x);
      assert IsFree(r) && r <= x < r + hdr[r].size;
    }

    /**
     * The cut of an allocated block: bp keeps newsize bytes and stays
     * allocated; the tail becomes a free block, not yet listed.
     */
    method CutAllocated(bp: nat, newsize: nat)
      requires Valid() && Coalesced() && IsAllocated(bp) && newsize >= cfg.minSize && newsize % 8 == 0
      requires hdr[bp].size >= newsize + cfg.minSize
      modifies this
      ensures Inv({bp + newsize}) && IsFree(bp + newsize) && NoAdjFree(hdr, blocks, {bp + newsize})
      ensures hdr == ShrinkHdr(old(hdr), bp, newsize) && ftr == ShrinkFtr(old(hdr), old(ftr), bp, newsize)
      ensures blocks == old(blocks) + {bp + newsize} && bp + newsize !in old(blocks)
      ensures eptr == old(eptr) && brk == old(brk) && mem == old(mem)
      ensures AllocKept(old(hdr), old(blocks), hdr, blocks, {bp})
    {
      assert IsBlock(blocks, bp);
      ShrinkStep(cfg, hdr, ftr, nextLink, prevLink, freeLists, lists, blocks, Epilogue(), bp, newsize);
      hdr, ftr, blocks := ShrinkHdr(hdr, bp, newsize), ShrinkFtr(hdr, ftr, bp, newsize), blocks + {bp + newsize};
    }

    /**
     * The corrected shrinking branch of realloc: bp keeps newsize bytes,
     * and the cut-off tail becomes a free block that is coalesced with a
     * free successor and listed, so the heap stays coalesced.
     */
    method ShrinkInPlace(bp: nat, newsize: nat)
      requires Valid() && Coalesced() && IsAllocated(bp) && newsize >= cfg.minSize && newsize % 8 == 0
      requires hdr[bp].size >= newsize + cfg.minSize
      modifies this
      ensures Valid() && Coalesced() && IsAllocated(bp) && hdr[bp].size == newsize && IsFree(bp + newsize)
      ensures eptr == old(eptr) && brk == old(brk) && mem == old(mem)
      ensures AllocKept(old(hdr), old(blocks), hdr, blocks, {bp})
    {
      var rest := bp + newsize;
      CutAllocated(bp, newsize);
      assert IsBlock(blocks, rest) && IsBlock(blocks, bp);
      Neighbours(cfg, hdr, ftr, blocks, Epilogue(), rest);
      ghost var h1, B1 := hdr, blocks;
      var r := Coalesce(rest);
      assert IsBlock(B1, bp);
      AllocKeptThen(old(hdr), old(blocks), h1, B1, hdr, blocks, {bp}, rest);
    }

    /**
     * The bytes the free address neighbours of bp add when coalesce
     * merges them into it.
     */
    function NeighbourRoom(bp: nat): nat
      reads this
    {
      if bp in hdr && bp in ftr && ftr[bp].size <= bp then
        var p, n := bp - ftr[bp].size, bp + hdr[bp].size;
        (if p in hdr && !hdr[p].alloc then hdr[p].size else 0) +
        (if n in hdr && !hdr[n].alloc then hdr[n].size else 0)
      else 0
    }

    /**
     * The first half of realloc's growing branch: the allocated block bp
     * is coalesced with its free neighbours into one free, listed block r,
     * and bp's payload moved down to r when r starts below bp.
     */
    method CoalesceMove(bp: nat) returns (r: nat)
      requires Valid() && Coalesced() && IsAllocated(bp) && NeighbourRoom(bp) > 0
      modifies this
      ensures Valid() && Coalesced() && IsFree(r) && r <= bp && (r != bp ==> bp !in blocks)
      ensures hdr[r].size == old(hdr[bp].size + NeighbourRoom(bp))
      ensures old(hdr[bp].size) >= Overhead(cfg) && bp + old(hdr[bp].size) - Overhead(cfg) <= |old(mem)|
      ensures mem == MemMove(old(mem), r, bp, old(hdr[bp].size) - Overhead(cfg))
      ensures eptr == old(eptr) && brk == old(brk)
      ensures AllocKept(old(hdr), old(blocks), hdr, blocks, {bp})
    {
      var n := hdr[bp].size - Overhead(cfg);
      assert IsBlock(blocks, bp);
      Neighbours(cfg, hdr, ftr, blocks, Epilogue(), bp);
      BlockInside(cfg, hdr, ftr, blocks, Epilogue(), bp);
      ExemptAllocated(cfg, hdr, nextLink, prevLink, freeLists, lists, blocks, bp);
      NoAdjExempt(hdr, blocks, {}, bp);
      assert {} + {bp} == {bp};
      r := Coalesce(bp);
      if r != bp {
        MovePayload(r, bp, n);
      } else {
        assert mem == MemMove(mem, r, bp, n);
      }
    }

    /**
     * realloc's growing branch when the free neighbours hold enough room:
     * coalesce around bp, move the payload, split the merged block down
     * to newsize and mark it allocated. The old payload reappears at the
     * start of the new one.
     */
    method GrowInPlace(bp: nat, newsize: nat) returns (r: nat)
      requires Valid() && Coalesced() && IsAllocated(bp) && newsize >= cfg.minSize && newsize % 8 == 0
      requires hdr[bp].size < newsize <= hdr[bp].size + NeighbourRoom(bp)
      modifies this
      ensures Valid() && Coalesced() && IsAllocated(r) && r <= bp && (r != bp ==> !IsAllocated(bp))
      ensures newsize <= hdr[r].size < newsize + cfg.minSize
      ensures old(hdr[bp].size) >= Overhead(cfg) && old(Payload(bp)) == old(hdr[bp].size) - Overhead(cfg)
      ensures Moved(old(mem), bp, mem, r, old(Payload(bp)))
      ensures bp + old(Payload(bp)) <= |old(mem)| && mem == MemMove(old(mem), r, bp, old(Payload(bp)))
      ensures eptr == old(eptr) && brk == old(brk) && |mem| == |old(mem)|
      ensures AllocKept(old(hdr), old(blocks), hdr, blocks, {bp})
    {
      ghost var m0 := mem;
      ghost var n := hdr[bp].size - Overhead(cfg);
      r := CoalesceMove(bp);
      assert forall j :: r <= j < r + n ==> mem[j] == m0[bp + (j - r)];
      assert mem[r..r + n] == m0[bp..bp + n];
      r := Split(r, newsize);
      SetAlloc(r);
    }

    /** Payload bytes of block bp: its size less header and footer. */
    function Payload(bp: nat): nat
      reads this
    {
      if bp in hdr && hdr[bp].size >= Overhead(cfg) then hdr[bp].size - Overhead(cfg) else 0
    }

    /** The copy and the free that end realloc's move to a fresh block dst. */
    method CopyFree(dst: nat, bp: nat, k: nat)
      requires Valid() && Coalesced() && IsAllocated(bp) && IsAllocated(dst) && dst != bp
      requires k <= Payload(bp) && k <= Payload(dst)
      modifies this
      ensures Valid() && Coalesced() && IsAllocated(dst) && !IsAllocated(bp)
      ensures bp + k <= |old(mem)| && dst + k <= |mem| && mem[dst..dst + k] == old(mem)[bp..bp + k]
      ensures dst + k <= |old(mem)| && mem == MemMove(old(mem), dst, bp, k)
      ensures eptr == old(eptr) && brk == old(brk)
      ensures AllocKept(old(hdr), old(blocks), hdr, blocks, {bp})
    {
      assert IsBlock(blocks, bp) && IsBlock(blocks, dst);
      BlockInside(cfg, hdr, ftr, blocks, Epilogue(), bp);
      BlockInside(cfg, hdr, ftr, blocks, Epilogue(), dst);
      Disjoint(cfg, hdr, ftr, blocks, Epilogue(), dst, bp);
      ghost var m0 := mem;
      MovePayload(dst, bp, k);
      assert forall j :: dst <= j < dst + k ==> mem[j] == m0[bp + (j - dst)];
      ghost var B1, m1 := blocks, mem;
      Free(Some(bp));
      assert IsBlock(B1, dst);
    }

    /**
     * Moving a block elsewhere: malloc(request), copy the bytes of the old
     * payload that fit, then free the old block. When malloc fails,
     * nothing changes and the old block stays allocated.
     */
    method Relocate(bp: nat, request: nat, growOk: bool) returns (r: Option<nat>)
      requires Valid() && Coalesced() && IsAllocated(bp) && request > 0
      modifies this
      ensures Valid() && Coalesced()
      ensures r.None? ==> unchanged(this)
      ensures Oversized(cfg, request) ==> r.None?
      ensures !Oversized(cfg, request) && r.None? ==> !growOk && NoneFits(request)
      ensures !Oversized(cfg, request) && old(FitFor(request)).Some? ==> r == old(FitFor(request))
      ensures r.Some? ==>
        IsAllocated(r.value) && !IsAllocated(bp) && r.value != bp &&
        Adjusted(cfg, request) <= hdr[r.value].size < Adjusted(cfg, request) + cfg.minSize
      ensures r.Some? ==> Moved(old(mem), bp, mem, r.value, Min(request, old(Payload(bp))))
      ensures r.Some? ==> SameOutside(old(mem), mem, r.value, r.value + Min(request, old(Payload(bp))))
      ensures AllocKept(old(hdr), old(blocks), hdr, blocks, {bp})
    {
      var k := Min(request, Payload(bp));
      assert IsBlock(blocks, bp);
      BlockInside(cfg, hdr, ftr, blocks, Epilogue(), bp);
      assert bp + k <= |mem|;
      ghost var m0 := mem;
      r := Malloc(request, growOk);
      if r.Some? {
        assert IsBlock(blocks, bp);
        PrefixSlice(m0, mem, bp, bp + k);
        ghost var B1, m1 := blocks, mem;
        assert forall j :: 0 <= j < |m0| ==> m1[j] == m1[..|m0|][j];
        CopyFree(r.value, bp, k);
        assert IsBlock(B1, r.value);
      }
    }

    /**
     * realloc's test for growing bp in place to newsize: a free neighbour,
     * or the two free neighbours together, hold the missing bytes.
     */
    predicate RoomAround(bp: nat, newsize: nat)
      reads this
    {
      bp in hdr && bp in ftr && ftr[bp].size <= bp && bp - ftr[bp].size in hdr && bp + hdr[bp].size in hdr &&
      (var prev, next := hdr[bp - ftr[bp].size], hdr[bp + hdr[bp].size];
       var diff := newsize - hdr[bp].size;
       (!prev.alloc && prev.size >= diff) || (!next.alloc && next.size >= diff) ||
       (!next.alloc && !prev.alloc && prev.size + next.size >= diff))
    }

    /**
     * realloc of the segregated allocator when the adjusted size exceeds
     * the block: the block grows into its free neighbours when they hold
     * the difference, and moves to a fresh block otherwise.
     */
    method ReallocLarger(bp: nat, size: nat, growOk: bool) returns (r: Option<nat>)
      requires Valid() && Coalesced() && IsAllocated(bp) && Adjusted(cfg, size) > hdr[bp].size
      modifies this
      ensures Valid() && Coalesced()
      ensures r.None? ==> unchanged(this)
      ensures r.Some? ==> IsAllocated(r.value) && Adjusted(cfg, size) <= hdr[r.value].size
      ensures old(RoomAround(bp, Adjusted(cfg, size))) ==>
        r.Some? && r.value <= bp && hdr[r.value].size < Adjusted(cfg, size) + cfg.minSize
      ensures !old(RoomAround(bp, Adjusted(cfg, size))) && r.Some? ==>
        r.value != bp && !IsAllocated(bp) &&
        Adjusted(cfg, Adjusted(cfg, size)) <= hdr[r.value].size < Adjusted(cfg, Adjusted(cfg, size)) + cfg.minSize
      ensures !old(RoomAround(bp, Adjusted(cfg, size))) && !Oversized(cfg, Adjusted(cfg, size)) && r.None? ==>
        !growOk && NoneFits(Adjusted(cfg, size))
      ensures !old(RoomAround(bp, Adjusted(cfg, size))) && !Oversized(cfg, Adjusted(cfg, size)) &&
              old(FitFor(Adjusted(cfg, size))).Some? ==>
        r == old(FitFor(Adjusted(cfg, size)))
      ensures r.Some? && r.value != bp ==> !IsAllocated(bp)
      ensures r.Some? ==> old(Payload(bp)) < size && Moved(old(mem), bp, mem, r.value, old(Payload(bp)))
      ensures old(RoomAround(bp, Adjusted(cfg, size))) ==>
        bp + old(Payload(bp)) <= |old(mem)| && r.Some? && mem == MemMove(old(mem), r.value, bp, old(Payload(bp)))
      ensures r.Some? ==> SameOutside(old(mem), mem, r.value, r.value + old(Payload(bp)))
      ensures AllocKept(old(hdr), old(blocks), hdr, blocks, {bp})
    {
      assert IsBlock(blocks, bp);
      Neighbours(cfg, hdr, ftr, blocks, Epilogue(), bp);
      BlockInside(cfg, hdr, ftr, blocks, Epilogue(), bp);
      AdjustedLegal(cfg, size);
      var oldsize := hdr[bp].size;
      var newsize := Adjusted(cfg, size);
      AlignSizeExceeds(size, Overhead(cfg), cfg.minSize, oldsize);
      var prev, next := bp - ftr[bp].size, bp + hdr[bp].size;
      var prevAlloc, nextAlloc := hdr[prev].alloc, hdr[next].alloc;
      var prevSize, nextSize := hdr[prev].size, hdr[next].size;
      var diff := newsize - oldsize;
      if (!prevAlloc && prevSize >= diff) || (!nextAlloc && nextSize >= diff) ||
         (!nextAlloc && !prevAlloc && prevSize + nextSize >= diff) {
        var q := GrowInPlace(bp, newsize);
        r := Some(q);
      } else {
        assert Min(newsize, Payload(bp)) == Payload(bp) < size;
        r := Relocate(bp, newsize, growOk);
      }
    }

    /**
     * realloc of the segregated allocator. size 0 frees ptr and gives
     * None; a NULL ptr is malloc. Otherwise the adjusted size decides:
     * no larger than the block, the block is shrunk in place (and split
     * when at least MIN_SIZE bytes are left over); larger, ReallocLarger.
     * The first min(size, payload) bytes of the old payload start the new
     * one.
     */
    method Realloc(ptr: Option<nat>, size: nat, growOk: bool) returns (r: Option<nat>)
      requires Valid() && Coalesced() && (ptr.Some? ==> IsAllocated(ptr.value))
      modifies this
      ensures Valid() && Coalesced()
      ensures size == 0 ==> r.None? && (ptr.Some? ==> !IsAllocated(ptr.value))
      ensures size > 0 && r.None? ==> unchanged(this)
      ensures Oversized(cfg, size) && (ptr.None? || Adjusted(cfg, size) > old(hdr[ptr.value].size)) ==> r.None?
      ensures r.Some? ==> size > 0 && IsAllocated(r.value) && Adjusted(cfg, size) <= hdr[r.value].size
      ensures ptr.None? && size > 0 && !Oversized(cfg, size) && r.None? ==> !growOk && NoneFits(size)
      ensures ptr.None? && size > 0 && !Oversized(cfg, size) && old(FitFor(size)).Some? ==> r == old(FitFor(size))
      ensures ptr.Some? && size > 0 && Adjusted(cfg, size) <= old(hdr[ptr.value].size) ==>
        r == ptr && hdr[ptr.value].size < Adjusted(cfg, size) + cfg.minSize
      ensures ptr.Some? && size > 0 && !Oversized(cfg, size) && Adjusted(cfg, size) > old(hdr[ptr.value].size) &&
              old(RoomAround(ptr.value, Adjusted(cfg, size))) ==>
        r.Some? && r.value <= ptr.value && hdr[r.value].size < Adjusted(cfg, size) + cfg.minSize
      ensures ptr.Some? && size > 0 && !Oversized(cfg, size) && Adjusted(cfg, size) > old(hdr[ptr.value].size) &&
              !old(RoomAround(ptr.value, Adjusted(cfg, size))) && !Oversized(cfg, Adjusted(cfg, size)) ==>
        (r.None? ==> !growOk && NoneFits(Adjusted(cfg, size))) &&
        (old(FitFor(Adjusted(cfg, size))).Some? ==> r == old(FitFor(Adjusted(cfg, size))))
      ensures ptr.Some? && r.Some? && r != ptr ==> !IsAllocated(ptr.value)
      ensures ptr.Some? && r.Some? ==> Moved(old(mem), ptr.value, mem, r.value, Min(size, old(Payload(ptr.value))))
      ensures r.None? ==> mem == old(mem)
      ensures ptr.None? ==> |mem| >= |old(mem)| && mem[..|old(mem)|] == old(mem)
      ensures ptr.Some? && size > 0 && Adjusted(cfg, size) <= old(hdr[ptr.value].size) ==> mem == old(mem)
      ensures ptr.Some? && r.Some? ==> SameOutside(old(mem), mem, r.value, r.value + Min(size, old(Payload(ptr.value))))
      ensures AllocKept(old(hdr), old(blocks), hdr, blocks, if ptr.Some? then {ptr.value} else {})
    {
      if size == 0 {
        Free(ptr);
        return None;
      }
      if ptr.None? {
        r := Malloc(size, growOk);
        return;
      }
      var bp := ptr.value;
      var newsize := Adjusted(cfg, size);
      if newsize <= hdr[bp].size {
        assert IsBlock(blocks, bp);
        BlockInside(cfg, hdr, ftr, blocks, Epilogue(), bp);
        AdjustedLegal(cfg, size);
        if hdr[bp].size >= newsize + cfg.minSize {
          ShrinkInPlace(bp, newsize);
        }
        r := Some(bp);
      } else if Oversized(cfg, size) {
        r := None;
      } else {
        r := ReallocLarger(bp, size, growOk);
      }
    }

    /**
     * realloc of mm_oldrealloc.c and mm_explicit.c: size 0 frees ptr and
     * gives None, a NULL ptr is malloc, and otherwise the block always
     * moves to a fresh block of size bytes; when that malloc fails, None
     * and the old block is left untouched.
     */
    method NaiveRealloc(ptr: Option<nat>, size: nat, growOk: bool) returns (r: Option<nat>)
      requires Valid() && Coalesced() && (ptr.Some? ==> IsAllocated(ptr.value))
      modifies this
      ensures Valid() && Coalesced()
      ensures size == 0 ==> r.None? && (ptr.Some? ==> !IsAllocated(ptr.value))
      ensures size > 0 && r.None? ==> unchanged(this)
      ensures Oversized(cfg, size) ==> r.None?
      ensures r.Some? ==> size > 0 && IsAllocated(r.value) && Adjusted(cfg, size) <= hdr[r.value].size
      ensures size > 0 && !Oversized(cfg, size) && r.None? ==> !growOk && NoneFits(size)
      ensures size > 0 && !Oversized(cfg, size) && old(FitFor(size)).Some? ==> r == old(FitFor(size))
      ensures ptr.Some? && r.Some? ==> r.value != ptr.value && !IsAllocated(ptr.value)
      ensures ptr.Some? && r.Some? ==> Moved(old(mem), ptr.value, mem, r.value, Min(size, old(Payload(ptr.value))))
      ensures r.None? ==> mem == old(mem)
      ensures ptr.None? ==> |mem| >= |old(mem)| && mem[..|old(mem)|] == old(mem)
      ensures ptr.Some? && r.Some? ==> SameOutside(old(mem), mem, r.value, r.value + Min(size, old(Payload(ptr.value))))
      ensures AllocKept(old(hdr), old(blocks), hdr, blocks, if ptr.Some? then {ptr.value} else {})
    {
      if size == 0 {
        Free(ptr);
        return None;
      }
      if ptr.None? {
        r := Malloc(size, growOk);
        return;
      }
      r := Relocate(ptr.value, size, growOk);
    }

    /** The memset of calloc: n zero bytes from p. */
    method ZeroFill(p: nat, n: nat)
      requires p + n <= |mem|
      modifies this
      ensures |mem| == |old(mem)| && mem[p..p + n] == seq(n, _ => 0)
      ensures forall j {:trigger mem[j]} :: 0 <= j < |mem| && !(p <= j < p + n) ==> mem[j] == old(mem)[j]
      ensures hdr == old(hdr) && ftr == old(ftr) && nextLink == old(nextLink) && prevLink == old(prevLink)
      ensures freeLists == old(freeLists) && eptr == old(eptr) && brk == old(brk)
      ensures blocks == old(blocks) && lists == old(lists)
    {
      var m := mem;
      var i := 0;
      while i < n
        invariant i <= n && |m| == |mem|
        invariant forall j {:trigger m[j]} :: 0 <= j < |m| ==> m[j] == if p <= j < p + i then 0 else mem[j]
      {
        m := m[p + i := 0];
        i := i + 1;
      }
      ghost var filled := m[p..p + n];
      assert forall j :: 0 <= j < n ==> filled[j] == 0;
      mem := m;
    }

    /**
     * calloc with the corrections of the findings: a product nmemb * size
     * that does not fit in size_t gives None, and the zeroing only runs on
     * a block malloc returned. The payload's first nmemb * size bytes are
     * zero.
     */
    method Calloc(nmemb: nat, size: nat, growOk: bool) returns (r: Option<nat>)
      requires Valid() && Coalesced()
      modifies this
      ensures Valid() && Coalesced()
      ensures r.None? ==> unchanged(this)
      ensures nmemb * size >= SizeLimit || nmemb * size == 0 || Oversized(cfg, nmemb * size) ==> r.None?
      ensures r.Some? ==>
        IsAllocated(r.value) && Adjusted(cfg, nmemb * size) <= hdr[r.value].size &&
        r.value + nmemb * size <= |mem| && mem[r.value..r.value + nmemb * size] == seq(nmemb * size, _ => 0)
      ensures nmemb * size < SizeLimit && nmemb * size > 0 && !Oversized(cfg, nmemb * size) && r.None? ==>
        !growOk && NoneFits(nmemb * size)
      ensures nmemb * size < SizeLimit && nmemb * size > 0 && !Oversized(cfg, nmemb * size) &&
              old(FitFor(nmemb * size)).Some? ==>
        r == old(FitFor(nmemb * size))
      ensures r.Some? ==> SameOutside(old(mem), mem, r.value, r.value + nmemb * size)
      ensures AllocKept(old(hdr), old(blocks), hdr, blocks, {})
    {
      var total := nmemb * size;
      if total >= SizeLimit {
        return None;
      }
      ghost var m0 := mem;
      r := Malloc(total, growOk);
      if r.Some? {
        ghost var m1 := mem;
        assert forall j :: 0 <= j < |m0| ==> m1[j] == m1[..|m0|][j];
        ZeroFill(r.value, total);
      }
    }

    /**
     * The memcpy of realloc, as a forward byte-by-byte copy: with the
     * destination below the source or the two ranges apart, it has the
     * effect of memmove.
     */
    method MovePayload(dst: nat, src: nat, n: nat)
      requires dst + n <= |mem| && src + n <= |mem| && (dst <= src || src + n <= dst)
      modifies this
      ensures mem == MemMove(old(mem), dst, src, n)
      ensures hdr == old(hdr) && ftr == old(ftr) && nextLink == old(nextLink) && prevLink == old(prevLink)
      ensures freeLists == old(freeLists) && eptr == old(eptr) && brk == old(brk)
      ensures blocks == old(blocks) && lists == old(lists)
    {
      var m := mem;
      var i := 0;
      while i < n
        invariant i <= n && |m| == |mem|
        invariant forall j {:trigger m[j]} :: 0 <= j < |m| ==> m[j] == if dst <= j < dst + i then mem[src + (j - dst)] else mem[j]
      {
        m := m[dst + i := m[src + i]];
        i := i + 1;
      }
      mem := m;
    }

    /**
     * The block loop of mm_checkheap: from heap_listp, NEXT_BLKP by
     * NEXT_BLKP while the header size is positive, reading each block's
     * words and running the tests of Step on them, which raise flags and
     * count free_token and the tails and heads of each list. A tail (head)
     * raises its flag when its list's counter already exceeds limit: the
     * source's post-increment test is limit 1.
     */
    method CheckBlocks(limit: nat, prologueCheck: bool) returns (flags: Flags)
      ensures flags == Scan(cfg, limit, brk, prologueCheck, Views(hdr, ftr, nextLink, prevLink, Walk(hdr, cfg.prologue))).flags
    {
      var h, f, n, p, c, top := hdr, ftr, nextLink, prevLink, cfg, brk;
      var st := Start;
      var bp: nat := c.prologue;
      ghost var visited: seq<nat> := [];
      while bp in h && h[bp].size > 0
        invariant Walk(h, c.prologue) == visited + Walk(h, bp)
        invariant st == Scan(c, limit, top, prologueCheck, Views(h, f, n, p, visited))
        decreases |Walk(h, bp)|
      {
        var v := ViewAt(h, f, n, p, bp);
        st := Step(c, limit, top, prologueCheck, st, v);
        ScanSnoc(c, limit, top, prologueCheck, h, f, n, p, visited, bp);
        WalkStep(h, visited, bp);
        visited := visited + [bp];
        bp := bp + h[bp].size;
      }
      assert visited + [] == visited;
      flags := st.flags;
    }

    /** A heap whose invariants hold and that has no two neighbouring free blocks raises no checker flag. */
    lemma PassesWhenHealthy(limit: nat)
      ensures Valid() && Coalesced() ==> CheckerFlags(cfg, limit, hdr, ftr, nextLink, prevLink, eptr, brk) == NoFlags
    {
      if Valid() && Coalesced() {
        LayoutPassesCheck(cfg, limit, hdr, ftr, nextLink, prevLink, freeLists, lists, blocks, eptr, brk);
      }
    }

    /**
     * mm_checkheap's flags for this heap: limit 1 is the checker of
     * mm_segregated.c and mm_oldrealloc.c as written, limit 0 the one
     * that reports a second tail or head.
     */
    method CheckHeap(limit: nat) returns (flags: Flags)
      ensures flags == CheckerFlags(cfg, limit, hdr, ftr, nextLink, prevLink, eptr, brk)
      ensures Valid() && Coalesced() ==> flags == NoFlags
    {
      PassesWhenHealthy(limit);
      if cfg == Explicit {
        var f := CheckBlocks(0, false);
        flags := NoFlags.(size := f.size, tails := f.tails, link := f.link, heads := f.heads);
      } else if cfg == Segregated {
        var hi := brk - 4;
        var bad := !(brk >= 4 && hi + cfg.hdrOff in hdr && hdr[hi + cfg.hdrOff] == Tag(0, true) && hi == eptr);
        flags := CheckBlocks(limit, true);
        flags := flags.(epilogue := bad);
      } else {
        flags := CheckBlocks(limit, false);
      }
    }
  }
}
