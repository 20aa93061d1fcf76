/**
 * The flag computation of mm_checkheap: the block walk from the prologue,
 * the words the checker reads for each block, and the error flags it
 * derives from them, as a fold over the walk. The Heap class runs the
 * same scan as a loop.
 *
 * Flags, as the segregated allocator numbers them:
 *   1 size not a multiple of 8      2 more than one tail in a list
 *   4 link mismatch                 8 more than one head in a list
 *  16 header differs from footer   32 payload outside the heap
 *  64 bp not double-word aligned  128 two consecutive free blocks
 * 256 bad prologue                512 bad epilogue
 */
module HeapCheck {
  import opened Options
  import opened HeapLayout

  /**
   * The words the checker reads for one block: its header tag, the tag in
   * its footer (None when there is none), its next and prev link words,
   * the prev link of its next block and the next link of its prev block.
   */
  datatype View = View(bp: nat, tag: Tag, footer: Option<Tag>, next: Option<nat>, prev: Option<nat>,
                       nextBack: Option<nat>, prevFwd: Option<nat>)

  /** A free block with a NULL next link: the tail of its list. */
  predicate IsTail(v: View) { !v.tag.alloc && v.next.None? }

  /** A free block with a NULL prev link: the head of its list. */
  predicate IsHead(v: View) { !v.tag.alloc && v.prev.None? }

  function LinkOf(m: map<nat, Option<nat>>, k: nat): Option<nat>
  {
    if k in m then m[k] else None
  }

  /** GET_PREV_FREE of an optional block: the prev link stored in its footer. */
  function PrevOf(hdr: map<nat, Tag>, pl: map<nat, Option<nat>>, p: Option<nat>): Option<nat>
  {
    if p.Some? && p.value in hdr then LinkOf(pl, p.value + hdr[p.value].size) else None
  }

  /** GET_NEXT_FREE of an optional block: the next link stored in its header. */
  function NextOf(nl: map<nat, Option<nat>>, p: Option<nat>): Option<nat>
  {
    if p.Some? then LinkOf(nl, p.value) else None
  }

  /** The header tag at bp; a missing header reads as a free size-0 tag. */
  function TagAt(hdr: map<nat, Tag>, bp: nat): Tag
  {
    if bp in hdr then hdr[bp] else Tag(0, false)
  }

  /** The words of block bp, read from the word maps. */
  function ViewAt(hdr: map<nat, Tag>, ftr: map<nat, Tag>, nl: map<nat, Option<nat>>, pl: map<nat, Option<nat>>,
                  bp: nat): (v: View)
    ensures v.bp == bp && v.tag == TagAt(hdr, bp) && v.next == LinkOf(nl, bp)
  {
    var end := bp + TagAt(hdr, bp).size;
    var next, prev := LinkOf(nl, bp), LinkOf(pl, end);
    View(bp, TagAt(hdr, bp), if end in ftr then Some(ftr[end]) else None, next, prev,
         PrevOf(hdr, pl, next), NextOf(nl, prev))
  }

  /** The header words at or above bp. */
  function Above(hdr: map<nat, Tag>, bp: nat): set<nat>
  {
    set k | k in hdr && k >= bp
  }

  lemma {:induction false} SubsetCard(a: set<nat>, b: set<nat>)
    requires a <= b
    decreases b
    ensures |a| <= |b|
  {
    if a != {} {
      var x :| x in a;
      SubsetCard(a - {x}, b - {x});
    }
  }

  lemma AboveShrinks(hdr: map<nat, Tag>, bp: nat)
    requires bp in hdr && hdr[bp].size > 0
    ensures |Above(hdr, bp + hdr[bp].size)| < |Above(hdr, bp)|
  {
    var a, b := Above(hdr, bp + hdr[bp].size), Above(hdr, bp);
    SubsetCard(a, b - {bp});
  }

  /**
   * The blocks the checker's loop visits from bp: NEXT_BLKP by NEXT_BLKP
   * while the header's size is positive (a missing header reads as size 0).
   */
  function Walk(hdr: map<nat, Tag>, bp: nat): seq<nat>
    decreases |Above(hdr, bp)|
  {
    if bp in hdr && hdr[bp].size > 0 then
      AboveShrinks(hdr, bp);
      [bp] + Walk(hdr, bp + hdr[bp].size)
    else []
  }

  /** The views of the walked blocks, in walk order. */
  function Views(hdr: map<nat, Tag>, ftr: map<nat, Tag>, nl: map<nat, Option<nat>>, pl: map<nat, Option<nat>>,
                 w: seq<nat>): (vs: seq<View>)
    decreases |w|
    ensures |vs| == |w|
  {
    if w == [] then [] else Views(hdr, ftr, nl, pl, w[..|w| - 1]) + [ViewAt(hdr, ftr, nl, pl, w[|w| - 1])]
  }

  /**
   * The error_flags word, one field per bit: size (1), tails (2), link
   * (4), heads (8), footer (16), bounds (32), align (64), adjacent (128),
   * prologue (256), epilogue (512).
   */
  datatype Flags = Flags(size: bool, tails: bool, link: bool, heads: bool, footer: bool,
                         bounds: bool, align: bool, adjacent: bool, prologue: bool, epilogue: bool)

  const NoFlags := Flags(false, false, false, false, false, false, false, false, false, false)

  /** The value of the error_flags word. */
  function Bits(f: Flags): (n: nat)
    ensures n == 0 <==> f == NoFlags
    ensures n < 1024
  {
    (if f.size then 1 else 0) + (if f.tails then 2 else 0) + (if f.link then 4 else 0) +
    (if f.heads then 8 else 0) + (if f.footer then 16 else 0) + (if f.bounds then 32 else 0) +
    (if f.align then 64 else 0) + (if f.adjacent then 128 else 0) + (if f.prologue then 256 else 0) +
    (if f.epilogue then 512 else 0)
  }

  /** error_flags |= ...: the flags raised in either word. */
  function Union(a: Flags, b: Flags): (r: Flags)
    ensures b == NoFlags ==> r == a
  {
    Flags(a.size || b.size, a.tails || b.tails, a.link || b.link, a.heads || b.heads, a.footer || b.footer,
          a.bounds || b.bounds, a.align || b.align, a.adjacent || b.adjacent, a.prologue || b.prologue,
          a.epilogue || b.epilogue)
  }

  /** The scan's running state: error_flags so far, free_token, and num_tail/num_head per list. */
  datatype Counts = Counts(flags: Flags, token: nat, tails: map<nat, nat>, heads: map<nat, nat>)

  function Count(m: map<nat, nat>, k: nat): nat
  {
    if k in m then m[k] else 0
  }

  /** A free block whose next block's prev link, or prev block's next link, does not point back to it. */
  predicate LinkBroken(v: View)
  {
    !v.tag.alloc && ((v.next.Some? && v.nextBack != Some(v.bp)) || (v.prev.Some? && v.prevFwd != Some(v.bp)))
  }

  /**
   * The tests the checker's loop runs on one block. brk is the break, so
   * the heap's last byte (mem_heap_hi) is brk - 1 and the payload bound
   * bp + size - DSIZE > brk - 1 reads bp + size > brk + 7. prologueCheck
   * selects the prologue test of the segregated checker, done on the
   * block at the prologue address. free_token counts the run of free blocks, so a free
   * block raises adjacent when the block before it was free. A tail
   * (head) raises tails (heads) when its list has already counted more
   * than limit tails (heads).
   */
  function BlockFlags(c: Config, limit: nat, brk: nat, prologueCheck: bool, st: Counts, v: View): (f: Flags)
    ensures !f.epilogue
    ensures f == NoFlags <==>
      ViewOk(c, prologueCheck, v) && v.bp + v.tag.size <= brk + 7 &&
      !(IsTail(v) && Count(st.tails, Bucket(c, v.tag.size)) > limit) &&
      !(IsHead(v) && Count(st.heads, Bucket(c, v.tag.size)) > limit) &&
      (v.tag.alloc || st.token == 0)
  {
    var list := Bucket(c, v.tag.size);
    Flags(v.tag.size % 8 != 0,
          IsTail(v) && Count(st.tails, list) > limit,
          LinkBroken(v),
          IsHead(v) && Count(st.heads, list) > limit,
          v.footer != Some(v.tag),
          v.bp + v.tag.size > brk + 7,
          v.bp % 8 != 0,
          !v.tag.alloc && st.token > 0,
          prologueCheck && v.bp == c.prologue && (v.tag.size != 16 || !v.tag.alloc),
          false)
  }

  /** num_tail[list]++ (num_head[list]++): one more for list k, the others kept. */
  function Bump(m: map<nat, nat>, k: nat): (r: map<nat, nat>)
    ensures forall b :: Count(r, b) == Count(m, b) + (if b == k then 1 else 0)
  {
    m[k := Count(m, k) + 1]
  }

  /**
   * One iteration of the checker's loop: flags are only ever added, and
   * a block that raises none leaves them as they were; free_token counts
   * the run of free blocks; the tail (head) counter of the block's own
   * list, and of no other, goes up by one for a tail (head).
   */
  function Step(c: Config, limit: nat, brk: nat, prologueCheck: bool, st: Counts, v: View): (r: Counts)
    ensures Union(st.flags, r.flags) == r.flags
    ensures BlockFlags(c, limit, brk, prologueCheck, st, v) == NoFlags ==> r.flags == st.flags
    ensures r.token == if v.tag.alloc then 0 else st.token + 1
    ensures forall b :: Count(r.tails, b) == Count(st.tails, b) + (if IsTail(v) && Bucket(c, v.tag.size) == b then 1 else 0)
    ensures forall b :: Count(r.heads, b) == Count(st.heads, b) + (if IsHead(v) && Bucket(c, v.tag.size) == b then 1 else 0)
  {
    var f := Union(st.flags, BlockFlags(c, limit, brk, prologueCheck, st, v));
    assert Union(st.flags, f) == f;
    if v.tag.alloc then Counts(f, 0, st.tails, st.heads)
    else
      var list := Bucket(c, v.tag.size);
      var tails := if v.next.None? then Bump(st.tails, list) else st.tails;
      var heads := if v.prev.None? then Bump(st.heads, list) else st.heads;
      Counts(f, st.token + 1, tails, heads)
  }

  const Start := Counts(NoFlags, 0, map[], map[])

  /** The state after the checker's loop has run over vs. */
  function Scan(c: Config, limit: nat, brk: nat, prologueCheck: bool, vs: seq<View>): (r: Counts)
    decreases |vs|
    ensures !r.flags.epilogue && (!prologueCheck ==> !r.flags.prologue)
  {
    if vs == [] then Start
    else Step(c, limit, brk, prologueCheck, Scan(c, limit, brk, prologueCheck, vs[..|vs| - 1]), vs[|vs| - 1])
  }

  /** The loop's step: one more walked block folds one more view into the scan. */
  lemma ScanSnoc(c: Config, limit: nat, brk: nat, pc: bool, hdr: map<nat, Tag>, ftr: map<nat, Tag>,
                 nl: map<nat, Option<nat>>, pl: map<nat, Option<nat>>, w: seq<nat>, bp: nat)
    ensures Scan(c, limit, brk, pc, Views(hdr, ftr, nl, pl, w + [bp])) ==
      Step(c, limit, brk, pc, Scan(c, limit, brk, pc, Views(hdr, ftr, nl, pl, w)), ViewAt(hdr, ftr, nl, pl, bp))
  {
    var vs, v := Views(hdr, ftr, nl, pl, w), ViewAt(hdr, ftr, nl, pl, bp);
    assert (w + [bp])[..|w|] == w;
    assert (vs + [v])[..|vs|] == vs;
  }

  /** The walk from a block of positive size goes on from the block after it. */
  lemma WalkStep(hdr: map<nat, Tag>, w: seq<nat>, bp: nat)
    requires bp in hdr && hdr[bp].size > 0
    ensures w + Walk(hdr, bp) == (w + [bp]) + Walk(hdr, bp + hdr[bp].size)
    ensures |Walk(hdr, bp + hdr[bp].size)| < |Walk(hdr, bp)|
  {
    assert Walk(hdr, bp) == [bp] + Walk(hdr, bp + hdr[bp].size);
  }

  /** The number of tails (heads) of list b among vs. */
  function TailCount(c: Config, vs: seq<View>, b: nat): nat
    decreases |vs|
  {
    if vs == [] then 0
    else
      var v := vs[|vs| - 1];
      TailCount(c, vs[..|vs| - 1], b) + (if IsTail(v) && Bucket(c, v.tag.size) == b then 1 else 0)
  }

  function HeadCount(c: Config, vs: seq<View>, b: nat): nat
    decreases |vs|
  {
    if vs == [] then 0
    else
      var v := vs[|vs| - 1];
      HeadCount(c, vs[..|vs| - 1], b) + (if IsHead(v) && Bucket(c, v.tag.size) == b then 1 else 0)
  }

  /** The checker's counters hold the tail and head counts, and free_token the run of free blocks at the end. */
  lemma {:induction false} ScanCounts(c: Config, limit: nat, brk: nat, pc: bool, vs: seq<View>)
    decreases |vs|
    ensures forall b :: Count(Scan(c, limit, brk, pc, vs).tails, b) == TailCount(c, vs, b)
    ensures forall b :: Count(Scan(c, limit, brk, pc, vs).heads, b) == HeadCount(c, vs, b)
    ensures Scan(c, limit, brk, pc, vs).token > 0 <==> vs != [] && !vs[|vs| - 1].tag.alloc
  {
    if vs != [] {
      ScanCounts(c, limit, brk, pc, vs[..|vs| - 1]);
    }
  }

  /** Flags are never cleared: a prefix's flags stay raised. */
  lemma {:induction false} ScanGrows(c: Config, limit: nat, brk: nat, pc: bool, vs: seq<View>, k: nat)
    requires k <= |vs|
    decreases |vs|
    ensures Union(Scan(c, limit, brk, pc, vs[..k]).flags, Scan(c, limit, brk, pc, vs).flags) == Scan(c, limit, brk, pc, vs).flags
  {
    if k < |vs| {
      assert vs[..|vs| - 1][..k] == vs[..k];
      ScanGrows(c, limit, brk, pc, vs[..|vs| - 1], k);
    } else {
      assert vs[..k] == vs;
    }
  }

  /** Flag 128 is raised exactly when two consecutive blocks of the walk are free. */
  lemma {:induction false} Flag128(c: Config, limit: nat, brk: nat, pc: bool, vs: seq<View>)
    decreases |vs|
    ensures Scan(c, limit, brk, pc, vs).flags.adjacent <==>
      exists i :: 0 <= i < |vs| - 1 && !vs[i].tag.alloc && !vs[i + 1].tag.alloc
  {
    if vs != [] {
      var p, v := vs[..|vs| - 1], vs[|vs| - 1];
      Flag128(c, limit, brk, pc, p);
      ScanCounts(c, limit, brk, pc, p);
      assert Scan(c, limit, brk, pc, vs).flags.adjacent <==>
        Scan(c, limit, brk, pc, p).flags.adjacent || (!v.tag.alloc && Scan(c, limit, brk, pc, p).token > 0);
      if exists i :: 0 <= i < |p| - 1 && !p[i].tag.alloc && !p[i + 1].tag.alloc {
        var i :| 0 <= i < |p| - 1 && !p[i].tag.alloc && !p[i + 1].tag.alloc;
        assert vs[i] == p[i] && vs[i + 1] == p[i + 1];
      }
      if exists i :: 0 <= i < |vs| - 1 && !vs[i].tag.alloc && !vs[i + 1].tag.alloc {
        var i :| 0 <= i < |vs| - 1 && !vs[i].tag.alloc && !vs[i + 1].tag.alloc;
        if i < |vs| - 2 {
          assert p[i] == vs[i] && p[i + 1] == vs[i + 1];
        }
      }
    }
  }

  /** Flag 16 is raised exactly when some walked block's footer differs from its header. */
  lemma {:induction false} Flag16(c: Config, limit: nat, brk: nat, pc: bool, vs: seq<View>)
    decreases |vs|
    ensures Scan(c, limit, brk, pc, vs).flags.footer <==> exists i :: 0 <= i < |vs| && vs[i].footer != Some(vs[i].tag)
  {
    if vs != [] {
      var p, v := vs[..|vs| - 1], vs[|vs| - 1];
      Flag16(c, limit, brk, pc, p);
      assert Scan(c, limit, brk, pc, vs).flags.footer <==> Scan(c, limit, brk, pc, p).flags.footer || v.footer != Some(v.tag);
      if exists i :: 0 <= i < |p| && p[i].footer != Some(p[i].tag) {
        var i :| 0 <= i < |p| && p[i].footer != Some(p[i].tag);
        assert vs[i] == p[i];
      }
      if exists i :: 0 <= i < |vs| && vs[i].footer != Some(vs[i].tag) {
        var i :| 0 <= i < |vs| && vs[i].footer != Some(vs[i].tag);
        if i < |p| {
          assert p[i] == vs[i];
        }
      }
    }
  }

  /**
   * Flag 2 is raised exactly when some list has more than limit + 1
   * tails among the walked blocks: with limit 0, a second tail.
   */
  lemma {:induction false} Flag2(c: Config, limit: nat, brk: nat, pc: bool, vs: seq<View>)
    decreases |vs|
    ensures Scan(c, limit, brk, pc, vs).flags.tails <==> exists b :: TailCount(c, vs, b) > limit + 1
  {
    if vs != [] {
      var p := vs[..|vs| - 1];
      var v := vs[|vs| - 1];
      var list := Bucket(c, v.tag.size);
      var st := Scan(c, limit, brk, pc, p);
      Flag2(c, limit, brk, pc, p);
      ScanCounts(c, limit, brk, pc, p);
      assert Count(st.tails, list) == TailCount(c, p, list);
      assert Scan(c, limit, brk, pc, vs) == Step(c, limit, brk, pc, st, v);
      if Scan(c, limit, brk, pc, vs).flags.tails {
        if st.flags.tails {
          var b :| TailCount(c, p, b) > limit + 1;
          assert TailCount(c, vs, b) >= TailCount(c, p, b);
          assert exists b :: TailCount(c, vs, b) > limit + 1;
        } else {
          assert BlockFlags(c, limit, brk, pc, st, v).tails;
          assert TailCount(c, vs, list) > limit + 1;
        }
      } else {
        forall b
          ensures TailCount(c, vs, b) <= limit + 1
        {
          assert TailCount(c, p, b) <= limit + 1;
          if IsTail(v) && b == list {
            assert !BlockFlags(c, limit, brk, pc, st, v).tails;
          }
        }
      }
    }
  }

  /** Flag 8 is raised exactly when some list has more than limit + 1 heads among the walked blocks. */
  lemma {:induction false} Flag8(c: Config, limit: nat, brk: nat, pc: bool, vs: seq<View>)
    decreases |vs|
    ensures Scan(c, limit, brk, pc, vs).flags.heads <==> exists b :: HeadCount(c, vs, b) > limit + 1
  {
    if vs != [] {
      var p := vs[..|vs| - 1];
      var v := vs[|vs| - 1];
      var list := Bucket(c, v.tag.size);
      var st := Scan(c, limit, brk, pc, p);
      Flag8(c, limit, brk, pc, p);
      ScanCounts(c, limit, brk, pc, p);
      assert Count(st.heads, list) == HeadCount(c, p, list);
      assert Scan(c, limit, brk, pc, vs) == Step(c, limit, brk, pc, st, v);
      if Scan(c, limit, brk, pc, vs).flags.heads {
        if st.flags.heads {
          var b :| HeadCount(c, p, b) > limit + 1;
          assert HeadCount(c, vs, b) >= HeadCount(c, p, b);
          assert exists b :: HeadCount(c, vs, b) > limit + 1;
        } else {
          assert BlockFlags(c, limit, brk, pc, st, v).heads;
          assert HeadCount(c, vs, list) > limit + 1;
        }
      } else {
        forall b
          ensures HeadCount(c, vs, b) <= limit + 1
        {
          assert HeadCount(c, p, b) <= limit + 1;
          if IsHead(v) && b == list {
            assert !BlockFlags(c, limit, brk, pc, st, v).heads;
          }
        }
      }
    }
  }

  /** The views of a walk are the views of its blocks, position by position. */
  lemma {:induction false} ViewsAt(hdr: map<nat, Tag>, ftr: map<nat, Tag>, nl: map<nat, Option<nat>>,
                                   pl: map<nat, Option<nat>>, w: seq<nat>)
    decreases |w|
    ensures forall i :: 0 <= i < |w| ==> Views(hdr, ftr, nl, pl, w)[i] == ViewAt(hdr, ftr, nl, pl, w[i])
  {
    if w != [] {
      ViewsAt(hdr, ftr, nl, pl, w[..|w| - 1]);
    }
  }

  /**
   * A block that passes the tests which look at its own words only: size,
   * link, footer, alignment and, with prologueCheck, the prologue test.
   */
  predicate ViewOk(c: Config, prologueCheck: bool, v: View)
  {
    v.tag.size % 8 == 0 && !LinkBroken(v) && v.footer == Some(v.tag) && v.bp % 8 == 0 &&
    !(prologueCheck && v.bp == c.prologue && (v.tag.size != 16 || !v.tag.alloc))
  }

  /** A walk of blocks that each pass their own tests raises none of those flags, nor flag 32 when every block ends in bounds. */
  lemma {:induction false} ScanQuiet(c: Config, limit: nat, brk: nat, pc: bool, vs: seq<View>)
    requires forall i :: 0 <= i < |vs| ==> ViewOk(c, pc, vs[i])
    decreases |vs|
    ensures var f := Scan(c, limit, brk, pc, vs).flags;
      !f.size && !f.link && !f.footer && !f.align && !f.prologue
    ensures (forall i :: 0 <= i < |vs| ==> vs[i].bp + vs[i].tag.size <= brk + 7) ==>
      !Scan(c, limit, brk, pc, vs).flags.bounds
  {
    if vs != [] {
      var p := vs[..|vs| - 1];
      assert forall i :: 0 <= i < |p| ==> p[i] == vs[i];
      ScanQuiet(c, limit, brk, pc, p);
    }
  }

  /**
   * When every tail of list b among vs is the block t and the walk's
   * addresses increase, list b has at most one tail, and none below t.
   */
  lemma {:induction false} TailsAtMostOne(c: Config, vs: seq<View>, b: nat, t: nat)
    requires forall i :: 0 <= i < |vs| && IsTail(vs[i]) && Bucket(c, vs[i].tag.size) == b ==> vs[i].bp == t
    requires forall i, j :: 0 <= i < j < |vs| ==> vs[i].bp < vs[j].bp
    decreases |vs|
    ensures TailCount(c, vs, b) <= 1
    ensures (forall i :: 0 <= i < |vs| ==> vs[i].bp < t) ==> TailCount(c, vs, b) == 0
  {
    if vs != [] {
      var p := vs[..|vs| - 1];
      assert forall i :: 0 <= i < |p| ==> p[i] == vs[i];
      TailsAtMostOne(c, p, b, t);
    }
  }

  /** The same for the heads of list b, all equal to the block h. */
  lemma {:induction false} HeadsAtMostOne(c: Config, vs: seq<View>, b: nat, h: nat)
    requires forall i :: 0 <= i < |vs| && IsHead(vs[i]) && Bucket(c, vs[i].tag.size) == b ==> vs[i].bp == h
    requires forall i, j :: 0 <= i < j < |vs| ==> vs[i].bp < vs[j].bp
    decreases |vs|
    ensures HeadCount(c, vs, b) <= 1
    ensures (forall i :: 0 <= i < |vs| ==> vs[i].bp < h) ==> HeadCount(c, vs, b) == 0
  {
    if vs != [] {
      var p := vs[..|vs| - 1];
      assert forall i :: 0 <= i < |p| ==> p[i] == vs[i];
      HeadsAtMostOne(c, p, b, h);
    }
  }

  /** The epilogue test: the word below the break is an allocated size-0 tag at eptr. */
  predicate EpilogueBad(c: Config, hdr: map<nat, Tag>, eptr: nat, brk: nat)
  {
    !(brk >= 4 && brk - 4 + c.hdrOff in hdr && hdr[brk - 4 + c.hdrOff] == Tag(0, true) && brk - 4 == eptr)
  }

  /**
   * The flags mm_checkheap computes. The segregated checker adds the
   * epilogue test and the prologue test to the loop; the checker of
   * mm_oldrealloc.c runs the loop alone; the explicit checker counts tails
   * and heads with num_tail > 1 after the increment (limit 0 whatever
   * limit says), and only its size, link and count tests report.
   */
  function CheckerFlags(c: Config, limit: nat, hdr: map<nat, Tag>, ftr: map<nat, Tag>, nl: map<nat, Option<nat>>,
                        pl: map<nat, Option<nat>>, eptr: nat, brk: nat): (flags: Flags)
    ensures c != Segregated ==> !flags.epilogue && !flags.prologue
  {
    var w := Walk(hdr, c.prologue);
    var vs := Views(hdr, ftr, nl, pl, w);
    if c == Explicit then
      var f := Scan(c, 0, brk, false, vs).flags;
      NoFlags.(size := f.size, tails := f.tails, link := f.link, heads := f.heads)
    else if c == Segregated then Scan(c, limit, brk, true, vs).flags.(epilogue := EpilogueBad(c, hdr, eptr, brk))
    else Scan(c, limit, brk, false, vs).flags
  }

  /** A free block of 32 bytes at bp that is both the head and the tail of its list. */
  function Lone(bp: nat): View
  {
    View(bp, Tag(32, false), Some(Tag(32, false)), None, None, None, None)
  }

  /**
   * num_tail[list_num]++ > 1 compares the count before the increment, so
   * with limit 1 two tails in one list raise nothing; the second tail
   * raises flag 2 only with limit 0, the count after the increment.
   */
  lemma SecondTailMissed(c: Config, brk: nat, pc: bool)
    ensures var vs := [Lone(16), Lone(48)];
      !Scan(c, 1, brk, pc, vs).flags.tails && !Scan(c, 1, brk, pc, vs).flags.heads &&
      Scan(c, 0, brk, pc, vs).flags.tails && Scan(c, 0, brk, pc, vs).flags.heads
  {
  }
}
