/**
 * What mm_checkheap reports on a healthy heap: the block walk from the
 * prologue visits exactly the blocks of the layout in address order, and
 * a heap whose layout, free lists and coalescing invariants hold raises
 * no flag, whichever of the three checkers runs and whatever limit it
 * applies to the list counts.
 */
module HeapHealth {
  import opened Options
  import opened HeapLayout
  import opened HeapCheck

  /**
   * The walk from a block (or from the epilogue) of a well-formed layout:
   * it starts there, steps from each block to the one right after it,
   * stays on blocks, rises strictly and reaches every block at or above
   * its start.
   */
  lemma {:induction false} WalkFrom(c: Config, hdr: map<nat, Tag>, ftr: map<nat, Tag>, B: set<nat>, E: nat, x: nat)
    requires LayoutOk(c, hdr, ftr, B, E) && (x == E || IsBlock(B, x))
    decreases E - x
    ensures var w := Walk(hdr, x);
      (x < E ==> w != [] && w[0] == x) &&
      (forall i :: 0 <= i < |w| ==> IsBlock(B, w[i]) && w[i] in hdr && x <= w[i]) &&
      (forall i :: 0 <= i < |w| - 1 ==> w[i] in hdr && w[i + 1] == w[i] + hdr[w[i]].size) &&
      (forall i, j :: 0 <= i < j < |w| ==> w[i] < w[j]) &&
      (forall y: nat {:trigger IsBlock(B, y)} :: IsBlock(B, y) && x <= y ==> y in w)
  {
    if x < E {
      assert BlockOk(c, hdr, ftr, B, E, x);
      var n := x + hdr[x].size;
      WalkFrom(c, hdr, ftr, B, E, n);
      assert Walk(hdr, x) == [x] + Walk(hdr, n);
    }
  }

  /**
   * The checker's walk: the prologue, then every block of the layout in
   * address order, each block starting where the previous one ends.
   */
  lemma WalkFromPrologue(c: Config, hdr: map<nat, Tag>, ftr: map<nat, Tag>, B: set<nat>, E: nat)
    requires LayoutOk(c, hdr, ftr, B, E)
    ensures var w := Walk(hdr, c.prologue);
      |w| > 0 && w[0] == c.prologue &&
      (forall i :: 1 <= i < |w| ==> IsBlock(B, w[i]) && w[i] in hdr) &&
      (forall i :: 0 <= i < |w| - 1 ==> w[i] in hdr && w[i + 1] == w[i] + hdr[w[i]].size) &&
      (forall i, j :: 0 <= i < j < |w| ==> w[i] < w[j]) &&
      (forall y: nat {:trigger IsBlock(B, y)} :: IsBlock(B, y) ==> y in w)
  {
    WalkFrom(c, hdr, ftr, B, E, FirstBlock(c));
    assert Walk(hdr, c.prologue) == [c.prologue] + Walk(hdr, FirstBlock(c));
  }

  /**
   * A free block of a heap whose lists hold: its link words point back
   * and forth along its list, it is the tail of its list exactly when the
   * list ends with it, and the head when the list starts with it.
   */
  lemma FreeListed(c: Config, hdr: map<nat, Tag>, ftr: map<nat, Tag>, nl: map<nat, Option<nat>>,
                   pl: map<nat, Option<nat>>, heads: seq<Option<nat>>, L: seq<seq<nat>>, B: set<nat>, x: nat)
    requires ListsOk(c, hdr, nl, pl, heads, L, B, {}) && IsBlock(B, x) && x in hdr && !hdr[x].alloc
    ensures var b, v := Bucket(c, hdr[x].size), ViewAt(hdr, ftr, nl, pl, x);
      b < |L| && |L[b]| > 0 && !LinkBroken(v) &&
      (IsTail(v) ==> x == L[b][|L[b]| - 1]) && (IsHead(v) ==> x == L[b][0])
  {
    var b := Bucket(c, hdr[x].size);
    BucketInRange(c, hdr[x].size);
    var k :| 0 <= k < |L[b]| && L[b][k] == x;
    assert Linked(c, hdr, nl, pl, B, {}, L[b], b, k);
    if k + 1 < |L[b]| {
      assert Linked(c, hdr, nl, pl, B, {}, L[b], b, k + 1);
    }
    if k > 0 {
      assert Linked(c, hdr, nl, pl, B, {}, L[b], b, k - 1);
    }
  }

  /**
   * Every block of the walk passes the tests on its own words and ends
   * at or below the epilogue; with the prologue test, the prologue is
   * the allocated 16-byte block the test expects.
   */
  lemma WalkViewsOk(c: Config, pc: bool, hdr: map<nat, Tag>, ftr: map<nat, Tag>, nl: map<nat, Option<nat>>,
                    pl: map<nat, Option<nat>>, heads: seq<Option<nat>>, L: seq<seq<nat>>, B: set<nat>, E: nat,
                    vs: seq<View>)
    requires LayoutOk(c, hdr, ftr, B, E) && ListsOk(c, hdr, nl, pl, heads, L, B, {})
    requires pc ==> c.prologueSize == 16
    requires vs == Views(hdr, ftr, nl, pl, Walk(hdr, c.prologue))
    ensures forall i :: 0 <= i < |vs| ==> ViewOk(c, pc, vs[i]) && vs[i].bp + vs[i].tag.size <= E
  {
    var w := Walk(hdr, c.prologue);
    WalkFromPrologue(c, hdr, ftr, B, E);
    ViewsAt(hdr, ftr, nl, pl, w);
    forall i | 0 <= i < |vs|
      ensures ViewOk(c, pc, vs[i]) && vs[i].bp + vs[i].tag.size <= E
    {
      if i > 0 {
        var x := w[i];
        assert BlockOk(c, hdr, ftr, B, E, x);
        var n := x + hdr[x].size;
        if n != E {
          assert IsBlock(B, n);
        }
        if !hdr[x].alloc {
          FreeListed(c, hdr, ftr, nl, pl, heads, L, B, x);
        }
      }
    }
  }

  /** Along the walk, every list has at most one tail (the block that ends it) and one head (the block that starts it). */
  lemma WalkListEnds(c: Config, hdr: map<nat, Tag>, ftr: map<nat, Tag>, nl: map<nat, Option<nat>>,
                     pl: map<nat, Option<nat>>, heads: seq<Option<nat>>, L: seq<seq<nat>>, B: set<nat>, E: nat,
                     vs: seq<View>)
    requires LayoutOk(c, hdr, ftr, B, E) && ListsOk(c, hdr, nl, pl, heads, L, B, {})
    requires vs == Views(hdr, ftr, nl, pl, Walk(hdr, c.prologue))
    ensures forall b: nat :: TailCount(c, vs, b) <= 1 && HeadCount(c, vs, b) <= 1
  {
    var w := Walk(hdr, c.prologue);
    WalkFromPrologue(c, hdr, ftr, B, E);
    ViewsAt(hdr, ftr, nl, pl, w);
    forall b: nat
      ensures TailCount(c, vs, b) <= 1 && HeadCount(c, vs, b) <= 1
    {
      var t := if b < |L| && |L[b]| > 0 then L[b][|L[b]| - 1] else 0;
      var h := if b < |L| && |L[b]| > 0 then L[b][0] else 0;
      forall i | 0 <= i < |vs| && IsTail(vs[i]) && Bucket(c, vs[i].tag.size) == b
        ensures vs[i].bp == t
      {
        assert i > 0;
        FreeListed(c, hdr, ftr, nl, pl, heads, L, B, w[i]);
      }
      forall i | 0 <= i < |vs| && IsHead(vs[i]) && Bucket(c, vs[i].tag.size) == b
        ensures vs[i].bp == h
      {
        assert i > 0;
        FreeListed(c, hdr, ftr, nl, pl, heads, L, B, w[i]);
      }
      TailsAtMostOne(c, vs, b, t);
      HeadsAtMostOne(c, vs, b, h);
    }
  }

  /** On a coalesced heap, no two consecutive blocks of the walk are free. */
  lemma WalkNoAdjacentFree(c: Config, hdr: map<nat, Tag>, ftr: map<nat, Tag>, nl: map<nat, Option<nat>>,
                           pl: map<nat, Option<nat>>, B: set<nat>, E: nat, vs: seq<View>)
    requires LayoutOk(c, hdr, ftr, B, E) && NoAdjFree(hdr, B, {})
    requires vs == Views(hdr, ftr, nl, pl, Walk(hdr, c.prologue))
    ensures forall i :: 0 <= i < |vs| - 1 && !vs[i].tag.alloc ==> vs[i + 1].tag.alloc
  {
    var w := Walk(hdr, c.prologue);
    WalkFromPrologue(c, hdr, ftr, B, E);
    ViewsAt(hdr, ftr, nl, pl, w);
    forall i | 0 <= i < |vs| - 1 && !vs[i].tag.alloc
      ensures vs[i + 1].tag.alloc
    {
      assert i > 0;
      assert IsBlock(B, w[i]) && IsBlock(B, w[i + 1]);
    }
  }

  /**
   * mm_checkheap raises no flag on a heap whose layout, free lists and
   * coalescing invariants hold, with the break 4 bytes above eptr.
   */
  lemma LayoutPassesCheck(c: Config, limit: nat, hdr: map<nat, Tag>, ftr: map<nat, Tag>, nl: map<nat, Option<nat>>,
                          pl: map<nat, Option<nat>>, heads: seq<Option<nat>>, L: seq<seq<nat>>, B: set<nat>,
                          eptr: nat, brk: nat)
    requires LayoutOk(c, hdr, ftr, B, eptr + c.hdrOff) && brk == eptr + 4
    requires ListsOk(c, hdr, nl, pl, heads, L, B, {}) && NoAdjFree(hdr, B, {})
    ensures CheckerFlags(c, limit, hdr, ftr, nl, pl, eptr, brk) == NoFlags
  {
    var E := eptr + c.hdrOff;
    var vs := Views(hdr, ftr, nl, pl, Walk(hdr, c.prologue));
    var pc := c == Segregated;
    var lim := if c == Explicit then 0 else limit;
    WalkViewsOk(c, pc, hdr, ftr, nl, pl, heads, L, B, E, vs);
    WalkListEnds(c, hdr, ftr, nl, pl, heads, L, B, E, vs);
    WalkNoAdjacentFree(c, hdr, ftr, nl, pl, B, E, vs);
    ScanQuiet(c, lim, brk, pc, vs);
    Flag2(c, lim, brk, pc, vs);
    Flag8(c, lim, brk, pc, vs);
    Flag128(c, lim, brk, pc, vs);
  }
}
