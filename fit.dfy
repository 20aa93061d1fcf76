/**
 * First-fit search over the free lists (search_list): the block it must
 * find, as a function of the lists' contents, and what that choice means.
 */
module FirstFit {
  import opened Options
  import opened HeapLayout

  /** The block fits a request of asize bytes. */
  predicate Fits(hdr: map<nat, Tag>, x: nat, asize: nat)
  {
    x in hdr && hdr[x].size >= asize
  }

  /** The first member of one free list, in list order, that fits. */
  function FitIn(hdr: map<nat, Tag>, s: seq<nat>, asize: nat): Option<nat>
  {
    if s == [] then None
    else if Fits(hdr, s[0], asize) then Some(s[0])
    else FitIn(hdr, s[1..], asize)
  }

  /** The first fit in lists b, b + 1, ... in that order. */
  function FitFrom(hdr: map<nat, Tag>, L: seq<seq<nat>>, asize: nat, b: nat): Option<nat>
    decreases |L| - b
  {
    if b >= |L| then None
    else if FitIn(hdr, L[b], asize).Some? then FitIn(hdr, L[b], asize)
    else FitFrom(hdr, L, asize, b + 1)
  }

  /** FitIn finds a fitting member with no fitting member before it, and finds nothing only when no member fits. */
  lemma {:induction false} FitInMeaning(hdr: map<nat, Tag>, s: seq<nat>, asize: nat)
    ensures FitIn(hdr, s, asize).None? <==> forall i :: 0 <= i < |s| ==> !Fits(hdr, s[i], asize)
    ensures FitIn(hdr, s, asize).Some? ==>
      exists i :: 0 <= i < |s| && s[i] == FitIn(hdr, s, asize).value && Fits(hdr, s[i], asize) &&
        forall j :: 0 <= j < i ==> !Fits(hdr, s[j], asize)
  {
    if s != [] && !Fits(hdr, s[0], asize) {
      FitInMeaning(hdr, s[1..], asize);
      if FitIn(hdr, s[1..], asize).Some? {
        var i :| 0 <= i < |s[1..]| && s[1..][i] == FitIn(hdr, s[1..], asize).value &&
          Fits(hdr, s[1..][i], asize) && forall j :: 0 <= j < i ==> !Fits(hdr, s[1..][j], asize);
        assert s[i + 1] == s[1..][i];
        forall j | 0 <= j < i + 1
          ensures !Fits(hdr, s[j], asize)
        {
          if j > 0 {
            assert s[j] == s[1..][j - 1];
          }
        }
      } else {
        forall i | 0 <= i < |s|
          ensures !Fits(hdr, s[i], asize)
        {
          if i > 0 {
            assert s[i] == s[1..][i - 1];
          }
        }
      }
    }
  }

  /** Skipping a member that does not fit leaves the first fit unchanged. */
  lemma FitInSkip(hdr: map<nat, Tag>, s: seq<nat>, asize: nat, k: nat)
    requires k < |s| && !Fits(hdr, s[k], asize)
    ensures FitIn(hdr, s[k..], asize) == FitIn(hdr, s[k + 1..], asize)
  {
    assert s[k..][1..] == s[k + 1..];
  }

  /**
   * FitFrom finds a member of some list b' >= b that is the first fit of
   * its own list while no list between b and b' has a fit; it finds
   * nothing only when no member of lists b.. fits.
   */
  lemma {:induction false} FitFromMeaning(hdr: map<nat, Tag>, L: seq<seq<nat>>, asize: nat, b: nat)
    decreases |L| - b
    ensures FitFrom(hdr, L, asize, b).None? <==>
      forall b', i :: b <= b' < |L| && 0 <= i < |L[b']| ==> !Fits(hdr, L[b'][i], asize)
    ensures FitFrom(hdr, L, asize, b).Some? ==>
      exists b' :: b <= b' < |L| && FitIn(hdr, L[b'], asize) == FitFrom(hdr, L, asize, b) &&
        forall b'' :: b <= b'' < b' ==> FitIn(hdr, L[b''], asize).None?
  {
    if b < |L| {
      FitInMeaning(hdr, L[b], asize);
      FitFromMeaning(hdr, L, asize, b + 1);
      if FitIn(hdr, L[b], asize).None? {
        forall b', i | b <= b' < |L| && 0 <= i < |L[b']| && FitFrom(hdr, L, asize, b).None?
          ensures !Fits(hdr, L[b'][i], asize)
        {
        }
        if FitFrom(hdr, L, asize, b).Some? {
          var b' :| b + 1 <= b' < |L| && FitIn(hdr, L[b'], asize) == FitFrom(hdr, L, asize, b + 1) &&
            forall b'' :: b + 1 <= b'' < b' ==> FitIn(hdr, L[b''], asize).None?;
          assert forall b'' :: b <= b'' < b' ==> FitIn(hdr, L[b''], asize).None?;
        }
      }
    }
  }

  /**
   * With well-formed lists, a search from the bucket of asize that finds
   * nothing means no free block in the heap is large enough: smaller
   * buckets only hold smaller blocks.
   */
  lemma NoFitAnywhere(c: Config, hdr: map<nat, Tag>, nl: map<nat, Option<nat>>, pl: map<nat, Option<nat>>,
                      heads: seq<Option<nat>>, L: seq<seq<nat>>, B: set<nat>, asize: nat)
    requires ListsOk(c, hdr, nl, pl, heads, L, B, {})
    requires FitFrom(hdr, L, asize, Bucket(c, asize)).None?
    ensures forall x :: x in B && x in hdr && !hdr[x].alloc ==> hdr[x].size < asize
  {
    FitFromMeaning(hdr, L, asize, Bucket(c, asize));
    forall x | x in B && x in hdr && !hdr[x].alloc
      ensures hdr[x].size < asize
    {
      assert IsBlock(B, x);
      var b := Bucket(c, hdr[x].size);
      BucketInRange(c, hdr[x].size);
      if hdr[x].size >= asize {
        BucketMonotone(c, asize, hdr[x].size);
      }
    }
  }

  /** A block the search finds is a free block of B in the bucket range that fits. */
  lemma FoundIsFree(c: Config, hdr: map<nat, Tag>, nl: map<nat, Option<nat>>, pl: map<nat, Option<nat>>,
                    heads: seq<Option<nat>>, L: seq<seq<nat>>, B: set<nat>, asize: nat, b: nat)
    requires ListsOk(c, hdr, nl, pl, heads, L, B, {})
    requires FitFrom(hdr, L, asize, b).Some?
    ensures var x := FitFrom(hdr, L, asize, b).value;
      x in B && x in hdr && !hdr[x].alloc && hdr[x].size >= asize && Bucket(c, hdr[x].size) >= b
  {
    FitFromMeaning(hdr, L, asize, b);
    var b' :| b <= b' < |L| && FitIn(hdr, L[b'], asize) == FitFrom(hdr, L, asize, b) &&
      forall b'' :: b <= b'' < b' ==> FitIn(hdr, L[b''], asize).None?;
    FitInMeaning(hdr, L[b'], asize);
    var i :| 0 <= i < |L[b']| && L[b'][i] == FitIn(hdr, L[b'], asize).value && Fits(hdr, L[b'][i], asize);
    assert Linked(c, hdr, nl, pl, B, {}, L[b'], b', i);
  }

  /** What the search loop of mm_segregated.c ends with. */
  datatype SearchEnd = Found(bp: nat) | NotFound | ReadPastEnd

  /**
   * search_list's loop as written: state (list, rest of the current
   * chain). A chain that runs out makes it read free_lists[list] and
   * then increment list, while list < NUM_LISTS + 1. The first chain is
   * read from free_lists[list] before the loop, so it is read, and
   * scanned, a second time. Reading entry |L| of the table gives
   * ReadPastEnd.
   */
  function ScanAsWritten(hdr: map<nat, Tag>, L: seq<seq<nat>>, asize: nat, list: nat, cur: seq<nat>): SearchEnd
    decreases |L| + 1 - list, |cur|
  {
    if list > |L| then NotFound
    else if cur != [] then
      if Fits(hdr, cur[0], asize) then Found(cur[0]) else ScanAsWritten(hdr, L, asize, list, cur[1..])
    else if list == |L| then ReadPastEnd
    else ScanAsWritten(hdr, L, asize, list + 1, L[list])
  }

  /** Scanning one chain: a fit in it is found, otherwise the loop moves on to the next table entry. */
  lemma {:induction false} ScanChain(hdr: map<nat, Tag>, L: seq<seq<nat>>, asize: nat, list: nat, cur: seq<nat>)
    requires list <= |L|
    decreases |cur|
    ensures ScanAsWritten(hdr, L, asize, list, cur) ==
      if FitIn(hdr, cur, asize).Some? then Found(FitIn(hdr, cur, asize).value)
      else if list == |L| then ReadPastEnd
      else ScanAsWritten(hdr, L, asize, list + 1, L[list])
  {
    if cur != [] && !Fits(hdr, cur[0], asize) {
      ScanChain(hdr, L, asize, list, cur[1..]);
    }
  }

  /** After reading table entry list, the as-written loop finds FitFrom's block or reads past the table. */
  lemma {:induction false} ScanRest(hdr: map<nat, Tag>, L: seq<seq<nat>>, asize: nat, list: nat)
    requires list < |L|
    decreases |L| - list
    ensures ScanAsWritten(hdr, L, asize, list + 1, L[list]) ==
      if FitFrom(hdr, L, asize, list).Some? then Found(FitFrom(hdr, L, asize, list).value) else ReadPastEnd
  {
    ScanChain(hdr, L, asize, list + 1, L[list]);
    if FitIn(hdr, L[list], asize).None? && list + 1 < |L| {
      ScanRest(hdr, L, asize, list + 1);
    }
  }

  /**
   * The as-written search finds the same block as the corrected one
   * whenever there is a fit, and every search that finds none reads
   * free_lists[NUM_LISTS], one entry past the end of the table.
   */
  lemma SearchAsWrittenReadsPastEnd(hdr: map<nat, Tag>, L: seq<seq<nat>>, asize: nat, b: nat)
    requires b < |L|
    ensures ScanAsWritten(hdr, L, asize, b, L[b]) ==
      if FitFrom(hdr, L, asize, b).Some? then Found(FitFrom(hdr, L, asize, b).value) else ReadPastEnd
  {
    ScanChain(hdr, L, asize, b, L[b]);
    if FitIn(hdr, L[b], asize).None? {
      ScanRest(hdr, L, asize, b);
    }
  }
}
