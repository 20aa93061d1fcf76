/**
 * The free-list operations of the malloc lab allocators on the link words:
 * add_block pushes a block at the front of the list of its size class and
 * delete_block unlinks it. Both are stated on the word maps of HeapLayout;
 * the Heap class performs the same writes in place.
 */
module FreeListLemmas {
  import opened Options
  import opened HeapLayout
  import opened HeapLayoutLemmas

  /** The block pointer just past block y, keyed by which its footer words are stored. */
  function End(hdr: map<nat, Tag>, y: nat): nat
    requires y in hdr
  {
    y + hdr[y].size
  }

  /** Distinct blocks have distinct footers. */
  ghost predicate EndsDistinct(hdr: map<nat, Tag>, B: set<nat>)
  {
    forall y: nat, z: nat {:trigger IsBlock(B, y), IsBlock(B, z)} :: IsBlock(B, y) && IsBlock(B, z) && y != z ==>
      y in hdr && z in hdr && y + hdr[y].size != z + hdr[z].size
  }

  lemma LayoutEnds(c: Config, hdr: map<nat, Tag>, ftr: map<nat, Tag>, B: set<nat>, E: nat)
    requires LayoutOk(c, hdr, ftr, B, E)
    ensures EndsDistinct(hdr, B)
  {
    forall y: nat, z: nat | IsBlock(B, y) && IsBlock(B, z) && y != z
      ensures y in hdr && z in hdr && y + hdr[y].size != z + hdr[z].size
    {
      Disjoint(c, hdr, ftr, B, E, y, z);
    }
  }

  /** List s with the member at position k taken out. */
  function RemoveAt(s: seq<nat>, k: nat): (r: seq<nat>)
    requires k < |s|
    ensures |r| == |s| - 1
    ensures forall j :: 0 <= j < k ==> r[j] == s[j]
    ensures forall j :: k <= j < |r| ==> r[j] == s[j + 1]
  {
    s[..k] + s[k + 1..]
  }

  /** The position of x in s. */
  function IndexOf(s: seq<nat>, x: nat): (k: nat)
    requires x in s
    ensures k < |s| && s[k] == x
  {
    if s[0] == x then 0 else 1 + IndexOf(s[1..], x)
  }

  /** A member of a list without duplicates sits at exactly one position. */
  lemma RemoveAtMembers(s: seq<nat>, k: nat)
    requires k < |s| && forall i, j :: 0 <= i < j < |s| ==> s[i] != s[j]
    ensures forall y :: y in RemoveAt(s, k) <==> y in s && y != s[k]
  {
    var r := RemoveAt(s, k);
    forall y | y in s && y != s[k]
      ensures y in r
    {
      var i :| 0 <= i < |s| && s[i] == y;
      if i < k {
        assert r[i] == y;
      } else {
        assert r[i - 1] == y;
      }
    }
  }

  /**
   * Every list is well linked in the new maps when no free block that the
   * lists account for changes: its tag and link words stay, and every free
   * block that the new state does not exempt was already accounted for.
   */
  lemma ListsFrame(c: Config, hdr: map<nat, Tag>, nl: map<nat, Option<nat>>, pl: map<nat, Option<nat>>,
                   heads: seq<Option<nat>>, L: seq<seq<nat>>, B: set<nat>, out: set<nat>,
                   hdr2: map<nat, Tag>, nl2: map<nat, Option<nat>>, pl2: map<nat, Option<nat>>,
                   B2: set<nat>, out2: set<nat>)
    requires ListsOk(c, hdr, nl, pl, heads, L, B, out)
    requires out2 <= B2
    requires forall y: nat :: IsBlock(B, y) && y !in out && y in hdr && !hdr[y].alloc ==>
      y in B2 && y !in out2 && y in hdr2 && hdr2[y] == hdr[y] &&
      (y in nl ==> y in nl2 && nl2[y] == nl[y]) &&
      (y + hdr[y].size in pl ==> y + hdr[y].size in pl2 && pl2[y + hdr[y].size] == pl[y + hdr[y].size])
    requires forall y: nat :: IsBlock(B2, y) && y !in out2 && y in hdr2 && !hdr2[y].alloc ==>
      y in B && y !in out && y in hdr && hdr[y] == hdr2[y]
    ensures ListsOk(c, hdr2, nl2, pl2, heads, L, B2, out2)
  {
    forall b, i | 0 <= b < |L| && 0 <= i < |L[b]|
      ensures Linked(c, hdr2, nl2, pl2, B2, out2, L[b], b, i)
    {
      assert Linked(c, hdr, nl, pl, B, out, L[b], b, i);
      assert IsBlock(B, L[b][i]);
    }
    forall x: nat | IsBlock(B2, x) && x in hdr2 && !hdr2[x].alloc && x !in out2
      ensures x in L[Bucket(c, hdr2[x].size)]
    {
      assert IsBlock(B, x);
    }
  }

  /** The link words after add_block(x) with the list of bucket b headed by h. */
  function PushNext(nl: map<nat, Option<nat>>, x: nat, h: Option<nat>): map<nat, Option<nat>>
  {
    nl[x := h]
  }

  function PushPrev(hdr: map<nat, Tag>, pl: map<nat, Option<nat>>, x: nat, h: Option<nat>): map<nat, Option<nat>>
    requires x in hdr && (h.Some? ==> h.value in hdr)
  {
    var pl1 := if h.Some? then pl[End(hdr, h.value) := Some(x)] else pl;
    pl1[End(hdr, x) := None]
  }

  /** The head of a non-empty free list is a listed free block of that bucket. */
  lemma HeadListed(c: Config, hdr: map<nat, Tag>, nl: map<nat, Option<nat>>, pl: map<nat, Option<nat>>,
                   heads: seq<Option<nat>>, L: seq<seq<nat>>, B: set<nat>, out: set<nat>, b: nat)
    requires ListsOk(c, hdr, nl, pl, heads, L, B, out) && b < |L|
    ensures heads[b].Some? ==> heads[b].value in B && heads[b].value in hdr && !hdr[heads[b].value].alloc &&
                               heads[b].value !in out && Bucket(c, hdr[heads[b].value].size) == b
  {
    if heads[b].Some? {
      assert Linked(c, hdr, nl, pl, B, out, L[b], b, 0);
    }
  }

  /** PushPrev written out as the word writes of add_block. */
  lemma PushPrevWrites(hdr: map<nat, Tag>, pl: map<nat, Option<nat>>, x: nat, h: Option<nat>)
    requires x in hdr && (h.Some? ==> h.value in hdr)
    ensures h.Some? ==> PushPrev(hdr, pl, x, h) == pl[h.value + hdr[h.value].size := Some(x)][x + hdr[x].size := None]
    ensures h.None? ==> PushPrev(hdr, pl, x, h) == pl[x + hdr[x].size := None]
  {
  }

  /**
   * add_block: x, an exempt free block of bucket b, becomes the head of
   * list b with no predecessor and the old head as successor; every other
   * list is unchanged and x is no longer exempt.
   */
  lemma PushLinked(c: Config, hdr: map<nat, Tag>, ftr: map<nat, Tag>, E: nat, nl: map<nat, Option<nat>>, pl: map<nat, Option<nat>>,
                   heads: seq<Option<nat>>, L: seq<seq<nat>>, B: set<nat>, out: set<nat>, x: nat, b: nat)
    requires LayoutOk(c, hdr, ftr, B, E) && ListsOk(c, hdr, nl, pl, heads, L, B, out)
    requires x in out && x in hdr && !hdr[x].alloc && b == Bucket(c, hdr[x].size)
    ensures b < |L| && (heads[b].Some? ==> heads[b].value in hdr)
    ensures ListsOk(c, hdr, PushNext(nl, x, heads[b]), PushPrev(hdr, pl, x, heads[b]),
                    heads[b := Some(x)], L[b := [x] + L[b]], B, out - {x})
  {
    LayoutEnds(c, hdr, ftr, B, E);
    BucketInRange(c, hdr[x].size);
    var h := heads[b];
    if h.Some? {
      assert Linked(c, hdr, nl, pl, B, out, L[b], b, 0);
    }
    var nl2, pl2 := PushNext(nl, x, h), PushPrev(hdr, pl, x, h);
    var heads2, L2, out2 := heads[b := Some(x)], L[b := [x] + L[b]], out - {x};
    assert IsBlock(B, x);
    forall b', i | 0 <= b' < |L2| && 0 <= i < |L2[b']|
      ensures Linked(c, hdr, nl2, pl2, B, out2, L2[b'], b', i)
    {
      var y := L2[b'][i];
      if b' == b && i == 0 {
        assert y == x;
        if L[b] != [] {
          assert nl2[x] == Some(L[b][0]);
        }
      } else {
        var j := if b' == b then i - 1 else i;
        assert y == L[b'][j];
        assert Linked(c, hdr, nl, pl, B, out, L[b'], b', j);
        assert IsBlock(B, y);
        assert y != x;
        assert nl2[y] == nl[y];
        if h.Some? && y != h.value {
          assert IsBlock(B, h.value);
        }
        if b' == b && j == 0 {
          assert pl2[End(hdr, y)] == Some(x);
        } else {
          assert h.Some? ==> y != h.value by {
            if h.Some? && b' == b {
              assert L[b][0] == h.value;
            }
          }
          assert pl2[End(hdr, y)] == pl[End(hdr, y)];
        }
      }
    }
    forall b', i, j | 0 <= b' < |L2| && 0 <= i < j < |L2[b']|
      ensures L2[b'][i] != L2[b'][j]
    {
      if b' == b && i == 0 {
        assert L2[b'][j] == L[b][j - 1];
        assert Linked(c, hdr, nl, pl, B, out, L[b], b, j - 1);
      }
    }
    forall y: nat | IsBlock(B, y) && y in hdr && !hdr[y].alloc && y !in out2
      ensures y in L2[Bucket(c, hdr[y].size)]
    {
      if y != x {
        assert y in L[Bucket(c, hdr[y].size)];
      } else {
        assert L2[b][0] == x;
      }
    }
  }

  /** The link words after delete_block unlinks a block whose prev and next links are p and n. */
  function UnlinkNext(nl: map<nat, Option<nat>>, p: Option<nat>, n: Option<nat>): map<nat, Option<nat>>
  {
    if p.Some? then nl[p.value := n] else nl
  }

  function UnlinkPrev(hdr: map<nat, Tag>, pl: map<nat, Option<nat>>, p: Option<nat>, n: Option<nat>): map<nat, Option<nat>>
    requires n.Some? ==> n.value in hdr
  {
    if n.Some? then pl[End(hdr, n.value) := p] else pl
  }

  /** The facts about the k-th member x of list b that delete_block reads: its links and its neighbours. */
  lemma UnlinkFacts(c: Config, hdr: map<nat, Tag>, nl: map<nat, Option<nat>>, pl: map<nat, Option<nat>>,
                    heads: seq<Option<nat>>, L: seq<seq<nat>>, B: set<nat>, out: set<nat>, b: nat, k: nat)
    requires ListsOk(c, hdr, nl, pl, heads, L, B, out)
    requires b < |L| && k < |L[b]|
    ensures L[b][k] in B && L[b][k] !in out && L[b][k] in hdr && L[b][k] in nl && End(hdr, L[b][k]) in pl
    ensures !hdr[L[b][k]].alloc && Bucket(c, hdr[L[b][k]].size) == b
    ensures nl[L[b][k]] == (if k + 1 < |L[b]| then Some(L[b][k + 1]) else None)
    ensures pl[End(hdr, L[b][k])] == (if k > 0 then Some(L[b][k - 1]) else None)
    ensures k > 0 ==> L[b][k - 1] in B && L[b][k - 1] in hdr && Bucket(c, hdr[L[b][k - 1]].size) == b
    ensures k + 1 < |L[b]| ==> L[b][k + 1] in B && L[b][k + 1] in hdr && Bucket(c, hdr[L[b][k + 1]].size) == b
  {
    assert Linked(c, hdr, nl, pl, B, out, L[b], b, k);
    if k > 0 {
      assert Linked(c, hdr, nl, pl, B, out, L[b], b, k - 1);
    }
    if k + 1 < |L[b]| {
      assert Linked(c, hdr, nl, pl, B, out, L[b], b, k + 1);
    }
  }

  ghost predicate UnlinkPre(c: Config, hdr: map<nat, Tag>, nl: map<nat, Option<nat>>, pl: map<nat, Option<nat>>,
                            heads: seq<Option<nat>>, L: seq<seq<nat>>, B: set<nat>, out: set<nat>, b: nat, k: nat,
                            nl2: map<nat, Option<nat>>, pl2: map<nat, Option<nat>>)
  {
    ListsOk(c, hdr, nl, pl, heads, L, B, out) && EndsDistinct(hdr, B) && b < |L| && k < |L[b]| &&
    L[b][k] in hdr && L[b][k] in nl && End(hdr, L[b][k]) in pl &&
    (nl[L[b][k]].Some? ==> nl[L[b][k]].value in hdr) &&
    nl2 == UnlinkNext(nl, pl[End(hdr, L[b][k])], nl[L[b][k]]) &&
    pl2 == UnlinkPrev(hdr, pl, pl[End(hdr, L[b][k])], nl[L[b][k]])
  }

  /** A member of the list x is unlinked from keeps its links, except that its neighbour x is bypassed. */
  lemma UnlinkSameList(c: Config, hdr: map<nat, Tag>, nl: map<nat, Option<nat>>, pl: map<nat, Option<nat>>,
                       heads: seq<Option<nat>>, L: seq<seq<nat>>, B: set<nat>, out: set<nat>, b: nat, k: nat,
                       nl2: map<nat, Option<nat>>, pl2: map<nat, Option<nat>>, i: nat)
    requires UnlinkPre(c, hdr, nl, pl, heads, L, B, out, b, k, nl2, pl2)
    requires i < |RemoveAt(L[b], k)|
    ensures Linked(c, hdr, nl2, pl2, B, out + {L[b][k]}, RemoveAt(L[b], k), b, i)
  {
    var x := L[b][k];
    UnlinkFacts(c, hdr, nl, pl, heads, L, B, out, b, k);
    var p, n := pl[End(hdr, x)], nl[x];
    var j := if i >= k then i + 1 else i;
    var y := L[b][j];
    assert RemoveAt(L[b], k)[i] == y;
    assert Linked(c, hdr, nl, pl, B, out, L[b], b, j);
    assert IsBlock(B, y);
    assert y != x by {
      assert j != k;
    }
    if j + 1 == k {
      assert nl2[y] == n;
    } else {
      assert p.Some? ==> y != p.value;
      assert nl2[y] == nl[y];
    }
    if j == k + 1 {
      assert pl2[End(hdr, y)] == p;
    } else {
      assert n.Some? ==> y != n.value && IsBlock(B, n.value);
      assert pl2[End(hdr, y)] == pl[End(hdr, y)];
    }
  }

  /** The members of the other lists keep their links when x is unlinked. */
  lemma UnlinkOtherList(c: Config, hdr: map<nat, Tag>, nl: map<nat, Option<nat>>, pl: map<nat, Option<nat>>,
                        heads: seq<Option<nat>>, L: seq<seq<nat>>, B: set<nat>, out: set<nat>, b: nat, k: nat,
                        nl2: map<nat, Option<nat>>, pl2: map<nat, Option<nat>>, b': nat, i: nat)
    requires UnlinkPre(c, hdr, nl, pl, heads, L, B, out, b, k, nl2, pl2)
    requires b' < |L| && b' != b && i < |L[b']|
    ensures Linked(c, hdr, nl2, pl2, B, out + {L[b][k]}, L[b'], b', i)
  {
    var x := L[b][k];
    UnlinkFacts(c, hdr, nl, pl, heads, L, B, out, b, k);
    var p, n := pl[End(hdr, x)], nl[x];
    var y := L[b'][i];
    assert Linked(c, hdr, nl, pl, B, out, L[b'], b', i);
    assert IsBlock(B, y);
    assert Bucket(c, hdr[y].size) != Bucket(c, hdr[x].size);
    assert nl2[y] == nl[y];
    assert n.Some? ==> IsBlock(B, n.value);
    assert pl2[End(hdr, y)] == pl[End(hdr, y)];
  }

  lemma UnlinkMembers(c: Config, hdr: map<nat, Tag>, nl: map<nat, Option<nat>>, pl: map<nat, Option<nat>>,
                      heads: seq<Option<nat>>, L: seq<seq<nat>>, B: set<nat>, out: set<nat>, b: nat, k: nat,
                      nl2: map<nat, Option<nat>>, pl2: map<nat, Option<nat>>, L2: seq<seq<nat>>)
    requires UnlinkPre(c, hdr, nl, pl, heads, L, B, out, b, k, nl2, pl2)
    requires L2 == L[b := RemoveAt(L[b], k)]
    ensures forall b', i :: 0 <= b' < |L2| && 0 <= i < |L2[b']| ==>
      Linked(c, hdr, nl2, pl2, B, out + {L[b][k]}, L2[b'], b', i)
  {
    forall b', i | 0 <= b' < |L2| && 0 <= i < |L2[b']|
      ensures Linked(c, hdr, nl2, pl2, B, out + {L[b][k]}, L2[b'], b', i)
    {
      if b' == b {
        UnlinkSameList(c, hdr, nl, pl, heads, L, B, out, b, k, nl2, pl2, i);
      } else {
        UnlinkOtherList(c, hdr, nl, pl, heads, L, B, out, b, k, nl2, pl2, b', i);
      }
    }
  }

  /**
   * delete_block: the k-th member x of list b is unlinked: its neighbours
   * are linked to each other (the list head moves on when x was first),
   * the other members keep their order, the other lists are unchanged, and
   * x becomes exempt.
   */
  lemma UnlinkLinked(c: Config, hdr: map<nat, Tag>, ftr: map<nat, Tag>, E: nat, nl: map<nat, Option<nat>>, pl: map<nat, Option<nat>>,
                     heads: seq<Option<nat>>, L: seq<seq<nat>>, B: set<nat>, out: set<nat>, b: nat, k: nat)
    requires LayoutOk(c, hdr, ftr, B, E) && ListsOk(c, hdr, nl, pl, heads, L, B, out)
    requires b < |L| && k < |L[b]|
    ensures L[b][k] in hdr && L[b][k] in nl && End(hdr, L[b][k]) in pl
    ensures nl[L[b][k]] == (if k + 1 < |L[b]| then Some(L[b][k + 1]) else None)
    ensures pl[End(hdr, L[b][k])] == (if k > 0 then Some(L[b][k - 1]) else None)
    ensures (nl[L[b][k]].Some? ==> nl[L[b][k]].value in hdr)
    ensures
      var x := L[b][k];
      var p, n := pl[End(hdr, x)], nl[x];
      ListsOk(c, hdr, UnlinkNext(nl, p, n), UnlinkPrev(hdr, pl, p, n),
              if p.None? then heads[b := n] else heads, L[b := RemoveAt(L[b], k)], B, out + {x})
  {
    LayoutEnds(c, hdr, ftr, B, E);
    var x := L[b][k];
    UnlinkFacts(c, hdr, nl, pl, heads, L, B, out, b, k);
    var p, n := pl[End(hdr, x)], nl[x];
    var nl2, pl2 := UnlinkNext(nl, p, n), UnlinkPrev(hdr, pl, p, n);
    var heads2 := if p.None? then heads[b := n] else heads;
    var s2 := RemoveAt(L[b], k);
    var L2, out2 := L[b := s2], out + {x};
    RemoveAtMembers(L[b], k);
    UnlinkMembers(c, hdr, nl, pl, heads, L, B, out, b, k, nl2, pl2, L2);
    forall b' | 0 <= b' < |L2|
      ensures heads2[b'] == Head(L2[b'])
    {
      if b' == b && k == 0 && s2 != [] {
        assert s2[0] == L[b][1];
      }
    }
    forall b', i, j | 0 <= b' < |L2| && 0 <= i < j < |L2[b']|
      ensures L2[b'][i] != L2[b'][j]
    {
      if b' == b {
        var i' := if i >= k then i + 1 else i;
        var j' := if j >= k then j + 1 else j;
        assert L2[b'][i] == L[b][i'] && L2[b'][j] == L[b][j'];
      }
    }
    forall y: nat | IsBlock(B, y) && y in hdr && !hdr[y].alloc && y !in out2
      ensures y in L2[Bucket(c, hdr[y].size)]
    {
      assert y in L[Bucket(c, hdr[y].size)];
    }
  }

  /** UnlinkLinked, stated for link maps, heads and lists that the caller has already computed. */
  lemma UnlinkLinkedTo(c: Config, hdr: map<nat, Tag>, ftr: map<nat, Tag>, E: nat, nl: map<nat, Option<nat>>,
                       pl: map<nat, Option<nat>>, heads: seq<Option<nat>>, L: seq<seq<nat>>, B: set<nat>,
                       out: set<nat>, b: nat, k: nat, x: nat, p: Option<nat>, n: Option<nat>,
                       nl2: map<nat, Option<nat>>, pl2: map<nat, Option<nat>>, heads2: seq<Option<nat>>,
                       L2: seq<seq<nat>>)
    requires LayoutOk(c, hdr, ftr, B, E) && ListsOk(c, hdr, nl, pl, heads, L, B, out)
    requires b < |L| && k < |L[b]| && x == L[b][k] && x in hdr && End(hdr, x) in pl && x in nl
    requires p == pl[End(hdr, x)] && n == nl[x] && (n.Some? ==> n.value in hdr)
    requires nl2 == UnlinkNext(nl, p, n) && pl2 == UnlinkPrev(hdr, pl, p, n)
    requires heads2 == (if p.None? then heads[b := n] else heads) && L2 == L[b := RemoveAt(L[b], k)]
    ensures ListsOk(c, hdr, nl2, pl2, heads2, L2, B, out + {x})
  {
    UnlinkLinked(c, hdr, ftr, E, nl, pl, heads, L, B, out, b, k);
  }

  /** PushLinked, stated for link maps, heads and lists that the caller has already computed. */
  lemma PushLinkedTo(c: Config, hdr: map<nat, Tag>, ftr: map<nat, Tag>, E: nat, nl: map<nat, Option<nat>>,
                     pl: map<nat, Option<nat>>, heads: seq<Option<nat>>, L: seq<seq<nat>>, B: set<nat>,
                     out: set<nat>, x: nat, b: nat,
                     nl2: map<nat, Option<nat>>, pl2: map<nat, Option<nat>>, heads2: seq<Option<nat>>,
                     L2: seq<seq<nat>>)
    requires LayoutOk(c, hdr, ftr, B, E) && ListsOk(c, hdr, nl, pl, heads, L, B, out)
    requires x in out && x in hdr && !hdr[x].alloc && b == Bucket(c, hdr[x].size) && b < |heads|
    requires heads[b].Some? ==> heads[b].value in hdr
    requires nl2 == PushNext(nl, x, heads[b]) && pl2 == PushPrev(hdr, pl, x, heads[b])
    requires b < |L| && heads2 == heads[b := Some(x)] && L2 == L[b := [x] + L[b]]
    ensures ListsOk(c, hdr, nl2, pl2, heads2, L2, B, out - {x})
  {
    PushLinked(c, hdr, ftr, E, nl, pl, heads, L, B, out, x, b);
  }
}
