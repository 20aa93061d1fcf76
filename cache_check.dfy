/**
 * check_cache: the tortoise-and-hare test for a cycle in the cache's
 * next chain. The chain is read through a successor map over node
 * numbers: succ[x] is the node after x, and a node outside the map's
 * domain has a NULL next.
 */
module CacheCheck {
  import opened Options

  /** The node after p, None for NULL. */
  function Next(succ: map<nat, nat>, p: Option<nat>): Option<nat>
  {
    if p.Some? && p.value in succ then Some(succ[p.value]) else None
  }

  /** Node n of the chain from start: start itself, then next n times. */
  function Node(succ: map<nat, nat>, start: Option<nat>, n: nat): Option<nat>
  {
    if n == 0 then start else Next(succ, Node(succ, start, n - 1))
  }

  /** The chain never reaches NULL. */
  ghost predicate Cyclic(succ: map<nat, nat>, start: Option<nat>)
  {
    forall n :: Node(succ, start, n).Some?
  }

  /** Before a node that is not NULL, no node is NULL: NULL, once reached, stays. */
  lemma {:induction false} SomeBefore(succ: map<nat, nat>, start: Option<nat>, a: nat, b: nat)
    requires a <= b && Node(succ, start, b).Some?
    decreases b - a
    ensures Node(succ, start, a).Some?
  {
    if a < b {
      SomeBefore(succ, start, a + 1, b);
    }
  }

  /** Two equal nodes have equal successors, however far on. */
  lemma {:induction false} SameAfter(succ: map<nat, nat>, start: Option<nat>, t: nat, n: nat, m: nat)
    requires Node(succ, start, t) == Node(succ, start, n)
    decreases m
    ensures Node(succ, start, t + m) == Node(succ, start, n + m)
  {
    if m > 0 {
      SameAfter(succ, start, t, n, m - 1);
    }
  }

  /** From t on, the chain repeats with period d when node t recurs at t + d. */
  lemma {:induction false} Periodic(succ: map<nat, nat>, start: Option<nat>, t: nat, d: nat, x: nat, c: nat)
    requires Node(succ, start, t) == Node(succ, start, t + d) && t <= x
    decreases c
    ensures Node(succ, start, x) == Node(succ, start, x + c * d)
  {
    if c > 0 {
      Periodic(succ, start, t, d, x, c - 1);
      SameAfter(succ, start, t, t + d, x - t + (c - 1) * d);
      assert x + c * d == t + d + (x - t + (c - 1) * d);
    }
  }

  /** A node that recurs before NULL is reached makes the chain cyclic. */
  lemma {:induction false} RecurrenceIsCycle(succ: map<nat, nat>, start: Option<nat>, t: nat, n: nat)
    requires t < n && Node(succ, start, t) == Node(succ, start, n) && Node(succ, start, n).Some?
    ensures Cyclic(succ, start)
  {
    forall k: nat
      ensures Node(succ, start, k).Some?
    {
      SomeAt(succ, start, t, n, k);
    }
  }

  lemma {:induction false} SomeAt(succ: map<nat, nat>, start: Option<nat>, t: nat, n: nat, k: nat)
    requires t < n && Node(succ, start, t) == Node(succ, start, n) && Node(succ, start, n).Some?
    decreases k
    ensures Node(succ, start, k).Some?
  {
    if k <= n {
      SomeBefore(succ, start, k, n);
    } else {
      SomeAt(succ, start, t, n, k - (n - t));
      SameAfter(succ, start, t, n, k - n);
    }
  }

  /** Distinct nodes 0..k - 1 that all have a next are distinct keys of succ, so k <= |succ|. */
  lemma {:induction false} Pigeonhole(succ: map<nat, nat>, start: Option<nat>, k: nat, S: set<nat>)
    requires forall i :: 0 <= i < k ==> Node(succ, start, i).Some? && Node(succ, start, i).value in S
    requires forall i, j :: 0 <= i < j < k ==> Node(succ, start, i) != Node(succ, start, j)
    decreases k
    ensures k <= |S|
  {
    if k > 0 {
      var x := Node(succ, start, k - 1).value;
      Pigeonhole(succ, start, k - 1, S - {x});
    }
  }

  /** The step bound of the loop: a chain that has not ended by then has shown a recurrence. */
  function Bound(succ: map<nat, nat>): nat
  {
    2 * (|succ| + 1) * (|succ| + 1)
  }

  /**
   * A chain still alive at node Bound has a node n (1 <= n <= Bound)
   * equal to node n / 2, the pair the loop compares after its n-th hare
   * step.
   */
  lemma Meets(succ: map<nat, nat>, start: Option<nat>)
    requires Node(succ, start, Bound(succ)).Some?
    ensures exists n :: 1 <= n <= Bound(succ) && Node(succ, start, n) == Node(succ, start, n / 2)
  {
    var K := |succ| + 1;
    var i, j := Collision(succ, start);
    var d := j - i;
    var h := (i + 1) * d;
    Periodic(succ, start, i, d, h, i + 1);
    MulBound(i + 1, d, K);
    assert (2 * h) / 2 == h;
    assert 1 <= 2 * h <= Bound(succ);
  }

  /** Among nodes 0..|succ| of a chain alive at node Bound, two are equal. */
  lemma Collision(succ: map<nat, nat>, start: Option<nat>) returns (i: nat, j: nat)
    requires Node(succ, start, Bound(succ)).Some?
    ensures i < j <= |succ| && Node(succ, start, i) == Node(succ, start, j)
  {
    var K := |succ| + 1;
    forall i | 0 <= i < K
      ensures Node(succ, start, i).Some? && Node(succ, start, i).value in succ.Keys
    {
      SomeBefore(succ, start, i + 1, Bound(succ));
    }
    if forall i, j :: 0 <= i < j < K ==> Node(succ, start, i) != Node(succ, start, j) {
      Pigeonhole(succ, start, K, succ.Keys);
      assert false;
    }
    i, j :| 0 <= i < j < K && Node(succ, start, i) == Node(succ, start, j);
  }

  lemma MulBound(a: nat, b: nat, k: nat)
    requires 1 <= a <= k && 1 <= b <= k
    ensures 1 <= a * b <= k * k
  {
    assert a * b <= a * k;
    assert a * k <= k * k;
  }

  /**
   * check_cache: the hare moves one node per step and the tortoise one
   * node every second step, and a cycle is reported when they meet. It
   * reports a cycle exactly when the chain never reaches NULL.
   */
  method CheckCache(succ: map<nat, nat>, start: Option<nat>) returns (cycle: bool)
    ensures cycle <==> Cyclic(succ, start)
  {
    var tortoise, hare := start, start;
    var phase := 0;
    ghost var n: nat := 0;
    while hare.Some?
      invariant hare == Node(succ, start, n) && tortoise == Node(succ, start, n / 2) && phase == n % 2
      invariant forall m :: 1 <= m <= n ==> Node(succ, start, m) != Node(succ, start, m / 2)
      invariant n <= Bound(succ)
      decreases Bound(succ) - n
    {
      if n == Bound(succ) {
        Meets(succ, start);
        assert false;
      }
      SomeBefore(succ, start, (n + 1) / 2, n);
      if phase == 0 {
        hare := Next(succ, hare);
        n := n + 1;
        if tortoise == hare {
          RecurrenceIsCycle(succ, start, n / 2, n);
          return true;
        }
        phase := 1;
      } else {
        hare := Next(succ, hare);
        tortoise := Next(succ, tortoise);
        n := n + 1;
        if tortoise == hare {
          RecurrenceIsCycle(succ, start, n / 2, n);
          return true;
        }
        phase := 0;
      }
    }
    return false;
  }

  /** The successor map of a well-formed cache list of L objects, numbered in list order. */
  function ListSucc(L: nat): map<nat, nat>
  {
    if L <= 1 then map[] else ListSucc(L - 1)[L - 2 := L - 1]
  }

  /** In a list of L objects, object k has a next exactly when k + 1 < L, and it is k + 1. */
  lemma {:induction false} ListSuccAt(L: nat, k: nat)
    decreases L
    ensures k in ListSucc(L) <==> k + 1 < L
    ensures k in ListSucc(L) ==> ListSucc(L)[k] == k + 1
  {
    if L > 1 {
      ListSuccAt(L - 1, k);
    }
  }

  /** The chain of a well-formed cache list reaches NULL, so check_cache reports no cycle on it. */
  lemma {:induction false} ListAcyclic(L: nat)
    ensures !Cyclic(ListSucc(L), if L == 0 then None else Some(0))
  {
    var start := if L == 0 then None else Some(0);
    if L > 0 {
      ListNode(L, L - 1);
      ListSuccAt(L, L - 1);
      assert Node(ListSucc(L), start, L) == Next(ListSucc(L), Some(L - 1));
    }
    assert Node(ListSucc(L), start, L).None?;
  }

  /** Node k of a well-formed list of L objects is object k. */
  lemma {:induction false} ListNode(L: nat, k: nat)
    requires k < L
    decreases k
    ensures Node(ListSucc(L), Some(0), k) == Some(k)
  {
    if k > 0 {
      ListNode(L, k - 1);
      ListSuccAt(L, k - 1);
    }
  }
}
