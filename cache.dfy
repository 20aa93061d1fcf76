/**
 * The proxy's object cache: a singly linked list of cached web objects,
 * least recently used at the front, with a byte budget. Objects are
 * appended at the end, a hit moves its object to the end, and room is
 * made by evicting from the front.
 */
module ProxyCache {
  /** The cache's byte budget, and the largest object the proxy caches. */
  const MaxCacheSize: nat := 1049000
  const MaxObjectSize: nat := 102400

  /** One cached object: its id (the request key), its bytes and their count. */
  class CacheObject {
    var next: CacheObject?
    const id: seq<char>
    const data: seq<bv8>
    const length: nat

    /** init_object: a detached object holding a copy of data. */
    constructor (id: seq<char>, data: seq<bv8>)
      ensures this.id == id && this.data == data && length == |data| && next == null
    {
      this.id := id;
      this.data := data;
      length := |data|;
      next := null;
    }
  }

  /** The bytes held by the objects of s. */
  function Total(s: seq<CacheObject>): nat
  {
    if s == [] then 0 else s[0].length + Total(s[1..])
  }

  /**
   * The position of the first object of s whose id is q, or |s| when
   * there is none: the object the list walks of search_cache and
   * delete_object stop at.
   */
  function Find(s: seq<CacheObject>, q: seq<char>): (k: nat)
    ensures k <= |s| && (k < |s| ==> s[k].id == q)
    ensures forall j :: 0 <= j < k ==> s[j].id != q
  {
    if s == [] then 0
    else if s[0].id == q then 0
    else 1 + Find(s[1..], q)
  }

  /** Removing s[k] takes its length out of the total. */
  lemma {:induction false} TotalRemove(s: seq<CacheObject>, k: nat)
    requires k < |s|
    decreases k
    ensures Total(s) == Total(s[..k] + s[k + 1..]) + s[k].length
  {
    if k > 0 {
      TotalRemove(s[1..], k - 1);
      assert s[1..][..k - 1] + s[1..][k..] == (s[..k] + s[k + 1..])[1..];
    } else {
      assert s[..0] + s[1..] == s[1..];
    }
  }

  /** Appending o adds its length to the total. */
  lemma {:induction false} TotalAppend(s: seq<CacheObject>, o: CacheObject)
    decreases |s|
    ensures Total(s + [o]) == Total(s) + o.length
  {
    if s != [] {
      TotalAppend(s[1..], o);
      assert (s + [o])[1..] == s[1..] + [o];
    }
  }

  /**
   * Evicting the first k objects of s is the least eviction from the
   * front that leaves need bytes of the budget free: with s cached, the
   * free bytes are MaxCacheSize less the bytes still cached.
   */
  predicate LeastEviction(s: seq<CacheObject>, k: nat, need: nat)
  {
    k <= |s| && MaxCacheSize - Total(s[k..]) >= need &&
    forall j :: 0 <= j < k ==> MaxCacheSize - Total(s[j..]) < need
  }

  /** The cache list: both ends of the chain and the bytes still free. */
  class CacheList {
    var first: CacheObject?
    var last: CacheObject?
    var spaceLeft: nat
    /** The objects of the chain from first, in list order. */
    ghost var objs: seq<CacheObject>

    /**
     * The chain from first through next visits the distinct objects of
     * objs in order and ends at last, whose next is NULL; first is NULL
     * exactly when last is; and the free bytes and the cached bytes add
     * up to the budget.
     */
    ghost predicate Valid()
      reads this, objs
    {
      (forall i, j :: 0 <= i < j < |objs| ==> objs[i] != objs[j]) &&
      (objs == [] ==> first == null && last == null) &&
      (objs != [] ==> first == objs[0] && last == objs[|objs| - 1] && last.next == null) &&
      (forall i :: 0 <= i < |objs| - 1 ==> objs[i].next == objs[i + 1]) &&
      spaceLeft + Total(objs) == MaxCacheSize
    }

    /** init_cache: an empty list with the whole budget free. */
    constructor ()
      ensures Valid() && objs == [] && spaceLeft == MaxCacheSize
    {
      first, last, spaceLeft := null, null, MaxCacheSize;
      objs := [];
    }

    /**
     * add_to_end: the detached object o becomes the last, most recently
     * used, object and its bytes are taken from the budget. The callers
     * make room first, so space_left never wraps.
     */
    method AddToEnd(o: CacheObject)
      requires Valid() && o !in objs && o.next == null && o.length <= spaceLeft
      modifies this, last
      ensures Valid() && objs == old(objs) + [o] && spaceLeft == old(spaceLeft) - o.length
    {
      TotalAppend(objs, o);
      if first == null {
        first, last := o, o;
      } else {
        last.next := o;
        last := o;
      }
      spaceLeft := spaceLeft - o.length;
      objs := objs + [o];
    }

    /**
     * delete_object: unlinks the first object whose id is q, clears its
     * next link, gives its bytes back to the budget and returns it;
     * returns NULL and changes nothing when no object has that id.
     */
    method DeleteObject(q: seq<char>) returns (r: CacheObject?)
      requires Valid()
      modifies this, objs
      ensures Valid()
      ensures Find(old(objs), q) == |old(objs)| ==> r == null && objs == old(objs) && spaceLeft == old(spaceLeft)
      ensures var k := Find(old(objs), q); k < |old(objs)| ==>
        r == old(objs)[k] && r.next == null && objs == old(objs)[..k] + old(objs)[k + 1..] &&
        spaceLeft == old(spaceLeft) + r.length
    {
      var prev: CacheObject? := null;
      var current := first;
      ghost var i := 0;
      while current != null
        invariant 0 <= i <= |objs|
        invariant current == if i < |objs| then objs[i] else null
        invariant prev == if i == 0 then null else objs[i - 1]
        invariant forall j :: 0 <= j < i ==> objs[j].id != q
        decreases |objs| - i
      {
        if current.id == q {
          Unlink(prev, current, i);
          return current;
        }
        prev := current;
        current := current.next;
        i := i + 1;
      }
      return null;
    }

    /**
     * The unlinking step of delete_object: current, the object at
     * position i, leaves the chain (prev, or first, now points past it),
     * its next link is cleared and its bytes return to the budget.
     */
    method Unlink(prev: CacheObject?, current: CacheObject, ghost i: nat)
      requires Valid() && i < |objs| && current == objs[i] && prev == if i == 0 then null else objs[i - 1]
      modifies this, prev, current
      ensures Valid() && objs == old(objs)[..i] + old(objs)[i + 1..]
      ensures current.next == null && spaceLeft == old(spaceLeft) + current.length
    {
      ghost var s := objs;
      ghost var s' := s[..i] + s[i + 1..];
      TotalRemove(s, i);
      if current == first {
        first := current.next;
      }
      if current == last {
        last := prev;
      }
      if prev != null {
        prev.next := current.next;
      }
      current.next := null;
      spaceLeft := spaceLeft + current.length;
      objs := s';
      forall j | 0 <= j < |s'| - 1
        ensures s'[j].next == s'[j + 1]
      {
        if j < i - 1 {
          assert s'[j] == s[j] && s'[j + 1] == s[j + 1];
        } else if j == i - 1 {
          assert s'[j] == prev && s'[j + 1] == s[i + 1];
        } else {
          assert s'[j] == s[j + 1] && s'[j + 1] == s[j + 2];
        }
      }
    }

    /**
     * evict_object: the first, least recently used, object leaves the
     * list and its bytes return to the budget (0); on an empty list,
     * -1 and no change.
     */
    method EvictObject() returns (r: int)
      requires Valid()
      modifies this
      ensures Valid()
      ensures old(objs) == [] ==> r == -1 && objs == [] && spaceLeft == old(spaceLeft)
      ensures old(objs) != [] ==> r == 0 && objs == old(objs)[1..] && spaceLeft == old(spaceLeft) + old(objs)[0].length
    {
      var front := first;
      if front == null {
        return -1;
      }
      if front == last {
        last := null;
      }
      first := front.next;
      spaceLeft := spaceLeft + front.length;
      objs := objs[1..];
      return 0;
    }
  
    /**
     * add_to_cache: a new object holding newData under newId. Objects are
     * evicted from the front until the budget has room for it, and it is
     * appended (0). When the list runs empty first, that is, when the
     * object is larger than the whole budget, -1 with every object
     * evicted.
     */
    method AddToCache(newId: seq<char>, newData: seq<bv8>) returns (r: int)
      requires Valid()
      modifies this, objs
      ensures Valid()
      ensures r == 0 <==> |newData| <= MaxCacheSize
      ensures r != 0 ==> r == -1 && objs == [] && spaceLeft == MaxCacheSize
      ensures r == 0 ==>
        exists k: nat :: LeastEviction(old(objs), k, |newData|) && |objs| == |old(objs)| - k + 1 &&
          objs[..|objs| - 1] == old(objs)[k..] && fresh(objs[|objs| - 1]) &&
          objs[|objs| - 1].id == newId && objs[|objs| - 1].data == newData
    {
      var o := new CacheObject(newId, newData);
      ghost var k := 0;
      while spaceLeft < o.length
        invariant Valid() && 0 <= k <= |old(objs)| && objs == old(objs)[k..]
        invariant forall j :: 0 <= j < k ==> MaxCacheSize - Total(old(objs)[j..]) < o.length
        invariant fresh(o) && o.next == null
        decreases |objs|
      {
        assert MaxCacheSize - Total(old(objs)[k..]) < o.length;
        var e := EvictObject();
        if e == -1 {
          return -1;
        }
        k := k + 1;
      }
      assert LeastEviction(old(objs), k, |newData|);
      AddToEnd(o);
      assert objs[..|objs| - 1] == old(objs)[k..];
      return 0;
    }

    /**
     * search_cache: on a hit, the bytes and length of the first object
     * whose id is q are copied out and the object moves to the end of the
     * list, the others keeping their order (0); on a miss, -1 and no
     * change.
     */
    method SearchCache(q: seq<char>) returns (r: int, data: seq<bv8>, length: nat)
      requires Valid()
      modifies this, objs
      ensures Valid()
      ensures Find(old(objs), q) == |old(objs)| ==> r == -1 && objs == old(objs) && spaceLeft == old(spaceLeft)
      ensures var k := Find(old(objs), q); k < |old(objs)| ==>
        r == 0 && data == old(objs)[k].data && length == old(objs)[k].length &&
        objs == old(objs)[..k] + old(objs)[k + 1..] + [old(objs)[k]] && spaceLeft == old(spaceLeft)
    {
      var hit := first;
      ghost var i := 0;
      while hit != null
        invariant 0 <= i <= |objs|
        invariant hit == if i < |objs| then objs[i] else null
        invariant forall j :: 0 <= j < i ==> objs[j].id != q
        decreases |objs| - i
      {
        if hit.id == q {
          break;
        }
        hit := hit.next;
        i := i + 1;
      }
      if hit == null {
        return -1, [], 0;
      }
      length := hit.length;
      data := hit.data;
      ghost var s := objs;
      var m := DeleteObject(q);
      assert m !in objs by {
        forall j | 0 <= j < |objs|
          ensures objs[j] != m
        {
          if j < i {
            assert objs[j] == s[j];
          } else {
            assert objs[j] == s[j + 1];
          }
        }
      }
      AddToEnd(m);
      r := 0;
    }
  }
}
