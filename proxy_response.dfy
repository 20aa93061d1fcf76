/**
 * The caching side of forward_server_response: every piece of the
 * server's response (status line, header lines, body blocks, in the order
 * read) is appended to a buffer of MAX_OBJECT_SIZE bytes while it still
 * fits; once one append is refused no further piece is appended, and the
 * response is cached only when every append succeeded.
 */
module ProxyResponse {
  import opened ProxyCache
  import opened ProxyRequest

  /**
   * cachebuf_append: refuses (0), changing nothing, when the chunk would
   * take the buffer past MAX_OBJECT_SIZE; otherwise copies the chunk in
   * at offset length, keeps every other byte and returns 1 with the new
   * length.
   */
  method CachebufAppend(buffer: array<bv8>, length: nat, chunk: seq<bv8>) returns (ok: int, newLength: nat)
    requires buffer.Length == MaxObjectSize && length <= MaxObjectSize
    modifies buffer
    ensures length + |chunk| > MaxObjectSize ==> ok == 0 && newLength == length && buffer[..] == old(buffer[..])
    ensures length + |chunk| <= MaxObjectSize ==>
      ok == 1 && newLength == length + |chunk| && buffer[..length] == old(buffer[..length]) &&
      buffer[length..newLength] == chunk && buffer[newLength..] == old(buffer[newLength..])
  {
    if length + |chunk| > MaxObjectSize {
      return 0, length;
    }
    forall i | 0 <= i < |chunk| {
      buffer[length + i] := chunk[i];
    }
    return 1, length + |chunk|;
  }

  /** The pieces read so far fit the buffer: what valid_size says after them. */
  predicate Admitted(pieces: seq<seq<bv8>>)
  {
    |Concat(pieces)| <= MaxObjectSize
  }

  /** Once a prefix of the response is refused, every longer prefix is refused too. */
  lemma {:induction false} RefusalSticks(pieces: seq<seq<bv8>>, more: seq<seq<bv8>>)
    requires !Admitted(pieces)
    decreases |more|
    ensures !Admitted(pieces + more)
  {
    if more != [] {
      var front := more[..|more| - 1];
      RefusalSticks(pieces, front);
      assert (pieces + more)[..|pieces + more| - 1] == pieces + front;
    } else {
      assert pieces + more == pieces;
    }
  }

  /**
   * The caching part of forward_server_response: valid_size starts at 1
   * and each piece is appended while it is still 1. At the end the whole
   * response is cached under cacheId when every append succeeded, and the
   * cache is left as it was otherwise. Since MAX_OBJECT_SIZE is below
   * MAX_CACHE_SIZE, add_to_cache never fails here, so the result is 0.
   */
  method ForwardServerResponse(cache: CacheList, cacheId: string, buffer: array<bv8>, pieces: seq<seq<bv8>>)
    returns (r: int)
    requires cache.Valid() && buffer.Length == MaxObjectSize
    modifies cache, cache.objs, buffer
    ensures cache.Valid() && r == 0
    ensures !Admitted(pieces) ==> cache.objs == old(cache.objs) && cache.spaceLeft == old(cache.spaceLeft)
    ensures Admitted(pieces) ==>
      buffer[..|Concat(pieces)|] == Concat(pieces) &&
      exists k: nat :: LeastEviction(old(cache.objs), k, |Concat(pieces)|) &&
        |cache.objs| == |old(cache.objs)| - k + 1 && cache.objs[..|cache.objs| - 1] == old(cache.objs)[k..] &&
        fresh(cache.objs[|cache.objs| - 1]) &&
        cache.objs[|cache.objs| - 1].id == cacheId && cache.objs[|cache.objs| - 1].data == Concat(pieces)
  {
    var valid := 1;
    var length: nat := 0;
    var i := 0;
    while i < |pieces|
      invariant 0 <= i <= |pieces| && length <= MaxObjectSize && (valid == 0 || valid == 1)
      invariant valid == 1 <==> Admitted(pieces[..i])
      invariant valid == 1 ==> length == |Concat(pieces[..i])| && buffer[..length] == Concat(pieces[..i])
      modifies buffer
    {
      assert pieces[..i + 1][..i] == pieces[..i];
      if valid == 1 {
        valid, length := CachebufAppend(buffer, length, pieces[i]);
      } else {
        RefusalSticks(pieces[..i], [pieces[i]]);
        assert pieces[..i] + [pieces[i]] == pieces[..i + 1];
      }
      i := i + 1;
    }
    assert pieces[..i] == pieces;
    if valid == 1 {
      var added := cache.AddToCache(cacheId, buffer[..length]);
      if added == -1 {
        return -1;
      }
    }
    return 0;
  }
}
