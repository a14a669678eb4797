/**
 * The chunked cache in front of a one-shot iterable that query results
 * are read through.  Items are read from the source in order and appended
 * to the cache, a chunk at a time; once a read finds the source exhausted
 * the source is dropped and never read again.  The source is modelled by
 * the whole sequence of (already prepared) items it would yield: the items
 * read so far are then exactly the cache.
 */
module Iterators {
  import opened Outcomes

  /** `ITER_CHUNK_SIZE` of the newest iterator, which a `chunk_size` argument overrides. */
  const DefaultChunkSize: nat := 100

  /** The fixed `ITER_CHUNK_SIZE` of the two older iterators. */
  const FixedChunkSize: nat := 10

  /** The state of the buffer: the cache, and whether the source is still attached (`_iter` is not None). */
  datatype Buffer<T> = Buffer(cache: seq<T>, live: bool)

  /**
   * `_fill_cache(n)`: while the source is attached, `n` reads one after
   * another, each appending the next item; a read past the end drops the
   * source instead.
   */
  function Fill<T>(source: seq<T>, b: Buffer<T>, n: nat): Buffer<T>
    requires b.cache <= source
    decreases n
  {
    if !b.live || n == 0 then b
    else if |b.cache| == |source| then Buffer(b.cache, false)
    else Fill(source, Buffer(b.cache + [source[|b.cache|]], true), n - 1)
  }

  function Min(a: nat, b: nat): nat
  {
    if a <= b then a else b
  }

  /**
   * A fill appends the next `min(n, remaining)` items of the source, and
   * drops the source exactly when `n` reads go past its end; a detached
   * source is never read.
   */
  lemma {:induction false} FillAppends<T>(source: seq<T>, b: Buffer<T>, n: nat)
    requires b.cache <= source
    ensures var r := Fill(source, b, n);
      && r.cache <= source
      && (b.live ==> r.cache == source[..|b.cache| + Min(n, |source| - |b.cache|)])
      && (b.live ==> (r.live <==> n <= |source| - |b.cache|))
      && (!b.live ==> r == b)
    decreases n
  {
    if b.live && n > 0 && |b.cache| < |source| {
      var next := Buffer(b.cache + [source[|b.cache|]], true);
      assert next.cache == source[..|b.cache| + 1];
      FillAppends(source, next, n - 1);
    } else if b.live && n > 0 {
      assert b.cache == source[..|b.cache|];
    } else if b.live {
      assert b.cache == source[..|b.cache|];
    }
  }

  /**
   * `_to_list()` as written: a non-empty cache is returned as it is, even
   * when the source still holds items; an empty cache is replaced by all
   * the items of the source, which must still be attached: iterating over
   * the dropped source (None) raises TypeError.
   */
  function ToListAsWritten<T>(source: seq<T>, b: Buffer<T>): Result<(seq<T>, Buffer<T>)>
    requires b.cache <= source
  {
    if |b.cache| > 0 then Success((b.cache, b))
    else if b.live then Success((source, Buffer(source, true)))
    else Failure(TypeError)
  }

  /** `_to_list()` with the dropped source read as having nothing more to give. */
  function ToListOf<T>(source: seq<T>, b: Buffer<T>): (r: (seq<T>, Buffer<T>))
    requires b.cache <= source
    requires !b.live ==> b.cache == source
    ensures r.0 == r.1.cache && r.0 <= source
    ensures |b.cache| > 0 ==> r.1 == b
    ensures |b.cache| == 0 ==> r.0 == source
  {
    if |b.cache| > 0 then (b.cache, b)
    else if b.live then (source, Buffer(source, true))
    else (b.cache, b)
  }

  /**
   * An iterator over an empty source that has been iterated once holds an
   * empty cache and a dropped source: `len()` then raises TypeError instead
   * of giving 0.
   */
  lemma EmptyExhaustedToList<T>(source: seq<T>, chunk: nat)
    requires |source| == 0 && chunk > 0
    ensures Fill(source, Buffer([], true), chunk) == Buffer([], false)
    ensures ToListAsWritten(source, Fill(source, Buffer([], true), chunk)) == Failure(TypeError)
    ensures ToListOf(source, Fill(source, Buffer([], true), chunk)).0 == []
  {
  }

  /**
   * The worked example of the chunked iterator: over fifteen items with
   * chunks of ten, `[0]` caches the first ten, and `[10]` asks for
   * 10 - 10 + 10 more, which reads the last five and drops the source.
   */
  lemma ChunkExample<T>(source: seq<T>)
    requires |source| == 15
    ensures Fill(source, Buffer([], true), 0 - 0 + FixedChunkSize) == Buffer(source[..10], true)
    ensures Fill(source, Buffer(source[..10], true), 10 - 10 + FixedChunkSize) == Buffer(source, false)
  {
    FillAppends(source, Buffer([], true), 10);
    FillAppends(source, Buffer(source[..10], true), 10);
  }

  class CachedIterator<T> {
    /** What the source yields, in order, each item already prepared. */
    const source: seq<T>
    const chunkSize: nat
    var cache: seq<T>
    /** `_iter` is not None. */
    var live: bool

    /** The cache is what has been read, and all of the source once the source is dropped. */
    ghost predicate Valid()
      reads this
    {
      && cache <= source
      && (!live ==> cache == source)
      && chunkSize > 0
    }

    /** `CachedIterator(iterable=..., chunk_size=...)`: an empty cache; no iterable means no source. */
    constructor (iterable: Option<seq<T>>, chunkSize: nat)
      requires chunkSize > 0
      ensures Valid()
      ensures source == (if iterable.Some? then iterable.value else [])
      ensures this.chunkSize == chunkSize && cache == [] && live == iterable.Some?
    {
      source := if iterable.Some? then iterable.value else [];
      this.chunkSize := chunkSize;
      cache := [];
      live := iterable.Some?;
    }

    /** `_fill_cache(num)`: `num` more reads (the chunk size when `num` is 0). */
    method FillCache(num: nat)
      requires Valid()
      modifies this
      ensures Valid()
      ensures Buffer(cache, live) == Fill(source, old(Buffer(cache, live)), if num == 0 then chunkSize else num)
    {
      var n := if num == 0 then chunkSize else num;
      ghost var start := Buffer(cache, live);
      if !live {
        return;
      }
      var i := 0;
      while i < n
        invariant 0 <= i <= n
        invariant cache <= source && (!live ==> cache == source)
        invariant Fill(source, start, n) == Fill(source, Buffer(cache, live), n - i)
        decreases n - i
      {
        if !live {
          break;
        }
        if |cache| == |source| {
          live := false;
          break;
        }
        var k := |cache|;
        assert cache == source[..k];
        cache := cache + [source[k]];
        assert cache == source[..k + 1];
        i := i + 1;
      }
    }

    /**
     * `self[idx]`: an index past the cache first reads `idx - len(cache) +
     * chunk_size` more items; the cache is then indexed the Python way.
     */
    method GetItem(idx: int) returns (r: Result<T>)
      requires Valid()
      modifies this
      ensures Valid()
      ensures old(|cache|) <= idx ==> Buffer(cache, live) == Fill(source, old(Buffer(cache, live)), idx - old(|cache|) + chunkSize)
      ensures idx < old(|cache|) ==> cache == old(cache) && live == old(live)
      ensures 0 <= idx < |source| ==> r == Success(source[idx])
      ensures idx >= |source| ==> r == Failure(IndexError)
      ensures idx < 0 ==> r == (if -|cache| <= idx then Success(cache[|cache| + idx]) else Failure(IndexError))
    {
      var upper := |cache|;
      if upper <= idx {
        FillCache(idx - upper + chunkSize);
        FillAppends(source, old(Buffer(cache, live)), idx - upper + chunkSize);
      }
      if 0 <= idx < |cache| {
        r := Success(cache[idx]);
      } else if -|cache| <= idx < 0 {
        r := Success(cache[|cache| + idx]);
      } else {
        r := Failure(IndexError);
      }
    }

    /** `_to_list()`: a non-empty cache as it is, or else every item of the source. */
    method ToList() returns (r: seq<T>)
      requires Valid()
      modifies this
      ensures Valid()
      ensures (r, Buffer(cache, live)) == ToListOf(source, old(Buffer(cache, live)))
    {
      if |cache| == 0 && live {
        cache := source;
      }
      r := cache;
    }

    /** `len(self)`: the length of `_to_list()`. */
    method Length() returns (n: nat)
      requires Valid()
      modifies this
      ensures Valid()
      ensures n == |ToListOf(source, old(Buffer(cache, live))).0|
      ensures Buffer(cache, live) == ToListOf(source, old(Buffer(cache, live))).1
    {
      var items := ToList();
      n := |items|;
    }

    /**
     * `iter(self)`: fill once if the cache is empty, then yield the cache
     * from the current position and refill, chunk after chunk, until the
     * source is dropped.  Every item of the source comes out, in order.
     */
    method Iterate() returns (out: seq<T>)
      requires Valid()
      modifies this
      ensures Valid()
      ensures out == source
      ensures cache == source && !live
    {
      if |cache| == 0 {
        FillCache(0);
      }
      out := cache;
      while true
        invariant Valid()
        invariant out == cache
        decreases |source| - |cache| + (if live then 1 else 0)
      {
        if !live {
          break;
        }
        ghost var before := Buffer(cache, live);
        FillCache(0);
        FillAppends(source, before, chunkSize);
        out := cache;
      }
    }
  }
}
