/**
 * The older in-memory collection of datashaping/storage/memory.py: no
 * tombstone set; a deleted document is replaced by an empty document and
 * the whole index is rebuilt.
 */
module ShapingMemory {
  import opened Outcomes
  import opened Values
  import opened Unwrap
  import opened Lookups
  import opened Index
  import opened Find
  import opened Collection

  /** `xrange(0, n)`: every position in ascending order. */
  function Range(n: nat): (r: seq<nat>)
    ensures |r| == n && forall i :: 0 <= i < n ==> r[i] == i
  {
    seq(n, i requires 0 <= i < n => i as nat)
  }

  /** The documents after `data[pk] = {}` for every key in `ids`, negative keys counting from the end. */
  function Cleared(data: seq<Doc>, ids: seq<int>): (r: seq<Doc>)
    requires Indexes(ids, |data|)
    ensures |r| == |data|
    ensures forall i :: 0 <= i < |data| ==> r[i] == if i in Positions(ids, |data|) then [] else data[i]
  {
    var ps := Positions(ids, |data|);
    seq(|data|, i requires 0 <= i < |data| => if i as nat in ps then [] else data[i])
  }

  /**
   * What `find_ids(*conds)` yields: every position (deleted ones included)
   * without conditions, otherwise the shared include/exclude combination
   * with set results enumerated in ascending order.
   */
  function FindIdsSpec(data: seq<Doc>, index: Index, cache: map<string, seq<Value>>, conds: seq<Criterion>): Result<seq<nat>>
  {
    if |conds| == 0 then Success(Range(|data|))
    else
      match FindSpec(|data|, index, cache, conds)
      case Failure(e) => Failure(e)
      case Success(ids) => Success(Ascending(ids, |data|))
  }

  /** Every id `find_ids` yields is a position of the collection. */
  lemma FindIdsInRange(data: seq<Doc>, index: Index, cache: map<string, seq<Value>>, conds: seq<Criterion>)
    ensures var r := FindIdsSpec(data, index, cache, conds);
      r.Success? ==> forall j :: 0 <= j < |r.value| ==> r.value[j] < |data|
  {
    var r := FindIdsSpec(data, index, cache, conds);
    if r.Success? && |conds| > 0 {
      forall j | 0 <= j < |r.value| ensures r.value[j] < |data| {
        assert r.value[j] in r.value;
      }
    }
  }

  /**
   * No item is ever None here, so `find_ids_sorted` fails only when
   * `find_ids` does: the result is then a sorted permutation of the found ids.
   */
  lemma SortingNeverFails(data: seq<Doc>, index: Index, cache: map<string, seq<Value>>, conds: seq<Criterion>, orderBy: seq<OrderKey>)
    ensures var found := FindIdsSpec(data, index, cache, conds);
      found.Success? ==> SortedResult(Present(data), found, orderBy) == Success(SortAll(Present(data), found.value, orderBy))
  {
    FindIdsInRange(data, index, cache, conds);
  }

  class MemoryCollection {
    var data: seq<Doc>
    var index: Index
    var valuesCache: map<string, seq<Value>>
    /** The pairs the index currently holds for each position. */
    ghost var indexed: seq<multiset<Pair>>

    /** The index holds exactly the postings of `indexed`. */
    ghost predicate Valid()
      reads this
    {
      |indexed| == |data| && Consistent(index, indexed)
    }

    /** The index was rebuilt after the last deletion. */
    ghost predicate Fresh()
      reads this
    {
      indexed == Items(Present(data))
    }

    /** `MemoryCollection(data)`: keep the items and build the index. */
    constructor (docs: seq<Doc>)
      ensures Valid() && Fresh()
      ensures data == docs && valuesCache == map[]
      ensures index == BuildIndexOf(Present(docs))
    {
      data := docs;
      new;
      BuildIndex();
    }

    /** `_build_index`: index every item from scratch and reset the values cache. */
    method BuildIndex()
      modifies this
      ensures data == old(data)
      ensures Valid() && Fresh()
      ensures index == BuildIndexOf(Present(data)) && valuesCache == map[]
    {
      var items := Present(data);
      BuildIndexConsistent(items);
      index := IndexAll(items);
      indexed := Items(items);
      valuesCache := map[];
    }

    /**
     * `delete(ids, refresh_index)`: every position is checked first (an
     * IndexError changes nothing); each named document is emptied; with
     * `refresh_index` the index is rebuilt and the values cache reset.
     */
    method Delete(ids: seq<int>, refresh: bool) returns (r: Result<()>)
      requires Valid()
      modifies this
      ensures Valid()
      ensures r.Failure? <==> !Indexes(ids, old(|data|))
      ensures r.Failure? ==> r.error == IndexError && data == old(data) && index == old(index) && valuesCache == old(valuesCache)
      ensures r.Success? ==> Indexes(ids, old(|data|)) && data == Cleared(old(data), ids)
      ensures r.Success? && refresh ==> Fresh() && index == BuildIndexOf(Present(data)) && valuesCache == map[]
      ensures r.Success? && !refresh ==> index == old(index) && valuesCache == old(valuesCache) && indexed == old(indexed)
    {
      var ok := CheckKeys(ids, |data|);
      if !ok {
        return Failure(IndexError);
      }
      data := ClearAll(data, ids);
      if refresh {
        BuildIndex();
      }
      r := Success(());
    }

    /** `fetch_one(i)`: Python indexing, negative positions counting from the end. */
    method FetchOne(i: int) returns (r: Result<Doc>)
      ensures 0 <= i < |data| ==> r == Success(data[i])
      ensures -|data| <= i < 0 ==> r == Success(data[|data| + i])
      ensures r.Failure? <==> !(-|data| <= i < |data|)
      ensures r.Failure? ==> r.error == IndexError
    {
      if 0 <= i < |data| {
        r := Success(data[i]);
      } else if -|data| <= i < 0 {
        r := Success(data[|data| + i]);
      } else {
        r := Failure(IndexError);
      }
    }

    /**
     * `ids_by(key, value)`: TypeError for a list or dict value, which the
     * dict lookup hashes; otherwise, on a valid collection, exactly the
     * positions whose indexed pairs hold (key, value), in ascending order.
     */
    function IdsBy(key: string, value: Value): (r: Result<seq<nat>>)
      reads this
      ensures r.Failure? <==> !IsScalar(value)
      ensures r.Failure? ==> r.error == TypeError
      ensures Valid() && r.Success? ==> forall x: nat :: x in r.value <==> x < |indexed| && indexed[x][Pair(key, value)] > 0
      ensures Valid() && r.Success? ==> forall i, j :: 0 <= i < j < |r.value| ==> r.value[i] <= r.value[j]
    {
      var r := Lookup(index, key, value);
      assert Valid() ==> forall x: nat :: x in r <==> x < |indexed| && indexed[x][Pair(key, value)] > 0 by {
        if Valid() {
          forall x: nat ensures x in r <==> x < |indexed| && indexed[x][Pair(key, value)] > 0 {
            PostingsMembership(indexed, key, value, x);
          }
        }
      }
      assert Valid() ==> forall i, j :: 0 <= i < j < |r| ==> r[i] <= r[j] by {
        if Valid() {
          PostingsAscending(indexed, key, value);
        }
      }
      ExactIds(index, key, value)
    }

    /**
     * `values_for(key, filter_by)`: the (cached) sorted distinct values of
     * the key; with a non-empty filter, only those with a posting in it.
     */
    method ValuesFor(key: string, filterBy: seq<nat>) returns (r: seq<Value>)
      modifies this
      ensures data == old(data) && index == old(index) && indexed == old(indexed)
      ensures valuesCache == old(valuesCache)[key := ValuesView(index, old(valuesCache), key)]
      ensures r == FilterValues(index, key, ValuesView(index, old(valuesCache), key), filterBy)
    {
      var vals, cache' := CachedValues(index, valuesCache, key);
      valuesCache := cache';
      r := FilterValues(index, key, vals, filterBy);
    }

    /** `find_ids(*conds)`; the values cache is filled as scanning lookups read it. */
    method FindIds(conds: seq<Criterion>) returns (r: Result<seq<nat>>)
      modifies this
      ensures data == old(data) && index == old(index) && indexed == old(indexed)
      ensures r == FindIdsSpec(data, index, old(valuesCache), conds)
      ensures CacheExtends(index, old(valuesCache), valuesCache)
    {
      if |conds| == 0 {
        return Success(Range(|data|));
      }
      var found, cache' := FindIdsIn(|data|, index, valuesCache, conds);
      valuesCache := cache';
      if found.Failure? {
        return Failure(found.error);
      }
      var ids := Enumerate(found.value, |data|);
      r := Success(ids);
    }

    /** `find_ids_sorted(conds, order_by)`: the found ids sorted by each ordering key in turn. */
    method FindIdsSorted(conds: seq<Criterion>, orderBy: seq<OrderKey>) returns (r: Result<seq<nat>>)
      modifies this
      ensures data == old(data) && index == old(index) && indexed == old(indexed)
      ensures CacheExtends(index, old(valuesCache), valuesCache)
      ensures r == SortedResult(Present(data), FindIdsSpec(data, index, old(valuesCache), conds), orderBy)
    {
      var found := FindIds(conds);
      r := SortFound(Present(data), found, orderBy);
    }
  }

  /** The emptying loop of `delete`. */
  method ClearAll(data: seq<Doc>, ids: seq<int>) returns (r: seq<Doc>)
    requires Indexes(ids, |data|)
    ensures r == Cleared(data, ids)
  {
    r := data;
    var j := 0;
    while j < |ids|
      invariant 0 <= j <= |ids| && |r| == |data|
      invariant forall i :: 0 <= i < |data| ==> r[i] == if i in Positions(ids, |data|)[..j] then [] else data[i]
    {
      assert Positions(ids, |data|)[..j + 1] == Positions(ids, |data|)[..j] + [Position(ids[j], |data|)];
      r := r[Position(ids[j], |data|) := []];
      j := j + 1;
    }
    assert Positions(ids, |data|)[..j] == Positions(ids, |data|);
  }

  /**
   * Once the index is rebuilt, a deleted (emptied) document has no posting
   * under any key, so no exact lookup finds it.
   */
  lemma EmptiedNotIndexed(data: seq<Doc>, index: Index, x: nat, k: string, v: Value)
    requires Consistent(index, Items(Present(data)))
    requires x < |data| && data[x] == []
    ensures x !in Lookup(index, k, v)
  {
    PostingsMembership(Items(Present(data)), k, v, x);
  }
}
