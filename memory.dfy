/**
 * The in-memory collection of dark/storage/memory.py: a list of documents
 * addressed by position, tombstones for deleted positions, the inverted
 * index kept up to date item by item, and the per-key cache of distinct
 * values.
 */
module DarkMemory {
  import opened Outcomes
  import opened Values
  import opened Unwrap
  import opened Lookups
  import opened Index
  import opened Find
  import opened Sorting
  import opened Collection

  /** Positions not deleted. */
  function Live(data: seq<Option<Doc>>): (r: set<nat>)
    ensures forall i :: i in r <==> 0 <= i < |data| && data[i].Some?
  {
    set i | 0 <= i < |data| && data[i].Some? :: i as nat
  }

  // ------------------------------------------------------------------
  // Deleting

  /**
   * The state `delete` works on and the error it stopped with, if any;
   * `_deleted` records the keys as they were given.
   */
  datatype Deletion = Deletion(data: seq<Option<Doc>>, deleted: set<int>, index: Index, error: Option<Error>)

  /**
   * One turn of the deletion loop for key `pk`, which names the position
   * `Position(pk, n)`: the key joins `_deleted`; with `refresh_index` the
   * postings of `pk` are removed from the item's pairs, which raises
   * AttributeError when the item is already None (a negative key is never
   * posted, so it removes nothing); then the item becomes None.
   */
  function DeleteStep(s: Deletion, pk: int, refresh: bool): (r: Deletion)
    requires -|s.data| <= pk < |s.data|
    ensures |r.data| == |s.data| && r.deleted == s.deleted + {pk}
    ensures r.error.Some? <==> refresh && s.data[Position(pk, |s.data|)].None?
    ensures r.error.None? ==> r.data == s.data[Position(pk, |s.data|) := None]
    ensures r.error.Some? ==> r.data == s.data && r.index == s.index && r.error == Some(AttributeError)
    ensures pk < 0 || !refresh ==> r.index == s.index
  {
    var pos := Position(pk, |s.data|);
    if refresh && s.data[pos].None? then Deletion(s.data, s.deleted + {pk}, s.index, Some(AttributeError))
    else
      var index' := if refresh && pk >= 0 then RemovePairs(s.index, pk, DocPairs(s.data[pos].value)) else s.index;
      Deletion(s.data[pos := None], s.deleted + {pk}, index', None)
  }

  /** The deletion loop over keys that index the list, stopping at the first error. */
  function DeleteRun(data: seq<Option<Doc>>, deleted: set<int>, index: Index, ids: seq<int>, refresh: bool): (r: Deletion)
    requires Indexes(ids, |data|)
    ensures |r.data| == |data|
  {
    if |ids| == 0 then Deletion(data, deleted, index, None)
    else
      var s := DeleteRun(data, deleted, index, ids[..|ids| - 1], refresh);
      if s.error.Some? then s else DeleteStep(s, ids[|ids| - 1], refresh)
  }

  /** Every position names a live item and none is repeated. */
  predicate Deletable(data: seq<Option<Doc>>, ps: seq<nat>)
    requires forall j :: 0 <= j < |ps| ==> ps[j] < |data|
  {
    forall j :: 0 <= j < |ps| ==> data[ps[j]].Some? && ps[j] !in ps[..j]
  }

  lemma DeletableSnoc(data: seq<Option<Doc>>, ps: seq<nat>)
    requires |ps| > 0 && forall j :: 0 <= j < |ps| ==> ps[j] < |data|
    ensures Deletable(data, ps) <==>
      Deletable(data, ps[..|ps| - 1]) && data[ps[|ps| - 1]].Some? && ps[|ps| - 1] !in ps[..|ps| - 1]
  {
    var n := |ps| - 1;
    var pre := ps[..n];
    assert forall j :: 0 <= j <= n ==> ps[..j] == pre[..j] || j == n;
    if !Deletable(data, pre) {
      var j :| 0 <= j < n && !(data[pre[j]].Some? && pre[j] !in pre[..j]);
      assert ps[..j] == pre[..j];
    }
  }

  /** Without an error, the named positions become None and no other item changes. */
  lemma {:induction false} DeleteRunData(data: seq<Option<Doc>>, deleted: set<int>, index: Index, ids: seq<int>, refresh: bool)
    requires Indexes(ids, |data|)
    ensures DeleteRun(data, deleted, index, ids, refresh).error.None? ==>
      forall i :: 0 <= i < |data| ==>
        DeleteRun(data, deleted, index, ids, refresh).data[i] == if i in Positions(ids, |data|) then None else data[i]
    decreases |ids|
  {
    if |ids| > 0 {
      var n := |ids| - 1;
      DeleteRunData(data, deleted, index, ids[..n], refresh);
      PositionsPrefix(ids, |data|, n);
      assert Positions(ids, |data|) == Positions(ids[..n], |data|) + [Position(ids[n], |data|)];
    }
  }

  /**
   * Deleting with `refresh_index` raises AttributeError exactly when some
   * key names a position already None or named before; without it nothing
   * is raised.
   */
  lemma {:induction false} DeleteRunFails(data: seq<Option<Doc>>, deleted: set<int>, index: Index, ids: seq<int>, refresh: bool)
    requires Indexes(ids, |data|)
    ensures DeleteRun(data, deleted, index, ids, refresh).error.Some? <==> refresh && !Deletable(data, Positions(ids, |data|))
    ensures DeleteRun(data, deleted, index, ids, refresh).error.Some? ==> DeleteRun(data, deleted, index, ids, refresh).error == Some(AttributeError)
    decreases |ids|
  {
    if |ids| > 0 {
      var n := |ids| - 1;
      var pre := ids[..n];
      DeleteRunFails(data, deleted, index, pre, refresh);
      DeleteRunData(data, deleted, index, pre, refresh);
      PositionsPrefix(ids, |data|, n);
      DeletableSnoc(data, Positions(ids, |data|));
    }
  }

  /** `_deleted` gains the keys as given, up to and including the one that raised. */
  lemma {:induction false} DeleteRunDeleted(data: seq<Option<Doc>>, deleted: set<int>, index: Index, ids: seq<int>, refresh: bool)
    requires Indexes(ids, |data|)
    ensures deleted <= DeleteRun(data, deleted, index, ids, refresh).deleted
    ensures forall x :: x in DeleteRun(data, deleted, index, ids, refresh).deleted ==> x in deleted || x in ids
    ensures DeleteRun(data, deleted, index, ids, refresh).error.None? ==>
      forall x :: x in ids ==> x in DeleteRun(data, deleted, index, ids, refresh).deleted
    decreases |ids|
  {
    if |ids| > 0 {
      var n := |ids| - 1;
      DeleteRunDeleted(data, deleted, index, ids[..n], refresh);
      assert ids == ids[..n] + [ids[n]];
    }
  }

  /** The tombstones of `_deleted` are exactly the None items. */
  ghost predicate Tombstones(data: seq<Option<Doc>>, deleted: set<int>)
  {
    forall i :: i in deleted <==> 0 <= i < |data| && data[i].None?
  }

  lemma TombstonesAppend(data: seq<Option<Doc>>, deleted: set<int>, item: Doc)
    requires Tombstones(data, deleted)
    ensures Tombstones(data + [Some(item)], deleted)
  {
    forall i ensures i in deleted <==> 0 <= i < |data + [Some(item)]| && (data + [Some(item)])[i].None? {
      if 0 <= i < |data| {
        assert (data + [Some(item)])[i] == data[i];
      }
    }
  }

  lemma TombstonesSet(data: seq<Option<Doc>>, deleted: set<int>, pk: nat)
    requires Tombstones(data, deleted) && pk < |data|
    ensures Tombstones(data[pk := None], deleted + {pk})
    ensures Tombstones(data, deleted + {pk}) <== data[pk].None?
  {
  }

  /**
   * With keys that do not count from the end, `_deleted` keeps naming
   * exactly the None items, whether or not the loop raised.
   */
  lemma {:induction false} DeleteRunTombstones(data: seq<Option<Doc>>, deleted: set<int>, index: Index, ids: seq<int>, refresh: bool)
    requires Indexes(ids, |data|) && NonNegative(ids) && Tombstones(data, deleted)
    ensures Tombstones(DeleteRun(data, deleted, index, ids, refresh).data, DeleteRun(data, deleted, index, ids, refresh).deleted)
    decreases |ids|
  {
    if |ids| > 0 {
      var n := |ids| - 1;
      DeleteRunTombstones(data, deleted, index, ids[..n], refresh);
      var s := DeleteRun(data, deleted, index, ids[..n], refresh);
      if s.error.None? {
        TombstonesSet(s.data, s.deleted, ids[n]);
      }
    }
  }

  /**
   * A negative key empties the position it names, but `_deleted` records
   * the key and not the position, and no posting is removed: `find_ids()`
   * still yields the emptied position, and its postings stay in the index.
   */
  lemma NegativeKeyStaysFound(s: Deletion, pk: int, refresh: bool, cache: map<string, seq<Value>>)
    requires -|s.data| <= pk < 0 && s.data[|s.data| + pk].Some? && |s.data| + pk !in s.deleted
    ensures var r := DeleteStep(s, pk, refresh);
      && r.error.None? && r.data[|s.data| + pk].None? && r.index == s.index
      && |s.data| + pk in FindIdsSpec(r.data, r.deleted, r.index, cache, []).value
  {
  }


  /** Emptying one position removes its pairs from the indexed items. */
  lemma ItemsTombstone(data: seq<Option<Doc>>, pk: nat)
    requires pk < |data| && data[pk].Some?
    ensures Items(data)[pk := Items(data)[pk] - multiset(DocPairs(data[pk].value))] == Items(data[pk := None])
  {
    var a := Items(data)[pk := Items(data)[pk] - multiset(DocPairs(data[pk].value))];
    var b := Items(data[pk := None]);
    assert |a| == |b|;
    forall i | 0 <= i < |a| ensures a[i] == b[i] {
      if i == pk {
        assert multiset(DocPairs(data[pk].value)) - multiset(DocPairs(data[pk].value)) == multiset{};
      }
    }
  }

  /** One deletion turn with `refresh_index` keeps the index consistent with the items. */
  lemma DeleteStepConsistent(s: Deletion, pk: nat)
    requires pk < |s.data| && Consistent(s.index, Items(s.data))
    ensures Consistent(DeleteStep(s, pk, true).index, Items(DeleteStep(s, pk, true).data))
  {
    if s.data[pk].Some? {
      RemovePairsConsistent(s.index, Items(s.data), pk, DocPairs(s.data[pk].value));
      ItemsTombstone(s.data, pk);
    }
  }

  /**
   * A deletion with `refresh_index` by keys that do not count from the end
   * leaves the index consistent with the remaining items, each deleted item
   * holding no pairs.
   */
  lemma {:induction false} DeleteRunConsistent(data: seq<Option<Doc>>, deleted: set<int>, index: Index, ids: seq<int>)
    requires Indexes(ids, |data|) && NonNegative(ids)
    requires Consistent(index, Items(data))
    ensures Consistent(DeleteRun(data, deleted, index, ids, true).index, Items(DeleteRun(data, deleted, index, ids, true).data))
    decreases |ids|
  {
    if |ids| > 0 {
      var n := |ids| - 1;
      DeleteRunConsistent(data, deleted, index, ids[..n]);
      var s := DeleteRun(data, deleted, index, ids[..n], true);
      if s.error.None? {
        DeleteStepConsistent(s, ids[n]);
      }
    }
  }

  // ------------------------------------------------------------------
  // Finding

  /** What `find_ids(*conds)` yields, with set results enumerated in ascending order. */
  function FindIdsSpec(data: seq<Option<Doc>>, deleted: set<int>, index: Index, cache: map<string, seq<Value>>, conds: seq<Criterion>): Result<seq<nat>>
  {
    if |conds| == 0 then Success(Ascending(Below(|data|) - deleted, |data|))
    else
      match FindSpec(|data|, index, cache, conds)
      case Failure(e) => Failure(e)
      case Success(ids) => Success(Ascending(ids, |data|))
  }

  /** With no conditions, exactly the positions not deleted, in ascending order. */
  lemma FindIdsNoConditions(data: seq<Option<Doc>>, deleted: set<int>, index: Index, cache: map<string, seq<Value>>)
    requires Tombstones(data, deleted)
    ensures FindIdsSpec(data, deleted, index, cache, []).Success?
    ensures var r := FindIdsSpec(data, deleted, index, cache, []).value;
      (forall x :: x in r <==> x in Live(data)) && forall i, j :: 0 <= i < j < |r| ==> r[i] < r[j]
  {
  }

  // ------------------------------------------------------------------
  // The collection

  class MemoryCollection {
    var data: seq<Option<Doc>>
    var deleted: set<int>
    var index: Index
    var valuesCache: map<string, seq<Value>>
    /** The pairs the index currently holds for each position. */
    ghost var indexed: seq<multiset<Pair>>

    /** The index always holds exactly the postings of `indexed`. */
    ghost predicate Valid()
      reads this
    {
      |indexed| == |data| && Consistent(index, indexed)
    }

    /**
     * `_deleted` names exactly the None items; deleting by a negative key
     * breaks this (see NegativeKeyStaysFound).
     */
    ghost predicate Marked()
      reads this
    {
      Tombstones(data, deleted)
    }

    /** No item was added or deleted without refreshing the index. */
    ghost predicate Fresh()
      reads this
    {
      indexed == Items(data)
    }

    /** `MemoryCollection(data)`: keep the items and build the index. */
    constructor (docs: seq<Doc>)
      ensures Valid() && Fresh() && Marked()
      ensures |data| == |docs| && forall i :: 0 <= i < |docs| ==> data[i] == Some(docs[i])
      ensures deleted == {} && valuesCache == map[]
      ensures index == BuildIndexOf(data)
    {
      data := Present(docs);
      deleted := {};
      new;
      BuildIndex();
    }

    /** `_build_index`: index every item from scratch and reset the values cache. */
    method BuildIndex()
      requires forall i :: 0 <= i < |data| ==> data[i].Some?
      requires Tombstones(data, deleted)
      modifies this
      ensures data == old(data) && deleted == old(deleted)
      ensures Valid() && Fresh() && Marked()
      ensures index == BuildIndexOf(data) && valuesCache == map[]
    {
      BuildIndexConsistent(data);
      index := IndexAll(data);
      indexed := Items(data);
      valuesCache := map[];
    }

    /** `_build_index_for_item(pk, item)`: append `pk` to the postings of every pair of the item. */
    method BuildIndexForItem(pk: nat, item: Doc)
      modifies this
      ensures data == old(data) && deleted == old(deleted) && valuesCache == old(valuesCache)
      ensures index == AddPairs(old(index), pk, DocPairs(item))
      ensures indexed == old(indexed) + [multiset(DocPairs(item))]
    {
      index := IndexItem(index, pk, item);
      indexed := indexed + [multiset(DocPairs(item))];
    }

    /**
     * `_remove_index_for_item(pk)`: drop one posting of `pk` for every pair
     * of the item `data[pk]`, pruning emptied branches; None has no
     * `iteritems`. A negative key is in no posting list, so it drops nothing.
     */
    method RemoveIndexForItem(pk: int) returns (r: Result<()>)
      requires -|data| <= pk < |data| && |indexed| == |data| && Consistent(index, indexed)
      modifies this
      ensures data == old(data) && deleted == old(deleted) && valuesCache == old(valuesCache)
      ensures data[Position(pk, |data|)].None? ==> r == Failure(AttributeError) && index == old(index) && indexed == old(indexed)
      ensures data[Position(pk, |data|)].Some? ==> r == Success(())
      ensures data[Position(pk, |data|)].Some? && pk >= 0 ==>
        index == RemovePairs(old(index), pk, DocPairs(data[pk].value))
        && indexed == old(indexed)[pk := old(indexed)[pk] - multiset(DocPairs(data[pk].value))]
      ensures pk < 0 ==> index == old(index) && indexed == old(indexed)
      ensures |indexed| == |data| && Consistent(index, indexed)
    {
      if data[Position(pk, |data|)].None? {
        return Failure(AttributeError);
      }
      if pk < 0 {
        return Success(());
      }
      var item := data[pk].value;
      RemovePairsConsistent(index, indexed, pk, DocPairs(item));
      index := UnindexItem(index, pk, item);
      indexed := indexed[pk := indexed[pk] - multiset(DocPairs(item))];
      r := Success(());
    }

    /** `add(item, refresh_index)`: append the item and return its position. */
    method Add(item: Doc, refresh: bool) returns (pk: nat)
      requires Valid()
      modifies this
      ensures Valid() && (old(Marked()) ==> Marked())
      ensures pk == old(|data|) && data == old(data) + [Some(item)]
      ensures index == if refresh then AddPairs(old(index), pk, DocPairs(item)) else old(index)
      ensures deleted == old(deleted) && valuesCache == old(valuesCache)
      ensures old(Fresh()) && refresh ==> Fresh()
    {
      if Marked() {
        TombstonesAppend(data, deleted, item);
      }
      ItemsSnoc(data, item);
      data := data + [Some(item)];
      pk := |data| - 1;
      if refresh {
        AddItemConsistent(index, indexed, DocPairs(item));
        BuildIndexForItem(pk, item);
      } else {
        AddUnindexedConsistent(index, indexed);
        indexed := indexed + [multiset{}];
      }
    }

    /** One turn of the deletion loop of `delete`. */
    method DeleteOne(pk: int, refresh: bool) returns (err: Option<Error>)
      requires Valid() && -|data| <= pk < |data|
      modifies this
      ensures Valid() && valuesCache == old(valuesCache)
      ensures Deletion(data, deleted, index, err) == DeleteStep(Deletion(old(data), old(deleted), old(index), None), pk, refresh)
      ensures old(Fresh()) && refresh && err.None? && pk >= 0 ==> Fresh()
    {
      ghost var wasFresh := Fresh();
      deleted := deleted + {pk};
      if refresh {
        var removed := RemoveIndexForItem(pk);
        if removed.Failure? {
          return Some(removed.error);
        }
        if wasFresh && pk >= 0 {
          ItemsTombstone(data, pk);
        }
      }
      data := data[Position(pk, |data|) := None];
      err := None;
    }

    /**
     * After `j` turns of the deletion loop started from (`data0`, `deleted0`,
     * `index0`) the state, and the error raised if any, are the run over
     * `ids[..j]`.
     */
    ghost predicate Ran(data0: seq<Option<Doc>>, deleted0: set<int>, index0: Index, ids: seq<int>, refresh: bool, j: nat, err: Option<Error>)
      reads this
    {
      && Valid() && j <= |ids| && |data| == |data0|
      && Indexes(ids, |data0|)
      && Deletion(data, deleted, index, err) == DeleteRun(data0, deleted0, index0, ids[..j], refresh)
    }

    /** Turn `j` of the deletion loop: the state moves on to the run over `ids[..j + 1]`. */
    method DeleteNext(ghost data0: seq<Option<Doc>>, ghost deleted0: set<int>, ghost index0: Index, ids: seq<int>, refresh: bool, j: nat)
      returns (err: Option<Error>)
      requires Ran(data0, deleted0, index0, ids, refresh, j, None) && j < |ids|
      modifies this
      ensures valuesCache == old(valuesCache)
      ensures Ran(data0, deleted0, index0, ids, refresh, j + 1, err)
      ensures old(Fresh()) && refresh && err.None? && ids[j] >= 0 ==> Fresh()
    {
      DeleteRunLast(data0, deleted0, index0, ids, refresh, j);
      err := DeleteOne(ids[j], refresh);
    }

    /**
     * `delete(ids, refresh_index)`: every key is checked first as a list
     * index, negative keys included (an IndexError changes nothing); then
     * the deletion loop runs. Keys that do not count from the end keep
     * `_deleted` naming the None items.
     */
    method Delete(ids: seq<int>, refresh: bool) returns (r: Result<()>)
      requires Valid()
      modifies this
      ensures Valid() && valuesCache == old(valuesCache)
      ensures !Indexes(ids, old(|data|)) ==>
        r == Failure(IndexError) && data == old(data) && deleted == old(deleted) && index == old(index)
      ensures Indexes(ids, old(|data|)) ==>
        Deletion(data, deleted, index, if r.Failure? then Some(r.error) else None)
          == DeleteRun(old(data), old(deleted), old(index), ids, refresh)
      ensures old(Fresh()) && refresh && r.Success? && NonNegative(ids) ==> Fresh()
      ensures old(Marked()) && NonNegative(ids) ==> Marked()
    {
      var ok := CheckKeys(ids, |data|);
      if !ok {
        return Failure(IndexError);
      }
      if Marked() && NonNegative(ids) {
        DeleteRunTombstones(data, deleted, index, ids, refresh);
      }
      r := DeleteAll(ids, refresh);
    }

    /** The deletion loop of `delete`, over keys already checked. */
    method DeleteAll(ids: seq<int>, refresh: bool) returns (r: Result<()>)
      requires Valid()
      requires Indexes(ids, |data|)
      modifies this
      ensures Valid() && valuesCache == old(valuesCache)
      ensures Deletion(data, deleted, index, if r.Failure? then Some(r.error) else None)
          == DeleteRun(old(data), old(deleted), old(index), ids, refresh)
      ensures old(Fresh()) && refresh && r.Success? && NonNegative(ids) ==> Fresh()
    {
      ghost var wasFresh := Fresh() && NonNegative(ids);
      ghost var data0, deleted0, index0 := data, deleted, index;
      var j := 0;
      var err: Option<Error> := None;
      assert ids[..0] == [];
      while j < |ids| && err.None?
        invariant Ran(data0, deleted0, index0, ids, refresh, j, err)
        invariant valuesCache == old(valuesCache)
        invariant wasFresh && refresh && err.None? ==> Fresh()
        decreases |ids| - j
      {
        err := DeleteNext(data0, deleted0, index0, ids, refresh, j);
        j := j + 1;
      }
      if err.Some? {
        StopsDeleteRun(data0, deleted0, index0, ids, refresh, j);
        r := Failure(err.value);
      } else {
        assert ids[..j] == ids;
        r := Success(());
      }
    }

    /** `fetch_one(i)`: Python indexing, negative positions counting from the end. */
    method FetchOne(i: int) returns (r: Result<Option<Doc>>)
      ensures 0 <= i < |data| ==> r == Success(data[i])
      ensures -|data| <= i < 0 ==> r == Success(data[|data| + i])
      ensures r.Failure? <==> !(-|data| <= i < |data|)
      ensures r.Failure? ==> r.error == IndexError
    {
      if 0 <= i < |data| {
        r := Success(data[i]);
      } else if -|data| <= i < 0 {
        r := Success(data[|data| + i]);
      } else {
        r := Failure(IndexError);
      }
    }

    /**
     * `ids_by(key, value)`: TypeError for a list or dict value, which the
     * dict lookup hashes; otherwise the postings of (key, value), on a valid
     * collection exactly the positions whose indexed pairs hold it.
     */
    function IdsBy(key: string, value: Value): (r: Result<seq<nat>>)
      reads this
      ensures r.Failure? <==> !IsScalar(value)
      ensures r.Failure? ==> r.error == TypeError
      ensures Valid() && r.Success? ==> forall x: nat :: x in r.value <==> x < |indexed| && indexed[x][Pair(key, value)] > 0
      ensures Valid() && r.Success? ==> forall i, j :: 0 <= i < j < |r.value| ==> r.value[i] <= r.value[j]
    {
      var r := Lookup(index, key, value);
      assert Valid() ==> forall x: nat :: x in r <==> x < |indexed| && indexed[x][Pair(key, value)] > 0 by {
        if Valid() {
          forall x: nat ensures x in r <==> x < |indexed| && indexed[x][Pair(key, value)] > 0 {
            PostingsMembership(indexed, key, value, x);
          }
        }
      }
      assert Valid() ==> forall i, j :: 0 <= i < j < |r| ==> r[i] <= r[j] by {
        if Valid() {
          PostingsAscending(indexed, key, value);
        }
      }
      ExactIds(index, key, value)
    }

    /**
     * `values_for(key, filter_by)`: the (cached) sorted distinct values of
     * the key; with a non-empty filter, only those with a posting in it.
     */
    method ValuesFor(key: string, filterBy: seq<nat>) returns (r: seq<Value>)
      modifies this
      ensures data == old(data) && deleted == old(deleted) && index == old(index) && indexed == old(indexed)
      ensures valuesCache == old(valuesCache)[key := ValuesView(index, old(valuesCache), key)]
      ensures r == FilterValues(index, key, ValuesView(index, old(valuesCache), key), filterBy)
    {
      var vals, cache' := CachedValues(index, valuesCache, key);
      valuesCache := cache';
      r := FilterValues(index, key, vals, filterBy);
    }

    /** `find_ids(*conds)`; the values cache is filled as scanning lookups read it. */
    method FindIds(conds: seq<Criterion>) returns (r: Result<seq<nat>>)
      modifies this
      ensures data == old(data) && deleted == old(deleted) && index == old(index) && indexed == old(indexed)
      ensures r == FindIdsSpec(data, deleted, index, old(valuesCache), conds)
      ensures CacheExtends(index, old(valuesCache), valuesCache)
    {
      if |conds| == 0 {
        var ids := Enumerate(Below(|data|) - deleted, |data|);
        return Success(ids);
      }
      var found, cache' := FindIdsIn(|data|, index, valuesCache, conds);
      valuesCache := cache';
      if found.Failure? {
        return Failure(found.error);
      }
      var ids := Enumerate(found.value, |data|);
      r := Success(ids);
    }

    /**
     * `find_ids_sorted(conds, order_by)`: the found ids sorted by each
     * ordering key in turn; the sort key of a deleted item is read from
     * None, which raises AttributeError.
     */
    method FindIdsSorted(conds: seq<Criterion>, orderBy: seq<OrderKey>) returns (r: Result<seq<nat>>)
      modifies this
      ensures data == old(data) && deleted == old(deleted) && index == old(index) && indexed == old(indexed)
      ensures CacheExtends(index, old(valuesCache), valuesCache)
      ensures r == SortedResult(data, FindIdsSpec(data, deleted, index, old(valuesCache), conds), orderBy)
    {
      var found := FindIds(conds);
      r := SortFound(data, found, orderBy);
    }
  }

  /** One more turn of the deletion loop, unless it has already stopped. */
  lemma DeleteRunLast(data: seq<Option<Doc>>, deleted: set<int>, index: Index, ids: seq<int>, refresh: bool, j: nat)
    requires Indexes(ids, |data|)
    requires j < |ids|
    ensures var s := DeleteRun(data, deleted, index, ids[..j], refresh);
      DeleteRun(data, deleted, index, ids[..j + 1], refresh) == if s.error.Some? then s else DeleteStep(s, ids[j], refresh)
  {
    assert ids[..j + 1][..j] == ids[..j];
  }

  lemma {:induction false} StopsDeleteRun(data: seq<Option<Doc>>, deleted: set<int>, index: Index, ids: seq<int>, refresh: bool, m: nat)
    requires Indexes(ids, |data|)
    requires m <= |ids| && DeleteRun(data, deleted, index, ids[..m], refresh).error.Some?
    ensures DeleteRun(data, deleted, index, ids, refresh) == DeleteRun(data, deleted, index, ids[..m], refresh)
    decreases |ids| - m
  {
    if m < |ids| {
      assert ids[..m + 1][..m] == ids[..m];
      StopsDeleteRun(data, deleted, index, ids, refresh, m + 1);
    } else {
      assert ids[..m] == ids;
    }
  }
}
