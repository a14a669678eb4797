/**
 * The dataset and lazy query of datashaping/db.py: a read-only list of
 * documents with its inverted index, and queries that accumulate criteria
 * by cloning, execute once and keep the matching ids.
 */
module ShapingDb {
  import opened Outcomes
  import opened Values
  import opened Unwrap
  import opened Lookups
  import opened Index
  import opened Find
  import opened Collection
  import ShapingMemory

  /** Every cached list of values is what `values_for` computes from the index. */
  ghost predicate Cached(index: Index, cache: map<string, seq<Value>>)
  {
    forall k :: k in cache ==> cache[k] == IndexedValues(index, k)
  }

  lemma CachedView(index: Index, cache: map<string, seq<Value>>, k: string)
    requires Cached(index, cache)
    ensures ValuesView(index, cache, k) == IndexedValues(index, k)
  {
  }

  lemma CachedExtends(index: Index, cache: map<string, seq<Value>>, cache': map<string, seq<Value>>)
    requires Cached(index, cache) && CacheExtends(index, cache, cache')
    ensures Cached(index, cache')
  {
  }

  // ------------------------------------------------------------------
  // `_order_results`

  /** No position occurs twice. */
  predicate Distinct(s: seq<nat>)
  {
    forall i, j :: 0 <= i < j < |s| ==> s[i] != s[j]
  }

  /** `x` is posted under the key for some value of `vals`. */
  predicate PostedAmong(index: Index, key: string, vals: seq<Value>, x: nat)
  {
    exists v :: v in vals && x in Lookup(index, key, v)
  }

  /**
   * The inner loop of `_order_results` over one value's postings: an id
   * still in `ids` is yielded and popped from `ids`. The result holds the
   * yielded ids and what is left of `ids`.
   */
  function Walk(postings: seq<nat>, ids: seq<nat>): (r: (seq<nat>, seq<nat>))
    ensures multiset(r.0) + multiset(r.1) == multiset(ids)
    ensures forall x :: x in r.0 ==> x in postings
  {
    if |postings| == 0 then ([], ids)
    else if postings[0] in ids then
      var rest := RemoveFirst(ids, postings[0]);
      var w := Walk(postings[1..], rest);
      assert forall x :: x in w.0 ==> x in postings by {
        forall x | x in w.0 ensures x in postings {
          assert x in postings[1..];
        }
      }
      assert multiset(ids) == multiset(rest) + multiset{postings[0]} by {
        assert postings[0] in multiset(ids);
      }
      assert multiset([postings[0]] + w.0) == multiset{postings[0]} + multiset(w.0);
      ([postings[0]] + w.0, w.1)
    else
      var w := Walk(postings[1..], ids);
      assert forall x :: x in w.0 ==> x in postings by {
        forall x | x in w.0 ensures x in postings {
          assert x in postings[1..];
        }
      }
      w
  }

  /**
   * `_order_results(ids)` as written: the values are walked in order and,
   * within each, its postings; the second component is what the popping
   * leaves of the list it was given.
   */
  function OrderedWalk(index: Index, key: string, vals: seq<Value>, ids: seq<nat>): (r: (seq<nat>, seq<nat>))
    ensures multiset(r.0) + multiset(r.1) == multiset(ids)
    ensures forall x :: x in r.0 ==> PostedAmong(index, key, vals, x)
  {
    if |vals| == 0 then ([], ids)
    else
      var w := Walk(Lookup(index, key, vals[0]), ids);
      var rest := OrderedWalk(index, key, vals[1..], w.1);
      assert forall x :: x in w.0 + rest.0 ==> PostedAmong(index, key, vals, x) by {
        forall x | x in w.0 + rest.0 ensures PostedAmong(index, key, vals, x) {
          if x in w.0 {
            assert vals[0] in vals;
          } else {
            var v :| v in vals[1..] && x in Lookup(index, key, v);
            assert v in vals;
          }
        }
      }
      (w.0 + rest.0, rest.1)
  }

  /** The ids the ordered iteration yields, each at most once. */
  function OrderedIds(index: Index, key: string, vals: seq<Value>, ids: seq<nat>): (r: seq<nat>)
    requires Distinct(ids)
    ensures Distinct(r)
    ensures forall x :: x in r <==> x in ids && PostedAmong(index, key, vals, x)
  {
    var w := OrderedWalk(index, key, vals, ids);
    OrderedWalkDistinct(index, key, vals, ids);
    OrderedWalkComplete(index, key, vals, ids);
    w.0
  }

  lemma DistinctCounts(s: seq<nat>)
    ensures Distinct(s) <==> forall x :: multiset(s)[x] <= 1
  {
    if Distinct(s) {
      forall x ensures multiset(s)[x] <= 1 {
        DistinctCount(s, x);
      }
    }
    if !Distinct(s) {
      var i, j :| 0 <= i < j < |s| && s[i] == s[j];
      assert s == s[..j] + [s[j]] + s[j + 1..];
      assert s[i] in s[..j];
      assert multiset(s)[s[j]] == multiset(s[..j])[s[j]] + 1 + multiset(s[j + 1..])[s[j]];
    }
  }

  lemma {:induction false} DistinctCount(s: seq<nat>, x: nat)
    requires Distinct(s)
    ensures multiset(s)[x] <= 1
    decreases |s|
  {
    if |s| > 0 {
      assert s == [s[0]] + s[1..];
      assert Distinct(s[1..]);
      DistinctCount(s[1..], x);
      if s[0] == x {
        assert x !in s[1..];
      }
    }
  }

  /** The ordered iteration yields no id twice. */
  lemma OrderedWalkDistinct(index: Index, key: string, vals: seq<Value>, ids: seq<nat>)
    requires Distinct(ids)
    ensures Distinct(OrderedWalk(index, key, vals, ids).0)
    ensures Distinct(OrderedWalk(index, key, vals, ids).1)
  {
    var w := OrderedWalk(index, key, vals, ids);
    DistinctCounts(ids);
    assert forall x :: multiset(w.0)[x] + multiset(w.1)[x] == multiset(ids)[x];
    DistinctCounts(w.0);
    DistinctCounts(w.1);
  }

  /** With distinct ids, one value's walk pops every id it posts. */
  lemma {:induction false} WalkComplete(postings: seq<nat>, ids: seq<nat>, x: nat)
    requires Distinct(ids)
    ensures x in Walk(postings, ids).0 <==> x in ids && x in postings
    ensures x in Walk(postings, ids).1 <==> x in ids && x !in postings
    decreases |postings|
  {
    if |postings| > 0 {
      var p := postings[0];
      assert postings == [p] + postings[1..];
      if p in ids {
        var ids': seq<nat> := RemoveFirst(ids, p);
        RemoveFirstDistinct(ids, p, x);
        WalkComplete(postings[1..], ids', x);
      } else {
        WalkComplete(postings[1..], ids, x);
      }
    }
  }

  /** Removing an id from distinct ids leaves them distinct, and without that id. */
  lemma RemoveFirstDistinct(ids: seq<nat>, p: nat, x: nat)
    requires Distinct(ids) && p in ids
    ensures Distinct(RemoveFirst(ids, p))
    ensures x in RemoveFirst(ids, p) <==> x in ids && x != p
  {
    var ids': seq<nat> := RemoveFirst(ids, p);
    DistinctCounts(ids);
    DistinctCounts(ids');
    assert multiset(ids')[x] <= multiset(ids)[x];
    if x == p {
      assert multiset(ids')[x] == 0;
    }
  }

  /** With distinct ids, the iteration yields exactly the ids posted under some walked value. */
  lemma {:induction false} OrderedWalkComplete(index: Index, key: string, vals: seq<Value>, ids: seq<nat>)
    requires Distinct(ids)
    ensures forall x :: x in OrderedWalk(index, key, vals, ids).0 <==> x in ids && PostedAmong(index, key, vals, x)
    ensures forall x :: x in OrderedWalk(index, key, vals, ids).1 <==> x in ids && !PostedAmong(index, key, vals, x)
    decreases |vals|
  {
    if |vals| > 0 {
      var postings := Lookup(index, key, vals[0]);
      var w := Walk(postings, ids);
      forall x ensures x in w.1 <==> x in ids && x !in postings {
        WalkComplete(postings, ids, x);
      }
      forall x ensures x in w.0 <==> x in ids && x in postings {
        WalkComplete(postings, ids, x);
      }
      var m := multiset(w.1);
      assert Distinct(w.1) by {
        DistinctCounts(ids);
        DistinctCounts(w.1);
        assert forall y :: multiset(w.0)[y] + m[y] == multiset(ids)[y];
      }
      OrderedWalkComplete(index, key, vals[1..], w.1);
      forall x ensures PostedAmong(index, key, vals, x) <==> x in postings || PostedAmong(index, key, vals[1..], x) {
        if PostedAmong(index, key, vals, x) {
          var v :| v in vals && x in Lookup(index, key, v);
          if v != vals[0] {
            assert v in vals[1..];
          }
        }
        if PostedAmong(index, key, vals[1..], x) {
          var v :| v in vals[1..] && x in Lookup(index, key, v);
          assert v in vals;
        }
        if x in postings {
          assert vals[0] in vals;
        }
      }
    }
  }

  /** Position of the first walked value that posts `x` (`|vals|` if none). */
  function FirstPosting(index: Index, key: string, vals: seq<Value>, x: nat): (r: nat)
    ensures r <= |vals|
    ensures r < |vals| ==> x in Lookup(index, key, vals[r])
    ensures forall p :: 0 <= p < r ==> x !in Lookup(index, key, vals[p])
  {
    if |vals| == 0 then 0
    else if x in Lookup(index, key, vals[0]) then 0
    else 1 + FirstPosting(index, key, vals[1..], x)
  }

  /**
   * The iteration follows the order of the values: an id is yielded at the
   * first value that posts it, and ids of earlier values come first.
   */
  lemma {:induction false} OrderedWalkOrder(index: Index, key: string, vals: seq<Value>, ids: seq<nat>)
    requires Distinct(ids)
    ensures var y := OrderedWalk(index, key, vals, ids).0;
      forall i, j :: 0 <= i < j < |y| ==> FirstPosting(index, key, vals, y[i]) <= FirstPosting(index, key, vals, y[j])
    decreases |vals|
  {
    if |vals| > 0 {
      var postings := Lookup(index, key, vals[0]);
      var w := Walk(postings, ids);
      WalkRestDistinct(postings, ids);
      var rest := OrderedWalk(index, key, vals[1..], w.1);
      OrderedWalkOrder(index, key, vals[1..], w.1);
      var y := w.0 + rest.0;
      assert y == OrderedWalk(index, key, vals, ids).0;
      forall i | 0 <= i < |y|
        ensures i < |w.0| ==> FirstPosting(index, key, vals, y[i]) == 0
        ensures |w.0| <= i ==> FirstPosting(index, key, vals, y[i]) == 1 + FirstPosting(index, key, vals[1..], rest.0[i - |w.0|])
      {
        if i < |w.0| {
          assert y[i] in w.0;
        } else {
          assert y[i] == rest.0[i - |w.0|];
          RestNotPosted(index, key, vals, ids, y[i]);
        }
      }
    }
  }

  lemma WalkRestDistinct(postings: seq<nat>, ids: seq<nat>)
    requires Distinct(ids)
    ensures Distinct(Walk(postings, ids).1)
  {
    var w := Walk(postings, ids);
    DistinctCounts(ids);
    DistinctCounts(w.1);
    assert forall y :: multiset(w.0)[y] + multiset(w.1)[y] == multiset(ids)[y];
  }

  /** An id yielded after the first value's walk is not posted under the first value. */
  lemma RestNotPosted(index: Index, key: string, vals: seq<Value>, ids: seq<nat>, x: nat)
    requires Distinct(ids) && |vals| > 0
    requires x in OrderedWalk(index, key, vals[1..], Walk(Lookup(index, key, vals[0]), ids).1).0
    ensures x !in Lookup(index, key, vals[0])
  {
    var postings := Lookup(index, key, vals[0]);
    var w := Walk(postings, ids);
    WalkRestDistinct(postings, ids);
    OrderedWalkComplete(index, key, vals[1..], w.1);
    WalkComplete(postings, ids, x);
  }

  /** The values `_order_results` walks: sorted, or reversed when `order_reversed`. */
  function OrderValues(vals: seq<Value>, reversed: bool): (r: seq<Value>)
    ensures |r| == |vals|
    ensures forall i :: 0 <= i < |vals| ==> r[i] == if reversed then vals[|vals| - 1 - i] else vals[i]
  {
    if reversed then seq(|vals|, i requires 0 <= i < |vals| => vals[|vals| - 1 - i]) else vals
  }

  /**
   * Iterating an ordered query pops every yielded id out of the query's
   * own cached list, so `len(query)` drops from 1 to 0 once the query has
   * been iterated.
   */
  lemma OrderingConsumesIds()
    ensures var index: Index := map["k" := map[Int(1) := [0]]];
      OrderedWalk(index, "k", [Int(1)], [0]) == ([0], [])
  {
    var index: Index := map["k" := map[Int(1) := [0]]];
    assert Lookup(index, "k", Int(1)) == [0];
    var one: seq<nat> := [0];
    var none: seq<nat> := [];
    assert RemoveFirst(one, 0) == none;
    assert one[1..] == none;
    assert one[0] == 0 && one[0] in one;
    var w := Walk(one[1..], RemoveFirst(one, one[0]));
    assert w == Walk(none, none) == (none, none);
    assert [one[0]] + w.0 == one;
    assert Walk(one, one) == (one, none);
    assert OrderedWalk(index, "k", [Int(1)][1..], []) == ([], []);
  }

  // ------------------------------------------------------------------
  // The dataset

  class Dataset {
    var data: seq<Doc>
    var index: Index
    var valuesCache: map<string, seq<Value>>

    /** The index holds exactly the pairs of every document; every cached value list is current. */
    ghost predicate Valid()
      reads this
    {
      Consistent(index, Items(Present(data))) && Cached(index, valuesCache)
    }

    /** `Dataset(data)`: keep the documents and build the index. */
    constructor (docs: seq<Doc>)
      ensures Valid()
      ensures data == docs && valuesCache == map[]
      ensures index == BuildIndexOf(Present(docs))
    {
      data := docs;
      new;
      BuildIndex();
    }

    /** `_build_index`: index every document from scratch and reset the values cache. */
    method BuildIndex()
      modifies this
      ensures data == old(data)
      ensures Valid()
      ensures index == BuildIndexOf(Present(data)) && valuesCache == map[]
    {
      BuildIndexConsistent(Present(data));
      index := IndexAll(Present(data));
      valuesCache := map[];
    }

    /** `get_doc(i)`: Python indexing, negative positions counting from the end. */
    method GetDoc(i: int) returns (r: Result<Doc>)
      ensures 0 <= i < |data| ==> r == Success(data[i])
      ensures -|data| <= i < 0 ==> r == Success(data[|data| + i])
      ensures r.Failure? <==> !(-|data| <= i < |data|)
      ensures r.Failure? ==> r.error == IndexError
    {
      if 0 <= i < |data| {
        r := Success(data[i]);
      } else if -|data| <= i < 0 {
        r := Success(data[|data| + i]);
      } else {
        r := Failure(IndexError);
      }
    }

    /** `values_for(key)`: the sorted distinct indexed values, cached per key. */
    method ValuesFor(key: string) returns (r: seq<Value>)
      requires Valid()
      modifies this
      ensures data == old(data) && index == old(index) && Valid()
      ensures valuesCache == old(valuesCache)[key := r]
      ensures r == IndexedValues(index, key)
      ensures StrictlySorted(r) && forall v :: v in r <==> exists x: nat :: DocHolds(data, x, Pair(key, v))
    {
      var cache';
      r, cache' := CachedValues(index, valuesCache, key);
      valuesCache := cache';
      forall v ensures v in r <==> exists x: nat :: DocHolds(data, x, Pair(key, v)) {
        IndexedValuesMeaning(data, index, key, v);
      }
    }

    /**
     * `ids_by(key, value)`: TypeError for a list or dict value; otherwise,
     * on a valid dataset, exactly the documents holding (key, value), ascending.
     */
    function IdsBy(key: string, value: Value): (r: Result<seq<nat>>)
      reads this
      ensures r.Failure? <==> !IsScalar(value)
      ensures r.Failure? ==> r.error == TypeError
      ensures Valid() && r.Success? ==> forall x: nat :: x in r.value <==> DocHolds(data, x, Pair(key, value))
      ensures Valid() && r.Success? ==> forall i, j :: 0 <= i < j < |r.value| ==> r.value[i] <= r.value[j]
    {
      var r := Lookup(index, key, value);
      assert Valid() ==> forall x: nat :: x in r <==> DocHolds(data, x, Pair(key, value)) by {
        if Valid() {
          forall x: nat ensures x in r <==> DocHolds(data, x, Pair(key, value)) {
            PostingsMembership(Items(Present(data)), key, value, x);
            PresentItems(data, x, Pair(key, value));
          }
        }
      }
      assert Valid() ==> forall i, j :: 0 <= i < j < |r| ==> r[i] <= r[j] by {
        if Valid() {
          PostingsAscending(Items(Present(data)), key, value);
        }
      }
      ExactIds(index, key, value)
    }

    /** `find_ids(*criteria)`, filling the values cache as scanning lookups read it. */
    method FindIds(criteria: seq<Criterion>) returns (r: Result<seq<nat>>)
      requires Valid()
      modifies this
      ensures data == old(data) && index == old(index) && Valid()
      ensures r == ShapingMemory.FindIdsSpec(data, index, old(valuesCache), criteria)
      ensures CacheExtends(index, old(valuesCache), valuesCache)
    {
      if |criteria| == 0 {
        return Success(ShapingMemory.Range(|data|));
      }
      var found, cache' := FindIdsIn(|data|, index, valuesCache, criteria);
      CachedExtends(index, valuesCache, cache');
      valuesCache := cache';
      if found.Failure? {
        return Failure(found.error);
      }
      var ids := Enumerate(found.value, |data|);
      r := Success(ids);
    }
  }

  /** On a consistent index, the indexed values of a key are those some document holds. */
  lemma IndexedValuesMeaning(data: seq<Doc>, index: Index, key: string, v: Value)
    requires Consistent(index, Items(Present(data)))
    ensures v in IndexedValues(index, key) <==> exists x: nat :: DocHolds(data, x, Pair(key, v))
  {
    var items := Items(Present(data));
    if v in IndexedValues(index, key) {
      assert index[key][v] != [];
      var x := index[key][v][0];
      assert x in Lookup(index, key, v);
      PostingsMembership(items, key, v, x);
      PresentItems(data, x, Pair(key, v));
    }
    if exists x: nat :: DocHolds(data, x, Pair(key, v)) {
      var x: nat :| DocHolds(data, x, Pair(key, v));
      PostingsMembership(items, key, v, x);
      PresentItems(data, x, Pair(key, v));
    }
  }

  /** Every id `find_ids` yields is distinct. */
  lemma FoundDistinct(data: seq<Doc>, index: Index, cache: map<string, seq<Value>>, criteria: seq<Criterion>)
    ensures var r := ShapingMemory.FindIdsSpec(data, index, cache, criteria);
      r.Success? ==> Distinct(r.value)
  {
  }

  // ------------------------------------------------------------------
  // The query

  class Query {
    const dataset: Dataset
    const lookups: seq<Criterion>
    /** The ordering key; "" when there is none (an empty `_order_by`). */
    const orderBy: string
    const orderReversed: bool
    var executed: bool
    var ids: seq<nat>
    var prepared: bool
    /** The ids the query yields, in order, once prepared. */
    var iteration: seq<nat>

    /** The kept ids come from one `find_ids` call, so none repeats. */
    ghost predicate Valid()
      reads this
    {
      Distinct(ids)
    }

    /** `Query(dataset, lookups, order_by, order_reversed)`: nothing is executed yet. */
    constructor (dataset: Dataset, lookups: seq<Criterion>, orderBy: string, orderReversed: bool)
      ensures this.dataset == dataset && this.lookups == lookups
      ensures this.orderBy == orderBy && this.orderReversed == orderReversed
      ensures !executed && !prepared && ids == [] && iteration == []
      ensures Valid()
    {
      this.dataset := dataset;
      this.lookups := lookups;
      this.orderBy := orderBy;
      this.orderReversed := orderReversed;
      executed := false;
      ids := [];
      prepared := false;
      iteration := [];
    }

    /**
     * `_clone(extra_lookups, order_by, order_reversed)`: a fresh query over
     * the same dataset with the lookups extended; an empty ordering key keeps
     * the current one, and the reverse flag is always the one given.
     */
    method Clone(extra: seq<Criterion>, orderKey: string, reversed: bool) returns (q: Query)
      ensures fresh(q) && q.dataset == dataset && q.Valid()
      ensures q.lookups == lookups + extra
      ensures q.orderBy == (if orderKey != "" then orderKey else orderBy) && q.orderReversed == reversed
      ensures !q.executed && !q.prepared
    {
      q := new Query(dataset, lookups + extra, if orderKey != "" then orderKey else orderBy, reversed);
    }

    /** `find(**kw)`: the criteria are appended with negate False; the reverse flag is reset. */
    method Find(kw: seq<Entry>) returns (q: Query)
      ensures fresh(q) && q.dataset == dataset && q.lookups == lookups + Criteria(kw, false)
      ensures q.orderBy == orderBy && !q.orderReversed && !q.executed
    {
      q := Clone(Criteria(kw, false), "", false);
    }

    /** `exclude(**kw)`: the criteria are appended with negate True; the reverse flag is reset. */
    method Exclude(kw: seq<Entry>) returns (q: Query)
      ensures fresh(q) && q.dataset == dataset && q.lookups == lookups + Criteria(kw, true)
      ensures q.orderBy == orderBy && !q.orderReversed && !q.executed
    {
      q := Clone(Criteria(kw, true), "", false);
    }

    /** `order_by(key)`: a leading "-" asks for reverse order; `key[0]` of "" raises IndexError. */
    method OrderBy(key: string) returns (r: Result<Query>)
      ensures key == [] ==> r == Failure(IndexError)
      ensures key != [] ==> r.Success? && fresh(r.value) && r.value.lookups == lookups && !r.value.executed
      ensures key != [] && key[0] == '-' ==>
        r.Success? && r.value.orderReversed && r.value.orderBy == (if key[1..] != "" then key[1..] else orderBy)
      ensures key != [] && key[0] != '-' ==> r.Success? && !r.value.orderReversed && r.value.orderBy == key
    {
      if key == [] {
        return Failure(IndexError);
      }
      var q;
      if key[0] == '-' {
        q := Clone([], key[1..], true);
      } else {
        q := Clone([], key, false);
      }
      r := Success(q);
    }

    /**
     * `_execute`: the first call runs `find_ids` and keeps the list; later
     * calls return the kept list without touching the dataset.
     */
    method Execute() returns (r: Result<seq<nat>>)
      requires Valid() && dataset.Valid()
      modifies this, dataset
      ensures Valid() && dataset.Valid() && dataset.data == old(dataset.data) && dataset.index == old(dataset.index)
      ensures old(executed) ==> r == Success(ids) && ids == old(ids) && executed && dataset.valuesCache == old(dataset.valuesCache)
      ensures !old(executed) ==> r == ShapingMemory.FindIdsSpec(dataset.data, dataset.index, old(dataset.valuesCache), lookups)
      ensures !old(executed) && r.Success? ==> executed && ids == r.value
      ensures !old(executed) && r.Failure? ==> !executed && ids == old(ids)
      ensures prepared == old(prepared) && iteration == old(iteration)
    {
      if executed {
        return Success(ids);
      }
      r := dataset.FindIds(lookups);
      if r.Success? {
        FoundDistinct(dataset.data, dataset.index, old(dataset.valuesCache), lookups);
        ids := r.value;
        executed := true;
      }
    }

    /** `count()` / `len(query)`: the length of the executed id list. */
    method Count() returns (r: Result<nat>)
      requires Valid() && dataset.Valid()
      modifies this, dataset
      ensures Valid() && dataset.Valid() && dataset.data == old(dataset.data) && dataset.index == old(dataset.index)
      ensures old(executed) ==> r == Success(|old(ids)|) && ids == old(ids) && executed
      ensures !old(executed) ==> r.Success? == ShapingMemory.FindIdsSpec(dataset.data, dataset.index, old(dataset.valuesCache), lookups).Success?
      ensures r.Success? ==> executed && r.value == |ids|
    {
      var e := Execute();
      if e.Failure? {
        return Failure(e.error);
      }
      r := Success(|e.value|);
    }

    /**
     * `values_for(key)`: with no lookups, the dataset's sorted distinct
     * values; otherwise those with at least one posting among the executed
     * ids, still in sorted order.
     */
    method ValuesFor(key: string) returns (r: Result<seq<Value>>)
      requires Valid() && dataset.Valid()
      modifies this, dataset
      ensures Valid() && dataset.Valid() && dataset.data == old(dataset.data) && dataset.index == old(dataset.index)
      ensures |lookups| == 0 ==> r == Success(IndexedValues(dataset.index, key))
      ensures |lookups| > 0 && r.Success? ==> executed && r.value == Kept(dataset.index, key, IndexedValues(dataset.index, key), ids)
      ensures r.Success? ==> StrictlySorted(r.value)
      ensures r.Failure? ==> !executed
    {
      var all := dataset.ValuesFor(key);
      if |lookups| == 0 {
        return Success(all);
      }
      var found := Execute();
      if found.Failure? {
        return Failure(found.error);
      }
      r := Success(Kept(dataset.index, key, all, found.value));
      KeptStrictlySorted(dataset.index, key, all, found.value);
    }

    /**
     * `_prepare`: executes the query once; an ordered query then yields its
     * ids in the order of `_order_results`, here walked over a copy so the
     * kept id list (and so `len(query)`) is left as it was.
     */
    method Prepare() returns (r: Result<()>)
      requires Valid() && dataset.Valid()
      modifies this, dataset
      ensures Valid() && dataset.Valid() && dataset.data == old(dataset.data) && dataset.index == old(dataset.index)
      ensures old(prepared) ==> r == Success(()) && iteration == old(iteration) && ids == old(ids)
      ensures !old(prepared) ==> prepared
      ensures !old(prepared) && r.Success? ==> executed && (old(executed) ==> ids == old(ids))
      ensures !old(prepared) && r.Success? && orderBy == "" ==> iteration == ids
      ensures !old(prepared) && r.Success? && orderBy != "" ==>
        iteration == OrderedIds(dataset.index, orderBy, OrderValues(IndexedValues(dataset.index, orderBy), orderReversed), ids)
    {
      if prepared {
        return Success(());
      }
      prepared := true;
      var found := Execute();
      if found.Failure? {
        return Failure(found.error);
      }
      iteration := ids;
      if orderBy != "" {
        var vals := dataset.ValuesFor(orderBy);
        iteration := OrderedIds(dataset.index, orderBy, OrderValues(vals, orderReversed), ids);
      }
      r := Success(());
    }
  }

  /** Filtering a strictly sorted list keeps it strictly sorted. */
  lemma {:induction false} KeptStrictlySorted(index: Index, key: string, vals: seq<Value>, filterBy: seq<nat>)
    requires StrictlySorted(vals)
    ensures StrictlySorted(Kept(index, key, vals, filterBy))
    decreases |vals|
  {
    if |vals| > 0 {
      KeptStrictlySorted(index, key, vals[1..], filterBy);
      var rest := Kept(index, key, vals[1..], filterBy);
      forall v | v in rest ensures Less(vals[0], v) {
        var j :| 0 <= j < |vals[1..]| && vals[1..][j] == v;
        assert vals[j + 1] == v;
      }
    }
  }

  /**
   * On a valid dataset, `Query.values_for(key)` with lookups holds exactly
   * the values of the key held by some document the query matched.
   */
  lemma QueryValuesMeaning(data: seq<Doc>, index: Index, key: string, ids: seq<nat>, v: Value)
    requires Consistent(index, Items(Present(data)))
    ensures v in Kept(index, key, IndexedValues(index, key), ids) <==>
      exists x :: x in ids && DocHolds(data, x, Pair(key, v))
  {
    var items := Items(Present(data));
    if v in Kept(index, key, IndexedValues(index, key), ids) {
      assert PostedIn(index, key, v, ids);
      var x :| x in ids && x in Lookup(index, key, v);
      PostingsMembership(items, key, v, x);
      PresentItems(data, x, Pair(key, v));
    }
    if exists x :: x in ids && DocHolds(data, x, Pair(key, v)) {
      var x :| x in ids && DocHolds(data, x, Pair(key, v));
      PostingsMembership(items, key, v, x);
      PresentItems(data, x, Pair(key, v));
      assert x in Lookup(index, key, v);
      assert PostedIn(index, key, v, ids);
      IndexedValuesMeaning(data, index, key, v);
    }
  }
}
