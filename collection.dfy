/**
 * What the in-memory collections of dark/storage/memory.py,
 * datashaping/storage/memory.py and datashaping/db.py share: building the
 * inverted index from the items, the filtering step of `values_for`, and
 * the sorting loop of `find_ids_sorted`.
 */
module Collection {
  import opened Outcomes
  import opened Values
  import opened Unwrap
  import opened Index
  import opened Sorting
  import opened Find

  /** The pairs an item is indexed under; a deleted item has none. */
  function Flat(item: Option<Doc>): seq<Pair>
  {
    if item.Some? then DocPairs(item.value) else []
  }

  /** What a fully up-to-date index holds for each position. */
  function Items(data: seq<Option<Doc>>): (r: seq<multiset<Pair>>)
    ensures |r| == |data|
    ensures forall i :: 0 <= i < |data| ==> r[i] == multiset(Flat(data[i]))
  {
    if |data| == 0 then [] else Items(data[..|data| - 1]) + [multiset(Flat(data[|data| - 1]))]
  }

  /** `_build_index` over a list of items. */
  function BuildIndexOf(data: seq<Option<Doc>>): Index
  {
    if |data| == 0 then map[]
    else AddPairs(BuildIndexOf(data[..|data| - 1]), |data| - 1, Flat(data[|data| - 1]))
  }

  /** A freshly built index holds exactly the postings of every item's pairs. */
  lemma {:induction false} BuildIndexConsistent(data: seq<Option<Doc>>)
    ensures Consistent(BuildIndexOf(data), Items(data))
    decreases |data|
  {
    if |data| == 0 {
      EmptyConsistent();
    } else {
      var n := |data| - 1;
      BuildIndexConsistent(data[..n]);
      AddItemConsistent(BuildIndexOf(data[..n]), Items(data[..n]), Flat(data[n]));
      assert Items(data[..n]) + [multiset(Flat(data[n]))] == Items(data);
    }
  }

  lemma ItemsSnoc(data: seq<Option<Doc>>, item: Doc)
    ensures Items(data + [Some(item)]) == Items(data) + [multiset(DocPairs(item))]
  {
    assert (data + [Some(item)])[..|data|] == data;
  }

  /** Document `x` of the list unwraps to the pair `p`. */
  predicate DocHolds(docs: seq<Doc>, x: nat, p: Pair)
  {
    x < |docs| && p in DocPairs(docs[x])
  }

  /** The indexed items of documents none of which is deleted hold exactly their pairs. */
  lemma PresentItems(docs: seq<Doc>, x: nat, p: Pair)
    ensures x < |docs| ==> (Items(Present(docs))[x][p] > 0 <==> DocHolds(docs, x, p))
  {
  }

  /** A list of documents none of which is deleted. */
  function Present(docs: seq<Doc>): (r: seq<Option<Doc>>)
    ensures |r| == |docs| && forall i :: 0 <= i < |docs| ==> r[i] == Some(docs[i])
  {
    seq(|docs|, i requires 0 <= i < |docs| => Some(docs[i]))
  }

  // ------------------------------------------------------------------
  // Primary keys as list indices

  /** `data[pk]` reads this position: a negative key counts from the end. */
  function Position(pk: int, n: nat): (r: nat)
    requires -(n as int) <= pk < n
    ensures r < n
  {
    if pk < 0 then n + pk else pk
  }

  /** Every key indexes a list of length `n` without IndexError. */
  predicate Indexes(ids: seq<int>, n: nat)
  {
    forall j :: 0 <= j < |ids| ==> -(n as int) <= ids[j] < n
  }

  /** No key counts from the end. */
  predicate NonNegative(ids: seq<int>)
  {
    forall j :: 0 <= j < |ids| ==> ids[j] >= 0
  }

  /** The positions the keys name, in order. */
  function Positions(ids: seq<int>, n: nat): (r: seq<nat>)
    requires Indexes(ids, n)
    ensures |r| == |ids| && forall j :: 0 <= j < |ids| ==> r[j] == Position(ids[j], n)
  {
    seq(|ids|, j requires 0 <= j < |ids| => Position(ids[j], n))
  }

  /** Naming the positions of a prefix of the keys. */
  lemma PositionsPrefix(ids: seq<int>, n: nat, m: nat)
    requires Indexes(ids, n) && m <= |ids|
    ensures Indexes(ids[..m], n) && Positions(ids[..m], n) == Positions(ids, n)[..m]
  {
  }

  /**
   * The existence check of `delete`, `[self.data[pk] for pk in ids]`: it
   * passes exactly when every key indexes the list, negative keys included.
   */
  method CheckKeys(ids: seq<int>, n: nat) returns (ok: bool)
    ensures ok <==> Indexes(ids, n)
  {
    var j := 0;
    while j < |ids|
      invariant 0 <= j <= |ids|
      invariant forall m :: 0 <= m < j ==> -(n as int) <= ids[m] < n
    {
      if !(-(n as int) <= ids[j] < n) {
        return false;
      }
      j := j + 1;
    }
    ok := true;
  }

  // ------------------------------------------------------------------
  // Values of a key

  /** Some position of `filterBy` has a posting under (key, v). */
  predicate PostedIn(index: Index, key: string, v: Value, filterBy: seq<nat>)
  {
    exists x :: x in filterBy && x in Lookup(index, key, v)
  }

  /**
   * The filtering step of `values_for`: an empty filter keeps every value;
   * otherwise the values, in their order, with a posting among the filter.
   */
  function FilterValues(index: Index, key: string, vals: seq<Value>, filterBy: seq<nat>): (r: seq<Value>)
    ensures |filterBy| == 0 ==> r == vals
    ensures forall v :: v in r <==> v in vals && (|filterBy| == 0 || PostedIn(index, key, v, filterBy))
    ensures Sorted(vals) ==> Sorted(r)
  {
    if |filterBy| == 0 then vals else Kept(index, key, vals, filterBy)
  }

  function Kept(index: Index, key: string, vals: seq<Value>, filterBy: seq<nat>): (r: seq<Value>)
    ensures forall v :: v in r <==> v in vals && PostedIn(index, key, v, filterBy)
    ensures Sorted(vals) ==> Sorted(r)
  {
    if |vals| == 0 then []
    else
      var rest := Kept(index, key, vals[1..], filterBy);
      assert Sorted(vals) ==> Sorted(rest) && Sorted([vals[0]] + rest) by {
        if Sorted(vals) {
          KeptSorted(vals, rest);
        }
      }
      if PostedIn(index, key, vals[0], filterBy) then [vals[0]] + rest else rest
  }

  /** Keeping some of the tail of a sorted list behind its head keeps it sorted. */
  lemma KeptSorted(vals: seq<Value>, rest: seq<Value>)
    requires |vals| > 0 && Sorted(vals)
    requires Sorted(vals[1..]) ==> Sorted(rest)
    requires forall v :: v in rest ==> v in vals[1..]
    ensures Sorted(rest) && Sorted([vals[0]] + rest)
  {
    assert Sorted(vals[1..]);
    forall v | v in rest ensures LessEq(vals[0], v) {
      var j :| 0 <= j < |vals[1..]| && vals[1..][j] == v;
      assert vals[j + 1] == v;
    }
    var r := [vals[0]] + rest;
    forall i, j | 0 <= i < j < |r| ensures LessEq(r[i], r[j]) {
      assert r[j] == rest[j - 1] && r[j] in rest;
      if i > 0 {
        assert r[i] == rest[i - 1];
      }
    }
  }

  /**
   * On a valid collection whose cache was filled from the current index,
   * `values_for(key, filter_by)` yields exactly the indexed values of the
   * key held by some filtered position, sorted and without repeats.
   */
  lemma ValuesForMeaning(index: Index, items: seq<multiset<Pair>>, key: string, filterBy: seq<nat>, v: Value)
    requires Consistent(index, items)
    requires |filterBy| > 0
    ensures v in FilterValues(index, key, IndexedValues(index, key), filterBy) <==>
      exists x :: x in filterBy && x < |items| && items[x][Pair(key, v)] > 0
  {
    var r := FilterValues(index, key, IndexedValues(index, key), filterBy);
    if v in r {
      assert PostedIn(index, key, v, filterBy);
      var x :| x in filterBy && x in Lookup(index, key, v);
      PostingsMembership(items, key, v, x);
    }
    if exists x :: x in filterBy && x < |items| && items[x][Pair(key, v)] > 0 {
      var x :| x in filterBy && x < |items| && items[x][Pair(key, v)] > 0;
      PostingsMembership(items, key, v, x);
      assert x in Lookup(index, key, v);
      assert PostedIn(index, key, v, filterBy);
      assert v in IndexedValues(index, key);
    }
  }

  // ------------------------------------------------------------------
  // Sorting found ids

  /** The key `find_ids_sorted` sorts by: the item's top-level field, None when missing. */
  function FieldOf(data: seq<Option<Doc>>, key: string): nat -> Value
  {
    (idx: nat) => if idx < |data| && data[idx].Some? then Get(data[idx].value, key) else Null
  }

  /** One `(key, reverse)` entry of `order_by`. */
  datatype OrderKey = OrderKey(key: string, reverse: bool)

  /** The sorts of `find_ids_sorted`, applied in turn. */
  function SortAll(data: seq<Option<Doc>>, ids: seq<nat>, orderBy: seq<OrderKey>): (r: seq<nat>)
    ensures multiset(r) == multiset(ids)
    ensures |orderBy| > 0 ==> SortedBy(r, FieldOf(data, orderBy[|orderBy| - 1].key), orderBy[|orderBy| - 1].reverse)
  {
    if |orderBy| == 0 then ids
    else
      var o := orderBy[|orderBy| - 1];
      SortBy(SortAll(data, ids, orderBy[..|orderBy| - 1]), FieldOf(data, o.key), o.reverse)
  }

  predicate AllLive(data: seq<Option<Doc>>, ids: seq<nat>)
  {
    forall j :: 0 <= j < |ids| ==> ids[j] < |data| && data[ids[j]].Some?
  }

  /** What `find_ids_sorted` makes of the result of `find_ids`. */
  function SortedResult(data: seq<Option<Doc>>, found: Result<seq<nat>>, orderBy: seq<OrderKey>): Result<seq<nat>>
  {
    if found.Failure? then found
    else if |orderBy| > 0 && !AllLive(data, found.value) then Failure(AttributeError)
    else Success(SortAll(data, found.value, orderBy))
  }

  method SortFound(data: seq<Option<Doc>>, found: Result<seq<nat>>, orderBy: seq<OrderKey>) returns (r: Result<seq<nat>>)
    ensures r == SortedResult(data, found, orderBy)
  {
    if found.Failure? {
      return found;
    }
    if |orderBy| > 0 && !AllLive(data, found.value) {
      return Failure(AttributeError);
    }
    var ids := SortIds(data, found.value, orderBy);
    r := Success(ids);
  }

  // ------------------------------------------------------------------
  // Loops over the index

  /** `_index.setdefault(k, {}).setdefault(v, []).append(pk)` for each pair in turn. */
  method AddAll(index: Index, pk: nat, pairs: seq<Pair>) returns (r: Index)
    ensures r == AddPairs(index, pk, pairs)
  {
    r := index;
    var t := 0;
    while t < |pairs|
      invariant 0 <= t <= |pairs|
      invariant r == AddPairs(index, pk, pairs[..t])
    {
      assert pairs[..t + 1][..t] == pairs[..t];
      r := AddPair(r, pairs[t], pk);
      t := t + 1;
    }
    assert pairs[..t] == pairs;
  }

  /** The removal of one posting of `pk` for each pair in turn. */
  method RemoveAll(index: Index, pk: nat, pairs: seq<Pair>) returns (r: Index)
    ensures r == RemovePairs(index, pk, pairs)
  {
    r := index;
    var t := 0;
    while t < |pairs|
      invariant 0 <= t <= |pairs|
      invariant r == RemovePairs(index, pk, pairs[..t])
    {
      assert pairs[..t + 1][..t] == pairs[..t];
      r := RemovePosting(r, pairs[t], pk);
      t := t + 1;
    }
    assert pairs[..t] == pairs;
  }

  /** The index after `_build_index_for_item(pk, item)`: every field's unwrapped pairs in turn. */
  method IndexItem(index: Index, pk: nat, item: Doc) returns (r: Index)
    ensures r == AddPairs(index, pk, DocPairs(item))
  {
    r := index;
    var j := 0;
    while j < |item|
      invariant 0 <= j <= |item|
      invariant r == AddPairs(index, pk, DocPairs(item[..j]))
    {
      assert item[..j + 1][..j] == item[..j];
      var pairs := UnwrapValue(item[j].key, item[j].val);
      AddPairsAppend(index, pk, DocPairs(item[..j]), pairs);
      r := AddAll(r, pk, pairs);
      j := j + 1;
    }
    assert item[..j] == item;
  }

  /** The index after `_remove_index_for_item(pk)` on a live item. */
  method UnindexItem(index: Index, pk: nat, item: Doc) returns (r: Index)
    ensures r == RemovePairs(index, pk, DocPairs(item))
  {
    r := index;
    var j := 0;
    while j < |item|
      invariant 0 <= j <= |item|
      invariant r == RemovePairs(index, pk, DocPairs(item[..j]))
    {
      assert item[..j + 1][..j] == item[..j];
      var pairs := UnwrapValue(item[j].key, item[j].val);
      RemovePairsAppend(index, pk, DocPairs(item[..j]), pairs);
      r := RemoveAll(r, pk, pairs);
      j := j + 1;
    }
    assert item[..j] == item;
  }

  /** The loop of `_build_index` over items none of which is deleted. */
  method IndexAll(items: seq<Option<Doc>>) returns (r: Index)
    requires forall i :: 0 <= i < |items| ==> items[i].Some?
    ensures r == BuildIndexOf(items)
  {
    r := map[];
    var pk := 0;
    while pk < |items|
      invariant 0 <= pk <= |items|
      invariant r == BuildIndexOf(items[..pk])
    {
      assert items[..pk + 1][..pk] == items[..pk];
      r := IndexItem(r, pk, items[pk].value);
      pk := pk + 1;
    }
    assert items[..pk] == items;
  }

  /** The sorting loop of `find_ids_sorted`. */
  method SortIds(data: seq<Option<Doc>>, ids: seq<nat>, orderBy: seq<OrderKey>) returns (r: seq<nat>)
    ensures r == SortAll(data, ids, orderBy)
  {
    r := ids;
    var k := 0;
    while k < |orderBy|
      invariant 0 <= k <= |orderBy|
      invariant r == SortAll(data, ids, orderBy[..k])
    {
      assert orderBy[..k + 1][..k] == orderBy[..k];
      r := SortBy(r, FieldOf(data, orderBy[k].key), orderBy[k].reverse);
      k := k + 1;
    }
    assert orderBy[..k] == orderBy;
  }
}
