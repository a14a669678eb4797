/**
 * The oldest dataset and query of datacasting/db.py: special lookup values
 * (`not_`, `in_`, `any_`), a linear scan `ids_by_lookups` in which every
 * lookup must hold, a one-level index of the top-level keys, `inspect`,
 * and a query whose lookups are a dictionary merged on every clone.
 */
module CastingDb {
  import opened Outcomes
  import opened Values
  import opened Unwrap
  import opened Index
  import opened Find
  import Collection
  import ShapingDb

  // ------------------------------------------------------------------
  // Special values for lookups

  /** A lookup value: a plain value, `not_(v)` or `in_(items)`. */
  datatype Special = Plain(v: Value) | Not(v: Value) | In(items: seq<Value>)

  /** `any_ = not_(None)`. */
  const AnyValue: Special := Not(Null)

  /** `special == other`, each kind with its own `__eq__`. */
  predicate Eq(s: Special, other: Value)
  {
    match s
    case Plain(v) => v == other
    case Not(v) => v != other
    case In(items) => other in items
  }

  /**
   * `special != other` as written: `not_` defines `__ne__` as the negation
   * of its `__eq__`, but `in_` defines no `__ne__`, so Python 2 falls back to
   * comparing identities and an `in_` value differs from every item value.
   */
  function NeAsWritten(s: Special, other: Value): (r: bool)
    ensures !s.In? ==> (r <==> !Eq(s, other))
    ensures s.In? ==> r
  {
    match s
    case Plain(v) => v != other
    case Not(v) => !(v != other)
    case In(_) => true
  }

  /** `special != other` as intended: the negation of `special == other`. */
  function Ne(s: Special, other: Value): (r: bool)
    ensures r <==> !Eq(s, other)
  {
    match s
    case Plain(v) => v != other
    case Not(v) => v == other
    case In(items) => other !in items
  }

  /** `not_(x) == y` exactly when `x != y`; `any_` therefore equals every non-None value. */
  lemma NotMeaning(x: Value, y: Value)
    ensures Eq(Not(x), y) <==> x != y
    ensures !Ne(Not(x), y) <==> x != y
    ensures Eq(AnyValue, y) <==> y != Null
  {
  }

  // ------------------------------------------------------------------
  // `ids_by_lookups`

  /** Lookup `key=s` holds for the item: the key is present and `s != item[key]` is false. */
  predicate MatchOne(doc: Doc, key: string, s: Special)
  {
    HasKey(doc, key) && !Ne(s, Get(doc, key))
  }

  /** The same test with the comparison as written. */
  predicate MatchOneAsWritten(doc: Doc, key: string, s: Special)
  {
    HasKey(doc, key) && !NeAsWritten(s, Get(doc, key))
  }

  /** Every lookup holds for the item. */
  predicate Matches(doc: Doc, kw: map<string, Special>)
  {
    forall k :: k in kw ==> MatchOne(doc, k, kw[k])
  }

  predicate MatchesAsWritten(doc: Doc, kw: map<string, Special>)
  {
    forall k :: k in kw ==> MatchOneAsWritten(doc, k, kw[k])
  }

  /**
   * A lookup with an `in_` value never matches as written, even when the
   * item's value is among the items; with the intended comparison it
   * matches exactly the items whose value is among them.
   */
  lemma InLookupNeverMatches(doc: Doc, key: string, items: seq<Value>)
    ensures !MatchesAsWritten(doc, map[key := In(items)])
    ensures Matches(doc, map[key := In(items)]) <==> HasKey(doc, key) && Get(doc, key) in items
  {
    assert key in map[key := In(items)];
  }

  /** The smallest case: `find(k=in_([1]))` on the item `{k: 1}`. */
  lemma InLookupExample()
    ensures var doc := [Entry("k", Int(1))];
      !MatchesAsWritten(doc, map["k" := In([Int(1)])]) && Matches(doc, map["k" := In([Int(1)])])
  {
    var doc := [Entry("k", Int(1))];
    assert doc[0].key == "k";
    assert HasKey(doc, "k");
    assert Get(doc, "k") == Int(1);
    InLookupNeverMatches(doc, "k", [Int(1)]);
  }

  /** The positions `ids_by_lookups(**kw)` yields, in ascending order. */
  function MatchingIds(data: seq<Doc>, kw: map<string, Special>): (r: seq<nat>)
    ensures forall x: nat :: x in r <==> x < |data| && Matches(data[x], kw)
    ensures forall i, j :: 0 <= i < j < |r| ==> r[i] < r[j]
    ensures forall i :: 0 <= i < |r| ==> r[i] < |data|
  {
    if |data| == 0 then []
    else
      var n := |data| - 1;
      var front := MatchingIds(data[..n], kw);
      assert forall x: nat :: x < n ==> data[..n][x] == data[x];
      front + if Matches(data[n], kw) then [n] else []
  }

  /** Two ascending lists of positions with the same members are equal. */
  lemma {:induction false} AscendingUnique(a: seq<nat>, b: seq<nat>)
    requires forall i, j :: 0 <= i < j < |a| ==> a[i] < a[j]
    requires forall i, j :: 0 <= i < j < |b| ==> b[i] < b[j]
    requires forall x :: x in a <==> x in b
    ensures a == b
    decreases |a|
  {
    if |a| > 0 {
      assert a[0] in b;
    }
    if |b| > 0 {
      assert b[0] in a;
    }
    if |a| > 0 {
      assert forall k :: 0 < k < |a| ==> a[0] < a[k];
      assert forall k :: 0 < k < |b| ==> b[0] < b[k];
      assert a[0] == b[0];
      forall x ensures x in a[1..] <==> x in b[1..] {
        if x in a[1..] {
          var i :| 0 <= i < |a[1..]| && a[1..][i] == x;
          assert a[i + 1] == x && x in b;
          var j :| 0 <= j < |b| && b[j] == x;
          assert j != 0;
        }
        if x in b[1..] {
          var j :| 0 <= j < |b[1..]| && b[1..][j] == x;
          assert b[j + 1] == x && x in a;
          var i :| 0 <= i < |a| && a[i] == x;
          assert i != 0;
        }
      }
      AscendingUnique(a[1..], b[1..]);
      assert a == [a[0]] + a[1..] && b == [b[0]] + b[1..];
    }
  }

  /** Matching every lookup is matching each single lookup. */
  lemma MatchingIdsSingle(data: seq<Doc>, kw: map<string, Special>, x: nat)
    requires x < |data|
    ensures x in MatchingIds(data, kw) <==> forall k :: k in kw ==> x in MatchingIds(data, map[k := kw[k]])
  {
    if forall k :: k in kw ==> x in MatchingIds(data, map[k := kw[k]]) {
      forall k | k in kw ensures MatchOne(data[x], k, kw[k]) {
        assert Matches(data[x], map[k := kw[k]]);
        assert k in map[k := kw[k]];
      }
    }
  }

  // ------------------------------------------------------------------
  // The one-level index

  /** What the index holds for each position. */
  function ShallowItems(data: seq<Doc>): (r: seq<multiset<Pair>>)
    ensures |r| == |data|
    ensures forall i :: 0 <= i < |data| ==> r[i] == multiset(ShallowPairs(data[i]))
  {
    if |data| == 0 then [] else ShallowItems(data[..|data| - 1]) + [multiset(ShallowPairs(data[|data| - 1]))]
  }

  /** `_rebuild_index` over the items. */
  function ShallowIndexOf(data: seq<Doc>): Index
  {
    if |data| == 0 then map[]
    else AddPairs(ShallowIndexOf(data[..|data| - 1]), |data| - 1, ShallowPairs(data[|data| - 1]))
  }

  /** The rebuilt index holds exactly the postings of every item's top-level pairs. */
  lemma {:induction false} ShallowIndexConsistent(data: seq<Doc>)
    ensures Consistent(ShallowIndexOf(data), ShallowItems(data))
    decreases |data|
  {
    if |data| == 0 {
      EmptyConsistent();
    } else {
      var n := |data| - 1;
      ShallowIndexConsistent(data[..n]);
      AddItemConsistent(ShallowIndexOf(data[..n]), ShallowItems(data[..n]), ShallowPairs(data[n]));
      assert ShallowItems(data[..n]) + [multiset(ShallowPairs(data[n]))] == ShallowItems(data);
    }
  }

  /**
   * `setdefault(v, [])` can hash every value this entry posts: a None
   * value posts nothing, and no posted value is a list or a dict (a dict,
   * or a list inside a list, raises TypeError).
   */
  predicate EntryHashable(e: Entry)
  {
    e.val == Null || AllScalar(UnwrapOne(e.val))
  }

  /** No value of the list is a list or a dict, so each can be a dict key. */
  predicate AllScalar(vs: seq<Value>)
  {
    |vs| == 0 || (IsScalar(vs[0]) && AllScalar(vs[1..]))
  }

  /** The same for a set of values. */
  predicate ScalarSet(vs: set<Value>)
  {
    forall v :: v in vs ==> IsScalar(v)
  }

  /** Every entry of the item can be indexed. */
  predicate ShallowHashable(item: Doc)
  {
    forall j :: 0 <= j < |item| ==> EntryHashable(item[j])
  }

  /** Every item can be indexed. */
  predicate AllShallowHashable(data: seq<Doc>)
  {
    forall i :: 0 <= i < |data| ==> ShallowHashable(data[i])
  }

  /**
   * The inner loops of `_rebuild_index` for one item: its top-level pairs
   * are posted, or TypeError is raised when one of its values is unhashable.
   */
  method IndexShallow(index: Index, pk: nat, item: Doc) returns (r: Result<Index>)
    ensures ShallowHashable(item) ==> r == Success(AddPairs(index, pk, ShallowPairs(item)))
    ensures !ShallowHashable(item) ==> r == Failure(TypeError)
  {
    var idx := index;
    var j := 0;
    while j < |item|
      invariant 0 <= j <= |item|
      invariant forall i :: 0 <= i < j ==> EntryHashable(item[i])
      invariant idx == ShallowPosted(index, pk, item, j)
    {
      var step := IndexEntry(idx, pk, item[j]);
      if step.Failure? {
        assert !ShallowHashable(item);
        return step;
      }
      ShallowEntryStep(index, pk, item, j);
      idx := step.value;
      j := j + 1;
    }
    assert ShallowHashable(item);
    assert item[..j] == item;
    r := Success(idx);
  }

  /** One pass of the loop over an item's keys: the entry's pairs posted, or TypeError. */
  method IndexEntry(index: Index, pk: nat, e: Entry) returns (r: Result<Index>)
    ensures !EntryHashable(e) ==> r == Failure(TypeError)
    ensures EntryHashable(e) && e.val == Null ==> r == Success(index)
    ensures EntryHashable(e) && e.val != Null ==> r == Success(AddPairs(index, pk, ShallowValuePairs(e.key, UnwrapOne(e.val))))
  {
    if e.val == Null {
      return Success(index);
    }
    var vals := UnwrapOne(e.val);
    if !AllScalar(vals) {
      return Failure(TypeError);
    }
    var posted := Collection.AddAll(index, pk, ShallowValuePairs(e.key, vals));
    r := Success(posted);
  }

  /** `index` with the top-level pairs of the first `j` entries of the item posted under `pk`. */
  function ShallowPosted(index: Index, pk: nat, item: Doc, j: nat): Index
    requires j <= |item|
  {
    AddPairs(index, pk, ShallowPairs(item[..j]))
  }

  /** Posting entry `j` of an item extends the postings of the entries before it. */
  lemma ShallowEntryStep(index: Index, pk: nat, item: Doc, j: nat)
    requires j < |item|
    ensures item[j].val == Null ==> ShallowPosted(index, pk, item, j + 1) == ShallowPosted(index, pk, item, j)
    ensures item[j].val != Null ==>
      ShallowPosted(index, pk, item, j + 1) ==
      AddPairs(ShallowPosted(index, pk, item, j), pk, ShallowValuePairs(item[j].key, UnwrapOne(item[j].val)))
  {
    ShallowPairsSnoc(item, j);
    if item[j].val != Null {
      AddPairsAppend(index, pk, ShallowPairs(item[..j]), ShallowValuePairs(item[j].key, UnwrapOne(item[j].val)));
    } else {
      assert ShallowPairs(item[..j]) + [] == ShallowPairs(item[..j]);
    }
  }

  /**
   * The loop of `_rebuild_index` over the items: the index of them all, or
   * TypeError when some item holds an unhashable value.
   */
  method IndexAllShallow(data: seq<Doc>) returns (r: Result<Index>)
    ensures AllShallowHashable(data) ==> r == Success(ShallowIndexOf(data))
    ensures !AllShallowHashable(data) ==> r == Failure(TypeError)
  {
    var idx: Index := map[];
    var i := 0;
    while i < |data|
      invariant 0 <= i <= |data|
      invariant forall j :: 0 <= j < i ==> ShallowHashable(data[j])
      invariant idx == ShallowIndexOf(data[..i])
    {
      assert data[..i + 1][..i] == data[..i];
      var step := IndexShallow(idx, i, data[i]);
      if step.Failure? {
        return step;
      }
      idx := step.value;
      i := i + 1;
    }
    assert data[..i] == data;
    r := Success(idx);
  }

  /**
   * Item `x` is indexed under `p`: a non-None top-level value of the item
   * is, or is a list containing, `p.val`.
   */
  predicate ShallowHolds(data: seq<Doc>, x: nat, p: Pair)
  {
    x < |data| && p in ShallowPairs(data[x])
  }

  lemma ShallowItemsHold(data: seq<Doc>, x: nat, p: Pair)
    ensures x < |data| ==> (ShallowItems(data)[x][p] > 0 <==> ShallowHolds(data, x, p))
  {
  }

  // ------------------------------------------------------------------
  // `inspect`

  /** No key occurs twice in a document, as in a Python dict. */
  predicate DistinctKeys(doc: Doc)
  {
    forall i, j :: 0 <= i < j < |doc| ==> doc[i].key != doc[j].key
  }

  /** The count kept for `key`, zero when absent. */
  function CountOf(counts: map<string, nat>, key: string): nat
  {
    if key in counts then counts[key] else 0
  }

  /** The counting loop over one item's keys. */
  function Tally(counts: map<string, nat>, doc: Doc): map<string, nat>
  {
    if |doc| == 0 then counts
    else
      var n := |doc| - 1;
      var c := Tally(counts, doc[..n]);
      if doc[n].val != Null then c[doc[n].key := CountOf(c, doc[n].key) + 1] else c
  }

  /** `inspect()`: the tallies over every item. */
  function InspectOf(data: seq<Doc>): map<string, nat>
  {
    if |data| == 0 then map[] else Tally(InspectOf(data[..|data| - 1]), data[|data| - 1])
  }

  /** The document holds `key` with a value other than None. */
  predicate Filled(doc: Doc, key: string)
  {
    exists j :: 0 <= j < |doc| && doc[j].key == key && doc[j].val != Null
  }

  /** How many items hold `key` with a value other than None. */
  function FilledCount(data: seq<Doc>, key: string): nat
  {
    if |data| == 0 then 0
    else FilledCount(data[..|data| - 1], key) + if Filled(data[|data| - 1], key) then 1 else 0
  }

  /** One item adds one to the count of each key it fills, and nothing else. */
  lemma {:induction false} TallyOne(counts: map<string, nat>, doc: Doc, key: string)
    requires DistinctKeys(doc)
    ensures CountOf(Tally(counts, doc), key) == CountOf(counts, key) + if Filled(doc, key) then 1 else 0
    ensures key in Tally(counts, doc) <==> key in counts || Filled(doc, key)
    decreases |doc|
  {
    if |doc| > 0 {
      var n := |doc| - 1;
      assert forall j :: 0 <= j < n ==> doc[..n][j] == doc[j];
      TallyOne(counts, doc[..n], key);
      if Filled(doc, key) && doc[n].key != key {
        var j :| 0 <= j < |doc| && doc[j].key == key && doc[j].val != Null;
        assert Filled(doc[..n], key);
      }
      if Filled(doc[..n], key) {
        var j :| 0 <= j < n && doc[..n][j].key == key && doc[..n][j].val != Null;
        assert doc[n].key != key;
      }
    }
  }

  /** `inspect()` counts, per key, the items whose value for it is not None. */
  lemma {:induction false} InspectCounts(data: seq<Doc>, key: string)
    requires forall i :: 0 <= i < |data| ==> DistinctKeys(data[i])
    ensures key in InspectOf(data) <==> FilledCount(data, key) > 0
    ensures CountOf(InspectOf(data), key) == FilledCount(data, key)
    decreases |data|
  {
    if |data| > 0 {
      var n := |data| - 1;
      InspectCounts(data[..n], key);
      TallyOne(InspectOf(data[..n]), data[n], key);
    }
  }

  method TallyItem(counts: map<string, nat>, item: Doc) returns (r: map<string, nat>)
    ensures r == Tally(counts, item)
  {
    r := counts;
    var j := 0;
    while j < |item|
      invariant 0 <= j <= |item|
      invariant r == Tally(counts, item[..j])
    {
      assert item[..j + 1][..j] == item[..j];
      if item[j].val != Null {
        r := r[item[j].key := CountOf(r, item[j].key) + 1];
      }
      j := j + 1;
    }
    assert item[..j] == item;
  }

  // ------------------------------------------------------------------
  // The dataset

  class Dataset {
    const data: seq<Doc>
    var index: Index

    ghost predicate Valid()
      reads this
    {
      Consistent(index, ShallowItems(data))
    }

    /**
     * `Dataset(data)` when it returns: keep the items and build the index,
     * which needs every posted value to be hashable (see Create).
     */
    constructor (data: seq<Doc>)
      requires AllShallowHashable(data)
      ensures this.data == data && Valid()
      ensures index == ShallowIndexOf(data)
    {
      this.data := data;
      new;
      var err := RebuildIndex();
    }

    /** `Dataset(data)` as a call that raises: TypeError when some item cannot be indexed. */
    static method Create(data: seq<Doc>) returns (r: Result<Dataset>)
      ensures r.Failure? <==> !AllShallowHashable(data)
      ensures r.Failure? ==> r.error == TypeError
      ensures r.Success? ==> fresh(r.value) && r.value.data == data && r.value.Valid()
      ensures r.Success? ==> r.value.index == ShallowIndexOf(data)
    {
      if !AllShallowHashable(data) {
        return Failure(TypeError);
      }
      var d := new Dataset(data);
      r := Success(d);
    }

    /**
     * `_rebuild_index`: every non-None top-level value of every item,
     * a list contributing each of its elements; TypeError, raised out of
     * the loop, when one of those values is a list or a dict.
     */
    method RebuildIndex() returns (err: Option<Error>)
      modifies this
      ensures err.None? <==> AllShallowHashable(data)
      ensures err.Some? ==> err.value == TypeError
      ensures err.None? ==> index == ShallowIndexOf(data) && Valid()
    {
      ShallowIndexConsistent(data);
      var built := IndexAllShallow(data);
      if built.Failure? {
        return Some(built.error);
      }
      index := built.value;
      err := None;
    }

    /**
     * `ids_by_key_and_value(key, value)`: TypeError for a list or dict
     * value, which `.get` hashes; otherwise, on a valid dataset, exactly the
     * positions whose top-level value for the key is or contains `value`.
     */
    function IdsByKeyAndValue(key: string, value: Value): (r: Result<seq<nat>>)
      reads this
      ensures r.Failure? <==> !IsScalar(value)
      ensures r.Failure? ==> r.error == TypeError
      ensures Valid() && r.Success? ==> forall x: nat :: x in r.value <==> ShallowHolds(data, x, Pair(key, value))
    {
      var r := Lookup(index, key, value);
      assert Valid() ==> forall x: nat :: x in r <==> ShallowHolds(data, x, Pair(key, value)) by {
        if Valid() {
          forall x: nat ensures x in r <==> ShallowHolds(data, x, Pair(key, value)) {
            PostingsMembership(ShallowItems(data), key, value, x);
            ShallowItemsHold(data, x, Pair(key, value));
          }
        }
      }
      ExactIds(index, key, value)
    }

    /** `ids_by_lookups(**kw)`: the positions of the items every lookup holds for. */
    method IdsByLookups(kw: map<string, Special>) returns (r: seq<nat>)
      ensures r == MatchingIds(data, kw)
    {
      r := ScanLookups(data, kw);
    }

    /** `inspect()`: per key, how many items hold a value other than None. */
    method Inspect() returns (r: map<string, nat>)
      ensures r == InspectOf(data)
    {
      r := map[];
      var i := 0;
      while i < |data|
        invariant 0 <= i <= |data|
        invariant r == InspectOf(data[..i])
      {
        assert data[..i + 1][..i] == data[..i];
        r := TallyItem(r, data[i]);
        i := i + 1;
      }
      assert data[..i] == data;
    }
  }

  /** The scan of `ids_by_lookups`. */
  method ScanLookups(data: seq<Doc>, kw: map<string, Special>) returns (r: seq<nat>)
    ensures r == MatchingIds(data, kw)
  {
    r := [];
    var i := 0;
    while i < |data|
      invariant 0 <= i <= |data|
      invariant r == MatchingIds(data[..i], kw)
    {
      assert data[..i + 1][..i] == data[..i];
      var matched := true;
      var keys := kw.Keys;
      while keys != {} && matched
        invariant keys <= kw.Keys
        invariant matched <==> forall k :: k in kw.Keys - keys ==> MatchOne(data[i], k, kw[k])
        decreases keys
      {
        var k :| k in keys;
        if !HasKey(data[i], k) || Ne(kw[k], Get(data[i], k)) {
          matched := false;
        }
        keys := keys - {k};
      }
      if matched {
        r := r + [i];
      }
      i := i + 1;
    }
    assert data[..i] == data;
  }

  /** Every lookup whose key is in `keys` holds for the document. */
  predicate MatchesOn(doc: Doc, keys: set<string>, kw: map<string, Special>)
    requires keys <= kw.Keys
  {
    forall k :: k in keys ==> MatchOne(doc, k, kw[k])
  }

  /** The positions every lookup whose key is in `keys` holds for. */
  function MatchingOn(data: seq<Doc>, keys: set<string>, kw: map<string, Special>): (r: set<nat>)
    requires keys <= kw.Keys
    ensures forall x: nat :: x in r <==> x < |data| && MatchesOn(data[x], keys, kw)
  {
    set x | x in Below(|data|) && MatchesOn(data[x], keys, kw)
  }

  /** One lookup run alone, and the ids so far narrowed to its result. */
  method Narrow(data: seq<Doc>, lookups: map<string, Special>, keys: set<string>, k: string, common: set<nat>)
    returns (found: seq<nat>, narrowed: set<nat>)
    requires keys <= lookups.Keys && k in lookups
    requires common == MatchingOn(data, keys, lookups)
    ensures found == MatchingIds(data, map[k := lookups[k]])
    ensures narrowed == MatchingOn(data, keys + {k}, lookups)
  {
    var single := map[k := lookups[k]];
    found := ScanLookups(data, single);
    forall x: nat ensures x in found <==> x < |data| && MatchOne(data[x], k, lookups[k]) {
      assert k in single;
    }
    narrowed := common * set x | x in found;
  }

  /**
   * What the loop of `_prepare` over the lookups knows once the keys in
   * `keys` are left: the count of lookups run, the result of the first one
   * and the intersection of all of them.
   */
  ghost predicate Intersected(data: seq<Doc>, lookups: map<string, Special>, keys: set<string>,
                              first: seq<nat>, count: nat, common: set<nat>, firstKey: string)
  {
    && keys <= lookups.Keys
    && count == |lookups.Keys - keys|
    && (count >= 1 ==> firstKey in lookups.Keys - keys && first == MatchingIds(data, map[firstKey := lookups[firstKey]]))
    && (count == 1 ==> lookups.Keys - keys == {firstKey})
    && common == MatchingOn(data, lookups.Keys - keys, lookups)
  }

  /** One round of the loop of `_prepare` over the lookups. */
  method IntersectStep(data: seq<Doc>, lookups: map<string, Special>, keys: set<string>,
                       first: seq<nat>, count: nat, common: set<nat>, ghost firstKey: string)
    returns (keys': set<string>, first': seq<nat>, count': nat, common': set<nat>, ghost firstKey': string)
    requires keys != {} && Intersected(data, lookups, keys, first, count, common, firstKey)
    ensures keys' < keys && Intersected(data, lookups, keys', first', count', common', firstKey')
  {
    var k :| k in keys;
    var before := lookups.Keys - keys;
    var found;
    found, common' := Narrow(data, lookups, before, k, common);
    first', firstKey' := first, firstKey;
    if count == 0 {
      first', firstKey' := found, k;
    }
    count' := count + 1;
    keys' := keys - {k};
    assert k !in before && lookups.Keys - keys' == before + {k};
  }

  /**
   * The loop of `_prepare` over the lookups: each one run alone through
   * `ids_by_lookups`, the first result kept and all of them intersected.
   */
  method IntersectLookups(data: seq<Doc>, lookups: map<string, Special>) returns (first: seq<nat>, count: nat, common: set<nat>)
    ensures count == |lookups|
    ensures count == 1 ==> first == MatchingIds(data, lookups)
    ensures forall x: nat :: x in common <==> x < |data| && Matches(data[x], lookups)
  {
    var keys := lookups.Keys;
    first := [];
    count := 0;
    common := Below(|data|);
    assert common == MatchingOn(data, {}, lookups);
    ghost var firstKey := "";
    while keys != {}
      invariant Intersected(data, lookups, keys, first, count, common, firstKey)
      decreases keys
    {
      keys, first, count, common, firstKey := IntersectStep(data, lookups, keys, first, count, common, firstKey);
    }
    assert lookups.Keys - keys == lookups.Keys;
    if count == 1 {
      assert lookups == map[firstKey := lookups[firstKey]];
    }
  }

  /**
   * The ids `_prepare` sets the iterator to: each lookup run alone and the
   * results intersected when there are several (the set modelled in
   * ascending order), all the ids when there is none. Every way gives the
   * ids every lookup holds for.
   */
  method LookupIds(data: seq<Doc>, lookups: map<string, Special>) returns (ids: seq<nat>)
    ensures ids == MatchingIds(data, lookups)
  {
    if |lookups| > 0 {
      var first, count, common := IntersectLookups(data, lookups);
      if count == 1 {
        ids := first;
      } else {
        ids := Enumerate(common, |data|);
        AscendingUnique(ids, MatchingIds(data, lookups));
      }
    } else {
      ids := ScanLookups(data, map[]);
      assert lookups == map[];
    }
  }

  // ------------------------------------------------------------------
  // The query

  /**
   * What a list of results can hold: a bare id, or a Document wrapping one
   * as `_prepare_item` makes it. Documents equal each other by position,
   * and an int never equals a Document: int does not compare with it, and
   * `Document.__eq__` is False for anything that is not a Document.
   */
  datatype Produced = Id(n: nat) | Document(idx: nat)

  function Wrap(ids: seq<nat>): (r: seq<Produced>)
    ensures |r| == |ids| && forall i :: 0 <= i < |ids| ==> r[i] == Document(ids[i])
  {
    seq(|ids|, i requires 0 <= i < |ids| => Document(ids[i]))
  }

  /** `ids.pop(ids.index(x))`: drop the first element equal to `x`. */
  function PopFirst(ids: seq<Produced>, x: Produced): (r: seq<Produced>)
    ensures x !in ids ==> r == ids
  {
    if |ids| == 0 then []
    else if ids[0] == x then ids[1..]
    else [ids[0]] + PopFirst(ids[1..], x)
  }

  /** The inner loop of `_order_results` for one value: (yielded, what is left of `ids`). */
  function WalkResults(postings: seq<nat>, ids: seq<Produced>): (seq<nat>, seq<Produced>)
  {
    if |postings| == 0 then ([], ids)
    else if Id(postings[0]) in ids then
      var w := WalkResults(postings[1..], PopFirst(ids, Id(postings[0])));
      ([postings[0]] + w.0, w.1)
    else WalkResults(postings[1..], ids)
  }

  /** `_order_results()` over the list `_to_list` returned. */
  function OrderResults(index: Index, key: string, vals: seq<Value>, ids: seq<Produced>): seq<nat>
  {
    if |vals| == 0 then []
    else
      var w := WalkResults(Lookup(index, key, vals[0]), ids);
      w.0 + OrderResults(index, key, vals[1..], w.1)
  }

  /** The list holds Documents only. */
  predicate AllDocuments(ids: seq<Produced>)
  {
    forall i :: 0 <= i < |ids| ==> ids[i].Document?
  }

  lemma {:induction false} WalkResultsOverDocuments(postings: seq<nat>, ids: seq<Produced>)
    requires AllDocuments(ids)
    ensures WalkResults(postings, ids) == ([], ids)
    decreases |postings|
  {
    if |postings| > 0 {
      assert Id(postings[0]) !in ids;
      WalkResultsOverDocuments(postings[1..], ids);
    }
  }

  /**
   * Over a list of Documents the ordering walk yields nothing: no id
   * equals a Document, so `order_by` leaves the results in the order of
   * the lookups.
   */
  lemma {:induction false} OrderResultsOverDocuments(index: Index, key: string, vals: seq<Value>, ids: seq<Produced>)
    requires AllDocuments(ids)
    ensures OrderResults(index, key, vals, ids) == []
    decreases |vals|
  {
    if |vals| > 0 {
      WalkResultsOverDocuments(Lookup(index, key, vals[0]), ids);
      OrderResultsOverDocuments(index, key, vals[1..], ids);
    }
  }

  /** Over bare ids the same walk does order: the first id posted under the first value comes first. */
  lemma OrderResultsOverIds()
    ensures var index: Index := map["k" := map[Int(1) := [1], Int(2) := [0]]];
      OrderResults(index, "k", [Int(1), Int(2)], [Id(0), Id(1)]) == [1, 0]
  {
    var index: Index := map["k" := map[Int(1) := [1], Int(2) := [0]]];
    var ids: seq<Produced> := [Id(0), Id(1)];
    var rest: seq<Produced> := [Id(0)];
    var none: seq<Produced> := [];
    var one: seq<nat> := [1];
    var zero: seq<nat> := [0];
    var empty: seq<nat> := [];
    assert Lookup(index, "k", Int(1)) == one;
    assert Lookup(index, "k", Int(2)) == zero;
    assert ids[1..] == [Id(1)] && ids[0] != Id(1);
    assert PopFirst(ids[1..], Id(1)) == none;
    assert PopFirst(ids, Id(1)) == rest;
    assert one[1..] == empty && zero[1..] == empty;
    assert WalkResults(empty, rest) == (empty, rest);
    assert Id(one[0]) in ids && [one[0]] + empty == one;
    assert WalkResults(one, ids) == (one, rest);
    assert rest[0] == Id(0) && rest[1..] == none;
    assert PopFirst(rest, Id(0)) == none;
    assert WalkResults(empty, none) == (empty, none);
    assert Id(zero[0]) in rest && [zero[0]] + empty == zero;
    assert WalkResults(zero, rest) == (zero, none);
    var vals := [Int(1), Int(2)];
    assert vals[1..] == [Int(2)] && vals[1..][1..] == [];
    assert OrderResults(index, "k", vals[1..][1..], none) == [];
    assert OrderResults(index, "k", vals[1..], rest) == [0];
  }

  /** The values item `x` contributes to `values(key)`. */
  function ValuesAt(data: seq<Doc>, x: nat, key: string): set<Value>
    requires x < |data|
  {
    set v | v in UnwrapOne(Get(data[x], key))
  }

  /** The distinct values `values(key)` collects over the given positions. */
  function ValuesOf(data: seq<Doc>, ids: seq<nat>, key: string): set<Value>
    requires forall i :: 0 <= i < |ids| ==> ids[i] < |data|
  {
    if |ids| == 0 then {}
    else
      var n := |ids| - 1;
      ValuesOf(data, ids[..n], key) + ValuesAt(data, ids[n], key)
  }

  /**
   * A value is collected exactly when some listed item's value for the
   * key (None when the key is missing) is or contains it.
   */
  lemma {:induction false} ValuesOfMeaning(data: seq<Doc>, ids: seq<nat>, key: string, v: Value)
    requires forall i :: 0 <= i < |ids| ==> ids[i] < |data|
    ensures v in ValuesOf(data, ids, key) <==> exists i :: 0 <= i < |ids| && v in ValuesAt(data, ids[i], key)
    decreases |ids|
  {
    if |ids| > 0 {
      var n := |ids| - 1;
      var front := ids[..n];
      assert forall i :: 0 <= i < n ==> front[i] == ids[i];
      ValuesOfMeaning(data, front, key, v);
      var holds := (x: nat) => x < |data| && v in ValuesAt(data, x, key);
      ExistsSnoc(ids, front, holds);
      assert forall i :: 0 <= i < |ids| ==> (holds(ids[i]) <==> v in ValuesAt(data, ids[i], key));
      assert forall i :: 0 <= i < n ==> (holds(front[i]) <==> v in ValuesAt(data, front[i], key));
    }
  }

  /** Every item of a query's results contributes; one without the key contributes None. */
  lemma MissingKeyGivesNone(data: seq<Doc>, kw: map<string, Special>, key: string, x: nat)
    requires x < |data| && Matches(data[x], kw) && !HasKey(data[x], key)
    ensures Null in ValuesOf(data, MatchingIds(data, kw), key)
  {
    var ids := MatchingIds(data, kw);
    assert x in ids;
    var i :| 0 <= i < |ids| && ids[i] == x;
    assert Get(data[x], key) == Null;
    assert Null in ValuesAt(data, ids[i], key);
    ValuesOfMeaning(data, ids, key, Null);
  }

  class Query {
    const dataset: Dataset
    const lookups: map<string, Special>
    /** `_order_by`: the key to order by, "" when there is none. */
    const orderBy: string
    const orderReversed: bool
    var prepared: bool
    /** What `_iter` still yields. */
    var pending: seq<nat>
    /** `_cache`: the Documents already produced. */
    var cache: seq<Produced>

    /** The cache only ever holds Documents. */
    ghost predicate Valid()
      reads this
    {
      AllDocuments(cache)
    }

    /** `Query(dataset, lookups, order_by, order_reversed)`: nothing run yet. */
    constructor (dataset: Dataset, lookups: map<string, Special>, orderBy: string, orderReversed: bool)
      ensures this.dataset == dataset && this.lookups == lookups
      ensures this.orderBy == orderBy && this.orderReversed == orderReversed
      ensures !prepared && pending == [] && cache == [] && Valid()
    {
      this.dataset := dataset;
      this.lookups := lookups;
      this.orderBy := orderBy;
      this.orderReversed := orderReversed;
      prepared := false;
      pending := [];
      cache := [];
    }

    /**
     * `find(**kw)`: a copy of the lookups updated with `kw` (a later value
     * for a key overrides), the same ordering key, reverse reset.
     */
    method Find(kw: map<string, Special>) returns (q: Query)
      ensures fresh(q) && q.dataset == dataset && q.lookups == lookups + kw
      ensures q.orderBy == orderBy && !q.orderReversed
      ensures !q.prepared && q.cache == [] && q.pending == [] && q.Valid()
    {
      q := new Query(dataset, lookups + kw, orderBy, false);
    }

    /**
     * `order_by(key)`: a leading '-' asks for the reverse order; a key that
     * is empty once stripped keeps the current ordering key.
     */
    method OrderBy(key: string) returns (q: Query)
      ensures fresh(q) && q.dataset == dataset && q.lookups == lookups
      ensures q.orderReversed <==> |key| > 0 && key[0] == '-'
      ensures q.orderReversed ==> q.orderBy == if |key| > 1 then key[1..] else orderBy
      ensures !q.orderReversed ==> q.orderBy == if key != "" then key else orderBy
      ensures !q.prepared && q.cache == [] && q.pending == [] && q.Valid()
    {
      var k := key;
      var rev := false;
      if |key| > 0 && key[0] == '-' {
        k := key[1..];
        rev := true;
      }
      q := new Query(dataset, lookups, if k != "" then k else orderBy, rev);
    }

    /**
     * `values(key, flat)`: the sorted distinct values of the key over the
     * matching items. A list or dict among them raises TypeError when
     * `setdefault` hashes it; otherwise `flat` with any value fails, a list
     * having no `keys`.
     */
    method Values(key: string, flat: bool) returns (r: Result<seq<Value>>)
      ensures var vs := ValuesOf(dataset.data, MatchingIds(dataset.data, lookups), key);
        && (!ScalarSet(vs) ==> r == Failure(TypeError))
        && (ScalarSet(vs) ==> (r.Failure? <==> flat && vs != {}))
        && (ScalarSet(vs) && r.Failure? ==> r.error == AttributeError)
        && (r.Success? ==> r.value == SortSet(vs))
    {
      var ids := dataset.IdsByLookups(lookups);
      var seen: set<Value> := {};
      var i := 0;
      while i < |ids|
        invariant 0 <= i <= |ids|
        invariant seen == ValuesOf(dataset.data, ids[..i], key)
      {
        assert ids[..i + 1][..i] == ids[..i];
        seen := seen + ValuesAt(dataset.data, ids[i], key);
        i := i + 1;
      }
      assert ids[..i] == ids;
      if !ScalarSet(seen) {
        return Failure(TypeError);
      }
      if seen == {} {
        assert SortSet(seen) == [];
        return Success([]);
      }
      if flat {
        return Failure(AttributeError);
      }
      r := Success(SortSet(seen));
    }

    /**
     * `_prepare()`, once: the ids every lookup holds for (each lookup run
     * alone, the results intersected when there are several); with an
     * ordering key, the results are listed into the cache and the ordering
     * walk, which yields nothing, becomes the iterator.
     */
    method Prepare()
      requires Valid()
      modifies this
      ensures prepared && Valid()
      ensures old(prepared) ==> pending == old(pending) && cache == old(cache)
      ensures !old(prepared) && orderBy == "" ==> pending == MatchingIds(dataset.data, lookups) && cache == old(cache)
      ensures !old(prepared) && orderBy != "" ==>
        && pending == []
        && cache == if old(cache) != [] then old(cache) else Wrap(MatchingIds(dataset.data, lookups))
    {
      if prepared {
        return;
      }
      var ids := LookupIds(dataset.data, lookups);
      pending := ids;
      prepared := true;
      if orderBy != "" {
        if cache == [] {
          cache := Wrap(pending);
        }
        pending := [];
        var vals := ShapingDb.OrderValues(IndexedValues(dataset.index, orderBy), orderReversed);
        var ordered := OrderResults(dataset.index, orderBy, vals, cache);
        OrderResultsOverDocuments(dataset.index, orderBy, vals, cache);
        pending := ordered;
      }
    }

    /** `_to_list()`: the cache if it holds anything, else every remaining result. */
    method ToList() returns (r: seq<Produced>)
      requires Valid()
      modifies this
      ensures prepared && Valid() && pending == [] && r == cache
      ensures !old(prepared) && old(cache) == [] ==> r == Wrap(MatchingIds(dataset.data, lookups))
    {
      Prepare();
      if cache == [] {
        cache := Wrap(pending);
      }
      pending := [];
      r := cache;
    }

    /**
     * `count()`, that is `len(query)`: on a query not run yet, the number
     * of items every lookup holds for, ordered or not.
     */
    method Count() returns (r: nat)
      requires Valid()
      modifies this
      ensures prepared && Valid() && r == |cache|
      ensures !old(prepared) && old(cache) == [] ==> r == |MatchingIds(dataset.data, lookups)|
    {
      var items := ToList();
      r := |items|;
    }
  }
}
