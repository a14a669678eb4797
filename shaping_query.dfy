/**
 * The lazy query of datashaping/query.py over the older in-memory
 * collection: criteria lists built by cloning, an ordering dictionary
 * `{key: reverse}` re-parsed on every clone, and a memoised id list.
 *
 * Python 2 dictionaries iterate in an unspecified order; where the source
 * iterates one (`order_by.items()`, the keys of `_order_by` on a clone) the
 * order is a parameter, constrained to enumerate the dictionary exactly.
 */
module ShapingQuery {
  import opened Outcomes
  import opened Values
  import opened Lookups
  import opened Index
  import opened Find
  import opened Sorting
  import opened Collection
  import opened ShapingMemory

  /**
   * `_resolve_ordering_key(key)`: a leading '-' asks for the reverse order
   * of the rest of the key; an empty key fails on `key[0]`.
   */
  function ResolveOrderingKey(key: string): (r: Result<(string, bool)>)
    ensures r.Failure? <==> key == ""
    ensures r.Failure? ==> r.error == IndexError
    ensures r.Success? ==> (if r.value.1 then "-" + r.value.0 else r.value.0) == key
    ensures r.Success? ==> (r.value.1 <==> key[0] == '-')
  {
    if key == "" then Failure(IndexError)
    else if key[0] == '-' then Success((key[1..], true))
    else Success((key, false))
  }

  /**
   * `dict(Query._resolve_ordering_key(k) for k in order_by)`: the first
   * empty key raises IndexError.
   */
  function OrderDict(keys: seq<string>): (r: Result<map<string, bool>>)
    ensures r.Failure? <==> exists i :: 0 <= i < |keys| && keys[i] == ""
    ensures r.Failure? ==> r.error == IndexError
  {
    if |keys| == 0 then Success(map[])
    else
      var n := |keys| - 1;
      var front := OrderDict(keys[..n]);
      if front.Failure? then
        assert exists i :: 0 <= i < |keys| && keys[i] == "" by {
          var i :| 0 <= i < n && keys[..n][i] == "";
          assert keys[i] == "";
        }
        front
      else if keys[n] == "" then Failure(IndexError)
      else
        assert forall j :: 0 <= j < |keys| ==> keys[j] != "" by {
          forall j | 0 <= j < |keys| ensures keys[j] != "" {
            if j < n { assert keys[j] == keys[..n][j]; }
          }
        }
        var (k, reverse) := ResolveOrderingKey(keys[n]).value;
        Success(front.value[k := reverse])
  }

  /** The `(field, reverse)` pairs of non-empty ordering keys. */
  function ResolvedAll(keys: seq<string>): (r: seq<(string, bool)>)
    requires forall i :: 0 <= i < |keys| ==> keys[i] != ""
    ensures |r| == |keys| && forall i :: 0 <= i < |keys| ==> r[i] == ResolveOrderingKey(keys[i]).value
  {
    seq(|keys|, i requires 0 <= i < |keys| => ResolveOrderingKey(keys[i]).value)
  }

  /** `dict(pairs)`: each pair in turn, a later one overriding. */
  function DictOf(ps: seq<(string, bool)>): map<string, bool>
  {
    if |ps| == 0 then map[] else DictOf(ps[..|ps| - 1])[ps[|ps| - 1].0 := ps[|ps| - 1].1]
  }

  /** No later pair of `ps` names the same field as `ps[i]`. */
  predicate LastNamed(ps: seq<(string, bool)>, i: nat)
    requires i < |ps|
  {
    forall j :: i < j < |ps| ==> ps[j].0 != ps[i].0
  }

  /**
   * The dictionary holds exactly the fields the pairs name, each with the
   * flag of the last pair naming it.
   */
  lemma {:induction false} DictOfMeaning(ps: seq<(string, bool)>)
    ensures forall k :: k in DictOf(ps) <==> exists i :: 0 <= i < |ps| && ps[i].0 == k
    ensures forall i :: 0 <= i < |ps| && LastNamed(ps, i) ==> DictOf(ps)[ps[i].0] == ps[i].1
  {
    if |ps| > 0 {
      var n := |ps| - 1;
      var front := ps[..n];
      assert forall j :: 0 <= j < n ==> front[j] == ps[j];
      DictOfMeaning(front);
      var m := DictOf(ps);
      forall k ensures k in m <==> exists i :: 0 <= i < |ps| && ps[i].0 == k {
        if k in m && k != ps[n].0 {
          var i :| 0 <= i < n && front[i].0 == k;
          assert ps[i].0 == k;
        }
      }
      forall i | 0 <= i < |ps| && LastNamed(ps, i) ensures m[ps[i].0] == ps[i].1 {
        if i < n {
          assert LastNamed(front, i);
        }
      }
    }
  }

  /** Resolving the keys one at a time builds the dictionary of their pairs. */
  lemma {:induction false} OrderDictResolved(keys: seq<string>)
    requires forall i :: 0 <= i < |keys| ==> keys[i] != ""
    ensures OrderDict(keys) == Success(DictOf(ResolvedAll(keys)))
  {
    if |keys| > 0 {
      var n := |keys| - 1;
      assert forall j :: 0 <= j < n ==> keys[..n][j] == keys[j];
      OrderDictResolved(keys[..n]);
      assert ResolvedAll(keys)[..n] == ResolvedAll(keys[..n]);
    }
  }

  /**
   * The ordering dictionary holds exactly the fields the keys name, each
   * with the reverse flag of the last key naming it: a later key overrides.
   */
  lemma OrderDictMeaning(keys: seq<string>)
    requires forall i :: 0 <= i < |keys| ==> keys[i] != ""
    ensures OrderDict(keys).Success?
    ensures forall k :: k in OrderDict(keys).value <==> exists i :: 0 <= i < |keys| && ResolvedAll(keys)[i].0 == k
    ensures forall i :: 0 <= i < |keys| && LastNamed(ResolvedAll(keys), i) ==>
      OrderDict(keys).value[ResolvedAll(keys)[i].0] == ResolveOrderingKey(keys[i]).value.1
  {
    OrderDictResolved(keys);
    DictOfMeaning(ResolvedAll(keys));
  }

  /** `s` lists every key of the set exactly once. */
  predicate Enumerates(s: seq<string>, keys: set<string>)
  {
    (forall i, j :: 0 <= i < j < |s| ==> s[i] != s[j]) && keys == set k | k in s
  }

  /** `s` lists every `(key, reverse)` item of the dictionary exactly once. */
  predicate EnumeratesOrder(s: seq<OrderKey>, orderBy: map<string, bool>)
  {
    && (forall i, j :: 0 <= i < j < |s| ==> s[i].key != s[j].key)
    && (forall i :: 0 <= i < |s| ==> s[i].key in orderBy && orderBy[s[i].key] == s[i].reverse)
    && (forall k :: k in orderBy ==> exists i :: 0 <= i < |s| && s[i].key == k)
  }

  /**
   * A clone re-parses the stored keys, which no longer carry their '-':
   * every reverse flag of the clone is False, whatever order the keys are
   * iterated in.
   */
  lemma CloneResetsReverse(orderBy: map<string, bool>, keyOrder: seq<string>)
    requires Enumerates(keyOrder, orderBy.Keys)
    requires forall k :: k in orderBy ==> k != "" && k[0] != '-'
    ensures OrderDict(keyOrder) == Success(map k | k in orderBy :: false)
  {
    var m := CloneOrder(orderBy, keyOrder);
    assert m.Keys == orderBy.Keys;
    assert m == map k | k in orderBy :: false;
  }

  /** The dictionary a clone builds: over the same keys, each flag False. */
  lemma CloneOrder(orderBy: map<string, bool>, keyOrder: seq<string>) returns (m: map<string, bool>)
    requires Enumerates(keyOrder, orderBy.Keys)
    requires forall k :: k in orderBy ==> k != "" && k[0] != '-'
    ensures OrderDict(keyOrder) == Success(m)
    ensures forall k :: k in m <==> k in orderBy
    ensures forall k :: k in m ==> !m[k]
  {
    var ps := PlainPairs(orderBy, keyOrder);
    OrderDictMeaning(keyOrder);
    m := OrderDict(keyOrder).value;
    forall k | k in orderBy ensures k in m && !m[k] {
      var i :| 0 <= i < |keyOrder| && keyOrder[i] == k;
      assert ps[i].0 == k;
      assert LastNamed(ps, i);
    }
    forall k | k in m ensures k in orderBy {
      var i :| 0 <= i < |keyOrder| && ps[i].0 == k;
    }
  }

  /** Keys without a leading '-' resolve to themselves, in ascending order. */
  lemma PlainPairs(orderBy: map<string, bool>, keyOrder: seq<string>) returns (ps: seq<(string, bool)>)
    requires Enumerates(keyOrder, orderBy.Keys)
    requires forall k :: k in orderBy ==> k != "" && k[0] != '-'
    ensures forall i :: 0 <= i < |keyOrder| ==> keyOrder[i] != ""
    ensures ps == ResolvedAll(keyOrder)
    ensures forall i :: 0 <= i < |keyOrder| ==> ps[i] == (keyOrder[i], false)
  {
    assert forall i :: 0 <= i < |keyOrder| ==> keyOrder[i] in orderBy;
    ps := ResolvedAll(keyOrder);
  }

  /**
   * A stored key that itself starts with '-' (from `order_by('--k')`) is
   * parsed again on the clone and comes back reversed under a shorter name.
   */
  lemma CloneReparsesDashedKey()
    ensures OrderDict(["--k"]) == Success(map["-k" := true])
    ensures OrderDict(["-k"]) == Success(map["k" := true])
  {
    assert ResolveOrderingKey("--k") == Success(("-k", true));
    assert ResolveOrderingKey("-k") == Success(("k", true));
    assert ["--k"][..0] == [] && ["-k"][..0] == [];
  }

  /**
   * What `_execute` computes on its first call: `find_ids_sorted` when an
   * ordering is set, `list(find_ids(...))` otherwise.
   */
  function QueryResult(data: seq<Doc>, index: Index, cache: map<string, seq<Value>>, lookups: seq<Criterion>,
                       orderBy: map<string, bool>, orderKeys: seq<OrderKey>): Result<seq<nat>>
  {
    if |orderBy| > 0 then SortedResult(Present(data), ShapingMemory.FindIdsSpec(data, index, cache, lookups), orderKeys)
    else ShapingMemory.FindIdsSpec(data, index, cache, lookups)
  }

  /**
   * The executed ids are the found ids, reordered: sorted by the last
   * ordering key iterated, or ascending when there is no ordering.
   */
  lemma QueryResultPermutes(data: seq<Doc>, index: Index, cache: map<string, seq<Value>>, lookups: seq<Criterion>,
                            orderBy: map<string, bool>, orderKeys: seq<OrderKey>)
    requires EnumeratesOrder(orderKeys, orderBy)
    ensures var found := ShapingMemory.FindIdsSpec(data, index, cache, lookups);
      var r := QueryResult(data, index, cache, lookups, orderBy, orderKeys);
      && r.Success? == found.Success?
      && (r.Success? ==> multiset(r.value) == multiset(found.value))
      && (r.Success? && |orderBy| > 0 ==>
            SortedBy(r.value, FieldOf(Present(data), orderKeys[|orderKeys| - 1].key), orderKeys[|orderKeys| - 1].reverse))
      && (r.Success? && |orderBy| == 0 ==> forall i, j :: 0 <= i < j < |r.value| ==> r.value[i] < r.value[j])
  {
    var found := ShapingMemory.FindIdsSpec(data, index, cache, lookups);
    SortingNeverFails(data, index, cache, lookups, orderKeys);
    if |orderBy| > 0 {
      var k :| k in orderBy;
      assert |orderKeys| > 0;
    }
    if found.Success? && |lookups| == 0 {
      assert found.value == Range(|data|);
    }
  }

  class Query {
    const storage: MemoryCollection
    const lookups: seq<Criterion>
    /** `_order_by`: field name to reverse flag. */
    const orderBy: map<string, bool>
    var executed: bool
    var ids: seq<nat>

    /** `Query(storage, lookups, order_by)` once the ordering keys are resolved. */
    constructor (storage: MemoryCollection, lookups: seq<Criterion>, orderBy: map<string, bool>)
      ensures this.storage == storage && this.lookups == lookups && this.orderBy == orderBy
      ensures !executed && ids == []
    {
      this.storage := storage;
      this.lookups := lookups;
      this.orderBy := orderBy;
      executed := false;
      ids := [];
    }

    /**
     * `find(**kw)`: a new query with the criteria appended (negate False);
     * the ordering keys are re-parsed, iterated in `keyOrder`.
     */
    method Find(kw: seq<Entry>, keyOrder: seq<string>) returns (r: Result<Query>)
      requires Enumerates(keyOrder, orderBy.Keys)
      ensures r.Failure? <==> OrderDict(keyOrder).Failure?
      ensures r.Success? ==> fresh(r.value) && r.value.storage == storage && !r.value.executed
      ensures r.Success? ==> r.value.lookups == lookups + Criteria(kw, false) && r.value.orderBy == OrderDict(keyOrder).value
    {
      r := NewQuery(storage, lookups + Criteria(kw, false), keyOrder);
    }

    /** `exclude(**kw)`: as `find`, with negated criteria. */
    method Exclude(kw: seq<Entry>, keyOrder: seq<string>) returns (r: Result<Query>)
      requires Enumerates(keyOrder, orderBy.Keys)
      ensures r.Failure? <==> OrderDict(keyOrder).Failure?
      ensures r.Success? ==> fresh(r.value) && r.value.storage == storage && !r.value.executed
      ensures r.Success? ==> r.value.lookups == lookups + Criteria(kw, true) && r.value.orderBy == OrderDict(keyOrder).value
    {
      r := NewQuery(storage, lookups + Criteria(kw, true), keyOrder);
    }

    /**
     * `order_by(*keys)`: a new query ordered by the given keys; with no keys
     * the current ordering is kept (and re-parsed).
     */
    method OrderBy(keys: seq<string>, keyOrder: seq<string>) returns (r: Result<Query>)
      requires Enumerates(keyOrder, orderBy.Keys)
      ensures var d := OrderDict(if |keys| > 0 then keys else keyOrder);
        && (r.Failure? <==> d.Failure?)
        && (r.Success? ==> fresh(r.value) && r.value.storage == storage && r.value.lookups == lookups)
        && (r.Success? ==> r.value.orderBy == d.value && !r.value.executed)
    {
      r := NewQuery(storage, lookups, if |keys| > 0 then keys else keyOrder);
    }

    /**
     * `_execute()`: the first call runs the lookups and keeps the ids; every
     * later call returns the kept ids. `orderKeys` is the iteration order of
     * `order_by.items()`.
     */
    method Execute(orderKeys: seq<OrderKey>) returns (r: Result<seq<nat>>)
      requires EnumeratesOrder(orderKeys, orderBy)
      modifies this, storage
      ensures storage.data == old(storage.data) && storage.index == old(storage.index)
      ensures storage.indexed == old(storage.indexed)
      ensures CacheExtends(storage.index, old(storage.valuesCache), storage.valuesCache)
      ensures old(executed) ==> r == Success(old(ids)) && executed && ids == old(ids)
      ensures !old(executed) ==>
        r == QueryResult(storage.data, storage.index, old(storage.valuesCache), lookups, orderBy, orderKeys)
      ensures r.Success? ==> executed && ids == r.value
      ensures r.Failure? ==> !executed && ids == old(ids)
    {
      if !executed {
        var found;
        if |orderBy| > 0 {
          found := storage.FindIdsSorted(lookups, orderKeys);
        } else {
          found := storage.FindIds(lookups);
        }
        if found.Failure? {
          return found;
        }
        ids := found.value;
        executed := true;
      }
      r := Success(ids);
    }

    /** `count()`, that is `len(query)`: the length of the executed ids. */
    method Count(orderKeys: seq<OrderKey>) returns (r: Result<nat>)
      requires EnumeratesOrder(orderKeys, orderBy)
      modifies this, storage
      ensures storage.data == old(storage.data) && storage.index == old(storage.index)
      ensures storage.indexed == old(storage.indexed)
      ensures CacheExtends(storage.index, old(storage.valuesCache), storage.valuesCache)
      ensures old(executed) ==> r == Success(|old(ids)|) && ids == old(ids)
      ensures var q := QueryResult(storage.data, storage.index, old(storage.valuesCache), lookups, orderBy, orderKeys);
        !old(executed) ==> r.Success? == q.Success? && (r.Success? ==> r.value == |q.value|) && (r.Failure? ==> r.error == q.error)
      ensures r.Success? ==> executed && r.value == |ids|
    {
      var found := Execute(orderKeys);
      if found.Failure? {
        return Failure(found.error);
      }
      r := Success(|found.value|);
    }

    /**
     * `values_for(key)`: without lookups, the storage's values for the key;
     * with lookups and no result, nothing; otherwise the values filtered by
     * the executed ids.
     */
    method ValuesFor(key: string, orderKeys: seq<OrderKey>) returns (r: Result<seq<Value>>)
      requires EnumeratesOrder(orderKeys, orderBy)
      modifies this, storage
      ensures storage.data == old(storage.data) && storage.index == old(storage.index)
      ensures storage.indexed == old(storage.indexed)
      ensures |lookups| == 0 ==> r == Success(ValuesView(storage.index, old(storage.valuesCache), key)) && executed == old(executed)
      ensures |lookups| > 0 && r.Success? ==>
        && executed
        && r.value == if |ids| == 0 then [] else FilterValues(storage.index, key, ValuesView(storage.index, old(storage.valuesCache), key), ids)
      ensures r.Failure? ==> |lookups| > 0 && !old(executed) && !executed
    {
      if |lookups| > 0 {
        var found := Execute(orderKeys);
        if found.Failure? {
          return Failure(found.error);
        }
        if |found.value| == 0 {
          return Success([]);
        }
        CacheExtendsView(storage.index, old(storage.valuesCache), storage.valuesCache, key);
        var vals := storage.ValuesFor(key, found.value);
        r := Success(vals);
      } else {
        var vals := storage.ValuesFor(key, []);
        r := Success(vals);
      }
    }
  }

  /** `Query(storage, lookups, order_by)`: the ordering keys are resolved first. */
  method NewQuery(storage: MemoryCollection, lookups: seq<Criterion>, orderKeys: seq<string>) returns (r: Result<Query>)
    ensures r.Failure? <==> OrderDict(orderKeys).Failure?
    ensures r.Failure? ==> r.error == IndexError
    ensures r.Success? ==> fresh(r.value) && r.value.storage == storage && r.value.lookups == lookups
    ensures r.Success? ==> r.value.orderBy == OrderDict(orderKeys).value && !r.value.executed
  {
    var d := OrderDict(orderKeys);
    if d.Failure? {
      return Failure(d.error);
    }
    var q := new Query(storage, lookups, d.value);
    r := Success(q);
  }
}
