/**
 * The oldest table builder over the oldest in-memory query: the queries
 * are lookups, `values(key)` the sorted distinct values the matching
 * items hold for the key (None for an item without it), and
 * `find(**{key: value})` the lookups with `key` set to `value`.
 */
module CastingPivot {
  import opened Values
  import opened Documents
  import opened CastingDb
  import opened Pivot
  import opened Outcomes
  import opened Aggregates

  /** The lookups a query filters by. */
  type Lookups = map<string, Special>

  /** What the table builder asks of a query over `data`; the items a query yields are given. */
  function CastingOps(data: seq<Doc>, items: Lookups -> seq<Document>): Ops<Lookups>
  {
    Ops((q: Lookups, k: string) => SortSet(ValuesOf(data, MatchingIds(data, q), k)),
        (q: Lookups, k: string, v: Value) => q[k := Plain(v)],
        (q: Lookups) => |MatchingIds(data, q)|,
        items)
  }

  /** Two items, the second without key `a`. */
  const ShortData: seq<Doc> := [[Entry("a", Int(1))], []]

  /** The second item of `ShortData` lacks `a`, so `values("a")` holds None. */
  lemma NoneIsAValue()
    ensures Null in ValuesOf(ShortData, MatchingIds(ShortData, map[]), "a")
  {
    var empty: Lookups := map[];
    assert !HasKey(ShortData[1], "a");
    MissingKeyGivesNone(ShortData, empty, "a", 1);
  }

  /** No item of `ShortData` matches `a == None`: the first holds 1, the second lacks `a`. */
  lemma NoneMatchesNothing()
    ensures forall x: nat :: x !in MatchingIds(ShortData, map["a" := Plain(Null)])
  {
    var narrowed: Lookups := map["a" := Plain(Null)];
    var ids := MatchingIds(ShortData, narrowed);
    var first: Doc := [Entry("a", Int(1))];
    assert ShortData[0] == first && first[0].key == "a";
    assert Get(first, "a") == Int(1);
    assert !MatchOne(ShortData[0], "a", Plain(Null));
    assert "a" in narrowed && narrowed["a"] == Plain(Null);
    assert !Matches(ShortData[0], narrowed);
    assert !Matches(ShortData[1], narrowed);
    assert forall x: nat :: x !in ids;
  }

  /**
   * Over `ShortData`, key `a` has the value None (from the second item),
   * yet no item matches `a == None`, so within that query key `b` has no
   * values at all.
   */
  lemma NoneLevelHasNoValues(items: Lookups -> seq<Document>)
    ensures Null in CastingOps(ShortData, items).values(map[], "a")
    ensures var ops := CastingOps(ShortData, items);
      ops.values(ops.where(map[], "a", Null), "b") == []
  {
    var narrowed: Lookups := map["a" := Plain(Null)];
    CastingQueries(ShortData, items, map[], "a", Null);
    CastingQueries(ShortData, items, narrowed, "b", Null);
    NoneIsAValue();
    NothingUnderNone();
  }

  /**
   * What the table builder's query operations mean over a collection:
   * `values(q, k)` lists, strictly ascending, exactly the values that some
   * item matching `q` holds for `k` (None when it lacks the key), and an
   * item matches `where(q, k, v)` exactly when it matches the other lookups
   * of `q` and holds `v` under `k`.
   */
  lemma CastingQueries(data: seq<Doc>, items: Lookups -> seq<Document>, q: Lookups, k: string, v: Value)
    ensures StrictlySorted(CastingOps(data, items).values(q, k))
    ensures forall w :: w in CastingOps(data, items).values(q, k) <==>
      exists x: nat :: x < |data| && Matches(data[x], q) && w in ValuesAt(data, x, k)
    ensures forall x: nat :: x < |data| ==>
      (Matches(data[x], CastingOps(data, items).where(q, k, v)) <==>
       Matches(data[x], q - {k}) && MatchOne(data[x], k, Plain(v)))
  {
    var ids := MatchingIds(data, q);
    forall w
      ensures w in CastingOps(data, items).values(q, k) <==>
        exists x: nat :: x < |data| && Matches(data[x], q) && w in ValuesAt(data, x, k)
    {
      ValuesOfMeaning(data, ids, k, w);
      if w in CastingOps(data, items).values(q, k) {
        var i :| 0 <= i < |ids| && w in ValuesAt(data, ids[i], k);
        assert ids[i] in ids;
      }
      if exists x: nat :: x < |data| && Matches(data[x], q) && w in ValuesAt(data, x, k) {
        var x: nat :| x < |data| && Matches(data[x], q) && w in ValuesAt(data, x, k);
        assert x in ids;
        var i :| 0 <= i < |ids| && ids[i] == x;
        assert w in ValuesAt(data, ids[i], k);
      }
    }
    var narrowed := CastingOps(data, items).where(q, k, v);
    assert narrowed == q[k := Plain(v)];
    forall x: nat | x < |data|
      ensures Matches(data[x], narrowed) <==> Matches(data[x], q - {k}) && MatchOne(data[x], k, Plain(v))
    {
      assert forall j :: j in narrowed <==> j in q - {k} || j == k;
      assert forall j :: j in q - {k} ==> narrowed[j] == (q - {k})[j];
    }
  }

  /** No item matches `a == None`, so none contributes a value of `b`. */
  lemma NothingUnderNone()
    ensures ValuesOf(ShortData, MatchingIds(ShortData, map["a" := Plain(Null)]), "b") == {}
  {
    NoneMatchesNothing();
    var ids := MatchingIds(ShortData, map["a" := Plain(Null)]);
    forall v | true
      ensures v !in ValuesOf(ShortData, ids, "b")
    {
      ValuesOfMeaning(ShortData, ids, "b", v);
    }
  }

  /**
   * So the None level of `a` gets no level of `b` in the oldest builder,
   * while its successors give it a None level.
   */
  lemma NoneLevelChildless(items: Lookups -> seq<Document>)
    ensures var ops := CastingOps(ShortData, items);
      NewLevels(CastingCast, ops, ops.where(map[], "a", Null), "b") == []
    ensures var ops := CastingOps(ShortData, items);
      |NewLevels(CastingFixed, ops, ops.where(map[], "a", Null), "b")| == 1
  {
    var ops := CastingOps(ShortData, items);
    var q := ops.where(map[], "a", Null);
    NoneLevelHasNoValues(items);
    NewLevelsMeaning(CastingCast, ops, q, "b");
    NewLevelsMeaning(CastingFixed, ops, q, "b");
  }

  /**
   * Grouping `ShortData` by `a` then `b` in the oldest builder yields a
   * row with the level of `a` alone: one cell short of the heading, which
   * names both factors.
   */
  lemma ShortRowAsWritten(items: Lookups -> seq<Document>, arena: seq<Level<Lookups>>, bounds: seq<nat>)
    requires Built(CastingCast, CastingOps(ShortData, items), map[], ["a", "b"], arena, bounds) && |bounds| == 3
    ensures Forward(arena) && bounds[1] <= |arena|
    ensures exists k :: 0 <= k < |Leaves(arena, bounds[1])| && |Leaves(arena, bounds[1])[k]| == 1
  {
    var ops := CastingOps(ShortData, items);
    var basic: Lookups := map[];
    NoneLevelHasNoValues(items);
    NoneLevelChildless(items);
    var top := NewLevels(CastingCast, ops, basic, "a");
    var vals := ops.values(basic, "a");
    assert TopLayer(CastingCast, ops, basic, "a", arena, bounds[1]);
    var j :| 0 <= j < |vals| && vals[j] == Null;
    assert top[j].value == Null;
    assert arena[j].query == ops.where(basic, "a", Null);
    ChildlessTopRow(CastingCast, ops, basic, ["a", "b"], arena, bounds, j);
  }

  // ---------------------------------------------------------------------
  // Finding: the default aggregate hashes an attribute the Document lacks
  // ---------------------------------------------------------------------

  /**
   * `hash(doc)` for a `datacasting` Document as written: `hash(self.idx)`
   * reads the attribute `idx`, not the primary key `_idx`.  Only an item
   * key "idx" supplies it (through `__getattr__`); without one the lookup
   * raises AttributeError, and a list or dict there is unhashable.
   */
  function HashAsWritten(item: Doc): (r: Result<Value>)
    ensures r.Failure? <==> !HasKey(item, "idx") || !IsScalar(Get(item, "idx"))
    ensures !HasKey(item, "idx") ==> r == Failure(AttributeError)
    ensures HasKey(item, "idx") && !IsScalar(Get(item, "idx")) ==> r == Failure(TypeError)
    ensures r.Success? ==> r.value == Get(item, "idx")
  {
    if !HasKey(item, "idx") then Failure(AttributeError)
    else if !IsScalar(Get(item, "idx")) then Failure(TypeError)
    else Success(Get(item, "idx"))
  }

  /** The number of distinct positions among `ids`: the size of a set of Documents, which compare by `_idx`. */
  function DistinctIds(ids: seq<nat>): nat
  {
    |set i | 0 <= i < |ids| :: ids[i]|
  }

  /**
   * `Count().count_for(query)`, that is `len(set(query))`, as written: the
   * Documents are hashed in the query's order and the first failing hash
   * raises; when every hash succeeds, equal hashes are told apart by
   * `__eq__`, so the count is that of the distinct positions.
   */
  function CountAsWritten(data: seq<Doc>, ids: seq<nat>): (r: Result<nat>)
    requires forall i :: 0 <= i < |ids| ==> ids[i] < |data|
    ensures r.Success? <==> forall i :: 0 <= i < |ids| ==> HashAsWritten(data[ids[i]]).Success?
    ensures r.Success? ==> r.value == DistinctIds(ids)
    ensures r.Failure? ==> exists i :: 0 <= i < |ids| && HashAsWritten(data[ids[i]]) == Failure(r.error)
    decreases |ids|
  {
    if |ids| == 0 then Success(0)
    else
      var h := HashAsWritten(data[ids[0]]);
      if h.Failure? then Failure(h.error)
      else
        var rest := CountAsWritten(data, ids[1..]);
        if rest.Failure? then
          assert forall i :: 0 <= i < |ids| - 1 ==> ids[1..][i] == ids[i + 1];
          Failure(rest.error)
        else
          assert forall i :: 0 < i < |ids| ==> ids[i] == ids[1..][i - 1];
          Success(DistinctIds(ids))
  }

  /**
   * So the table builder's default aggregate raises on every non-empty
   * query over items without an "idx" key: the first Document's hash
   * already fails.
   */
  lemma {:induction false} KeylessCountRaises(data: seq<Doc>, ids: seq<nat>)
    requires forall i :: 0 <= i < |ids| ==> ids[i] < |data|
    requires |ids| > 0 && !HasKey(data[ids[0]], "idx")
    ensures CountAsWritten(data, ids) == Failure(AttributeError)
  {
  }

  /** Counting both items of `ShortData`, neither of which has "idx", raises AttributeError. */
  lemma ShortDataCountRaises()
    ensures CountAsWritten(ShortData, [0, 1]) == Failure(AttributeError)
  {
    assert !HasKey(ShortData[0], "idx");
    KeylessCountRaises(ShortData, [0, 1]);
  }

  /**
   * With the hash taken from the primary key, as equality already is,
   * `Count()` over the query's Documents is the number of distinct items:
   * what `CountFor` of the default aggregate computes, and what the code as
   * written computes whenever it does not raise.
   */
  lemma {:induction false} CountByPk(data: seq<Doc>, ids: seq<nat>, docs: seq<Document>)
    requires forall i :: 0 <= i < |ids| ==> ids[i] < |data|
    requires |docs| == |ids| && forall i :: 0 <= i < |ids| ==> docs[i].pk == ids[i]
    ensures CountFor(CountAll, docs) == Number(DistinctIds(ids))
    ensures CountAsWritten(data, ids).Success? ==> CountAsWritten(data, ids) == Success(DistinctIds(ids))
  {
    assert (set i | 0 <= i < |docs| :: docs[i].pk) == (set i | 0 <= i < |ids| :: ids[i]);
  }
}
