/**
 * The pivot-table builder `cast`: grouping factors are expanded into a
 * tree of levels (one level per value of the factor's key within the
 * parent level's query), every root-to-leaf path becomes a row, the levels
 * of the pivot factors that occur under some row become extra columns, and
 * every row receives one cell per (pivot factor, pivot level, aggregate)
 * and one total per aggregate.  The three generations of the builder differ
 * only in the switches of `Config`.
 *
 * The query the table is built on is given by its operations (`Ops`):
 * the distinct values of a key, the query narrowed to one value of a key,
 * the number of results and the results themselves.
 */
module Pivot {
  import opened Outcomes
  import opened Values
  import opened Documents
  import opened Aggregates

  /**
   * The differences between the generations: whether a factor without
   * values still gets one level valued None, whether `cast` sorts the
   * values a query reports, whether the pivot columns are sorted, and
   * whether an empty list of factor names is replaced by a fresh list
   * (`factor_names or []`) rather than extended in place.
   */
  datatype Config = Config(stub: bool, sortValues: bool, sortColumns: bool, freshEmptyNames: bool)

  /** The newest builder, on `query.values` and `query.where`. */
  const DarkCast := Config(true, true, true, true)

  /** The middle builder, on the already sorted `query.values_for` and `query.find`. */
  const ShapingCast := Config(true, false, true, true)

  /** The oldest builder as written: no None level, pivot columns in first-seen order. */
  const CastingCast := Config(false, false, false, false)

  /** The oldest builder with the None level its successors add. */
  const CastingFixed := Config(true, false, false, false)

  /** What `cast` asks of a query. */
  datatype Ops<!Q> = Ops(
    values: (Q, string) -> seq<Value>,
    where: (Q, string, Value) -> Q,
    count: Q -> nat,
    items: Q -> seq<Document>)

  /**
   * A factor level: its value, the query narrowed to it, and the positions
   * of its child levels in the sequence that holds every level.
   */
  datatype Level<Q> = Level(value: Value, query: Q, children: seq<nat>)

  /** The values the builder turns into levels, in its order. */
  function Ordered(cfg: Config, vals: seq<Value>): (r: seq<Value>)
    ensures multiset(r) == multiset(vals)
    ensures cfg.sortValues ==> Sorted(r)
  {
    if cfg.sortValues then Sort(vals) else vals
  }

  /**
   * `Factor.add_levels(query)`: one fresh level per value of the key
   * within the query, narrowed to that value; with no values, a single
   * level valued None where the generation has one.
   */
  function NewLevels<Q>(cfg: Config, ops: Ops<Q>, q: Q, key: string): (r: seq<Level<Q>>)
    ensures forall i :: 0 <= i < |r| ==> r[i].children == [] && r[i].query == ops.where(q, key, r[i].value)
    ensures cfg.stub ==> |r| > 0
  {
    var vals := Ordered(cfg, ops.values(q, key));
    if |vals| == 0 && cfg.stub then [Level(Null, ops.where(q, key, Null), [])]
    else seq(|vals|, i requires 0 <= i < |vals| => Level(vals[i], ops.where(q, key, vals[i]), []))
  }

  /**
   * The levels are the query's values, one level each, sorted where the
   * generation sorts them; no values give the single None level or, in the
   * oldest builder, no level at all.
   */
  lemma NewLevelsMeaning<Q>(cfg: Config, ops: Ops<Q>, q: Q, key: string)
    ensures var r := NewLevels(cfg, ops, q, key);
      && (|ops.values(q, key)| > 0 || !cfg.stub ==>
            |r| == |ops.values(q, key)|
            && multiset(seq(|r|, i requires 0 <= i < |r| => r[i].value)) == multiset(ops.values(q, key))
            && (cfg.sortValues ==> Sorted(seq(|r|, i requires 0 <= i < |r| => r[i].value))))
      && (|ops.values(q, key)| == 0 && cfg.stub ==> |r| == 1 && r[0].value == Null)
  {
    var vals := Ordered(cfg, ops.values(q, key));
    var r := NewLevels(cfg, ops, q, key);
    if |vals| > 0 || !cfg.stub {
      assert seq(|r|, i requires 0 <= i < |r| => r[i].value) == vals;
    }
  }

  /** Positions `lo` to `hi` - 1. */
  function Span(lo: nat, hi: nat): (r: seq<nat>)
    requires lo <= hi
    ensures |r| == hi - lo
    ensures forall i :: 0 <= i < |r| ==> r[i] == lo + i
  {
    seq(hi - lo, i requires 0 <= i < hi - lo => lo + i)
  }

  /** Level `i`'s children are the levels `add_levels` makes for `key` within its query. */
  ghost predicate Attached<Q>(cfg: Config, ops: Ops<Q>, key: string, arena: seq<Level<Q>>, i: nat)
    requires i < |arena|
  {
    var lv := NewLevels(cfg, ops, arena[i].query, key);
    && |arena[i].children| == |lv|
    && forall j :: 0 <= j < |lv| ==>
         var c := arena[i].children[j];
         c < |arena| && arena[c].value == lv[j].value && arena[c].query == lv[j].query
  }

  /** Every level from `lo` to `hi` - 1 is attached for `key`, its children lying from `clo` to `chi` - 1. */
  ghost predicate LayerAttached<Q>(cfg: Config, ops: Ops<Q>, key: string, arena: seq<Level<Q>>,
                                   lo: nat, hi: nat, clo: nat, chi: nat)
  {
    && hi <= |arena|
    && forall i :: lo <= i < hi ==>
         && Attached(cfg, ops, key, arena, i)
         && forall j :: 0 <= j < |arena[i].children| ==> clo <= arena[i].children[j] < chi
  }

  /** The levels from `lo` to `hi` - 1 have no children. */
  ghost predicate Childless<Q>(arena: seq<Level<Q>>, lo: nat, hi: nat)
  {
    hi <= |arena| && forall i :: lo <= i < hi ==> arena[i].children == []
  }

  /** `bounds` cuts the levels into consecutive layers, one per factor. */
  ghost predicate Cut(bounds: seq<nat>, size: nat)
  {
    && |bounds| > 0
    && bounds[0] == 0
    && bounds[|bounds| - 1] <= size
    && forall d, e :: 0 <= d <= e < |bounds| ==> bounds[d] <= bounds[e]
  }

  /** The first layer is what `add_levels` makes of the basic query. */
  ghost predicate TopLayer<Q>(cfg: Config, ops: Ops<Q>, basic: Q, key: string, arena: seq<Level<Q>>, hi: nat)
  {
    var lv := NewLevels(cfg, ops, basic, key);
    && hi == |lv| <= |arena|
    && forall j :: 0 <= j < hi ==> arena[j].value == lv[j].value && arena[j].query == lv[j].query
  }

  /**
   * The levels of the first `|bounds| - 1` factors, complete: the first
   * layer comes from the basic query, each level of a layer holds as
   * children exactly the levels of the next factor within its query, and
   * the last layer has no children.
   */
  ghost predicate Built<Q>(cfg: Config, ops: Ops<Q>, basic: Q, keys: seq<string>,
                           arena: seq<Level<Q>>, bounds: seq<nat>)
  {
    && Cut(bounds, |arena|)
    && |bounds| - 1 <= |keys|
    && bounds[|bounds| - 1] == |arena|
    && (|bounds| > 1 ==> TopLayer(cfg, ops, basic, keys[0], arena, bounds[1]))
    && (forall d :: 0 <= d < |bounds| - 2 ==>
          LayerAttached(cfg, ops, keys[d + 1], arena, bounds[d], bounds[d + 1], bounds[d + 1], bounds[d + 2]))
    && (|bounds| > 1 ==> Childless(arena, bounds[|bounds| - 2], bounds[|bounds| - 1]))
  }

  /** The same, part-way through the layer of factor `|bounds| - 1`: its first `done` parents are attached. */
  ghost predicate Building<Q>(cfg: Config, ops: Ops<Q>, basic: Q, keys: seq<string>,
                              arena: seq<Level<Q>>, bounds: seq<nat>, done: nat)
  {
    && Cut(bounds, |arena|)
    && 2 <= |bounds| <= |keys|
    && TopLayer(cfg, ops, basic, keys[0], arena, bounds[1])
    && (forall d :: 0 <= d < |bounds| - 2 ==>
          LayerAttached(cfg, ops, keys[d + 1], arena, bounds[d], bounds[d + 1], bounds[d + 1], bounds[d + 2]))
    && var n := |bounds| - 1;
    && bounds[n - 1] + done <= bounds[n]
    && LayerAttached(cfg, ops, keys[n], arena, bounds[n - 1], bounds[n - 1] + done, bounds[n], |arena|)
    && Childless(arena, bounds[n - 1] + done, |arena|)
  }

  /** Levels that keep their value and query keep every attachment made to them. */
  lemma AttachedFrame<Q>(cfg: Config, ops: Ops<Q>, key: string, arena: seq<Level<Q>>, arena': seq<Level<Q>>,
                         lo: nat, hi: nat, clo: nat, chi: nat)
    requires LayerAttached(cfg, ops, key, arena, lo, hi, clo, chi)
    requires |arena| <= |arena'| && chi <= |arena|
    requires forall c :: 0 <= c < |arena| ==> arena'[c].value == arena[c].value && arena'[c].query == arena[c].query
    requires forall i :: lo <= i < hi ==> arena'[i].children == arena[i].children
    ensures LayerAttached(cfg, ops, key, arena', lo, hi, clo, chi)
  {
    forall i | lo <= i < hi
      ensures Attached(cfg, ops, key, arena', i)
    {
      assert Attached(cfg, ops, key, arena, i);
    }
  }

  /** Opening the layer of the next factor: no parent attached yet. */
  lemma StartLayer<Q>(cfg: Config, ops: Ops<Q>, basic: Q, keys: seq<string>, arena: seq<Level<Q>>, bounds: seq<nat>)
    requires Built(cfg, ops, basic, keys, arena, bounds)
    requires 2 <= |bounds| <= |keys|
    ensures Building(cfg, ops, basic, keys, arena, bounds, 0)
  {
  }

  /** Closing a layer whose parents are all attached. */
  lemma EndLayer<Q>(cfg: Config, ops: Ops<Q>, basic: Q, keys: seq<string>, arena: seq<Level<Q>>, bounds: seq<nat>, done: nat)
    requires Building(cfg, ops, basic, keys, arena, bounds, done)
    requires bounds[|bounds| - 2] + done == bounds[|bounds| - 1]
    ensures Built(cfg, ops, basic, keys, arena, bounds + [|arena|])
  {
    var b := bounds + [|arena|];
    forall d | 0 <= d < |b| - 2
      ensures LayerAttached(cfg, ops, keys[d + 1], arena, b[d], b[d + 1], b[d + 1], b[d + 2])
    {
      if d < |bounds| - 2 {
        assert b[d] == bounds[d] && b[d + 1] == bounds[d + 1] && b[d + 2] == bounds[d + 2];
      }
    }
  }

  /**
   * One parent of the layer being built: `levels = factor.add_levels(
   * super_level.query)` appends the new levels, and `super_level.attach(
   * levels)` makes them its children.
   */
  method AttachStep<Q>(cfg: Config, ops: Ops<Q>, ghost basic: Q, keys: seq<string>, arena: seq<Level<Q>>,
                       bounds: seq<nat>, done: nat) returns (arena': seq<Level<Q>>)
    requires Building(cfg, ops, basic, keys, arena, bounds, done)
    requires bounds[|bounds| - 2] + done < bounds[|bounds| - 1]
    ensures Building(cfg, ops, basic, keys, arena', bounds, done + 1)
  {
    var n := |bounds| - 1;
    var sup := bounds[n - 1] + done;
    var lv := NewLevels(cfg, ops, arena[sup].query, keys[n]);
    var added := Span(|arena|, |arena| + |lv|);
    var grown := arena + lv;
    arena' := grown[sup := grown[sup].(children := grown[sup].children + added)];
    AttachKeeps(cfg, ops, basic, keys, arena, bounds, done, lv, arena');
  }

  /** What `AttachStep` does keeps the layers built so far and attaches one more parent. */
  lemma AttachKeeps<Q>(cfg: Config, ops: Ops<Q>, basic: Q, keys: seq<string>, arena: seq<Level<Q>>,
                       bounds: seq<nat>, done: nat, lv: seq<Level<Q>>, arena': seq<Level<Q>>)
    requires Building(cfg, ops, basic, keys, arena, bounds, done)
    requires bounds[|bounds| - 2] + done < bounds[|bounds| - 1]
    requires lv == NewLevels(cfg, ops, arena[bounds[|bounds| - 2] + done].query, keys[|bounds| - 1])
    requires var sup := bounds[|bounds| - 2] + done;
      arena' == (arena + lv)[sup := arena[sup].(children := arena[sup].children + Span(|arena|, |arena| + |lv|))]
    ensures Building(cfg, ops, basic, keys, arena', bounds, done + 1)
  {
    var n := |bounds| - 1;
    var sup := bounds[n - 1] + done;
    assert Childless(arena, sup, |arena|);
    GrowFacts(arena, lv, sup, arena');
    TopLayerKept(cfg, ops, basic, keys[0], arena, arena', bounds[1]);
    OldLayersKept(cfg, ops, keys, arena, arena', bounds);
    NewParentAttached(cfg, ops, keys[n], arena, arena', bounds[n - 1], sup, bounds[n], lv);
    NewLevelsChildless(cfg, ops, arena, arena', lv, sup);
  }

  /** Appending the new levels and giving `sup` their positions as children. */
  lemma GrowFacts<Q>(arena: seq<Level<Q>>, lv: seq<Level<Q>>, sup: nat, arena': seq<Level<Q>>)
    requires sup < |arena| && arena[sup].children == []
    requires arena' == (arena + lv)[sup := arena[sup].(children := arena[sup].children + Span(|arena|, |arena| + |lv|))]
    ensures |arena'| == |arena| + |lv|
    ensures forall c :: 0 <= c < |arena| && c != sup ==> arena'[c] == arena[c]
    ensures arena'[sup] == arena[sup].(children := Span(|arena|, |arena| + |lv|))
    ensures forall c :: 0 <= c < |arena| ==> arena'[c].value == arena[c].value && arena'[c].query == arena[c].query
    ensures forall j :: 0 <= j < |lv| ==> arena'[|arena| + j] == lv[j]
  {
    assert arena[sup].children + Span(|arena|, |arena| + |lv|) == Span(|arena|, |arena| + |lv|);
  }

  /** The first layer keeps its levels' values and queries. */
  lemma TopLayerKept<Q>(cfg: Config, ops: Ops<Q>, basic: Q, key: string, arena: seq<Level<Q>>, arena': seq<Level<Q>>, hi: nat)
    requires TopLayer(cfg, ops, basic, key, arena, hi)
    requires |arena| <= |arena'|
    requires forall c :: 0 <= c < |arena| ==> arena'[c].value == arena[c].value && arena'[c].query == arena[c].query
    ensures TopLayer(cfg, ops, basic, key, arena', hi)
  {
  }

  /** The appended levels have no children, and neither have the parents after `sup`. */
  lemma NewLevelsChildless<Q>(cfg: Config, ops: Ops<Q>, arena: seq<Level<Q>>, arena': seq<Level<Q>>, lv: seq<Level<Q>>, sup: nat)
    requires Childless(arena, sup, |arena|)
    requires forall i :: 0 <= i < |lv| ==> lv[i].children == []
    requires |arena'| == |arena| + |lv|
    requires forall c :: 0 <= c < |arena| && c != sup ==> arena'[c] == arena[c]
    requires forall j :: 0 <= j < |lv| ==> arena'[|arena| + j] == lv[j]
    ensures Childless(arena', sup + 1, |arena'|)
  {
    forall i | sup + 1 <= i < |arena'|
      ensures arena'[i].children == []
    {
      if i >= |arena| {
        assert arena'[i] == lv[i - |arena|];
      }
    }
  }

  /** Attachments of complete layers survive a change that keeps their levels. */
  lemma OldLayersKept<Q>(cfg: Config, ops: Ops<Q>, keys: seq<string>, arena: seq<Level<Q>>, arena': seq<Level<Q>>, bounds: seq<nat>)
    requires Cut(bounds, |arena|) && |bounds| >= 2 && |bounds| - 1 < |keys|
    requires forall d :: 0 <= d < |bounds| - 2 ==>
      LayerAttached(cfg, ops, keys[d + 1], arena, bounds[d], bounds[d + 1], bounds[d + 1], bounds[d + 2])
    requires |arena| <= |arena'|
    requires forall c :: 0 <= c < |arena| ==> arena'[c].value == arena[c].value && arena'[c].query == arena[c].query
    requires forall i :: 0 <= i < bounds[|bounds| - 2] ==> arena'[i].children == arena[i].children
    ensures forall d :: 0 <= d < |bounds| - 2 ==>
      LayerAttached(cfg, ops, keys[d + 1], arena', bounds[d], bounds[d + 1], bounds[d + 1], bounds[d + 2])
  {
    forall d | 0 <= d < |bounds| - 2
      ensures LayerAttached(cfg, ops, keys[d + 1], arena', bounds[d], bounds[d + 1], bounds[d + 1], bounds[d + 2])
    {
      AttachedFrame(cfg, ops, keys[d + 1], arena, arena', bounds[d], bounds[d + 1], bounds[d + 1], bounds[d + 2]);
    }
  }

  /** The parents before `sup` stay attached and `sup` gets the appended levels as children. */
  lemma NewParentAttached<Q>(cfg: Config, ops: Ops<Q>, key: string, arena: seq<Level<Q>>, arena': seq<Level<Q>>,
                             lo: nat, sup: nat, clo: nat, lv: seq<Level<Q>>)
    requires LayerAttached(cfg, ops, key, arena, lo, sup, clo, |arena|)
    requires lo <= sup < clo <= |arena|
    requires lv == NewLevels(cfg, ops, arena[sup].query, key)
    requires |arena'| == |arena| + |lv|
    requires forall c :: 0 <= c < |arena| && c != sup ==> arena'[c] == arena[c]
    requires arena'[sup] == arena[sup].(children := Span(|arena|, |arena| + |lv|))
    requires forall j :: 0 <= j < |lv| ==> arena'[|arena| + j] == lv[j]
    ensures LayerAttached(cfg, ops, key, arena', lo, sup + 1, clo, |arena'|)
  {
    forall i | lo <= i < sup + 1
      ensures Attached(cfg, ops, key, arena', i)
      ensures forall j :: 0 <= j < |arena'[i].children| ==> clo <= arena'[i].children[j] < |arena'|
    {
      if i < sup {
        assert Attached(cfg, ops, key, arena, i);
      }
    }
  }

  /**
   * The levels of every factor, built as `cast` builds them: the first
   * factor's levels from the basic query, then, factor by factor, the
   * levels of the next factor within each level of the previous one,
   * attached to it as its children.  `bounds` marks where each factor's
   * levels start.
   */
  method BuildLevels<Q>(cfg: Config, ops: Ops<Q>, basic: Q, keys: seq<string>) returns (arena: seq<Level<Q>>, bounds: seq<nat>)
    ensures Built(cfg, ops, basic, keys, arena, bounds)
    ensures |bounds| == |keys| + 1
  {
    arena := [];
    bounds := [0];
    var num := 0;
    while num < |keys|
      invariant num <= |keys| && |bounds| == num + 1
      invariant Built(cfg, ops, basic, keys, arena, bounds)
    {
      if num == 0 {
        arena := NewLevels(cfg, ops, basic, keys[0]);
        NewLevelsMeaning(cfg, ops, basic, keys[0]);
        bounds := [0, |arena|];
      } else {
        StartLayer(cfg, ops, basic, keys, arena, bounds);
        var done := 0;
        while bounds[num - 1] + done < bounds[num]
          invariant Building(cfg, ops, basic, keys, arena, bounds, done)
          decreases bounds[num] - bounds[num - 1] - done
        {
          arena := AttachStep(cfg, ops, basic, keys, arena, bounds, done);
          done := done + 1;
        }
        EndLayer(cfg, ops, basic, keys, arena, bounds, done);
        bounds := bounds + [|arena|];
      }
      num := num + 1;
    }
  }

  /** Every child lies after its parent. */
  ghost predicate Forward<Q>(arena: seq<Level<Q>>)
  {
    forall i, j :: 0 <= i < |arena| && 0 <= j < |arena[i].children| ==> i < arena[i].children[j] < |arena|
  }

  /** The layer a level belongs to. */
  lemma LayerOf(bounds: seq<nat>, size: nat, i: nat) returns (d: nat)
    requires Cut(bounds, size) && bounds[|bounds| - 1] == size && i < size
    ensures d < |bounds| - 1 && bounds[d] <= i < bounds[d + 1]
  {
    d := 0;
    while bounds[d + 1] <= i
      invariant d < |bounds| - 1 && bounds[d] <= i
      decreases |bounds| - d
    {
      d := d + 1;
    }
  }

  /** Complete levels are ordered parents first. */
  lemma BuiltForward<Q>(cfg: Config, ops: Ops<Q>, basic: Q, keys: seq<string>, arena: seq<Level<Q>>, bounds: seq<nat>)
    requires Built(cfg, ops, basic, keys, arena, bounds)
    ensures Forward(arena)
  {
    forall i, j | 0 <= i < |arena| && 0 <= j < |arena[i].children|
      ensures i < arena[i].children[j] < |arena|
    {
      var d := LayerOf(bounds, |arena|, i);
      if d < |bounds| - 2 {
        assert LayerAttached(cfg, ops, keys[d + 1], arena, bounds[d], bounds[d + 1], bounds[d + 1], bounds[d + 2]);
      }
    }
  }

  /** Rows are non-empty and hold positions of levels. */
  predicate InArena(size: nat, rows: seq<seq<nat>>)
  {
    forall k :: 0 <= k < |rows| ==> |rows[k]| > 0 && forall m :: 0 <= m < |rows[k]| ==> rows[k][m] < size
  }

  /** `[self] + row` for each row. */
  function Prepend(i: nat, rows: seq<seq<nat>>): (r: seq<seq<nat>>)
    ensures |r| == |rows|
    ensures forall k :: 0 <= k < |r| ==> r[k] == [i] + rows[k]
  {
    seq(|rows|, k requires 0 <= k < |rows| => [i] + rows[k])
  }

  /**
   * `Level.get_rows()`: a level without children is a row of its own;
   * otherwise the level is put in front of every row of every child, child
   * by child.  Rows are lists of positions of levels.
   */
  function RowsFrom<Q>(arena: seq<Level<Q>>, i: nat): (r: seq<seq<nat>>)
    requires Forward(arena) && i < |arena|
    ensures InArena(|arena|, r)
    decreases |arena| - i, 0
  {
    if |arena[i].children| == 0 then [[i]]
    else Prepend(i, RowsList(arena, arena[i].children, i + 1))
  }

  /** The rows of each of the levels at positions `cs`, in turn. */
  function RowsList<Q>(arena: seq<Level<Q>>, cs: seq<nat>, low: nat): (r: seq<seq<nat>>)
    requires Forward(arena)
    requires forall k :: 0 <= k < |cs| ==> low <= cs[k] < |arena|
    ensures InArena(|arena|, r)
    decreases |arena| - low, 1, |cs|
  {
    if |cs| == 0 then []
    else RowsFrom(arena, cs[0]) + RowsList(arena, cs[1..], low)
  }

  /** `r` walks from level `i` down through children to a level without children. */
  ghost predicate PathFrom<Q>(arena: seq<Level<Q>>, i: nat, r: seq<nat>)
  {
    && |r| > 0 && r[0] == i
    && (forall k :: 0 <= k < |r| ==> r[k] < |arena|)
    && (forall k :: 0 <= k < |r| - 1 ==> r[k + 1] in arena[r[k]].children)
    && arena[r[|r| - 1]].children == []
  }

  /** Every row `get_rows` yields is the path from the level down to one leaf below it. */
  lemma {:induction false} RowsArePaths<Q>(arena: seq<Level<Q>>, i: nat)
    requires Forward(arena) && i < |arena|
    ensures forall r :: r in RowsFrom(arena, i) ==> PathFrom(arena, i, r)
    decreases |arena| - i, 0
  {
    if |arena[i].children| > 0 {
      var cs := arena[i].children;
      RowsListArePaths(arena, cs, i + 1);
      forall r | r in RowsFrom(arena, i)
        ensures PathFrom(arena, i, r)
      {
        var rows := RowsList(arena, cs, i + 1);
        var k :| 0 <= k < |rows| && r == [i] + rows[k];
        assert rows[k] in rows;
        var c :| c in cs && PathFrom(arena, c, rows[k]);
        assert r[0] == i && r[1..] == rows[k];
        forall m | 0 <= m < |r| - 1
          ensures r[m + 1] in arena[r[m]].children
        {
          if m > 0 {
            assert r[m] == rows[k][m - 1] && r[m + 1] == rows[k][m];
          }
        }
      }
    }
  }

  /** Every row of a list of levels is a path from one of them. */
  lemma {:induction false} RowsListArePaths<Q>(arena: seq<Level<Q>>, cs: seq<nat>, low: nat)
    requires Forward(arena)
    requires forall k :: 0 <= k < |cs| ==> low <= cs[k] < |arena|
    ensures forall r :: r in RowsList(arena, cs, low) ==> exists c :: c in cs && PathFrom(arena, c, r)
    decreases |arena| - low, 1, |cs|
  {
    if |cs| > 0 {
      RowsArePaths(arena, cs[0]);
      RowsListArePaths(arena, cs[1..], low);
      forall r | r in RowsList(arena, cs, low)
        ensures exists c :: c in cs && PathFrom(arena, c, r)
      {
        var first := RowsFrom(arena, cs[0]);
        var rest := RowsList(arena, cs[1..], low);
        if r in first {
          assert PathFrom(arena, cs[0], r);
        } else {
          assert r in rest;
          var c :| c in cs[1..] && PathFrom(arena, c, r);
          var m :| 0 <= m < |cs| - 1 && cs[1..][m] == c;
          assert cs[m + 1] == c;
        }
      }
    }
  }

  /**
   * Where every factor gets at least one level under each level of the
   * previous one, every row starting at a level of factor `d` has one
   * level for each of the factors from `d` on.
   */
  lemma {:induction false} RowsWidth<Q>(cfg: Config, ops: Ops<Q>, basic: Q, keys: seq<string>,
                                        arena: seq<Level<Q>>, bounds: seq<nat>, d: nat, i: nat)
    requires cfg.stub
    requires Built(cfg, ops, basic, keys, arena, bounds) && |bounds| == |keys| + 1 && Forward(arena)
    requires d < |keys| && bounds[d] <= i < bounds[d + 1]
    ensures forall r :: r in RowsFrom(arena, i) ==> |r| == |keys| - d
    decreases |arena| - i, 0
  {
    if d < |keys| - 1 {
      assert LayerAttached(cfg, ops, keys[d + 1], arena, bounds[d], bounds[d + 1], bounds[d + 1], bounds[d + 2]);
      assert Attached(cfg, ops, keys[d + 1], arena, i);
      RowsListWidth(cfg, ops, basic, keys, arena, bounds, d + 1, arena[i].children, i + 1);
    } else {
      assert Childless(arena, bounds[|keys| - 1], bounds[|keys|]);
    }
  }

  /** The same for the rows of a list of levels of factor `d`. */
  lemma {:induction false} RowsListWidth<Q>(cfg: Config, ops: Ops<Q>, basic: Q, keys: seq<string>,
                                            arena: seq<Level<Q>>, bounds: seq<nat>, d: nat, cs: seq<nat>, low: nat)
    requires cfg.stub
    requires Built(cfg, ops, basic, keys, arena, bounds) && |bounds| == |keys| + 1 && Forward(arena)
    requires d < |keys|
    requires forall k :: 0 <= k < |cs| ==> low <= cs[k] < |arena| && bounds[d] <= cs[k] < bounds[d + 1]
    ensures forall r :: r in RowsList(arena, cs, low) ==> |r| == |keys| - d
    decreases |arena| - low, 1, |cs|
  {
    if |cs| > 0 {
      RowsWidth(cfg, ops, basic, keys, arena, bounds, d, cs[0]);
      RowsListWidth(cfg, ops, basic, keys, arena, bounds, d, cs[1..], low);
    }
  }

  /** The values of the levels of a row. */
  function RowValues<Q>(arena: seq<Level<Q>>, r: seq<nat>): (vs: seq<Value>)
    requires forall k :: 0 <= k < |r| ==> r[k] < |arena|
    ensures |vs| == |r| && forall k :: 0 <= k < |r| ==> vs[k] == arena[r[k]].value
  {
    seq(|r|, k requires 0 <= k < |r| => arena[r[k]].value)
  }

  /** The query narrowed by the first factor to the first value, then by the second, and so on. */
  function Narrowed<Q>(ops: Ops<Q>, q: Q, keys: seq<string>, vals: seq<Value>): Q
    requires |vals| <= |keys|
    decreases |vals|
  {
    if |vals| == 0 then q
    else
      var n := |vals| - 1;
      ops.where(Narrowed(ops, q, keys, vals[..n]), keys[n], vals[n])
  }

  /** A path from a level of factor `d` goes down one factor per step. */
  lemma {:induction false} PathLayers<Q>(cfg: Config, ops: Ops<Q>, basic: Q, keys: seq<string>, arena: seq<Level<Q>>,
                                         bounds: seq<nat>, d: nat, i: nat, r: seq<nat>, k: nat)
    requires Built(cfg, ops, basic, keys, arena, bounds) && |bounds| == |keys| + 1
    requires d < |keys| && bounds[d] <= i < bounds[d + 1]
    requires PathFrom(arena, i, r) && k < |r|
    ensures d + k < |keys| && bounds[d + k] <= r[k] < bounds[d + k + 1]
    ensures k > 0 ==> arena[r[k]].query == ops.where(arena[r[k - 1]].query, keys[d + k], arena[r[k]].value)
    decreases k
  {
    if k > 0 {
      PathLayers(cfg, ops, basic, keys, arena, bounds, d, i, r, k - 1);
      ChildLayer(cfg, ops, basic, keys, arena, bounds, d + k - 1, r[k - 1], r[k]);
    }
  }

  /** A child of a level of factor `m` is a level of factor `m + 1`, narrowing its parent's query. */
  lemma ChildLayer<Q>(cfg: Config, ops: Ops<Q>, basic: Q, keys: seq<string>, arena: seq<Level<Q>>,
                      bounds: seq<nat>, m: nat, p: nat, c: nat)
    requires Built(cfg, ops, basic, keys, arena, bounds) && |bounds| == |keys| + 1
    requires m < |keys| && bounds[m] <= p < bounds[m + 1] && p < |arena|
    requires c in arena[p].children && c < |arena|
    ensures m + 1 < |keys| && bounds[m + 1] <= c < bounds[m + 2]
    ensures arena[c].query == ops.where(arena[p].query, keys[m + 1], arena[c].value)
  {
    var j :| 0 <= j < |arena[p].children| && arena[p].children[j] == c;
    assert Childless(arena, bounds[|keys| - 1], bounds[|keys|]);
    assert m < |keys| - 1;
    assert LayerAttached(cfg, ops, keys[m + 1], arena, bounds[m], bounds[m + 1], bounds[m + 1], bounds[m + 2]);
    assert Attached(cfg, ops, keys[m + 1], arena, p);
  }

  /**
   * Along a row that starts at a level of the first factor, each level's
   * query is the basic query narrowed by every factor so far to the row's
   * values.
   */
  lemma {:induction false} PathQuery<Q>(cfg: Config, ops: Ops<Q>, basic: Q, keys: seq<string>, arena: seq<Level<Q>>,
                                        bounds: seq<nat>, i: nat, r: seq<nat>, k: nat)
    requires Built(cfg, ops, basic, keys, arena, bounds) && |bounds| == |keys| + 1 && |keys| > 0
    requires i < bounds[1] && PathFrom(arena, i, r) && k < |r|
    ensures k < |keys|
    ensures arena[r[k]].query == Narrowed(ops, basic, keys, RowValues(arena, r)[..k + 1])
    decreases k
  {
    PathLayers(cfg, ops, basic, keys, arena, bounds, 0, i, r, k);
    var vs := RowValues(arena, r);
    if k == 0 {
      assert TopLayer(cfg, ops, basic, keys[0], arena, bounds[1]);
      assert vs[..1][..0] == [];
    } else {
      PathQuery(cfg, ops, basic, keys, arena, bounds, i, r, k - 1);
      assert vs[..k + 1][..k] == vs[..k];
    }
  }

  /** No value listed twice. */
  predicate NoRepeats(s: seq<Value>)
  {
    forall i, j :: 0 <= i < j < |s| ==> s[i] != s[j]
  }

  /** The query narrowed to value `v` of key `f` has results. */
  predicate Occurs<Q>(ops: Ops<Q>, q: Q, f: string, v: Value)
  {
    ops.count(ops.where(q, f, v)) > 0
  }

  /**
   * One pivot factor over one row: each value in turn is recorded when the
   * row's query narrowed to it has results and it is not recorded yet.
   */
  function Note<Q>(ops: Ops<Q>, q: Q, f: string, vals: seq<Value>, used: seq<Value>): seq<Value>
    decreases |vals|
  {
    if |vals| == 0 then used
    else
      var n := |vals| - 1;
      var u := Note(ops, q, f, vals[..n], used);
      if Occurs(ops, q, f, vals[n]) && vals[n] !in u then u + [vals[n]] else u
  }

  /**
   * Recording keeps what was recorded, in its place, adds exactly the
   * values with results, and adds none twice.
   */
  lemma {:induction false} NoteMeaning<Q>(ops: Ops<Q>, q: Q, f: string, vals: seq<Value>, used: seq<Value>, v: Value)
    ensures var r := Note(ops, q, f, vals, used);
      && used <= r
      && (v in r <==> v in used || (v in vals && Occurs(ops, q, f, v)))
      && (NoRepeats(used) ==> NoRepeats(r))
    decreases |vals|
  {
    if |vals| > 0 {
      var n := |vals| - 1;
      NoteMeaning(ops, q, f, vals[..n], used, v);
      assert vals == vals[..n] + [vals[n]];
      var u := Note(ops, q, f, vals[..n], used);
      if Occurs(ops, q, f, vals[n]) && vals[n] !in u {
        NoteMeaning(ops, q, f, vals[..n], used, vals[n]);
      }
    }
  }

  /** `dict((k, []) for k in pivot_factors)`. */
  function Fresh(pivots: seq<string>): (m: map<string, seq<Value>>)
    ensures forall f :: f in m <==> f in pivots
    ensures forall f :: f in m ==> m[f] == []
  {
    map f | f in pivots :: []
  }

  /** Every pivot factor over one row, in turn, each over the row's values for it in the builder's order. */
  function NoteRow<Q>(cfg: Config, ops: Ops<Q>, q: Q, pivots: seq<string>, used: map<string, seq<Value>>): (r: map<string, seq<Value>>)
    requires forall k :: 0 <= k < |pivots| ==> pivots[k] in used
    ensures r.Keys == used.Keys
    decreases |pivots|
  {
    if |pivots| == 0 then used
    else
      var n := |pivots| - 1;
      var u := NoteRow(cfg, ops, q, pivots[..n], used);
      var f := pivots[n];
      u[f := Note(ops, q, f, Ordered(cfg, ops.values(q, f)), u[f])]
  }

  /** The pivot levels recorded over rows whose last levels hold the queries `qs`. */
  function Collected<Q>(cfg: Config, ops: Ops<Q>, qs: seq<Q>, pivots: seq<string>): (r: map<string, seq<Value>>)
    ensures forall f :: f in r <==> f in pivots
    decreases |qs|
  {
    if |qs| == 0 then Fresh(pivots)
    else NoteRow(cfg, ops, qs[|qs| - 1], pivots, Collected(cfg, ops, qs[..|qs| - 1], pivots))
  }

  /** One row records, for each of its pivot factors, the values with results. */
  lemma {:induction false} NoteRowMeaning<Q>(cfg: Config, ops: Ops<Q>, q: Q, pivots: seq<string>,
                                             used: map<string, seq<Value>>, f: string, v: Value)
    requires forall k :: 0 <= k < |pivots| ==> pivots[k] in used
    requires f in used
    ensures var r := NoteRow(cfg, ops, q, pivots, used);
      && used[f] <= r[f]
      && (v in r[f] <==> v in used[f] || (f in pivots && v in ops.values(q, f) && Occurs(ops, q, f, v)))
      && (NoRepeats(used[f]) ==> NoRepeats(r[f]))
    decreases |pivots|
  {
    if |pivots| > 0 {
      var n := |pivots| - 1;
      NoteRowMeaning(cfg, ops, q, pivots[..n], used, f, v);
      assert RowNoted(cfg, ops, q, pivots[..n], used, f, v);
      if pivots[n] == f {
        NoteRowSame(cfg, ops, q, pivots, used, f, v);
      } else {
        NoteRowOther(cfg, ops, q, pivots, used, f, v);
      }
    }
  }

  /** What `NoteRowMeaning` states of the pivot factors `pivots`. */
  ghost predicate RowNoted<Q>(cfg: Config, ops: Ops<Q>, q: Q, pivots: seq<string>,
                              used: map<string, seq<Value>>, f: string, v: Value)
    requires forall k :: 0 <= k < |pivots| ==> pivots[k] in used
    requires f in used
  {
    var r := NoteRow(cfg, ops, q, pivots, used);
    && used[f] <= r[f]
    && (v in r[f] <==> v in used[f] || (f in pivots && v in ops.values(q, f) && Occurs(ops, q, f, v)))
    && (NoRepeats(used[f]) ==> NoRepeats(r[f]))
  }

  /** `NoteRowMeaning`'s step when the last pivot factor is `f`. */
  lemma NoteRowSame<Q>(cfg: Config, ops: Ops<Q>, q: Q, pivots: seq<string>, used: map<string, seq<Value>>, f: string, v: Value)
    requires forall k :: 0 <= k < |pivots| ==> pivots[k] in used
    requires f in used && |pivots| > 0 && pivots[|pivots| - 1] == f
    requires RowNoted(cfg, ops, q, pivots[..|pivots| - 1], used, f, v)
    ensures RowNoted(cfg, ops, q, pivots, used, f, v)
  {
    var n := |pivots| - 1;
    InFrontLast(pivots, f);
    NoteRowLast(cfg, ops, q, pivots, used, f);
    var u := NoteRow(cfg, ops, q, pivots[..n], used);
    var vals := Ordered(cfg, ops.values(q, f));
    NoteMeaning(ops, q, f, vals, u[f], v);
    assert v in vals <==> v in ops.values(q, f) by {
      assert v in multiset(vals) <==> v in multiset(ops.values(q, f));
    }
  }

  /** `NoteRowMeaning`'s step when the last pivot factor is another one. */
  lemma NoteRowOther<Q>(cfg: Config, ops: Ops<Q>, q: Q, pivots: seq<string>, used: map<string, seq<Value>>, f: string, v: Value)
    requires forall k :: 0 <= k < |pivots| ==> pivots[k] in used
    requires f in used && |pivots| > 0 && pivots[|pivots| - 1] != f
    requires RowNoted(cfg, ops, q, pivots[..|pivots| - 1], used, f, v)
    ensures RowNoted(cfg, ops, q, pivots, used, f, v)
  {
    InFrontLast(pivots, f);
    NoteRowLast(cfg, ops, q, pivots, used, f);
  }

  /** The last pivot factor notes the row's values on top of what the others recorded. */
  lemma NoteRowLast<Q>(cfg: Config, ops: Ops<Q>, q: Q, pivots: seq<string>, used: map<string, seq<Value>>, f: string)
    requires forall k :: 0 <= k < |pivots| ==> pivots[k] in used
    requires |pivots| > 0 && f in used
    ensures var n := |pivots| - 1;
      var u := NoteRow(cfg, ops, q, pivots[..n], used);
      NoteRow(cfg, ops, q, pivots, used)[f] ==
        if pivots[n] == f then Note(ops, q, f, Ordered(cfg, ops.values(q, f)), u[f]) else u[f]
  {
  }

  /**
   * A level of a pivot factor becomes a column exactly when, under some
   * row, the value occurs for the factor and the row's query narrowed to it
   * has results; each is recorded once, in the order first seen.
   */
  lemma {:induction false} CollectedMeaning<Q>(cfg: Config, ops: Ops<Q>, qs: seq<Q>, pivots: seq<string>, f: string, v: Value)
    requires f in pivots
    ensures v in Collected(cfg, ops, qs, pivots)[f] <==>
      exists k :: 0 <= k < |qs| && v in ops.values(qs[k], f) && Occurs(ops, qs[k], f, v)
    ensures NoRepeats(Collected(cfg, ops, qs, pivots)[f])
    decreases |qs|
  {
    if |qs| > 0 {
      var n := |qs| - 1;
      var front := qs[..n];
      CollectedMeaning(cfg, ops, front, pivots, f, v);
      NoteRowMeaning(cfg, ops, qs[n], pivots, Collected(cfg, ops, front, pivots), f, v);
      var holds := (q: Q) => v in ops.values(q, f) && Occurs(ops, q, f, v);
      ExistsSnoc(qs, front, holds);
      assert forall k :: 0 <= k < |qs| ==> (holds(qs[k]) <==> v in ops.values(qs[k], f) && Occurs(ops, qs[k], f, v));
      assert forall k :: 0 <= k < n ==> (holds(front[k]) <==> v in ops.values(front[k], f) && Occurs(ops, front[k], f, v));
    }
  }

  /** `used_pivot_levels.get(factor, [])`. */
  function Lookup(used: map<string, seq<Value>>, f: string): seq<Value>
  {
    if f in used then used[f] else []
  }

  /** The recorded levels of one pivot factor in column order. */
  function Columns(cfg: Config, levels: seq<Value>): (r: seq<Value>)
    ensures multiset(r) == multiset(levels) && |r| == |levels|
    ensures cfg.sortColumns ==> Sorted(r)
  {
    if cfg.sortColumns then Sort(levels) else levels
  }

  /** Every column names an aggregate below `n`. */
  predicate Within(cols: seq<Column>, n: nat)
  {
    forall i :: 0 <= i < |cols| ==> cols[i].agg < n
  }

  /** One pivot column: a pivot factor, one of its levels, and the position of an aggregate. */
  datatype Column = Column(factor: string, level: Value, agg: nat)

  /** The columns of one pivot factor: for each level, one per aggregate. */
  function LevelColumns(f: string, levels: seq<Value>, n: nat): (r: seq<Column>)
    ensures Within(r, n)
    decreases |levels|
  {
    if |levels| == 0 then []
    else
      var k := |levels| - 1;
      LevelColumns(f, levels[..k], n) + Row(f, levels[k], n)
  }

  /** The pivot columns of the table: factor by factor, level by level, aggregate by aggregate. */
  function PivotColumns(cfg: Config, pivots: seq<string>, used: map<string, seq<Value>>, n: nat): (r: seq<Column>)
    ensures Within(r, n)
    decreases |pivots|
  {
    if |pivots| == 0 then []
    else
      var k := |pivots| - 1;
      PivotColumns(cfg, pivots[..k], used, n) + LevelColumns(pivots[k], Columns(cfg, Lookup(used, pivots[k])), n)
  }

  /** The number of recorded levels over the pivot factors, a factor named twice counting twice. */
  function LevelCount(pivots: seq<string>, used: map<string, seq<Value>>): nat
    decreases |pivots|
  {
    if |pivots| == 0 then 0
    else LevelCount(pivots[..|pivots| - 1], used) + |Lookup(used, pivots[|pivots| - 1])|
  }

  /** `(x + y) * n == x * n + y * n`. */
  lemma Distribute(x: nat, y: nat, n: nat)
    ensures (x + y) * n == x * n + y * n
  {
  }

  /** `n` columns per level. */
  lemma {:induction false} LevelColumnsWidth(f: string, levels: seq<Value>, n: nat)
    ensures |LevelColumns(f, levels, n)| == |levels| * n
    decreases |levels|
  {
    if |levels| > 0 {
      var k := |levels| - 1;
      LevelColumnsWidth(f, levels[..k], n);
      Distribute(k, 1, n);
    }
  }

  /** A factor's columns: one per (level, aggregate), and nothing else. */
  lemma {:induction false} LevelColumnsMeaning(f: string, levels: seq<Value>, n: nat, c: Column)
    ensures c in LevelColumns(f, levels, n) <==> c.factor == f && c.level in levels && c.agg < n
    decreases |levels|
  {
    if |levels| > 0 {
      var k := |levels| - 1;
      LevelColumnsMeaning(f, levels[..k], n, c);
      assert levels == levels[..k] + [levels[k]];
      var last := Row(f, levels[k], n);
      assert c in last <==> c.factor == f && c.level == levels[k] && c.agg < n by {
        if c.factor == f && c.level == levels[k] && c.agg < n {
          assert last[c.agg] == c;
        }
      }
    }
  }

  /** Widths `a * n` and `b * n` add up to `(a + b) * n`. */
  lemma AddWidths(x: nat, y: nat, a: nat, b: nat, c: nat, n: nat)
    requires x == a * n && y == b * n && c == a + b
    ensures x + y == c * n
  {
    Distribute(a, b, n);
  }

  /** The columns of the last pivot factor come after those of the others. */
  lemma ColumnsSplit(cfg: Config, pivots: seq<string>, used: map<string, seq<Value>>, n: nat)
    requires |pivots| > 0
    ensures var k := |pivots| - 1;
      |PivotColumns(cfg, pivots, used, n)| ==
      |PivotColumns(cfg, pivots[..k], used, n)| + |LevelColumns(pivots[k], Columns(cfg, Lookup(used, pivots[k])), n)|
  {
  }

  /** `n` columns per recorded level. */
  lemma {:induction false} PivotColumnsWidth(cfg: Config, pivots: seq<string>, used: map<string, seq<Value>>, n: nat)
    ensures |PivotColumns(cfg, pivots, used, n)| == LevelCount(pivots, used) * n
    decreases |pivots|
  {
    if |pivots| > 0 {
      var k := |pivots| - 1;
      var f := pivots[k];
      var front := pivots[..k];
      var levels := Columns(cfg, Lookup(used, f));
      var a := LevelCount(front, used);
      var b := |Lookup(used, f)|;
      PivotColumnsWidth(cfg, front, used, n);
      LevelColumnsWidth(f, levels, n);
      ColumnsSplit(cfg, pivots, used, n);
      assert LevelCount(pivots, used) == a + b && |levels| == b;
      AddWidths(|PivotColumns(cfg, front, used, n)|, |LevelColumns(f, levels, n)|, a, b, LevelCount(pivots, used), n);
    }
  }

  /** The table has one column per (pivot factor, recorded level, aggregate), and nothing else. */
  lemma {:induction false} PivotColumnsMeaning(cfg: Config, pivots: seq<string>, used: map<string, seq<Value>>, n: nat, c: Column)
    ensures c in PivotColumns(cfg, pivots, used, n) <==> c.factor in pivots && c.level in Lookup(used, c.factor) && c.agg < n
    decreases |pivots|
  {
    if |pivots| > 0 {
      var k := |pivots| - 1;
      var f := pivots[k];
      PivotColumnsMeaning(cfg, pivots[..k], used, n, c);
      LevelColumnsMeaning(f, Columns(cfg, Lookup(used, f)), n, c);
      assert pivots == pivots[..k] + [f];
      assert c.level in Columns(cfg, Lookup(used, f)) <==> c.level in Lookup(used, f) by {
        assert c.level in multiset(Columns(cfg, Lookup(used, f))) <==> c.level in multiset(Lookup(used, f));
      }
    }
  }

  /** What a row holds: the value of one of its levels, the catch-all level, or an aggregate's result. */
  datatype Cell = LevelCell(value: Value) | AllCell | Computed(counted: Counted)

  /** The heading of a column: a factor name or an aggregate's `str`, a pivot level, or `"level aggregate"`. */
  datatype Heading = Text(s: string) | LevelHeading(level: Value) | Combined(level: Value, agg: string)

  /** A cell of a column: the aggregate over the row's query narrowed to the column's level. */
  function CellAt<Q>(ops: Ops<Q>, q: Q, aggs: seq<Aggregate>, c: Column): Cell
    requires c.agg < |aggs|
  {
    Computed(CountFor(aggs[c.agg], ops.items(ops.where(q, c.factor, c.level))))
  }

  /** A row's cells for the given columns. */
  function CellsOf<Q>(ops: Ops<Q>, q: Q, aggs: seq<Aggregate>, cols: seq<Column>): (r: seq<Cell>)
    requires Within(cols, |aggs|)
    ensures |r| == |cols|
  {
    seq(|cols|, i requires 0 <= i < |cols| => CellAt(ops, q, aggs, cols[i]))
  }

  /** The totals: each aggregate over the row's query. */
  function Totals<Q>(ops: Ops<Q>, q: Q, aggs: seq<Aggregate>): (r: seq<Cell>)
    ensures |r| == |aggs|
  {
    seq(|aggs|, a requires 0 <= a < |aggs| => Computed(CountFor(aggs[a], ops.items(q))))
  }

  /** The heading of a column: the bare level under a single aggregate. */
  function HeadingAt(aggs: seq<Aggregate>, c: Column): Heading
    requires c.agg < |aggs|
  {
    if |aggs| < 2 then LevelHeading(c.level) else Combined(c.level, Display(aggs[c.agg]))
  }

  /** The headings of the given columns. */
  function HeadingsOf(aggs: seq<Aggregate>, cols: seq<Column>): (r: seq<Heading>)
    requires Within(cols, |aggs|)
    ensures |r| == |cols|
  {
    seq(|cols|, i requires 0 <= i < |cols| => HeadingAt(aggs, cols[i]))
  }

  /** `str(aggregate)`, as a heading. */
  function AggregateHeading(agg: Aggregate): Heading
  {
    Text(Display(agg))
  }

  /** `str(aggregate)` for each aggregate. */
  function AggregateHeadings(aggs: seq<Aggregate>): (r: seq<Heading>)
    ensures |r| == |aggs|
  {
    seq(|aggs|, a requires 0 <= a < |aggs| => AggregateHeading(aggs[a]))
  }

  /** The columns of one level, one per aggregate. */
  function Row(f: string, level: Value, n: nat): (r: seq<Column>)
    ensures |r| == n && forall k :: 0 <= k < n ==> r[k] == Column(f, level, k)
  {
    seq(n, k requires 0 <= k < n => Column(f, level, k))
  }

  /** Recording one pivot factor's values for one row. */
  method NoteValues<Q>(ops: Ops<Q>, q: Q, f: string, vals: seq<Value>, used: seq<Value>) returns (r: seq<Value>)
    ensures r == Note(ops, q, f, vals, used)
  {
    r := used;
    for j := 0 to |vals|
      invariant r == Note(ops, q, f, vals[..j], used)
    {
      assert vals[..j + 1][..j] == vals[..j];
      var query := ops.where(q, f, vals[j]);
      if ops.count(query) > 0 && vals[j] !in r {
        r := r + [vals[j]];
      }
    }
    assert vals[..|vals|] == vals;
  }

  /** Recording every pivot factor for one row. */
  method NoteRowValues<Q>(cfg: Config, ops: Ops<Q>, q: Q, pivots: seq<string>, used: map<string, seq<Value>>)
    returns (r: map<string, seq<Value>>)
    requires forall k :: 0 <= k < |pivots| ==> pivots[k] in used
    ensures r == NoteRow(cfg, ops, q, pivots, used)
  {
    r := used;
    for p := 0 to |pivots|
      invariant r == NoteRow(cfg, ops, q, pivots[..p], used)
    {
      var f := pivots[p];
      ghost var next := pivots[..p + 1];
      assert next[..p] == pivots[..p] && next[p] == f;
      assert f in r;
      var list := NoteValues(ops, q, f, Ordered(cfg, ops.values(q, f)), r[f]);
      assert NoteRow(cfg, ops, q, next, used) == r[f := list];
      r := r[f := list];
    }
    assert pivots[..|pivots|] == pivots;
  }

  /**
   * The collecting pass of `cast`: for each row, for each pivot factor,
   * for each of the values the row's last level has for it, record the
   * value when the narrowed query has results and it is not recorded yet.
   */
  method CollectPivots<Q>(cfg: Config, ops: Ops<Q>, qs: seq<Q>, pivots: seq<string>) returns (used: map<string, seq<Value>>)
    ensures used == Collected(cfg, ops, qs, pivots)
  {
    used := map f | f in pivots :: [];
    assert used == Fresh(pivots);
    for r := 0 to |qs|
      invariant used == Collected(cfg, ops, qs[..r], pivots)
    {
      assert qs[..r + 1][..r] == qs[..r];
      used := NoteRowValues(cfg, ops, qs[r], pivots, used);
    }
    assert qs[..|qs|] == qs;
  }

  /** The cells of consecutive column runs follow one another. */
  lemma CellsAppend<Q>(ops: Ops<Q>, q: Q, aggs: seq<Aggregate>, a: seq<Column>, b: seq<Column>)
    requires Within(a, |aggs|)
    requires Within(b, |aggs|)
    ensures Within(a + b, |aggs|)
    ensures CellsOf(ops, q, aggs, a + b) == CellsOf(ops, q, aggs, a) + CellsOf(ops, q, aggs, b)
  {
    assert forall i :: 0 <= i < |a| ==> (a + b)[i] == a[i];
    assert forall i :: 0 <= i < |b| ==> (a + b)[|a| + i] == b[i];
  }

  /** The cells of one pivot level: each aggregate over the query narrowed to the level. */
  method PivotLevelCells<Q>(ops: Ops<Q>, q: Q, f: string, level: Value, aggs: seq<Aggregate>) returns (r: seq<Cell>)
    ensures r == CellsOf(ops, q, aggs, Row(f, level, |aggs|))
  {
    var query := ops.where(q, f, level);
    r := [];
    for a := 0 to |aggs|
      invariant r == CellsOf(ops, q, aggs, Row(f, level, a))
    {
      assert Row(f, level, a + 1) == Row(f, level, a) + [Column(f, level, a)];
      CellsAppend(ops, q, aggs, Row(f, level, a), [Column(f, level, a)]);
      r := r + [Computed(CountFor(aggs[a], ops.items(query)))];
    }
  }

  /** The cells of one pivot factor: its recorded levels in column order. */
  method FactorCells<Q>(cfg: Config, ops: Ops<Q>, q: Q, f: string, used: map<string, seq<Value>>, aggs: seq<Aggregate>)
    returns (r: seq<Cell>)
    ensures r == CellsOf(ops, q, aggs, LevelColumns(f, Columns(cfg, Lookup(used, f)), |aggs|))
  {
    var levels := Columns(cfg, Lookup(used, f));
    r := [];
    for j := 0 to |levels|
      invariant r == CellsOf(ops, q, aggs, LevelColumns(f, levels[..j], |aggs|))
    {
      assert levels[..j + 1][..j] == levels[..j];
      var cells := PivotLevelCells(ops, q, f, levels[j], aggs);
      CellsAppend(ops, q, aggs, LevelColumns(f, levels[..j], |aggs|), Row(f, levels[j], |aggs|));
      r := r + cells;
    }
    assert levels[..|levels|] == levels;
  }

  /**
   * The cell pass of `cast` over one row: for each pivot factor, for each
   * of its recorded levels in column order, each aggregate over the row's
   * query narrowed to the level; then each aggregate over the row's query.
   */
  method AppendCells<Q>(cfg: Config, ops: Ops<Q>, q: Q, pivots: seq<string>, used: map<string, seq<Value>>,
                        aggs: seq<Aggregate>, row: seq<Cell>) returns (r: seq<Cell>)
    ensures r == row + CellsOf(ops, q, aggs, PivotColumns(cfg, pivots, used, |aggs|)) + Totals(ops, q, aggs)
  {
    var cells := PivotCells(cfg, ops, q, pivots, used, aggs);
    var totals := TotalCells(ops, q, aggs);
    r := row + cells + totals;
  }

  /** The pivot cells of a row: for each pivot factor in turn, a cell per recorded level and aggregate. */
  method PivotCells<Q>(cfg: Config, ops: Ops<Q>, q: Q, pivots: seq<string>, used: map<string, seq<Value>>,
                       aggs: seq<Aggregate>) returns (cells: seq<Cell>)
    ensures cells == CellsOf(ops, q, aggs, PivotColumns(cfg, pivots, used, |aggs|))
  {
    var n := |aggs|;
    cells := [];
    for p := 0 to |pivots|
      invariant cells == CellsOf(ops, q, aggs, PivotColumns(cfg, pivots[..p], used, n))
    {
      assert pivots[..p + 1][..p] == pivots[..p];
      var more := FactorCells(cfg, ops, q, pivots[p], used, aggs);
      CellsAppend(ops, q, aggs, PivotColumns(cfg, pivots[..p], used, n),
                  LevelColumns(pivots[p], Columns(cfg, Lookup(used, pivots[p])), n));
      cells := cells + more;
    }
    assert pivots[..|pivots|] == pivots;
  }

  /** The totals of a row: each aggregate over all the items of its query. */
  method TotalCells<Q>(ops: Ops<Q>, q: Q, aggs: seq<Aggregate>) returns (totals: seq<Cell>)
    ensures totals == Totals(ops, q, aggs)
  {
    totals := [];
    for a := 0 to |aggs|
      invariant totals == Totals(ops, q, aggs)[..a]
    {
      assert Totals(ops, q, aggs)[..a + 1] == Totals(ops, q, aggs)[..a] + [Computed(CountFor(aggs[a], ops.items(q)))];
      totals := totals + [Computed(CountFor(aggs[a], ops.items(q)))];
    }
    assert Totals(ops, q, aggs)[..|aggs|] == Totals(ops, q, aggs);
  }

  /** The headings of consecutive column runs follow one another. */
  lemma HeadingsAppend(aggs: seq<Aggregate>, a: seq<Column>, b: seq<Column>)
    requires Within(a, |aggs|)
    requires Within(b, |aggs|)
    ensures Within(a + b, |aggs|)
    ensures HeadingsOf(aggs, a + b) == HeadingsOf(aggs, a) + HeadingsOf(aggs, b)
  {
    assert forall i :: 0 <= i < |a| ==> (a + b)[i] == a[i];
    assert forall i :: 0 <= i < |b| ==> (a + b)[|a| + i] == b[i];
  }

  /** The headings of one pivot level: the bare level under one aggregate, else `"level aggregate"` for each. */
  method LevelHeadings(level: Value, f: string, aggs: seq<Aggregate>) returns (r: seq<Heading>)
    requires |aggs| > 0
    ensures r == HeadingsOf(aggs, Row(f, level, |aggs|))
  {
    if |aggs| < 2 {
      r := [LevelHeading(level)];
    } else {
      r := [];
      for a := 0 to |aggs|
        invariant r == HeadingsOf(aggs, Row(f, level, a))
      {
        assert Row(f, level, a + 1) == Row(f, level, a) + [Column(f, level, a)];
        HeadingsAppend(aggs, Row(f, level, a), [Column(f, level, a)]);
        r := r + [Combined(level, Display(aggs[a]))];
      }
    }
  }

  /** The headings of one pivot factor: its recorded levels in column order. */
  method FactorHeadings(cfg: Config, f: string, used: map<string, seq<Value>>, aggs: seq<Aggregate>) returns (r: seq<Heading>)
    requires |aggs| > 0
    ensures r == HeadingsOf(aggs, LevelColumns(f, Columns(cfg, Lookup(used, f)), |aggs|))
  {
    var levels := Columns(cfg, Lookup(used, f));
    r := [];
    for j := 0 to |levels|
      invariant r == HeadingsOf(aggs, LevelColumns(f, levels[..j], |aggs|))
    {
      assert levels[..j + 1][..j] == levels[..j];
      var more := LevelHeadings(levels[j], f, aggs);
      HeadingsAppend(aggs, LevelColumns(f, levels[..j], |aggs|), Row(f, levels[j], |aggs|));
      r := r + more;
    }
    assert levels[..|levels|] == levels;
  }

  /**
   * The heading pass of `cast`: the pivot factors' headings in column
   * order, then `str(aggregate)` for each aggregate.
   */
  method AppendHeadings(cfg: Config, pivots: seq<string>, used: map<string, seq<Value>>, aggs: seq<Aggregate>,
                        heading: seq<Heading>) returns (r: seq<Heading>)
    requires |aggs| > 0
    ensures r == heading + HeadingsOf(aggs, PivotColumns(cfg, pivots, used, |aggs|)) + AggregateHeadings(aggs)
  {
    var n := |aggs|;
    var hs: seq<Heading> := [];
    for p := 0 to |pivots|
      invariant hs == HeadingsOf(aggs, PivotColumns(cfg, pivots[..p], used, n))
    {
      assert pivots[..p + 1][..p] == pivots[..p];
      var more := FactorHeadings(cfg, pivots[p], used, aggs);
      HeadingsAppend(aggs, PivotColumns(cfg, pivots[..p], used, n),
                     LevelColumns(pivots[p], Columns(cfg, Lookup(used, pivots[p])), n));
      hs := hs + more;
    }
    assert pivots[..|pivots|] == pivots;
    var names := NameAggregates(aggs);
    r := heading + hs + names;
  }

  /** `str(aggregate)` for each aggregate, in turn. */
  method NameAggregates(aggs: seq<Aggregate>) returns (names: seq<Heading>)
    ensures names == AggregateHeadings(aggs)
  {
    names := [];
    for a := 0 to |aggs|
      invariant |names| == a
      invariant forall i :: 0 <= i < a ==> names[i] == AggregateHeading(aggs[i])
    {
      names := names + [AggregateHeading(aggs[a])];
    }
    EachAggregateHeading(aggs, names);
  }

  /** Headings that name each aggregate in turn are `AggregateHeadings`. */
  lemma EachAggregateHeading(aggs: seq<Aggregate>, names: seq<Heading>)
    requires |names| == |aggs|
    requires forall i :: 0 <= i < |aggs| ==> names[i] == AggregateHeading(aggs[i])
    ensures names == AggregateHeadings(aggs)
  {
  }

  /** The rows of one more level follow the rows of the levels before it. */
  lemma {:induction false} RowsListSnoc<Q>(arena: seq<Level<Q>>, cs: seq<nat>, low: nat, c: nat)
    requires Forward(arena)
    requires forall k :: 0 <= k < |cs| ==> low <= cs[k] < |arena|
    requires low <= c < |arena|
    ensures forall k :: 0 <= k < |cs + [c]| ==> low <= (cs + [c])[k] < |arena|
    ensures RowsList(arena, cs + [c], low) == RowsList(arena, cs, low) + RowsFrom(arena, c)
    decreases |cs|
  {
    assert forall k :: 0 <= k < |cs| ==> (cs + [c])[k] == cs[k];
    if |cs| > 0 {
      var longer := cs + [c];
      assert longer[0] == cs[0] && longer[1..] == cs[1..] + [c];
      RowsListSnoc(arena, cs[1..], low, c);
      assert RowsList(arena, longer, low) == RowsFrom(arena, cs[0]) + RowsList(arena, cs[1..] + [c], low);
      Associative(RowsFrom(arena, cs[0]), RowsList(arena, cs[1..], low), RowsFrom(arena, c));
    } else {
      assert (cs + [c])[1..] == [];
    }
  }

  /** The table's rows: the rows of each level of the first factor, in turn. */
  method TopRows<Q>(arena: seq<Level<Q>>, top: nat) returns (rows: seq<seq<nat>>)
    requires Forward(arena) && top <= |arena|
    ensures rows == RowsList(arena, Span(0, top), 0)
  {
    rows := [];
    for i := 0 to top
      invariant rows == RowsList(arena, Span(0, i), 0)
    {
      assert Span(0, i + 1) == Span(0, i) + [i];
      RowsListSnoc(arena, Span(0, i), 0, i);
      rows := rows + RowsFrom(arena, i);
    }
  }

  /** The cells holding a row's level values. */
  function ValueCells(vals: seq<Value>): (r: seq<Cell>)
    ensures |r| == |vals| && forall k :: 0 <= k < |vals| ==> r[k] == LevelCell(vals[k])
  {
    seq(|vals|, k requires 0 <= k < |vals| => LevelCell(vals[k]))
  }

  /** A finished row: its level values, its pivot cells and its totals, all over query `q`. */
  function RowOf<Q>(ops: Ops<Q>, aggs: seq<Aggregate>, cols: seq<Column>, vals: seq<Value>, q: Q): (r: seq<Cell>)
    requires Within(cols, |aggs|)
    ensures |r| == |vals| + |cols| + |aggs|
  {
    ValueCells(vals) + CellsOf(ops, q, aggs, cols) + Totals(ops, q, aggs)
  }

  /** The level values of the rows below the levels `0 .. top - 1`, row by row. */
  function Leaves<Q>(arena: seq<Level<Q>>, top: nat): (r: seq<seq<Value>>)
    requires Forward(arena) && top <= |arena|
    ensures |r| == |RowsList(arena, Span(0, top), 0)|
  {
    var paths := RowsList(arena, Span(0, top), 0);
    seq(|paths|, k requires 0 <= k < |paths| => RowValues(arena, paths[k]))
  }

  /**
   * Every row below the levels `0 .. top - 1` has at most one level per
   * factor (exactly one where every factor gets a level), and its last
   * level's query is the basic query narrowed by every factor to the row's
   * values.
   */
  ghost predicate Narrowing<Q>(cfg: Config, ops: Ops<Q>, basic: Q, keys: seq<string>, arena: seq<Level<Q>>, top: nat)
    requires Forward(arena) && top <= |arena|
  {
    var paths := RowsList(arena, Span(0, top), 0);
    forall k :: 0 <= k < |paths| ==>
      && |paths[k]| <= |keys|
      && arena[paths[k][|paths[k]| - 1]].query == Narrowed(ops, basic, keys, RowValues(arena, paths[k]))
      && (cfg.stub ==> |paths[k]| == |keys|)
  }

  /** The rows of complete levels narrow the basic query factor by factor. */
  lemma BuiltNarrowing<Q>(cfg: Config, ops: Ops<Q>, basic: Q, keys: seq<string>, arena: seq<Level<Q>>, bounds: seq<nat>)
    requires Built(cfg, ops, basic, keys, arena, bounds) && |bounds| == |keys| + 1 && |keys| > 0
    ensures Forward(arena) && bounds[1] <= |arena|
    ensures Narrowing(cfg, ops, basic, keys, arena, bounds[1])
  {
    BuiltForward(cfg, ops, basic, keys, arena, bounds);
    var paths := RowsList(arena, Span(0, bounds[1]), 0);
    RowsListArePaths(arena, Span(0, bounds[1]), 0);
    if cfg.stub {
      RowsListWidth(cfg, ops, basic, keys, arena, bounds, 0, Span(0, bounds[1]), 0);
    }
    forall k | 0 <= k < |paths|
      ensures |paths[k]| <= |keys|
      ensures arena[paths[k][|paths[k]| - 1]].query == Narrowed(ops, basic, keys, RowValues(arena, paths[k]))
    {
      var r := paths[k];
      assert r in paths;
      var i :| i in Span(0, bounds[1]) && PathFrom(arena, i, r);
      PathNarrows(cfg, ops, basic, keys, arena, bounds, i, r);
    }
  }

  /** A whole row from a level of the first factor ends at the query narrowed by all its values. */
  lemma PathNarrows<Q>(cfg: Config, ops: Ops<Q>, basic: Q, keys: seq<string>, arena: seq<Level<Q>>,
                       bounds: seq<nat>, i: nat, r: seq<nat>)
    requires Built(cfg, ops, basic, keys, arena, bounds) && |bounds| == |keys| + 1 && |keys| > 0
    requires i < bounds[1] && PathFrom(arena, i, r) && |r| > 0
    ensures |r| <= |keys|
    ensures arena[r[|r| - 1]].query == Narrowed(ops, basic, keys, RowValues(arena, r))
  {
    PathQuery(cfg, ops, basic, keys, arena, bounds, i, r, |r| - 1);
    var vs := RowValues(arena, r);
    assert vs[..|r|] == vs;
  }

  /**
   * Reading the rows of the levels of the first factor: each row's level
   * values, and the query of its last level, `row[-1].query`.
   */
  method ReadRows<Q>(cfg: Config, ops: Ops<Q>, ghost basic: Q, keys: seq<string>, arena: seq<Level<Q>>, top: nat)
    returns (vals: seq<seq<Value>>, last: seq<Q>)
    requires Forward(arena) && top <= |arena|
    requires Narrowing(cfg, ops, basic, keys, arena, top)
    ensures vals == Leaves(arena, top)
    ensures |last| == |vals|
    ensures forall k :: 0 <= k < |vals| ==> 0 < |vals[k]| <= |keys| && last[k] == Narrowed(ops, basic, keys, vals[k])
    ensures cfg.stub ==> forall k :: 0 <= k < |vals| ==> |vals[k]| == |keys|
  {
    var paths := TopRows(arena, top);
    vals := [];
    last := [];
    for k := 0 to |paths|
      invariant |vals| == |last| == k
      invariant vals == Leaves(arena, top)[..k]
      invariant forall m :: 0 <= m < k ==> 0 < |vals[m]| <= |keys| && last[m] == Narrowed(ops, basic, keys, vals[m])
      invariant cfg.stub ==> forall m :: 0 <= m < k ==> |vals[m]| == |keys|
    {
      var r := paths[k];
      vals := vals + [RowValues(arena, r)];
      last := last + [arena[r[|r| - 1]].query];
    }
  }

  /** `aggregates or [Count()]`. */
  function WithDefault(aggregates: seq<Aggregate>): (r: seq<Aggregate>)
    ensures |r| > 0
    ensures |aggregates| > 0 ==> r == aggregates
    ensures |aggregates| == 0 ==> r == [CountAll]
  {
    if |aggregates| == 0 then [CountAll] else aggregates
  }

  /** The factor keys a list of names holds. */
  function KeysOf(names: seq<Heading>): (r: seq<string>)
    requires forall i :: 0 <= i < |names| ==> names[i].Text?
    ensures |r| == |names| && forall i :: 0 <= i < |names| ==> names[i] == Text(r[i])
  {
    seq(|names|, i requires 0 <= i < |names| => names[i].s)
  }

  /** The query of each row's last level. */
  function RowQueries<Q>(ops: Ops<Q>, basic: Q, keys: seq<string>, rows: seq<seq<Value>>): (r: seq<Q>)
    requires forall k :: 0 <= k < |rows| ==> |rows[k]| <= |keys|
    ensures |r| == |rows|
  {
    seq(|rows|, k requires 0 <= k < |rows| => Narrowed(ops, basic, keys, rows[k]))
  }

  /**
   * The caller's `factor_names` list, which becomes the heading of the
   * table and so is extended in place.
   */
  class HeadingList {
    var items: seq<Heading>

    constructor (items: seq<Heading>)
      ensures this.items == items
    {
      this.items := items;
    }
  }

  /** The table `cast` returns: the heading, then the rows. */
  datatype Table = Table(header: seq<Heading>, rows: seq<seq<Cell>>)

  /**
   * The cells of every row: pivot cells and totals over the row's last
   * query, after the row's level cells (or the catch-all cell, removed
   * afterwards).
   */
  method FillRows<Q>(cfg: Config, ops: Ops<Q>, pivots: seq<string>, used: map<string, seq<Value>>, aggs: seq<Aggregate>,
                     vals: seq<seq<Value>>, last: seq<Q>) returns (rows: seq<seq<Cell>>)
    requires |last| == |vals|
    ensures |rows| == |vals|
    ensures forall k :: 0 <= k < |vals| ==>
      rows[k] == RowOf(ops, aggs, PivotColumns(cfg, pivots, used, |aggs|), vals[k], last[k])
  {
    rows := [];
    for k := 0 to |vals|
      invariant |rows| == k
      invariant forall m :: 0 <= m < k ==>
        rows[m] == RowOf(ops, aggs, PivotColumns(cfg, pivots, used, |aggs|), vals[m], last[m])
    {
      var row := AppendCells(cfg, ops, last[k], pivots, used, aggs, ValueCells(vals[k]));
      rows := rows + [row];
    }
  }

  /**
   * Without factors: the one row of the catch-all level over the basic
   * query, whose own cell is removed once the other cells are in.
   */
  method CatchAllRows<Q>(cfg: Config, ops: Ops<Q>, basic: Q, pivots: seq<string>, used: map<string, seq<Value>>,
                         aggs: seq<Aggregate>) returns (rows: seq<seq<Cell>>)
    ensures rows == [RowOf(ops, aggs, PivotColumns(cfg, pivots, used, |aggs|), [], basic)]
  {
    var row := AppendCells(cfg, ops, basic, pivots, used, aggs, [AllCell]);
    CatchAllCells(ops, aggs, PivotColumns(cfg, pivots, used, |aggs|), basic);
    rows := [row[1..]];
  }

  /** Dropping the leading catch-all cell leaves the row of a row without level values. */
  lemma CatchAllCells<Q>(ops: Ops<Q>, aggs: seq<Aggregate>, cols: seq<Column>, q: Q)
    requires Within(cols, |aggs|)
    ensures ([AllCell] + CellsOf(ops, q, aggs, cols) + Totals(ops, q, aggs))[1..] == RowOf(ops, aggs, cols, [], q)
  {
    var cells := CellsOf(ops, q, aggs, cols);
    var totals := Totals(ops, q, aggs);
    Associative([AllCell], cells, totals);
    assert ValueCells([]) == [];
    assert RowOf(ops, aggs, cols, [], q) == cells + totals;
  }

  /**
   * The grouping half of `cast`: the levels of every factor, and the rows
   * below the levels of the first factor; without factors, the catch-all
   * row over the basic query.  Each row comes with its last query.
   */
  method GroupRows<Q>(cfg: Config, ops: Ops<Q>, basic: Q, keys: seq<string>)
    returns (vals: seq<seq<Value>>, last: seq<Q>, ghost arena: seq<Level<Q>>, ghost bounds: seq<nat>)
    ensures |keys| > 0 ==> Built(cfg, ops, basic, keys, arena, bounds) && |bounds| == |keys| + 1
                           && Forward(arena) && bounds[1] <= |arena| && vals == Leaves(arena, bounds[1])
    ensures |keys| == 0 ==> vals == [[]]
    ensures forall k :: 0 <= k < |vals| ==> |vals[k]| <= |keys|
    ensures cfg.stub ==> forall k :: 0 <= k < |vals| ==> |vals[k]| == |keys|
    ensures last == RowQueries(ops, basic, keys, vals)
  {
    if |keys| > 0 {
      var built, cut := BuildLevels(cfg, ops, basic, keys);
      arena, bounds := built, cut;
      BuiltNarrowing(cfg, ops, basic, keys, arena, bounds);
      vals, last := ReadRows(cfg, ops, basic, keys, built, cut[1]);
    } else {
      arena, bounds := [], [0];
      vals, last := [[]], [basic];
    }
  }

  /**
   * The tabulating half of `cast`: the pivot levels recorded over the
   * rows' last queries, then every row's cells.
   */
  method Tabulate<Q>(cfg: Config, ops: Ops<Q>, basic: Q, keys: seq<string>, pivots: seq<string>, aggs: seq<Aggregate>,
                     vals: seq<seq<Value>>, last: seq<Q>) returns (rows: seq<seq<Cell>>, used: map<string, seq<Value>>)
    requires forall k :: 0 <= k < |vals| ==> |vals[k]| <= |keys|
    requires last == RowQueries(ops, basic, keys, vals)
    requires |keys| == 0 ==> vals == [[]]
    ensures used == Collected(cfg, ops, last, pivots)
    ensures |rows| == |vals|
    ensures forall k :: 0 <= k < |vals| ==>
      rows[k] == RowOf(ops, aggs, PivotColumns(cfg, pivots, used, |aggs|), vals[k], Narrowed(ops, basic, keys, vals[k]))
  {
    used := CollectPivots(cfg, ops, last, pivots);
    if |keys| > 0 {
      rows := FillRows(cfg, ops, pivots, used, aggs, vals, last);
    } else {
      rows := CatchAllRows(cfg, ops, basic, pivots, used, aggs);
    }
  }

  /**
   * `cast(basic_query, factor_names, pivot_factors, *aggregates)`: the
   * rows group the basic query by the factors hierarchically, a row per
   * path from a level of the first factor down to a level without
   * children, or one catch-all row without factors; every row carries the
   * pivot cells and totals over its last query; the heading is the factor
   * names, the pivot columns' headings and the aggregates' names.
   */
  method Cast<Q>(cfg: Config, ops: Ops<Q>, basic: Q, names: HeadingList, pivots: seq<string>, aggregates: seq<Aggregate>)
    returns (t: Table, ghost arena: seq<Level<Q>>, ghost bounds: seq<nat>, ghost vals: seq<seq<Value>>, ghost cols: seq<Column>)
    requires forall i :: 0 <= i < |names.items| ==> names.items[i].Text?
    modifies names
    ensures var keys := KeysOf(old(names.items));
      && |keys| > 0 ==> Built(cfg, ops, basic, keys, arena, bounds) && |bounds| == |keys| + 1
                        && Forward(arena) && bounds[1] <= |arena| && vals == Leaves(arena, bounds[1])
    ensures |old(names.items)| == 0 ==> vals == [[]]
    ensures forall k :: 0 <= k < |vals| ==> |vals[k]| <= |old(names.items)|
    ensures cfg.stub ==> forall k :: 0 <= k < |vals| ==> |vals[k]| == |old(names.items)|
    ensures var keys := KeysOf(old(names.items));
      cols == PivotColumns(cfg, pivots, Collected(cfg, ops, RowQueries(ops, basic, keys, vals), pivots), |WithDefault(aggregates)|)
    ensures var aggs := WithDefault(aggregates); var keys := KeysOf(old(names.items));
      && |t.rows| == |vals|
      && forall k :: 0 <= k < |vals| ==> t.rows[k] == RowOf(ops, aggs, cols, vals[k], Narrowed(ops, basic, keys, vals[k]))
    ensures var aggs := WithDefault(aggregates);
      t.header == old(names.items) + HeadingsOf(aggs, cols) + AggregateHeadings(aggs)
    ensures forall k :: 0 <= k < |t.rows| ==> (|t.rows[k]| == |t.header| <==> |vals[k]| == |old(names.items)|)
    ensures cfg.stub ==> forall k :: 0 <= k < |t.rows| ==> |t.rows[k]| == |t.header|
    ensures cfg.freshEmptyNames && |old(names.items)| == 0 ==> names.items == old(names.items)
    ensures !(cfg.freshEmptyNames && |old(names.items)| == 0) ==> names.items == t.header
  {
    var aggs := WithDefault(aggregates);
    var keys := KeysOf(names.items);
    ghost var names0 := names.items;
    var levelRows, last;
    levelRows, last, arena, bounds := GroupRows(cfg, ops, basic, keys);
    vals := levelRows;
    var rows, used := Tabulate(cfg, ops, basic, keys, pivots, aggs, levelRows, last);
    cols := PivotColumns(cfg, pivots, used, |aggs|);
    var heading: seq<Heading>;
    if cfg.freshEmptyNames && |names.items| == 0 {
      heading := AppendHeadings(cfg, pivots, used, aggs, []);
    } else {
      heading := AppendHeadings(cfg, pivots, used, aggs, names.items);
      names.items := heading;
    }
    t := Table(heading, rows);
    RowsFitHeading(ops, basic, keys, aggs, cols, vals, rows, names0, heading);
  }

  /** Rows with a level per factor are as wide as the heading. */
  lemma RowsFitHeading<Q>(ops: Ops<Q>, basic: Q, keys: seq<string>, aggs: seq<Aggregate>, cols: seq<Column>,
                          vals: seq<seq<Value>>, rows: seq<seq<Cell>>, names: seq<Heading>, header: seq<Heading>)
    requires Within(cols, |aggs|) && |names| == |keys| && |rows| == |vals|
    requires forall k :: 0 <= k < |vals| ==> |vals[k]| <= |keys|
    requires forall k :: 0 <= k < |vals| ==> rows[k] == RowOf(ops, aggs, cols, vals[k], Narrowed(ops, basic, keys, vals[k]))
    requires header == names + HeadingsOf(aggs, cols) + AggregateHeadings(aggs)
    ensures forall k :: 0 <= k < |rows| ==> (|rows[k]| == |header| <==> |vals[k]| == |keys|)
  {
  }

  /**
   * The pivot columns of a table: one for each aggregate and each level of
   * a pivot factor that occurs, with results, under the last query of some
   * row; each level once.
   */
  lemma PivotColumnsCollected<Q>(cfg: Config, ops: Ops<Q>, qs: seq<Q>, pivots: seq<string>, n: nat, c: Column)
    ensures c in PivotColumns(cfg, pivots, Collected(cfg, ops, qs, pivots), n) <==>
      && c.factor in pivots && c.agg < n
      && exists k :: 0 <= k < |qs| && c.level in ops.values(qs[k], c.factor) && Occurs(ops, qs[k], c.factor, c.level)
    ensures |PivotColumns(cfg, pivots, Collected(cfg, ops, qs, pivots), n)| == LevelCount(pivots, Collected(cfg, ops, qs, pivots)) * n
  {
    var used := Collected(cfg, ops, qs, pivots);
    PivotColumnsMeaning(cfg, pivots, used, n, c);
    PivotColumnsWidth(cfg, pivots, used, n);
    if c.factor in pivots {
      CollectedMeaning(cfg, ops, qs, pivots, c.factor, c.level);
    }
  }

  /** Every row of one of the levels is among the rows of the list. */
  lemma {:induction false} RowsListContains<Q>(arena: seq<Level<Q>>, cs: seq<nat>, low: nat, j: nat)
    requires Forward(arena)
    requires forall k :: 0 <= k < |cs| ==> low <= cs[k] < |arena|
    requires j < |cs|
    ensures forall r :: r in RowsFrom(arena, cs[j]) ==> r in RowsList(arena, cs, low)
    decreases j
  {
    if j > 0 {
      RowsListContains(arena, cs[1..], low, j - 1);
    }
  }

  /**
   * A level of the first factor that gets no level of the second factor
   * is a row of its own, one level wide, below a heading that names every
   * factor.
   */
  lemma ChildlessTopRow<Q>(cfg: Config, ops: Ops<Q>, basic: Q, keys: seq<string>, arena: seq<Level<Q>>, bounds: seq<nat>, i: nat)
    requires Built(cfg, ops, basic, keys, arena, bounds) && |bounds| == |keys| + 1 && |keys| > 1
    requires i < bounds[1] && |NewLevels(cfg, ops, arena[i].query, keys[1])| == 0
    ensures Forward(arena) && bounds[1] <= |arena|
    ensures exists k :: 0 <= k < |Leaves(arena, bounds[1])| && Leaves(arena, bounds[1])[k] == [arena[i].value]
  {
    BuiltForward(cfg, ops, basic, keys, arena, bounds);
    assert LayerAttached(cfg, ops, keys[1], arena, bounds[0], bounds[1], bounds[1], bounds[2]);
    assert Attached(cfg, ops, keys[1], arena, i);
    assert RowsFrom(arena, i) == [[i]];
    var cs := Span(0, bounds[1]);
    RowsListContains(arena, cs, 0, i);
    var rows := RowsList(arena, cs, 0);
    assert [i] in rows;
    var k :| 0 <= k < |rows| && rows[k] == [i];
    assert Leaves(arena, bounds[1])[k] == RowValues(arena, [i]);
  }
}
