/**
 * Flattening of nested document values into (key, scalar) pairs for the
 * index (`_unwrap_value` and `_nest`, identical in dark/storage/memory.py,
 * datashaping/storage/memory.py and datashaping/db.py), and the one-level
 * variant of datacasting/db.py.
 */
module Unwrap {
  import opened Values
  import opened Strings

  /** One index entry: a (possibly nested) key and a scalar value. */
  datatype Pair = Pair(key: string, val: Value)

  /** `_nest(parent, key)`: the two keys joined by the lookup delimiter. */
  function Nest(parent: string, key: string): string
  {
    parent + Delimiter + key
  }

  /** `key` is `root` itself or nested below it. */
  predicate Extends(key: string, root: string)
  {
    key == root || (|root| + 2 <= |key| && key[..|root| + 2] == root + Delimiter)
  }

  /**
   * `_unwrap_value(key, value)`: lists contribute the pairs of each element
   * under the same key; dicts contribute the pairs of each entry under the
   * nested key; a date contributes itself and its year, month and day under
   * nested keys; any other value is one pair.
   */
  function UnwrapValue(key: string, value: Value): (r: seq<Pair>)
    ensures forall i :: 0 <= i < |r| ==> IsScalar(r[i].val) && Extends(r[i].key, key)
    decreases value
  {
    match value
    case List(items) => UnwrapItems(key, items)
    case Map(entries) => UnwrapEntries(key, entries)
    case Date(y, m, d) =>
      [Pair(key, value), Pair(Nest(key, "year"), Int(y)), Pair(Nest(key, "month"), Int(m)), Pair(Nest(key, "day"), Int(d))]
    case _ => [Pair(key, value)]
  }

  function UnwrapItems(key: string, items: seq<Value>): (r: seq<Pair>)
    ensures forall i :: 0 <= i < |r| ==> IsScalar(r[i].val) && Extends(r[i].key, key)
    decreases items
  {
    if |items| == 0 then []
    else UnwrapValue(key, items[0]) + UnwrapItems(key, items[1..])
  }

  function UnwrapEntries(key: string, entries: seq<Entry>): (r: seq<Pair>)
    ensures forall i :: 0 <= i < |r| ==> IsScalar(r[i].val) && Extends(r[i].key, key)
    decreases entries
  {
    if |entries| == 0 then []
    else
      var head := UnwrapValue(Nest(key, entries[0].key), entries[0].val);
      assert forall i :: 0 <= i < |head| ==> Extends(head[i].key, key) by {
        forall i | 0 <= i < |head| ensures Extends(head[i].key, key) {
          NestedExtends(head[i].key, key, entries[0].key);
        }
      }
      head + UnwrapEntries(key, entries[1..])
  }

  lemma NestedExtends(k: string, root: string, child: string)
    requires Extends(k, Nest(root, child))
    ensures Extends(k, root)
  {
    var n := Nest(root, child);
    if k != n {
      assert k[..|root| + 2] == k[..|n| + 2][..|root| + 2];
    } else {
      assert k[..|root| + 2] == root + Delimiter;
    }
  }

  /** The pairs a document is indexed under (`_build_index_for_item`). */
  function DocPairs(doc: Doc): (r: seq<Pair>)
    ensures forall i :: 0 <= i < |r| ==> IsScalar(r[i].val)
  {
    if |doc| == 0 then []
    else DocPairs(doc[..|doc| - 1]) + UnwrapValue(doc[|doc| - 1].key, doc[|doc| - 1].val)
  }

  /** A scalar is one pair under its own key. */
  lemma UnwrapScalar(key: string, v: Value)
    requires IsScalar(v) && !v.Date?
    ensures UnwrapValue(key, v) == [Pair(key, v)]
  {
  }

  /** Unwrapping a list is the concatenation of unwrapping its parts. */
  lemma {:induction false} UnwrapItemsAppend(key: string, a: seq<Value>, b: seq<Value>)
    ensures UnwrapItems(key, a + b) == UnwrapItems(key, a) + UnwrapItems(key, b)
    decreases |a|
  {
    if |a| > 0 {
      assert (a + b)[1..] == a[1..] + b;
      UnwrapItemsAppend(key, a[1..], b);
    } else {
      assert a + b == b;
    }
  }

  /** A list nested in a list unwraps like the flattened list. */
  lemma {:induction false} UnwrapNestedList(key: string, xs: seq<Value>, ys: seq<Value>)
    ensures UnwrapValue(key, List(xs + [List(ys)])) == UnwrapValue(key, List(xs + ys))
  {
    UnwrapItemsAppend(key, xs, [List(ys)]);
    UnwrapItemsAppend(key, xs, ys);
    assert UnwrapItems(key, [List(ys)]) == UnwrapItems(key, ys) + UnwrapItems(key, []);
  }

  /** A date is itself, then its year, month and day under nested keys. */
  lemma UnwrapDate(key: string, y: int, m: int, d: int)
    ensures UnwrapValue(key, Date(y, m, d)) ==
      [Pair(key, Date(y, m, d)), Pair(key + "__year", Int(y)), Pair(key + "__month", Int(m)), Pair(key + "__day", Int(d))]
  {
    assert Delimiter + "year" == "__year" && Delimiter + "month" == "__month" && Delimiter + "day" == "__day";
    Associative(key, Delimiter, "year");
    Associative(key, Delimiter, "month");
    Associative(key, Delimiter, "day");
  }

  /** Unwrapping a dict is the concatenation of unwrapping its entries, each under its nested key. */
  lemma {:induction false} UnwrapEntriesAppend(key: string, a: seq<Entry>, b: seq<Entry>)
    ensures UnwrapEntries(key, a + b) == UnwrapEntries(key, a) + UnwrapEntries(key, b)
    decreases |a|
  {
    if |a| > 0 {
      assert (a + b)[1..] == a[1..] + b;
      UnwrapEntriesAppend(key, a[1..], b);
    } else {
      assert a + b == b;
    }
  }

  /** One more entry of a dict adds the pairs of its value under the nested key. */
  lemma UnwrapDictSnoc(key: string, es: seq<Entry>, e: Entry)
    ensures UnwrapValue(key, Map(es + [e])) == UnwrapValue(key, Map(es)) + UnwrapValue(Nest(key, e.key), e.val)
  {
    UnwrapEntriesAppend(key, es, [e]);
    assert UnwrapEntries(key, [e]) == UnwrapValue(Nest(key, e.key), e.val) + UnwrapEntries(key, []);
  }

  /** Number of pairs a value unwraps to: one per scalar leaf, four per date. */
  function Leaves(value: Value): nat
    decreases value
  {
    match value
    case List(items) => ItemLeaves(items)
    case Map(entries) => EntryLeaves(entries)
    case Date(_, _, _) => 4
    case _ => 1
  }

  function ItemLeaves(items: seq<Value>): nat
    decreases items
  {
    if |items| == 0 then 0 else Leaves(items[0]) + ItemLeaves(items[1..])
  }

  function EntryLeaves(entries: seq<Entry>): nat
    decreases entries
  {
    if |entries| == 0 then 0 else Leaves(entries[0].val) + EntryLeaves(entries[1..])
  }

  lemma {:induction false} UnwrapCount(key: string, value: Value)
    ensures |UnwrapValue(key, value)| == Leaves(value)
    decreases value
  {
    match value
    case List(items) => UnwrapItemsCount(key, items);
    case Map(entries) => UnwrapEntriesCount(key, entries);
    case _ =>
  }

  lemma {:induction false} UnwrapItemsCount(key: string, items: seq<Value>)
    ensures |UnwrapItems(key, items)| == ItemLeaves(items)
    decreases items
  {
    if |items| > 0 {
      UnwrapCount(key, items[0]);
      UnwrapItemsCount(key, items[1..]);
    }
  }

  lemma {:induction false} UnwrapEntriesCount(key: string, entries: seq<Entry>)
    ensures |UnwrapEntries(key, entries)| == EntryLeaves(entries)
    decreases entries
  {
    if |entries| > 0 {
      UnwrapCount(Nest(key, entries[0].key), entries[0].val);
      UnwrapEntriesCount(key, entries[1..]);
    }
  }

  // ------------------------------------------------------------------
  // datacasting/db.py

  /** datacasting's `_unwrap_value`: a list stays a list, anything else is wrapped. */
  function UnwrapOne(value: Value): (r: seq<Value>)
    ensures value.List? ==> r == value.items
    ensures !value.List? ==> r == [value]
  {
    if value.List? then value.items else [value]
  }

  /** `doc[j]` is a non-None entry under `key` whose unwrapping holds `v`. */
  predicate ShallowSource(doc: Doc, j: int, p: Pair)
  {
    0 <= j < |doc| && doc[j].key == p.key && doc[j].val != Null && p.val in UnwrapOne(doc[j].val)
  }

  /**
   * The pairs datacasting's `_rebuild_index` indexes a document under:
   * top-level keys only, skipping None values, one level of list.
   */
  function ShallowPairs(doc: Doc): (r: seq<Pair>)
    ensures forall p :: p in r ==> exists j :: ShallowSource(doc, j, p)
    ensures forall j, p :: ShallowSource(doc, j, p) ==> p in r
  {
    if |doc| == 0 then []
    else
      var n := |doc| - 1;
      var rest := ShallowPairs(doc[..n]);
      var last := if doc[n].val == Null then [] else ShallowValuePairs(doc[n].key, UnwrapOne(doc[n].val));
      ShallowStep(doc, doc[..n], rest, last);
      rest + last
  }

  /** The pairs of the entries before the last, then those of the last, come from exactly the entries. */
  lemma ShallowStep(doc: Doc, front: Doc, rest: seq<Pair>, last: seq<Pair>)
    requires |doc| > 0 && front == doc[..|doc| - 1]
    requires forall p :: p in rest ==> exists j :: ShallowSource(front, j, p)
    requires forall j, p :: ShallowSource(front, j, p) ==> p in rest
    requires last == if doc[|doc| - 1].val == Null then [] else ShallowValuePairs(doc[|doc| - 1].key, UnwrapOne(doc[|doc| - 1].val))
    ensures forall p :: p in rest + last ==> exists j :: ShallowSource(doc, j, p)
    ensures forall j, p :: ShallowSource(doc, j, p) ==> p in rest + last
  {
    var n := |doc| - 1;
    forall p | p in rest ensures exists j :: ShallowSource(doc, j, p) {
      var j :| ShallowSource(front, j, p);
      assert ShallowSource(doc, j, p);
    }
    assert forall p :: p in last ==> ShallowSource(doc, n, p);
    forall j, p | ShallowSource(doc, j, p) ensures p in rest + last {
      if j < n {
        assert ShallowSource(front, j, p);
      } else {
        var i :| 0 <= i < |UnwrapOne(doc[n].val)| && UnwrapOne(doc[n].val)[i] == p.val;
        assert last[i] == p;
      }
    }
  }

  /** One more entry adds its pairs at the end. */
  lemma ShallowPairsSnoc(doc: Doc, j: nat)
    requires j < |doc|
    ensures ShallowPairs(doc[..j + 1]) ==
      ShallowPairs(doc[..j]) + if doc[j].val == Null then [] else ShallowValuePairs(doc[j].key, UnwrapOne(doc[j].val))
  {
    assert doc[..j + 1][..j] == doc[..j];
  }

  function ShallowValuePairs(key: string, vals: seq<Value>): (r: seq<Pair>)
    ensures |r| == |vals|
    ensures forall i :: 0 <= i < |r| ==> r[i] == Pair(key, vals[i])
  {
    if |vals| == 0 then [] else [Pair(key, vals[0])] + ShallowValuePairs(key, vals[1..])
  }
}
