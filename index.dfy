/**
 * The inverted index of the in-memory collections: key -> value -> list of
 * primary keys (`_index`), how items are added to it and removed from it,
 * and what it must hold for a given list of documents.
 */
module Index {
  import opened Values
  import opened Unwrap
  import opened Outcomes

  type Index = map<string, map<Value, seq<nat>>>

  /** `_index.get(k, {}).get(v, [])`. */
  function Lookup(index: Index, k: string, v: Value): seq<nat>
  {
    if k in index && v in index[k] then index[k][v] else []
  }

  /**
   * The same read as a call on the dicts (`ids_by`): the value is hashed
   * even when the key is missing, so a list or dict raises TypeError.
   */
  function ExactIds(index: Index, k: string, v: Value): (r: Result<seq<nat>>)
    ensures r.Failure? <==> !IsScalar(v)
    ensures r.Failure? ==> r.error == TypeError
    ensures r.Success? ==> r.value == Lookup(index, k, v)
  {
    if IsScalar(v) then Success(Lookup(index, k, v)) else Failure(TypeError)
  }

  /** No value maps to an empty list and no key to an empty dict. */
  ghost predicate Pruned(index: Index)
  {
    forall k :: k in index ==> index[k] != map[] && forall v :: v in index[k] ==> index[k][v] != []
  }

  /** `x` repeated `n` times. */
  function Rep(x: nat, n: nat): (r: seq<nat>)
    ensures |r| == n && forall i :: 0 <= i < n ==> r[i] == x
  {
    if n == 0 then [] else Rep(x, n - 1) + [x]
  }

  /** How often the pair (k, v) occurs among the pairs an item is indexed under. */
  function Count(pairs: multiset<Pair>, k: string, v: Value): nat
  {
    pairs[Pair(k, v)]
  }

  // ------------------------------------------------------------------
  // What the index holds for a list of items

  /**
   * The posting list of (k, v) for items whose pairs are `items`: each
   * position, in ascending order, once per occurrence of the pair.
   */
  function Postings(items: seq<multiset<Pair>>, k: string, v: Value): seq<nat>
  {
    if |items| == 0 then []
    else Postings(items[..|items| - 1], k, v) + Rep(|items| - 1, Count(items[|items| - 1], k, v))
  }

  /** The index holds exactly the postings of `items` and nothing empty. */
  ghost predicate Consistent(index: Index, items: seq<multiset<Pair>>)
  {
    Pruned(index) && forall k, v :: Lookup(index, k, v) == Postings(items, k, v)
  }

  /** Every posting names an existing item. */
  ghost predicate Bounded(index: Index, n: nat)
  {
    forall k, v, i :: 0 <= i < |Lookup(index, k, v)| ==> Lookup(index, k, v)[i] < n
  }

  lemma {:induction false} PostingsMembership(items: seq<multiset<Pair>>, k: string, v: Value, x: nat)
    ensures x in Postings(items, k, v) <==> x < |items| && Count(items[x], k, v) > 0
    decreases |items|
  {
    if |items| > 0 {
      var n := |items| - 1;
      PostingsMembership(items[..n], k, v, x);
      if x < n {
        assert items[..n][x] == items[x];
      }
    }
  }

  lemma {:induction false} PostingsCount(items: seq<multiset<Pair>>, k: string, v: Value, x: nat)
    requires x < |items|
    ensures multiset(Postings(items, k, v))[x] == Count(items[x], k, v)
    decreases |items|
  {
    var n := |items| - 1;
    if x < n {
      PostingsCount(items[..n], k, v, x);
      assert items[..n][x] == items[x];
      RepCount(n, Count(items[n], k, v), x);
    } else {
      PostingsMembership(items[..n], k, v, x);
      assert multiset(Postings(items[..n], k, v))[x] == 0;
      RepCount(n, Count(items[n], k, v), x);
    }
  }

  lemma {:induction false} RepCount(x: nat, n: nat, y: nat)
    ensures multiset(Rep(x, n))[y] == if x == y then n else 0
  {
    if n > 0 {
      RepCount(x, n - 1, y);
    }
  }

  /** Posting lists are in ascending order. */
  lemma {:induction false} PostingsAscending(items: seq<multiset<Pair>>, k: string, v: Value)
    ensures forall i, j :: 0 <= i < j < |Postings(items, k, v)| ==> Postings(items, k, v)[i] <= Postings(items, k, v)[j]
    decreases |items|
  {
    if |items| > 0 {
      var n := |items| - 1;
      var a := Postings(items[..n], k, v);
      PostingsAscending(items[..n], k, v);
      forall i | 0 <= i < |a| ensures a[i] < n {
        PostingsMembership(items[..n], k, v, a[i]);
      }
    }
  }

  /** Postings of (k, v) depend only on how often each item holds (k, v). */
  lemma {:induction false} PostingsSameCounts(a: seq<multiset<Pair>>, b: seq<multiset<Pair>>, k: string, v: Value)
    requires |a| == |b| && forall i :: 0 <= i < |a| ==> Count(a[i], k, v) == Count(b[i], k, v)
    ensures Postings(a, k, v) == Postings(b, k, v)
    decreases |a|
  {
    if |a| > 0 {
      var n := |a| - 1;
      PostingsSameCounts(a[..n], b[..n], k, v);
    }
  }

  // ------------------------------------------------------------------
  // Adding: `_index.setdefault(k, {}).setdefault(v, []).append(pk)`

  function AddPair(index: Index, p: Pair, pk: nat): (r: Index)
    ensures Lookup(r, p.key, p.val) == Lookup(index, p.key, p.val) + [pk]
    ensures forall k, v :: (k, v) != (p.key, p.val) ==> Lookup(r, k, v) == Lookup(index, k, v)
    ensures Pruned(index) ==> Pruned(r)
  {
    var inner := if p.key in index then index[p.key] else map[];
    var list := if p.val in inner then inner[p.val] else [];
    index[p.key := inner[p.val := list + [pk]]]
  }

  /** `_build_index_for_item`, as a function of the pairs of the item. */
  function AddPairs(index: Index, pk: nat, pairs: seq<Pair>): Index
    decreases |pairs|
  {
    if |pairs| == 0 then index
    else AddPair(AddPairs(index, pk, pairs[..|pairs| - 1]), pairs[|pairs| - 1], pk)
  }

  /** Adding an item appends its position once per occurrence of each pair. */
  lemma {:induction false} AddPairsLookup(index: Index, pk: nat, pairs: seq<Pair>, k: string, v: Value)
    ensures Lookup(AddPairs(index, pk, pairs), k, v) == Lookup(index, k, v) + Rep(pk, Count(multiset(pairs), k, v))
    decreases |pairs|
  {
    if |pairs| > 0 {
      var n := |pairs| - 1;
      var front := pairs[..n];
      AddPairsLookup(index, pk, front, k, v);
      var prev := AddPairs(index, pk, front);
      assert AddPairs(index, pk, pairs) == AddPair(prev, pairs[n], pk);
      var c := Count(multiset(front), k, v);
      MultisetSnoc(pairs);
      if pairs[n] == Pair(k, v) {
        assert Count(multiset(pairs), k, v) == c + 1;
        assert Rep(pk, c + 1) == Rep(pk, c) + [pk];
        Associative(Lookup(index, k, v), Rep(pk, c), [pk]);
      } else {
        assert Count(multiset(pairs), k, v) == c;
      }
    }
  }

  lemma {:induction false} AddPairsPruned(index: Index, pk: nat, pairs: seq<Pair>)
    requires Pruned(index)
    ensures Pruned(AddPairs(index, pk, pairs))
    decreases |pairs|
  {
    if |pairs| > 0 {
      AddPairsPruned(index, pk, pairs[..|pairs| - 1]);
    }
  }

  /** Indexing one more item keeps the index consistent with the longer list. */
  lemma AddItemConsistent(index: Index, items: seq<multiset<Pair>>, pairs: seq<Pair>)
    requires Consistent(index, items)
    ensures Consistent(AddPairs(index, |items|, pairs), items + [multiset(pairs)])
  {
    AddPairsPruned(index, |items|, pairs);
    var items' := items + [multiset(pairs)];
    assert items'[..|items|] == items;
    forall k, v ensures Lookup(AddPairs(index, |items|, pairs), k, v) == Postings(items', k, v) {
      AddPairsLookup(index, |items|, pairs, k, v);
    }
  }

  /** An item appended without indexing counts as having no pairs. */
  lemma AddUnindexedConsistent(index: Index, items: seq<multiset<Pair>>)
    requires Consistent(index, items)
    ensures Consistent(index, items + [multiset{}])
  {
    var items' := items + [multiset{}];
    assert items'[..|items|] == items;
    forall k, v ensures Lookup(index, k, v) == Postings(items', k, v) {
      assert Postings(items', k, v) == Postings(items, k, v) + Rep(|items|, 0);
    }
  }

  /** Adding pairs in two runs is adding them in one. */
  lemma {:induction false} AddPairsAppend(index: Index, pk: nat, a: seq<Pair>, b: seq<Pair>)
    ensures AddPairs(index, pk, a + b) == AddPairs(AddPairs(index, pk, a), pk, b)
    decreases |b|
  {
    if |b| == 0 {
      assert a + b == a;
    } else {
      var n := |b| - 1;
      assert (a + b)[..|a + b| - 1] == a + b[..n];
      AddPairsAppend(index, pk, a, b[..n]);
    }
  }

  /** Postings name existing items. */
  lemma ConsistentBounded(index: Index, items: seq<multiset<Pair>>)
    requires Consistent(index, items)
    ensures Bounded(index, |items|)
  {
    forall k, v, i | 0 <= i < |Lookup(index, k, v)| ensures Lookup(index, k, v)[i] < |items| {
      PostingsMembership(items, k, v, Lookup(index, k, v)[i]);
    }
  }

  lemma EmptyConsistent()
    ensures Consistent(map[], [])
    ensures Bounded(map[], 0)
  {
  }

  // ------------------------------------------------------------------
  // Removing: `_remove_index_for_item`

  /** `list.pop(list.index(x))`: drop the first occurrence of x. */
  function RemoveFirst(s: seq<nat>, x: nat): (r: seq<nat>)
    ensures x in s ==> |r| == |s| - 1 && multiset(r) == multiset(s) - multiset{x}
    ensures x !in s ==> r == s
  {
    if |s| == 0 then []
    else if s[0] == x then
      assert s == [s[0]] + s[1..];
      s[1..]
    else
      assert s == [s[0]] + s[1..];
      [s[0]] + RemoveFirst(s[1..], x)
  }

  /**
   * One pair of an item being removed: drop the first posting of `pk`, then
   * drop the value when its list is empty and the key when its dict is
   * empty.  A missing key, value or posting leaves the index as it is.
   */
  function RemovePosting(index: Index, p: Pair, pk: nat): (r: Index)
    ensures Lookup(r, p.key, p.val) == RemoveFirst(Lookup(index, p.key, p.val), pk)
    ensures forall k, v :: (k, v) != (p.key, p.val) ==> Lookup(r, k, v) == Lookup(index, k, v)
    ensures Pruned(index) ==> Pruned(r)
  {
    if p.key in index && p.val in index[p.key] && pk in index[p.key][p.val] then
      var list := RemoveFirst(index[p.key][p.val], pk);
      if list == [] then DropValue(index, p.key, p.val) else SetValue(index, p.key, p.val, list)
    else
      index
  }

  /** `del _index[k][v]`, and `del _index[k]` when that leaves the dict empty. */
  function DropValue(index: Index, k: string, v: Value): (r: Index)
    requires k in index && v in index[k]
    ensures Lookup(r, k, v) == []
    ensures forall k', v' :: (k', v') != (k, v) ==> Lookup(r, k', v') == Lookup(index, k', v')
    ensures Pruned(index) ==> Pruned(r)
  {
    var inner := index[k] - {v};
    assert inner == map[] ==> forall v' :: v' != v ==> v' !in index[k] by {
      if inner == map[] {
        forall v' | v' != v ensures v' !in index[k] {
          assert v' in index[k] ==> v' in inner;
        }
      }
    }
    if inner == map[] then index - {k} else index[k := inner]
  }

  /** `_index[k][v] = list` for a list that is not empty. */
  function SetValue(index: Index, k: string, v: Value, list: seq<nat>): (r: Index)
    requires k in index && list != []
    ensures Lookup(r, k, v) == list
    ensures forall k', v' :: (k', v') != (k, v) ==> Lookup(r, k', v') == Lookup(index, k', v')
    ensures Pruned(index) ==> Pruned(r)
  {
    index[k := index[k][v := list]]
  }

  /**
   * The same step as the source writes it: `except KeyError, ValueError:`
   * in Python 2 catches only KeyError (binding it to the name ValueError),
   * so a posting list that lacks `pk` raises ValueError out of the removal.
   */
  function RemovePostingAsWritten(index: Index, p: Pair, pk: nat): (r: Result<Index>)
    ensures r.Failure? <==> p.key in index && p.val in index[p.key] && pk !in index[p.key][p.val]
    ensures r.Success? ==> r.value == RemovePosting(index, p, pk)
  {
    if p.key in index && p.val in index[p.key] && pk !in index[p.key][p.val] then
      Failure(ValueError)
    else
      Success(RemovePosting(index, p, pk))
  }

  /** Removing a posting that is there: the written and the intended step agree. */
  lemma RemovePostingAgrees(index: Index, p: Pair, pk: nat)
    requires pk in Lookup(index, p.key, p.val)
    ensures RemovePostingAsWritten(index, p, pk) == Success(RemovePosting(index, p, pk))
  {
  }

  /** A stale index (an item added with refresh_index=False) makes the written step raise. */
  lemma RemovePostingStaleRaises()
    ensures RemovePostingAsWritten(map["x" := map[Str("a") := [0]]], Pair("x", Str("a")), 1) == Failure(ValueError)
    ensures RemovePosting(map["x" := map[Str("a") := [0]]], Pair("x", Str("a")), 1) == map["x" := map[Str("a") := [0]]]
  {
  }

  lemma {:induction false} RemoveFirstAppend(a: seq<nat>, b: seq<nat>, x: nat)
    ensures x in a ==> RemoveFirst(a + b, x) == RemoveFirst(a, x) + b
    ensures x !in a ==> RemoveFirst(a + b, x) == a + RemoveFirst(b, x)
    decreases |a|
  {
    if |a| == 0 {
      assert a + b == b;
    } else {
      var ab := a + b;
      assert ab[0] == a[0] && ab[1..] == a[1..] + b;
      RemoveFirstCons(ab, x);
      RemoveFirstCons(a, x);
      if a[0] != x {
        var rest := a[1..];
        assert x in a <==> x in rest;
        RemoveFirstAppend(rest, b, x);
        if x in a {
          Associative([a[0]], RemoveFirst(rest, x), b);
        } else {
          Associative([a[0]], rest, RemoveFirst(b, x));
          assert [a[0]] + rest == a;
        }
      }
    }
  }

  lemma RemoveFirstCons(s: seq<nat>, x: nat)
    requires |s| > 0
    ensures RemoveFirst(s, x) == if s[0] == x then s[1..] else [s[0]] + RemoveFirst(s[1..], x)
  {
  }

  lemma RemoveFirstRep(x: nat, n: nat)
    ensures RemoveFirst(Rep(x, n + 1), x) == Rep(x, n)
  {
    var r := Rep(x, n + 1);
    assert r == [x] + Rep(x, n);
  }

  /**
   * Dropping the first posting of `pk` is what the postings become when one
   * occurrence of the pair leaves item `pk`.
   */
  lemma {:induction false} PostingsRemoveFirst(items: seq<multiset<Pair>>, pk: nat, k: string, v: Value, smaller: multiset<Pair>)
    requires pk < |items|
    requires Count(items[pk], k, v) == Count(smaller, k, v) + 1
    ensures RemoveFirst(Postings(items, k, v), pk) == Postings(items[pk := smaller], k, v)
    decreases |items|
  {
    var n := |items| - 1;
    if pk == n {
      RemoveFirstOfLast(items, k, v, smaller);
    } else {
      assert items[..n][pk] == items[pk];
      PostingsRemoveFirst(items[..n], pk, k, v, smaller);
      RemoveFirstOfEarlier(items, pk, k, v, smaller);
    }
  }

  /** `PostingsRemoveFirst` when the item is the last one. */
  lemma RemoveFirstOfLast(items: seq<multiset<Pair>>, k: string, v: Value, smaller: multiset<Pair>)
    requires |items| > 0
    requires Count(items[|items| - 1], k, v) == Count(smaller, k, v) + 1
    ensures RemoveFirst(Postings(items, k, v), |items| - 1) == Postings(items[|items| - 1 := smaller], k, v)
  {
    var n := |items| - 1;
    var a := Postings(items[..n], k, v);
    PostingsMembership(items[..n], k, v, n);
    RemoveFirstAppend(a, Rep(n, Count(items[n], k, v)), n);
    RemoveFirstRep(n, Count(smaller, k, v));
    assert items[n := smaller][..n] == items[..n];
  }

  /** `PostingsRemoveFirst` for an earlier item, given it for the items before the last. */
  lemma RemoveFirstOfEarlier(items: seq<multiset<Pair>>, pk: nat, k: string, v: Value, smaller: multiset<Pair>)
    requires pk < |items| - 1
    requires Count(items[pk], k, v) == Count(smaller, k, v) + 1
    requires RemoveFirst(Postings(items[..|items| - 1], k, v), pk) == Postings(items[..|items| - 1][pk := smaller], k, v)
    ensures RemoveFirst(Postings(items, k, v), pk) == Postings(items[pk := smaller], k, v)
  {
    var n := |items| - 1;
    var a := Postings(items[..n], k, v);
    assert items[..n][pk] == items[pk];
    PostingsMembership(items[..n], k, v, pk);
    RemoveFirstAppend(a, Rep(n, Count(items[n], k, v)), pk);
    assert items[pk := smaller][..n] == items[..n][pk := smaller];
  }

  /** One removal step, for one (key, value). */
  lemma RemovePostingLookup(index: Index, items: seq<multiset<Pair>>, pk: nat, p: Pair, k: string, v: Value)
    requires pk < |items|
    requires Lookup(index, k, v) == Postings(items, k, v)
    ensures Lookup(RemovePosting(index, p, pk), k, v) == Postings(items[pk := items[pk] - multiset{p}], k, v)
  {
    var after := items[pk := items[pk] - multiset{p}];
    if p == Pair(k, v) && p in items[pk] {
      PostingsRemoveFirst(items, pk, k, v, items[pk] - multiset{p});
    } else {
      if p == Pair(k, v) {
        PostingsMembership(items, k, v, pk);
      }
      assert Count(items[pk], k, v) == Count(after[pk], k, v);
      PostingsSameCounts(items, after, k, v);
    }
  }

  /**
   * Removing one pair of item `pk` keeps the index consistent with the
   * item's remaining pairs; a pair the index does not hold for `pk`
   * changes nothing.
   */
  lemma RemovePostingConsistent(index: Index, items: seq<multiset<Pair>>, pk: nat, p: Pair)
    requires pk < |items|
    requires Consistent(index, items)
    ensures Consistent(RemovePosting(index, p, pk), items[pk := items[pk] - multiset{p}])
  {
    forall k, v ensures Lookup(RemovePosting(index, p, pk), k, v) == Postings(items[pk := items[pk] - multiset{p}], k, v) {
      RemovePostingLookup(index, items, pk, p, k, v);
    }
  }

  lemma MultisetSnoc<T>(s: seq<T>)
    requires |s| > 0
    ensures multiset(s) == multiset(s[..|s| - 1]) + multiset{s[|s| - 1]}
  {
    assert s == s[..|s| - 1] + [s[|s| - 1]];
  }

  /** `_remove_index_for_item` over a run of pairs, one posting at a time. */
  function RemovePairs(index: Index, pk: nat, pairs: seq<Pair>): Index
    decreases |pairs|
  {
    if |pairs| == 0 then index
    else RemovePosting(RemovePairs(index, pk, pairs[..|pairs| - 1]), pairs[|pairs| - 1], pk)
  }

  /** Removing an item's pairs takes exactly those pairs out of what the index holds for it. */
  lemma {:induction false} RemovePairsConsistent(index: Index, items: seq<multiset<Pair>>, pk: nat, pairs: seq<Pair>)
    requires pk < |items|
    requires Consistent(index, items)
    ensures Consistent(RemovePairs(index, pk, pairs), items[pk := items[pk] - multiset(pairs)])
    decreases |pairs|
  {
    if |pairs| == 0 {
      assert multiset(pairs) == multiset{};
      assert items[pk] - multiset(pairs) == items[pk];
      assert items[pk := items[pk] - multiset(pairs)] == items;
    } else {
      RemovePairsConsistent(index, items, pk, pairs[..|pairs| - 1]);
      RemovePairsStep(index, items, pk, pairs);
    }
  }

  lemma RemovePairsStep(index: Index, items: seq<multiset<Pair>>, pk: nat, pairs: seq<Pair>)
    requires pk < |items| && |pairs| > 0
    requires Consistent(RemovePairs(index, pk, pairs[..|pairs| - 1]), items[pk := items[pk] - multiset(pairs[..|pairs| - 1])])
    ensures Consistent(RemovePairs(index, pk, pairs), items[pk := items[pk] - multiset(pairs)])
  {
    var n := |pairs| - 1;
    var before := RemovePairs(index, pk, pairs[..n]);
    var mid := items[pk := items[pk] - multiset(pairs[..n])];
    RemovePostingConsistent(before, mid, pk, pairs[n]);
    RemovePairsLast(index, pk, pairs);
    RemoveLast(items[pk], pairs);
    UpdateTwice(items, pk, items[pk] - multiset(pairs[..n]), items[pk] - multiset(pairs));
  }

  lemma UpdateTwice<T>(s: seq<T>, i: nat, x: T, y: T)
    requires i < |s|
    ensures s[i := x][i := y] == s[i := y]
  {
  }

  /** Taking away all but the last pair, then the last, is taking away all of them. */
  lemma RemoveLast(m: multiset<Pair>, pairs: seq<Pair>)
    requires |pairs| > 0
    ensures (m - multiset(pairs[..|pairs| - 1])) - multiset{pairs[|pairs| - 1]} == m - multiset(pairs)
  {
    MultisetSnoc(pairs);
    MultisetDifference(m, multiset(pairs[..|pairs| - 1]), multiset{pairs[|pairs| - 1]});
  }

  lemma MultisetDifference<T>(a: multiset<T>, b: multiset<T>, c: multiset<T>)
    ensures (a - b) - c == a - (b + c)
  {
  }

  lemma {:induction false} RemovePairsAppend(index: Index, pk: nat, a: seq<Pair>, b: seq<Pair>)
    ensures RemovePairs(index, pk, a + b) == RemovePairs(RemovePairs(index, pk, a), pk, b)
    decreases |b|
  {
    if |b| == 0 {
      assert a + b == a;
    } else {
      var n := |b| - 1;
      AppendLast(a, b);
      RemovePairsLast(index, pk, a + b);
      RemovePairsAppend(index, pk, a, b[..n]);
      RemovePairsLast(RemovePairs(index, pk, a), pk, b);
    }
  }

  lemma RemovePairsLast(index: Index, pk: nat, pairs: seq<Pair>)
    requires |pairs| > 0
    ensures RemovePairs(index, pk, pairs) == RemovePosting(RemovePairs(index, pk, pairs[..|pairs| - 1]), pairs[|pairs| - 1], pk)
  {
  }

  lemma AppendLast<T>(a: seq<T>, b: seq<T>)
    requires |b| > 0
    ensures (a + b)[..|a + b| - 1] == a + b[..|b| - 1] && (a + b)[|a + b| - 1] == b[|b| - 1]
  {
  }
}
