/**
 * `list.sort(key=..., reverse=...)` on a list of ids: a stable sort by a key
 * value, ascending or descending, as `find_ids_sorted` applies it once per
 * ordering key.
 */
module Sorting {
  import opened Values

  /** `a` goes strictly before `b` in the requested direction. */
  predicate Precedes(a: Value, b: Value, reverse: bool)
  {
    if reverse then Less(b, a) else Less(a, b)
  }

  /** No element goes strictly before an earlier one. */
  predicate SortedBy(s: seq<nat>, key: nat -> Value, reverse: bool)
  {
    forall i, j {:trigger Precedes(key(s[j]), key(s[i]), reverse)} :: 0 <= i < j < |s| ==> !Precedes(key(s[j]), key(s[i]), reverse)
  }

  lemma PrecedesTransitive(a: Value, b: Value, c: Value, reverse: bool)
    requires !Precedes(b, a, reverse) && !Precedes(c, b, reverse)
    ensures !Precedes(c, a, reverse)
  {
    if Precedes(c, a, reverse) {
      if reverse {
        // Less(a, c), !Less(a, b) and !Less(b, c)
        if a != b { LessConnected(a, b); }
        if b != c { LessConnected(b, c); }
        if a == b { } else if b == c { } else { LessTransitive(c, b, a); LessAsymmetric(a, c); }
      } else {
        if a != b { LessConnected(a, b); }
        if b != c { LessConnected(b, c); }
        if a == b { } else if b == c { } else { LessTransitive(a, b, c); LessAsymmetric(c, a); }
      }
    }
  }

  /** Insert `x` after every element it does not go strictly before. */
  function InsertBy(x: nat, s: seq<nat>, key: nat -> Value, reverse: bool): (r: seq<nat>)
    requires SortedBy(s, key, reverse)
    ensures SortedBy(r, key, reverse)
    ensures multiset(r) == multiset(s) + multiset{x}
    ensures |r| == |s| + 1
  {
    if |s| == 0 then [x]
    else if Precedes(key(x), key(s[0]), reverse) then
      SortedCons(x, s, key, reverse);
      [x] + s
    else
      var tail := InsertBy(x, s[1..], key, reverse);
      SortedConsInserted(x, s, tail, key, reverse);
      [s[0]] + tail
  }

  /** An element that goes strictly before the head of a sorted sequence can lead it. */
  lemma SortedCons(x: nat, s: seq<nat>, key: nat -> Value, reverse: bool)
    requires SortedBy(s, key, reverse) && |s| > 0 && Precedes(key(x), key(s[0]), reverse)
    ensures SortedBy([x] + s, key, reverse)
  {
    var r := [x] + s;
    forall i, j | 0 <= i < j < |r| ensures !Precedes(key(r[j]), key(r[i]), reverse) {
      PrecedesAsymmetric(key(x), key(s[0]), reverse);
      if i == 0 {
        assert r[j] == s[j - 1];
        if j > 1 {
          PrecedesTransitive(key(x), key(s[0]), key(s[j - 1]), reverse);
        }
      } else {
        assert r[i] == s[i - 1] && r[j] == s[j - 1];
      }
    }
  }

  /** The head of a sorted sequence can lead the insertion of `x` into its tail, when `x` does not go before it. */
  lemma SortedConsInserted(x: nat, s: seq<nat>, tail: seq<nat>, key: nat -> Value, reverse: bool)
    requires SortedBy(s, key, reverse) && |s| > 0 && !Precedes(key(x), key(s[0]), reverse)
    requires SortedBy(tail, key, reverse) && multiset(tail) == multiset(s[1..]) + multiset{x}
    ensures SortedBy([s[0]] + tail, key, reverse)
    ensures multiset([s[0]] + tail) == multiset(s) + multiset{x}
  {
    var r := [s[0]] + tail;
    assert s == [s[0]] + s[1..];
    forall j | 0 <= j < |tail| ensures !Precedes(key(tail[j]), key(s[0]), reverse) {
      assert tail[j] in multiset(tail);
      if tail[j] != x {
        assert tail[j] in multiset(s[1..]);
        var m :| 0 <= m < |s[1..]| && s[1..][m] == tail[j];
        assert s[m + 1] == tail[j];
      }
    }
    forall i, j | 0 <= i < j < |r| ensures !Precedes(key(r[j]), key(r[i]), reverse) {
      assert r[j] == tail[j - 1];
      if i > 0 {
        assert r[i] == tail[i - 1];
      }
    }
  }

  lemma PrecedesAsymmetric(a: Value, b: Value, reverse: bool)
    requires Precedes(a, b, reverse)
    ensures !Precedes(b, a, reverse)
  {
    if reverse { LessAsymmetric(b, a); } else { LessAsymmetric(a, b); }
  }

  /** `ids.sort(key=key, reverse=reverse)`: insertion of each id in turn. */
  function SortBy(ids: seq<nat>, key: nat -> Value, reverse: bool): (r: seq<nat>)
    ensures SortedBy(r, key, reverse)
    ensures multiset(r) == multiset(ids)
    ensures |r| == |ids|
  {
    if |ids| == 0 then []
    else
      var n := |ids| - 1;
      assert ids == ids[..n] + [ids[n]];
      InsertBy(ids[n], SortBy(ids[..n], key, reverse), key, reverse)
  }

  /** Sorting a list already in order changes nothing. */
  lemma {:induction false} SortBySorted(ids: seq<nat>, key: nat -> Value, reverse: bool)
    requires SortedBy(ids, key, reverse)
    ensures SortBy(ids, key, reverse) == ids
    decreases |ids|
  {
    if |ids| > 0 {
      var n := |ids| - 1;
      FrontLast(ids);
      SortedSnoc(ids[..n], ids[n], key, reverse);
      SortBySorted(ids[..n], key, reverse);
      InsertLast(ids[..n], ids[n], key, reverse);
    }
  }

  lemma SortedSnoc(s: seq<nat>, x: nat, key: nat -> Value, reverse: bool)
    requires SortedBy(s + [x], key, reverse)
    ensures SortedBy(s, key, reverse)
    ensures forall i :: 0 <= i < |s| ==> !Precedes(key(x), key(s[i]), reverse)
  {
    forall i, j | 0 <= i < j < |s| ensures !Precedes(key(s[j]), key(s[i]), reverse) {
      assert (s + [x])[i] == s[i] && (s + [x])[j] == s[j];
    }
    forall i | 0 <= i < |s| ensures !Precedes(key(x), key(s[i]), reverse) {
      assert (s + [x])[i] == s[i] && (s + [x])[|s|] == x;
    }
  }

  lemma {:induction false} InsertLast(s: seq<nat>, x: nat, key: nat -> Value, reverse: bool)
    requires SortedBy(s, key, reverse)
    requires forall i :: 0 <= i < |s| ==> !Precedes(key(x), key(s[i]), reverse)
    ensures InsertBy(x, s, key, reverse) == s + [x]
    decreases |s|
  {
    if |s| > 0 {
      assert !Precedes(key(x), key(s[0]), reverse);
      assert SortedBy(s[1..], key, reverse);
      assert forall i :: 0 <= i < |s[1..]| ==> !Precedes(key(x), key(s[1..][i]), reverse);
      InsertLast(s[1..], x, key, reverse);
      assert InsertBy(x, s, key, reverse) == [s[0]] + (s[1..] + [x]);
      Associative([s[0]], s[1..], [x]);
      assert [s[0]] + s[1..] == s;
    }
  }

  /** Sorting twice by the same key is sorting once. */
  lemma SortByIdempotent(ids: seq<nat>, key: nat -> Value, reverse: bool)
    ensures SortBy(SortBy(ids, key, reverse), key, reverse) == SortBy(ids, key, reverse)
  {
    SortBySorted(SortBy(ids, key, reverse), key, reverse);
  }

  // ------------------------------------------------------------------
  // Stability

  /** The elements of `s` whose key is `v`, in order. */
  function WithKey(s: seq<nat>, key: nat -> Value, v: Value): seq<nat>
  {
    if |s| == 0 then []
    else (if key(s[0]) == v then [s[0]] else []) + WithKey(s[1..], key, v)
  }

  lemma {:induction false} WithKeyAppend(a: seq<nat>, b: seq<nat>, key: nat -> Value, v: Value)
    ensures WithKey(a + b, key, v) == WithKey(a, key, v) + WithKey(b, key, v)
    decreases |a|
  {
    if |a| == 0 {
      assert a + b == b;
    } else {
      var ab := a + b;
      assert ab[0] == a[0] && ab[1..] == a[1..] + b;
      WithKeyAppend(a[1..], b, key, v);
      Associative(if key(a[0]) == v then [a[0]] else [], WithKey(a[1..], key, v), WithKey(b, key, v));
    }
  }

  lemma {:induction false} WithKeyNone(s: seq<nat>, key: nat -> Value, v: Value)
    requires forall i :: 0 <= i < |s| ==> key(s[i]) != v
    ensures WithKey(s, key, v) == []
    decreases |s|
  {
    if |s| > 0 {
      WithKeyNone(s[1..], key, v);
    }
  }

  /** Inserting puts `x` after every element with the same key. */
  lemma {:induction false} InsertWithKey(x: nat, s: seq<nat>, key: nat -> Value, reverse: bool, v: Value)
    requires SortedBy(s, key, reverse)
    ensures WithKey(InsertBy(x, s, key, reverse), key, v) == WithKey(s, key, v) + (if key(x) == v then [x] else [])
    decreases |s|
  {
    if |s| == 0 {
    } else if Precedes(key(x), key(s[0]), reverse) {
      InsertFront(x, s, key, reverse, v);
    } else {
      var tail := InsertBy(x, s[1..], key, reverse);
      var r := [s[0]] + tail;
      assert InsertBy(x, s, key, reverse) == r;
      assert r[0] == s[0] && r[1..] == tail;
      InsertWithKey(x, s[1..], key, reverse, v);
      var h := if key(s[0]) == v then [s[0]] else [];
      assert WithKey(s, key, v) == h + WithKey(s[1..], key, v);
      Associative(h, WithKey(s[1..], key, v), if key(x) == v then [x] else []);
    }
  }

  lemma InsertFront(x: nat, s: seq<nat>, key: nat -> Value, reverse: bool, v: Value)
    requires SortedBy(s, key, reverse) && |s| > 0 && Precedes(key(x), key(s[0]), reverse)
    ensures WithKey(InsertBy(x, s, key, reverse), key, v) == WithKey(s, key, v) + (if key(x) == v then [x] else [])
  {
    var r := [x] + s;
    assert InsertBy(x, s, key, reverse) == r;
    assert r[1..] == s;
    if key(x) == v {
      forall i | 0 <= i < |s| ensures key(s[i]) != v {
        if i == 0 {
          PrecedesIrreflexive(v, reverse);
        } else {
          assert !Precedes(key(s[i]), key(s[0]), reverse);
        }
      }
      WithKeyNone(s, key, v);
    }
  }

  lemma PrecedesIrreflexive(a: Value, reverse: bool)
    ensures !Precedes(a, a, reverse)
  {
    LessIrreflexive(a);
  }

  /**
   * The sort is stable: the ids sharing a key value keep their original
   * relative order.
   */
  lemma {:induction false} SortByStable(ids: seq<nat>, key: nat -> Value, reverse: bool, v: Value)
    ensures WithKey(SortBy(ids, key, reverse), key, v) == WithKey(ids, key, v)
    decreases |ids|
  {
    if |ids| > 0 {
      var n := |ids| - 1;
      var front := ids[..n];
      var sorted := SortBy(front, key, reverse);
      SortByLast(ids, key, reverse);
      SortByStable(front, key, reverse, v);
      InsertWithKey(ids[n], sorted, key, reverse, v);
      FrontLast(ids);
      KeepsWithKey(front, ids[n], sorted, InsertBy(ids[n], sorted, key, reverse), key, v);
    }
  }

  /** One step of the stability proof: appending `x` on both sides keeps the ids with key `v` alike. */
  lemma KeepsWithKey(front: seq<nat>, x: nat, sorted: seq<nat>, r: seq<nat>, key: nat -> Value, v: Value)
    requires WithKey(sorted, key, v) == WithKey(front, key, v)
    requires WithKey(r, key, v) == WithKey(sorted, key, v) + (if key(x) == v then [x] else [])
    ensures WithKey(r, key, v) == WithKey(front + [x], key, v)
  {
    WithKeyAppend(front, [x], key, v);
    assert WithKey([x], key, v) == (if key(x) == v then [x] else []) + WithKey([], key, v);
  }

  /** Sorting inserts the last id into the sorted rest. */
  lemma SortByLast(ids: seq<nat>, key: nat -> Value, reverse: bool)
    requires |ids| > 0
    ensures SortBy(ids, key, reverse) == InsertBy(ids[|ids| - 1], SortBy(ids[..|ids| - 1], key, reverse), key, reverse)
  {
  }
}
