/**
 * The values a document field can hold, and the single fixed ordering the
 * engine relies on whenever it sorts values (distinct index values, levels,
 * ordering keys).  Python 2 orders values of different types by a fixed rule
 * (None first, numbers next, then the remaining types by type name); the
 * order `Less` below follows that rule and is a strict total order.
 */
module Values {

  /** A field value: the scalars an index can hold, plus lists and dicts. */
  datatype Value =
    | Null
    | Bool(b: bool)
    | Int(i: int)
    | Str(s: string)
    | Date(year: int, month: int, day: int)
    | List(items: seq<Value>)
    | Map(entries: seq<Entry>)

  /** Concatenation regroups freely. */
  lemma Associative<T>(a: seq<T>, b: seq<T>, c: seq<T>)
    ensures a + (b + c) == (a + b) + c
  {
  }

  /** A non-empty sequence is its front and its last element. */
  lemma FrontLast<T>(s: seq<T>)
    requires |s| > 0
    ensures s[..|s| - 1] + [s[|s| - 1]] == s
  {
  }

  /** An element of a non-empty sequence is in its front or is its last element. */
  lemma InFrontLast<T>(s: seq<T>, x: T)
    requires |s| > 0
    ensures x in s <==> x in s[..|s| - 1] || x == s[|s| - 1]
  {
    FrontLast(s);
  }

  /** Some element of a non-empty sequence satisfies `p` when one before the last does or the last does. */
  lemma ExistsSnoc<T>(s: seq<T>, front: seq<T>, p: T -> bool)
    requires |s| > 0 && front == s[..|s| - 1]
    ensures (exists i :: 0 <= i < |s| && p(s[i])) <==> (exists i :: 0 <= i < |front| && p(front[i])) || p(s[|s| - 1])
  {
    if exists i :: 0 <= i < |front| && p(front[i]) {
      var i :| 0 <= i < |front| && p(front[i]);
      assert s[i] == front[i];
    }
    if exists i :: 0 <= i < |s| && p(s[i]) {
      var i :| 0 <= i < |s| && p(s[i]);
      if i < |front| {
        assert s[i] == front[i];
      }
    }
  }

  /** One key/value pair of a dict, in the dict's iteration order. */
  datatype Entry = Entry(key: string, val: Value)

  /** A document is a top-level dict. */
  type Doc = seq<Entry>

  /** Values that `_unwrap_value` emits as they are (no list, no dict). */
  predicate IsScalar(v: Value)
  {
    !v.List? && !v.Map?
  }

  /** `doc.get(key, None)`: the value stored under `key`, or None. */
  function Get(doc: Doc, key: string): (r: Value)
    ensures r != Null ==> exists i :: 0 <= i < |doc| && doc[i].key == key && doc[i].val == r
  {
    if |doc| == 0 then Null
    else if doc[0].key == key then doc[0].val
    else Get(doc[1..], key)
  }

  /** `key in doc`. */
  predicate HasKey(doc: Doc, key: string)
  {
    exists i :: 0 <= i < |doc| && doc[i].key == key
  }

  /** The keys of a document, in order. */
  function Keys(doc: Doc): (r: seq<string>)
    ensures |r| == |doc|
    ensures forall i :: 0 <= i < |doc| ==> r[i] == doc[i].key
  {
    if |doc| == 0 then [] else [doc[0].key] + Keys(doc[1..])
  }

  // ------------------------------------------------------------------
  // The ordering

  /** Position of each kind of value in Python 2's mixed-type order. */
  function Rank(v: Value): nat
  {
    match v
    case Null => 0
    case Bool(_) => 1
    case Int(_) => 2
    case Date(_, _, _) => 3
    case Map(_) => 4
    case List(_) => 5
    case Str(_) => 6
  }

  /** Lexicographic order on strings, character by character. */
  predicate StrLess(s: string, t: string)
  {
    if |s| == 0 then |t| > 0
    else if |t| == 0 then false
    else if s[0] == t[0] then StrLess(s[1..], t[1..])
    else s[0] < t[0]
  }

  predicate Less(a: Value, b: Value)
    decreases a
  {
    if Rank(a) != Rank(b) then Rank(a) < Rank(b)
    else match (a, b)
      case (Bool(x), Bool(y)) => !x && y
      case (Int(x), Int(y)) => x < y
      case (Str(x), Str(y)) => StrLess(x, y)
      case (Date(y1, m1, d1), Date(y2, m2, d2)) =>
        y1 < y2 || (y1 == y2 && (m1 < m2 || (m1 == m2 && d1 < d2)))
      case (List(xs), List(ys)) => ListLess(xs, ys)
      case (Map(xs), Map(ys)) => EntriesLess(xs, ys)
      case _ => false
  }

  predicate ListLess(xs: seq<Value>, ys: seq<Value>)
    decreases xs
  {
    if |xs| == 0 then |ys| > 0
    else if |ys| == 0 then false
    else if xs[0] == ys[0] then ListLess(xs[1..], ys[1..])
    else Less(xs[0], ys[0])
  }

  predicate EntriesLess(xs: seq<Entry>, ys: seq<Entry>)
    decreases xs
  {
    if |xs| == 0 then |ys| > 0
    else if |ys| == 0 then false
    else if xs[0] == ys[0] then EntriesLess(xs[1..], ys[1..])
    else if xs[0].key != ys[0].key then StrLess(xs[0].key, ys[0].key)
    else Less(xs[0].val, ys[0].val)
  }

  predicate LessEq(a: Value, b: Value)
  {
    a == b || Less(a, b)
  }

  // ---- strings

  lemma {:induction false} StrLessIrreflexive(s: string)
    ensures !StrLess(s, s)
  {
    if |s| > 0 {
      StrLessIrreflexive(s[1..]);
    }
  }

  lemma {:induction false} StrLessTransitive(s: string, t: string, u: string)
    requires StrLess(s, t) && StrLess(t, u)
    ensures StrLess(s, u)
  {
    if |s| > 0 && |t| > 0 && |u| > 0 && s[0] == t[0] && t[0] == u[0] {
      StrLessTransitive(s[1..], t[1..], u[1..]);
    }
  }

  lemma {:induction false} StrLessConnected(s: string, t: string)
    requires s != t
    ensures StrLess(s, t) || StrLess(t, s)
  {
    if |s| > 0 && |t| > 0 && s[0] == t[0] {
      assert s == [s[0]] + s[1..] && t == [t[0]] + t[1..];
      StrLessConnected(s[1..], t[1..]);
    }
  }

  // ---- values

  lemma {:induction false} LessIrreflexive(a: Value)
    ensures !Less(a, a)
    decreases a
  {
    match a
    case Str(s) => StrLessIrreflexive(s);
    case List(xs) => ListLessIrreflexive(xs);
    case Map(xs) => EntriesLessIrreflexive(xs);
    case _ =>
  }

  lemma {:induction false} ListLessIrreflexive(xs: seq<Value>)
    ensures !ListLess(xs, xs)
    decreases xs
  {
    if |xs| > 0 {
      ListLessIrreflexive(xs[1..]);
    }
  }

  lemma {:induction false} EntriesLessIrreflexive(xs: seq<Entry>)
    ensures !EntriesLess(xs, xs)
    decreases xs
  {
    if |xs| > 0 {
      EntriesLessIrreflexive(xs[1..]);
    }
  }

  lemma {:induction false} LessTransitive(a: Value, b: Value, c: Value)
    requires Less(a, b) && Less(b, c)
    ensures Less(a, c)
    decreases a
  {
    if Rank(a) == Rank(b) == Rank(c) {
      match (a, b, c)
      case (Str(x), Str(y), Str(z)) => StrLessTransitive(x, y, z);
      case (List(xs), List(ys), List(zs)) => ListLessTransitive(xs, ys, zs);
      case (Map(xs), Map(ys), Map(zs)) => EntriesLessTransitive(xs, ys, zs);
      case _ =>
    }
  }

  lemma {:induction false} ListLessTransitive(xs: seq<Value>, ys: seq<Value>, zs: seq<Value>)
    requires ListLess(xs, ys) && ListLess(ys, zs)
    ensures ListLess(xs, zs)
    decreases xs
  {
    if |xs| > 0 {
      var x, y, z := xs[0], ys[0], zs[0];
      if x == y && y == z {
        ListLessTransitive(xs[1..], ys[1..], zs[1..]);
      } else if x != y && y != z {
        LessTransitive(x, y, z);
        if x == z {
          LessIrreflexive(x);
        }
      }
    }
  }

  lemma {:induction false} EntriesLessTransitive(xs: seq<Entry>, ys: seq<Entry>, zs: seq<Entry>)
    requires EntriesLess(xs, ys) && EntriesLess(ys, zs)
    ensures EntriesLess(xs, zs)
    decreases xs
  {
    if |xs| > 0 {
      var x, y, z := xs[0], ys[0], zs[0];
      if x == y && y == z {
        EntriesLessTransitive(xs[1..], ys[1..], zs[1..]);
      } else if x != y && y != z {
        if x.key != y.key && y.key != z.key {
          StrLessTransitive(x.key, y.key, z.key);
          if x.key == z.key {
            StrLessIrreflexive(x.key);
          }
        } else if x.key == y.key && y.key == z.key {
          LessTransitive(x.val, y.val, z.val);
          if x.val == z.val {
            LessIrreflexive(x.val);
          }
        }
      }
    }
  }

  lemma {:induction false} LessConnected(a: Value, b: Value)
    requires a != b
    ensures Less(a, b) || Less(b, a)
    decreases a
  {
    if Rank(a) == Rank(b) {
      match (a, b)
      case (Str(x), Str(y)) => StrLessConnected(x, y);
      case (List(xs), List(ys)) => ListLessConnected(xs, ys);
      case (Map(xs), Map(ys)) => EntriesLessConnected(xs, ys);
      case _ =>
    }
  }

  lemma {:induction false} ListLessConnected(xs: seq<Value>, ys: seq<Value>)
    requires xs != ys
    ensures ListLess(xs, ys) || ListLess(ys, xs)
    decreases xs
  {
    if |xs| > 0 && |ys| > 0 {
      if xs[0] == ys[0] {
        assert xs == [xs[0]] + xs[1..] && ys == [ys[0]] + ys[1..];
        ListLessConnected(xs[1..], ys[1..]);
      } else {
        LessConnected(xs[0], ys[0]);
      }
    }
  }

  lemma {:induction false} EntriesLessConnected(xs: seq<Entry>, ys: seq<Entry>)
    requires xs != ys
    ensures EntriesLess(xs, ys) || EntriesLess(ys, xs)
    decreases xs
  {
    if |xs| > 0 && |ys| > 0 {
      if xs[0] == ys[0] {
        assert xs == [xs[0]] + xs[1..] && ys == [ys[0]] + ys[1..];
        EntriesLessConnected(xs[1..], ys[1..]);
      } else if xs[0].key != ys[0].key {
        StrLessConnected(xs[0].key, ys[0].key);
      } else {
        LessConnected(xs[0].val, ys[0].val);
      }
    }
  }

  /** `Less` is a strict total order on all values. */
  lemma StrictTotalOrder()
    ensures forall a :: !Less(a, a)
    ensures forall a, b, c :: Less(a, b) && Less(b, c) ==> Less(a, c)
    ensures forall a, b :: a != b ==> Less(a, b) || Less(b, a)
  {
    forall a ensures !Less(a, a) {
      LessIrreflexive(a);
    }
    forall a, b, c | Less(a, b) && Less(b, c) ensures Less(a, c) {
      LessTransitive(a, b, c);
    }
    forall a, b | a != b ensures Less(a, b) || Less(b, a) {
      LessConnected(a, b);
    }
  }

  lemma LessAsymmetric(a: Value, b: Value)
    requires Less(a, b)
    ensures !Less(b, a) && a != b
  {
    LessIrreflexive(a);
    if Less(b, a) {
      LessTransitive(a, b, a);
    }
  }

  // ------------------------------------------------------------------
  // Sorted sequences

  predicate StrictlySorted(s: seq<Value>)
  {
    forall i, j :: 0 <= i < j < |s| ==> Less(s[i], s[j])
  }

  predicate Sorted(s: seq<Value>)
  {
    forall i, j :: 0 <= i < j < |s| ==> LessEq(s[i], s[j])
  }

  predicate IsMinimum(m: Value, s: set<Value>)
  {
    m in s && forall x :: x in s ==> LessEq(m, x)
  }

  lemma {:induction false} MinimumExists(s: set<Value>)
    requires s != {}
    ensures exists m :: IsMinimum(m, s)
    ensures forall m1, m2 :: IsMinimum(m1, s) && IsMinimum(m2, s) ==> m1 == m2
    decreases |s|
  {
    var x :| x in s;
    if s == {x} {
      assert IsMinimum(x, s);
    } else {
      var rest := s - {x};
      MinimumExists(rest);
      var m :| IsMinimum(m, rest);
      if Less(x, m) {
        forall y | y in s ensures LessEq(x, y) {
          if y != x && y != m {
            assert y in rest && LessEq(m, y);
            LessTransitive(x, m, y);
          }
        }
        assert IsMinimum(x, s);
      } else {
        if x != m {
          LessConnected(x, m);
        }
        assert IsMinimum(m, s);
      }
    }
    forall m1, m2 | IsMinimum(m1, s) && IsMinimum(m2, s) ensures m1 == m2 {
      if m1 != m2 {
        LessAsymmetric(m1, m2);
      }
    }
  }

  /** `sorted(s)` for a collection of distinct values (dict keys, a set). */
  function SortSet(s: set<Value>): (r: seq<Value>)
    ensures |r| == |s|
    ensures forall v :: v in r <==> v in s
    ensures StrictlySorted(r)
    decreases |s|
  {
    if s == {} then []
    else
      MinimumExists(s);
      var m :| IsMinimum(m, s);
      var rest := SortSet(s - {m});
      MinimumLeads(m, s, rest);
      [m] + rest
  }

  /** The minimum of a set can lead the strictly sorted rest of it. */
  lemma MinimumLeads(m: Value, s: set<Value>, rest: seq<Value>)
    requires IsMinimum(m, s)
    requires |rest| == |s - {m}| && StrictlySorted(rest)
    requires forall v :: v in rest <==> v in s - {m}
    ensures |[m] + rest| == |s|
    ensures forall v :: v in [m] + rest <==> v in s
    ensures StrictlySorted([m] + rest)
  {
    assert |s - {m}| == |s| - 1;
    var r := [m] + rest;
    forall i, j | 0 <= i < j < |r| ensures Less(r[i], r[j]) {
      assert r[j] == rest[j - 1] && r[j] in s - {m};
      if i > 0 {
        assert r[i] == rest[i - 1];
      }
    }
  }

  /** Two strictly sorted sequences holding the same values are equal. */
  lemma {:induction false} StrictlySortedUnique(a: seq<Value>, b: seq<Value>)
    requires StrictlySorted(a) && StrictlySorted(b)
    requires forall v :: v in a <==> v in b
    ensures a == b
    decreases |a|
  {
    if |a| > 0 {
      assert a[0] in b;
    }
    if |b| > 0 {
      assert b[0] in a;
    }
    if |a| > 0 {
      if a[0] != b[0] {
        var i :| 0 <= i < |b| && b[i] == a[0];
        var j :| 0 <= j < |a| && a[j] == b[0];
        assert i > 0 && j > 0;
        LessAsymmetric(b[0], a[0]);
      }
      forall v ensures v in a[1..] <==> v in b[1..] {
        if v in a[1..] {
          LessAsymmetric(a[0], v);
          assert v in b;
        }
        if v in b[1..] {
          LessAsymmetric(b[0], v);
          assert v in a;
        }
      }
      StrictlySortedUnique(a[1..], b[1..]);
      assert a == [a[0]] + a[1..] && b == [b[0]] + b[1..];
    }
  }

  /** Insert `x` into a sorted sequence, after every value not above it. */
  function Insert(x: Value, s: seq<Value>): (r: seq<Value>)
    requires Sorted(s)
    ensures Sorted(r)
    ensures multiset(r) == multiset(s) + multiset{x}
  {
    if |s| == 0 then [x]
    else if LessEq(s[0], x) then
      var tail := Insert(x, s[1..]);
      InsertedTail(x, s, tail);
      [s[0]] + tail
    else
      InsertedHead(x, s);
      [x] + s
  }

  /** The head of a sorted list can lead the insertion of a value not below it into the tail. */
  lemma InsertedTail(x: Value, s: seq<Value>, tail: seq<Value>)
    requires Sorted(s) && |s| > 0 && LessEq(s[0], x)
    requires Sorted(tail) && multiset(tail) == multiset(s[1..]) + multiset{x}
    ensures Sorted([s[0]] + tail)
    ensures multiset([s[0]] + tail) == multiset(s) + multiset{x}
  {
    assert s == [s[0]] + s[1..];
    assert multiset(s) == multiset{s[0]} + multiset(s[1..]);
    forall i | 0 <= i < |tail| ensures LessEq(s[0], tail[i]) {
      assert tail[i] in multiset(tail);
      if tail[i] != x {
        assert tail[i] in multiset(s[1..]);
        var j :| 0 <= j < |s[1..]| && s[1..][j] == tail[i];
        assert s[1 + j] == tail[i];
      }
    }
    var r := [s[0]] + tail;
    forall i, j | 0 <= i < j < |r| ensures LessEq(r[i], r[j]) {
      assert r[j] == tail[j - 1];
      if i > 0 {
        assert r[i] == tail[i - 1];
      }
    }
  }

  /** A value below the head of a sorted list can lead it. */
  lemma InsertedHead(x: Value, s: seq<Value>)
    requires Sorted(s) && |s| > 0 && !LessEq(s[0], x)
    ensures Sorted([x] + s)
  {
    LessConnected(x, s[0]);
    forall i | 0 < i < |s| ensures LessEq(x, s[i]) {
      if s[0] != s[i] {
        LessTransitive(x, s[0], s[i]);
      }
    }
    var r := [x] + s;
    forall i, j | 0 <= i < j < |r| ensures LessEq(r[i], r[j]) {
      assert r[j] == s[j - 1];
      if i > 0 {
        assert r[i] == s[i - 1];
      }
    }
  }

  /** `sorted(s)` for a list that may repeat values. */
  function Sort(s: seq<Value>): (r: seq<Value>)
    ensures Sorted(r)
    ensures multiset(r) == multiset(s)
    ensures |r| == |s|
  {
    if |s| == 0 then []
    else
      var rest := Sort(s[1..]);
      assert s == [s[0]] + s[1..];
      var r := Insert(s[0], rest);
      assert |r| == |multiset(r)|;
      r
  }
}
