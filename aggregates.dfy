/**
 * Aggregates over the items of a query: the N/A policy that turns the
 * items into a list of values, the calculations (Avg, Max, Median, the
 * quartiles Qu1 and Qu3, Min, Sum, Count), and the lazy calculation that
 * computes its result on first use and keeps a truthy one.
 *
 * Numbers are integers (`bool` counts as 0 or 1, as Python's `sum` does);
 * averages and the mean of two middle values are exact rationals.  Max,
 * Min and the middle value of an odd-length list follow the fixed value
 * order `Less`, the order `sorted` uses everywhere in the engine.
 */
module Aggregates {
  import opened Outcomes
  import opened Values
  import opened Documents

  datatype Kind = Avg | Max | Median | Qu1 | Qu3 | Min | Sum | Count

  /** `NA.skip`, `NA.reject`, or any other value passed as the policy (which keeps None values). */
  datatype NaPolicy = Skip | Reject | OtherPolicy

  /** An aggregate: its class, its key (None when not given) and its N/A policy. */
  datatype Aggregate = Aggregate(kind: Kind, key: Option<string>, policy: NaPolicy)

  /** `Count()`: every item, skipping N/A values. */
  const CountAll := Aggregate(Count, None, Skip)

  /** What an aggregate computes: a value of the data, or an exact rational. */
  datatype Amount = Whole(v: Value) | Fraction(q: real)

  function ClassName(kind: Kind): string
  {
    match kind
    case Avg => "Avg"
    case Max => "Max"
    case Median => "Median"
    case Qu1 => "Qu1"
    case Qu3 => "Qu3"
    case Min => "Min"
    case Sum => "Sum"
    case Count => "Count"
  }

  /** `self.key` is truthy: a key was given and it is not empty. */
  predicate Keyed(key: Option<string>)
  {
    key.Some? && key.value != ""
  }

  /**
   * `str(agg)`: the class name, then in parentheses the key, or `all` when
   * there is no key.
   */
  function Display(a: Aggregate): (r: string)
    ensures |r| >= |ClassName(a.kind)| + 2
    ensures r[..|ClassName(a.kind)|] == ClassName(a.kind)
    ensures r[|ClassName(a.kind)|] == '(' && r[|r| - 1] == ')'
    ensures r[|ClassName(a.kind)| + 1..|r| - 1] == if Keyed(a.key) then a.key.value else "all"
  {
    var shown := if Keyed(a.key) then a.key.value else "all";
    var r := ClassName(a.kind) + "(" + shown + ")";
    assert r[..|ClassName(a.kind)|] == ClassName(a.kind);
    assert r[|ClassName(a.kind)| + 1..|r| - 1] == shown;
    r
  }

  // ------------------------------------------------------------------
  // count_for: from items to values

  /** `item.get(self.key, None)`; no dict key equals None. */
  function Field(item: Document, key: Option<string>): Value
  {
    if key.Some? then Get(item.data, key.value) else Null
  }

  /** The field of every item, in order. */
  function Fetched(key: Option<string>, items: seq<Document>): (r: seq<Value>)
    ensures |r| == |items|
    ensures forall i :: 0 <= i < |items| ==> r[i] == Field(items[i], key)
  {
    seq(|items|, i requires 0 <= i < |items| => Field(items[i], key))
  }

  /** The values with every None left out, in their order. */
  function WithoutNulls(s: seq<Value>): (r: seq<Value>)
    ensures Null !in r
    ensures multiset(r) == multiset(s)[Null := 0]
  {
    if |s| == 0 then []
    else
      var n := |s| - 1;
      assert s == s[..n] + [s[n]];
      WithoutNulls(s[..n]) + if s[n] == Null then [] else [s[n]]
  }

  /** Dropping None values keeps the order: it works piece by piece. */
  lemma {:induction false} WithoutNullsAppend(a: seq<Value>, b: seq<Value>)
    ensures WithoutNulls(a + b) == WithoutNulls(a) + WithoutNulls(b)
    decreases |b|
  {
    if |b| == 0 {
      assert a + b == a;
    } else {
      var n := |b| - 1;
      assert (a + b)[..|a + b| - 1] == a + b[..n];
      WithoutNullsAppend(a, b[..n]);
    }
  }

  /** The values `count_for` keeps under a policy that is not reject: all but None under skip, all otherwise. */
  function Kept(policy: NaPolicy, vals: seq<Value>): seq<Value>
  {
    if policy == Skip then WithoutNulls(vals) else vals
  }

  /** One more value is kept at the end unless skip drops it. */
  lemma KeptSnoc(policy: NaPolicy, vals: seq<Value>, v: Value)
    ensures Kept(policy, vals + [v]) == Kept(policy, vals) + if policy == Skip && v == Null then [] else [v]
  {
    WithoutNullsAppend(vals, [v]);
    assert [v][..0] == [];
  }

  /** One more item adds its field at the end. */
  lemma FetchedSnoc(key: Option<string>, items: seq<Document>, i: nat)
    requires i < |items|
    ensures Fetched(key, items[..i + 1]) == Fetched(key, items[..i]) + [Field(items[i], key)]
  {
  }

  /** The number of distinct items; documents are equal exactly when their pks are. */
  function DistinctItems(items: seq<Document>): nat
  {
    |set i | 0 <= i < |items| :: items[i].pk|
  }

  /** Whether `count_for` is `Count.calc` itself: a Count with no (or an empty) key. */
  predicate CountsItems(a: Aggregate)
  {
    a.kind == Count && !Keyed(a.key)
  }

  /**
   * The outcome of `count_for`: None when the reject policy meets a missing
   * value, an `NA()` when no value remains, a lazy calculation over the
   * values otherwise, or a plain number for `Count()` without a key.
   */
  datatype Counted = Rejected | NotAvailable | Lazy(values: seq<Value>) | Number(n: nat)

  function CountFor(a: Aggregate, items: seq<Document>): (r: Counted)
    ensures r.Number? <==> CountsItems(a)
    ensures r.Number? ==> r.n == DistinctItems(items)
    ensures r.Rejected? <==> !CountsItems(a) && a.policy == Reject && exists i :: 0 <= i < |items| && Field(items[i], a.key) == Null
    ensures r.Lazy? ==> |r.values| > 0
    ensures r.Lazy? && a.policy == Skip ==> Null !in r.values && multiset(r.values) == multiset(Fetched(a.key, items))[Null := 0]
    ensures r.Lazy? && a.policy != Skip ==> r.values == Fetched(a.key, items)
    ensures r.NotAvailable? && a.policy != Skip ==> |items| == 0
    ensures r.NotAvailable? && a.policy == Skip ==> forall i :: 0 <= i < |items| ==> Field(items[i], a.key) == Null
  {
    if CountsItems(a) then Number(DistinctItems(items))
    else
      var vals := Fetched(a.key, items);
      if a.policy == Reject && Null in vals then Rejected
      else
        var kept := Kept(a.policy, vals);
        if |kept| == 0 then
          assert a.policy == Skip ==> forall i :: 0 <= i < |items| ==> vals[i] == Null by {
            if a.policy == Skip {
              forall i | 0 <= i < |items| ensures vals[i] == Null {
                assert vals[i] in multiset(vals);
                assert multiset(kept)[vals[i]] == 0;
              }
            }
          }
          NotAvailable
        else Lazy(kept)
  }

  // ------------------------------------------------------------------
  // The calculations

  /** The number a value stands for in arithmetic, if any. */
  function Numeric(v: Value): Option<int>
  {
    match v
    case Int(i) => Some(i)
    case Bool(b) => Some(if b then 1 else 0)
    case _ => None
  }

  /** `sum(values, 0)`: TypeError as soon as a value is not a number. */
  function Total(vals: seq<Value>): (r: Result<int>)
    ensures r.Failure? <==> exists i :: 0 <= i < |vals| && Numeric(vals[i]).None?
    ensures r.Failure? ==> r.error == TypeError
  {
    if |vals| == 0 then Success(0)
    else
      var n := |vals| - 1;
      var front := Total(vals[..n]);
      assert forall i :: 0 <= i < n ==> vals[..n][i] == vals[i];
      if front.Failure? then front
      else if Numeric(vals[n]).None? then Failure(TypeError)
      else Success(front.value + Numeric(vals[n]).value)
  }

  /** The sum of two lists joined is the sum of their sums. */
  lemma {:induction false} TotalAppend(a: seq<Value>, b: seq<Value>)
    requires Total(a).Success? && Total(b).Success?
    ensures Total(a + b) == Success(Total(a).value + Total(b).value)
    decreases |b|
  {
    if |b| == 0 {
      assert a + b == a;
    } else {
      var n := |b| - 1;
      assert (a + b)[..|a + b| - 1] == a + b[..n];
      assert (a + b)[|a + b| - 1] == b[n];
      TotalAppend(a, b[..n]);
    }
  }

  /** `max(values)`: the greatest value. */
  function MaxOf(vals: seq<Value>): (r: Value)
    requires |vals| > 0
    ensures r in vals
    ensures forall v :: v in vals ==> LessEq(v, r)
  {
    var s := Sort(vals);
    assert s[|s| - 1] in multiset(s);
    forall v | v in vals ensures LessEq(v, s[|s| - 1]) {
      assert v in multiset(s);
      var j :| 0 <= j < |s| && s[j] == v;
    }
    s[|s| - 1]
  }

  /** `min(values)`: the least value. */
  function MinOf(vals: seq<Value>): (r: Value)
    requires |vals| > 0
    ensures r in vals
    ensures forall v :: v in vals ==> LessEq(r, v)
  {
    var s := Sort(vals);
    assert s[0] in multiset(s);
    forall v | v in vals ensures LessEq(s[0], v) {
      assert v in multiset(s);
      var j :| 0 <= j < |s| && s[j] == v;
    }
    s[0]
  }

  /**
   * The middle of a list `Median.calc` has sorted: for an odd length the
   * value at index n >> 1, for an even length the mean of the values at
   * (n >> 1) - 1 and n >> 1.  An empty list slices to nothing and gives 0.0.
   */
  function Middle(s: seq<Value>): (r: Result<Amount>)
    ensures r.Failure? ==> r.error == TypeError
    ensures |s| % 2 == 1 ==> r == Success(Whole(s[|s| / 2]))
  {
    var middle := |s| / 2;
    if |s| % 2 == 1 then Success(Whole(s[middle]))
    else if |s| == 0 then Success(Fraction(0.0))
    else
      match Total([s[middle - 1], s[middle]])
      case Failure(e) => Failure(e)
      case Success(t) => Success(Fraction(t as real / 2.0))
  }

  /** `Median.calc`: the middle of the sorted values. */
  function MedianOf(vals: seq<Value>): (r: Result<Amount>)
    ensures r.Failure? ==> r.error == TypeError
    ensures |vals| % 2 == 1 ==> r.Success? && r.value.Whole? && r.value.v in vals
  {
    var s := Sort(vals);
    assert |vals| % 2 == 1 ==> s[|s| / 2] in multiset(vals);
    Middle(s)
  }

  /** `Qu1.calc`: the median of the lowest quarter of the sorted values (the first n / 4). */
  function Qu1Of(vals: seq<Value>): Result<Amount>
  {
    var s := Sort(vals);
    MedianOf(s[..|s| / 4])
  }

  /** `Qu3.calc`: the median of the sorted values from index (n / 4) * 3 on. */
  function Qu3Of(vals: seq<Value>): Result<Amount>
  {
    var s := Sort(vals);
    MedianOf(s[(|s| / 4) * 3..])
  }

  /** `Count(key).calc`: the number of distinct values; a list or dict is unhashable. */
  function DistinctCount(vals: seq<Value>): (r: Result<nat>)
    ensures r.Failure? <==> exists i :: 0 <= i < |vals| && (vals[i].List? || vals[i].Map?)
    ensures r.Failure? ==> r.error == TypeError
    ensures r.Success? ==> r.value <= |vals|
    ensures r.Success? && |vals| > 0 ==> r.value >= 1
  {
    if exists i :: 0 <= i < |vals| && (vals[i].List? || vals[i].Map?) then Failure(TypeError)
    else
      var distinct := set v | v in vals;
      DistinctBound(vals);
      assert |vals| > 0 ==> vals[0] in distinct;
      Success(|distinct|)
  }

  lemma {:induction false} DistinctBound(vals: seq<Value>)
    ensures |set v | v in vals| <= |vals|
    decreases |vals|
  {
    if |vals| > 0 {
      var n := |vals| - 1;
      DistinctBound(vals[..n]);
      assert vals == vals[..n] + [vals[n]];
      assert (set v | v in vals) == (set v | v in vals[..n]) + {vals[n]};
    }
  }

  /** `calc(values)` of each aggregate, on the non-empty list `get_result` passes. */
  function Calc(kind: Kind, vals: seq<Value>): (r: Result<Amount>)
    requires |vals| > 0
    ensures r.Failure? ==> r.error == TypeError
  {
    match kind
    case Avg =>
      (match Total(vals)
       case Failure(e) => Failure(e)
       case Success(t) => Success(Fraction(t as real / |vals| as real)))
    case Max => Success(Whole(MaxOf(vals)))
    case Median => MedianOf(vals)
    case Qu1 => Qu1Of(vals)
    case Qu3 => Qu3Of(vals)
    case Min => Success(Whole(MinOf(vals)))
    case Sum =>
      (match Total(vals)
       case Failure(e) => Failure(e)
       case Success(t) => Success(Whole(Int(t))))
    case Count =>
      (match DistinctCount(vals)
       case Failure(e) => Failure(e)
       case Success(n) => Success(Whole(Int(n))))
  }

  // ------------------------------------------------------------------
  // Order does not matter to the sorted calculations

  /** Two sorted lists holding the same values as often are equal. */
  lemma {:induction false} SortedUnique(a: seq<Value>, b: seq<Value>)
    requires Sorted(a) && Sorted(b)
    requires multiset(a) == multiset(b)
    ensures a == b
    decreases |a|
  {
    assert |a| == |multiset(a)| && |b| == |multiset(b)|;
    if |a| > 0 {
      SortedHeads(a, b);
      SortedTail(a);
      SortedTail(b);
      SortedUnique(a[1..], b[1..]);
      assert a == [a[0]] + a[1..] && b == [b[0]] + b[1..];
    }
  }

  /** Two sorted lists holding the same values as often start with the same value. */
  lemma SortedHeads(a: seq<Value>, b: seq<Value>)
    requires Sorted(a) && Sorted(b) && |a| > 0
    requires multiset(a) == multiset(b)
    ensures |b| > 0 && a[0] == b[0]
  {
    assert a[0] in multiset(b);
    var i :| 0 <= i < |b| && b[i] == a[0];
    assert b[0] in multiset(a);
    var j :| 0 <= j < |a| && a[j] == b[0];
    assert LessEq(b[0], a[0]) && LessEq(a[0], b[0]);
    if a[0] != b[0] {
      LessAsymmetric(a[0], b[0]);
    }
  }

  /** The tail of a sorted list is sorted and holds the values but the head. */
  lemma SortedTail(a: seq<Value>)
    requires Sorted(a) && |a| > 0
    ensures Sorted(a[1..])
    ensures multiset(a[1..]) == multiset(a) - multiset{a[0]}
  {
    assert a == [a[0]] + a[1..];
    assert multiset(a) == multiset{a[0]} + multiset(a[1..]);
  }

  /** The sorted copy depends only on the values and how often each occurs. */
  lemma SortOrderFree(a: seq<Value>, b: seq<Value>)
    requires multiset(a) == multiset(b)
    ensures Sort(a) == Sort(b)
  {
    SortedUnique(Sort(a), Sort(b));
  }

  /** Median, Qu1 and Qu3 give the same result however the values are ordered. */
  lemma SortedCalcsOrderFree(a: seq<Value>, b: seq<Value>)
    requires multiset(a) == multiset(b)
    ensures MedianOf(a) == MedianOf(b)
    ensures Qu1Of(a) == Qu1Of(b)
    ensures Qu3Of(a) == Qu3Of(b)
  {
    SortOrderFree(a, b);
    var s := Sort(a);
    assert MedianOf(a) == Middle(s) == MedianOf(b);
    assert Qu1Of(a) == MedianOf(s[..|s| / 4]) == Qu1Of(b);
    assert Qu3Of(a) == MedianOf(s[(|s| / 4) * 3..]) == Qu3Of(b);
  }

  /** A sorted list sorts to itself. */
  lemma SortSorted(s: seq<Value>)
    requires Sorted(s)
    ensures Sort(s) == s
  {
    SortedUnique(Sort(s), s);
  }

  // ------------------------------------------------------------------
  // Bounds on the median and the quartiles of integers

  predicate AllInts(vals: seq<Value>)
  {
    forall i :: 0 <= i < |vals| ==> vals[i].Int?
  }

  /** The numeric value of a number-valued amount. */
  function AsReal(a: Amount): real
  {
    match a
    case Fraction(q) => q
    case Whole(v) => if v.Int? then v.i as real else 0.0
  }

  /** In a sorted list of integers the values rise with the index. */
  lemma SortedInts(s: seq<Value>, i: nat, j: nat)
    requires Sorted(s) && AllInts(s)
    requires i <= j < |s|
    ensures s[i].i <= s[j].i
  {
  }

  /** The median of integers lies within any bounds of the values. */
  lemma MedianWithin(vals: seq<Value>, lo: int, hi: int)
    requires |vals| > 0 && AllInts(vals)
    requires forall i :: 0 <= i < |vals| ==> lo <= vals[i].i <= hi
    ensures MedianOf(vals).Success?
    ensures lo as real <= AsReal(MedianOf(vals).value) <= hi as real
  {
    var s := Sort(vals);
    forall k | 0 <= k < |s| ensures s[k].Int? && lo <= s[k].i <= hi {
      assert s[k] in multiset(vals);
      var i :| 0 <= i < |vals| && vals[i] == s[k];
    }
    var middle := |s| / 2;
    if |s| % 2 == 0 {
      var pair := [s[middle - 1], s[middle]];
      var none: seq<Value> := [];
      assert pair[..1] == [s[middle - 1]] && pair[..1][..0] == none;
      assert Total(none) == Success(0);
      assert Total(pair[..1]) == Success(s[middle - 1].i);
      assert Total(pair) == Success(s[middle - 1].i + s[middle].i);
    }
  }

  /**
   * With at least four integers, the lower quartile is at most the upper
   * one: every value of the lowest quarter is at most every value from
   * index (n / 4) * 3 on.
   */
  lemma QuartilesOrdered(vals: seq<Value>)
    requires |vals| >= 4 && AllInts(vals)
    ensures Qu1Of(vals).Success? && Qu3Of(vals).Success?
    ensures AsReal(Qu1Of(vals).value) <= AsReal(Qu3Of(vals).value)
  {
    var s := Sort(vals);
    SortKeepsInts(vals);
    var q := |s| / 4;
    var lower := s[..q];
    var upper := s[q * 3..];
    var pivot := s[q - 1].i;
    SliceWithin(s, lower, 0, 0, q - 1);
    SliceWithin(s, upper, q * 3, q - 1, |s| - 1);
    MedianWithin(lower, s[0].i, pivot);
    MedianWithin(upper, pivot, s[|s| - 1].i);
    assert Qu1Of(vals) == MedianOf(lower);
    assert Qu3Of(vals) == MedianOf(upper);
  }

  /** Sorting integers gives integers. */
  lemma SortKeepsInts(vals: seq<Value>)
    requires AllInts(vals)
    ensures AllInts(Sort(vals))
  {
    var s := Sort(vals);
    forall k | 0 <= k < |s| ensures s[k].Int? {
      assert s[k] in multiset(vals);
      var i :| 0 <= i < |vals| && vals[i] == s[k];
    }
  }

  /** A slice of sorted integers lies between any value before it and any value after it. */
  lemma SliceWithin(s: seq<Value>, part: seq<Value>, lo: nat, a: nat, b: nat)
    requires Sorted(s) && AllInts(s)
    requires a <= lo && lo + |part| <= b + 1 && b < |s|
    requires forall i :: 0 <= i < |part| ==> part[i] == s[lo + i]
    ensures AllInts(part)
    ensures forall i :: 0 <= i < |part| ==> s[a].i <= part[i].i <= s[b].i
  {
    forall i | 0 <= i < |part| ensures part[i].Int? && s[a].i <= part[i].i <= s[b].i {
      SortedInts(s, a, lo + i);
      SortedInts(s, lo + i, b);
    }
  }

  /** `Qu1.calc` as datashaping writes it: the first n / 4 values as given, unsorted. */
  function Qu1AsWritten(vals: seq<Value>): Result<Amount>
  {
    MedianOf(vals[..|vals| / 4])
  }

  /** `Qu3.calc` as datashaping writes it: the values from (n / 4) * 3 on, unsorted. */
  function Qu3AsWritten(vals: seq<Value>): Result<Amount>
  {
    MedianOf(vals[(|vals| / 4) * 3..])
  }

  /** The median of one value is that value. */
  lemma MedianOfOne(v: Value)
    ensures MedianOf([v]) == Success(Whole(v))
  {
    SortSorted([v]);
  }

  /**
   * On the values 4, 3, 2, 1 the unsorted quartiles come out crossed:
   * Qu1 = 4 lies above Qu3 = 1.
   */
  lemma QuartilesAsWrittenCrossed()
    ensures Qu1AsWritten([Int(4), Int(3), Int(2), Int(1)]) == Success(Whole(Int(4)))
    ensures Qu3AsWritten([Int(4), Int(3), Int(2), Int(1)]) == Success(Whole(Int(1)))
  {
    var vals := [Int(4), Int(3), Int(2), Int(1)];
    assert vals[..1] == [Int(4)] && vals[3..] == [Int(1)];
    MedianOfOne(Int(4));
    MedianOfOne(Int(1));
  }

  // ------------------------------------------------------------------
  // The lazy calculation

  /** Python truthiness of a value. */
  predicate TruthyValue(v: Value)
  {
    match v
    case Null => false
    case Bool(b) => b
    case Int(i) => i != 0
    case Str(s) => s != ""
    case Date(_, _, _) => true
    case List(xs) => |xs| > 0
    case Map(es) => |es| > 0
  }

  predicate Truthy(a: Amount)
  {
    match a
    case Whole(v) => TruthyValue(v)
    case Fraction(q) => q != 0.0
  }

  /**
   * What `get_result` returns, cache aside: None for no values, the
   * calculation, or an AggregationError naming the aggregate and its key
   * when the calculation raises TypeError.
   */
  function Evaluate(a: Aggregate, vals: seq<Value>): (r: Result<Option<Amount>>)
    ensures |vals| == 0 ==> r == Success(None)
    ensures r.Failure? ==> r.error == AggregationError(ClassName(a.kind), a.key)
    ensures |vals| > 0 ==> (r.Success? <==> Calc(a.kind, vals).Success?)
    ensures r.Success? && |vals| > 0 ==> r.value == Some(Calc(a.kind, vals).value)
  {
    if |vals| == 0 then Success(None)
    else
      match Calc(a.kind, vals)
      case Failure(_) => Failure(AggregationError(ClassName(a.kind), a.key))
      case Success(x) => Success(Some(x))
  }

  class LazyCalculation {
    const agg: Aggregate
    const values: seq<Value>
    /** `self.result`: None until a calculation has been kept. */
    var result: Option<Amount>

    /** A kept result is the calculation's. */
    ghost predicate Valid()
      reads this
    {
      result.Some? ==> |values| > 0 && Calc(agg.kind, values) == Success(result.value)
    }

    constructor (agg: Aggregate, values: seq<Value>)
      ensures Valid()
      ensures this.agg == agg && this.values == values && result == None
    {
      this.agg := agg;
      this.values := values;
      result := None;
    }

    /**
     * `get_result()`: the same answer as computing afresh; a truthy kept
     * result is returned without calculating again.
     */
    method GetResult() returns (r: Result<Option<Amount>>)
      requires Valid()
      modifies this
      ensures Valid()
      ensures r == Evaluate(agg, values)
      ensures old(result).Some? && Truthy(old(result).value) ==> result == old(result)
      ensures r.Success? && |values| > 0 ==> result == r.value
      ensures r.Failure? || |values| == 0 ==> result == old(result)
    {
      if |values| == 0 {
        return Success(None);
      }
      if result.Some? && Truthy(result.value) {
        return Success(result);
      }
      var c := Calc(agg.kind, values);
      if c.Failure? {
        return Failure(AggregationError(ClassName(agg.kind), agg.key));
      }
      result := Some(c.value);
      r := Success(result);
    }
  }

  /**
   * `count_for(items)`: the loop that collects each item's value under the
   * N/A policy, and the lazy calculation over what remains.
   */
  method CountForItems(a: Aggregate, items: seq<Document>) returns (r: Counted, work: LazyCalculation?)
    ensures r == CountFor(a, items)
    ensures r.Lazy? <==> work != null
    ensures work != null ==> fresh(work) && work.Valid() && work.agg == a && work.values == r.values && work.result == None
  {
    work := null;
    if CountsItems(a) {
      return Number(DistinctItems(items)), null;
    }
    var values: seq<Value> := [];
    for i := 0 to |items|
      invariant a.policy == Reject ==> Null !in Fetched(a.key, items[..i])
      invariant values == Kept(a.policy, Fetched(a.key, items[..i]))
    {
      var v := Field(items[i], a.key);
      FetchedSnoc(a.key, items, i);
      KeptSnoc(a.policy, Fetched(a.key, items[..i]), v);
      if v == Null {
        if a.policy == Reject {
          assert v == Fetched(a.key, items)[i];
          return Rejected, null;
        } else if a.policy == Skip {
          continue;
        }
      }
      values := values + [v];
    }
    assert items[..|items|] == items;
    if |values| > 0 {
      work := new LazyCalculation(a, values);
      r := Lazy(values);
    } else {
      r := NotAvailable;
    }
  }
}
