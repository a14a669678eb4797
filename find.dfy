/**
 * The `find_ids` algorithm shared by dark/storage/memory.py and
 * datashaping/storage/memory.py: each condition is rewritten, answered from
 * the index (directly for exact lookups, by scanning the distinct values of
 * its key otherwise), and the answers are combined into an include set and
 * an exclude set.
 */
module Find {
  import opened Outcomes
  import opened Values
  import opened Lookups
  import opened Index
  import opened Unwrap

  // ------------------------------------------------------------------
  // Dates given as strings (`strptime(value, '%Y-%m-%d')`)

  predicate IsDigit(c: char)
  {
    '0' <= c <= '9'
  }

  predicate AllDigits(s: string)
  {
    forall i :: 0 <= i < |s| ==> IsDigit(s[i])
  }

  /** The decimal number a string of digits spells. */
  function DecimalValue(s: string): nat
    requires AllDigits(s)
  {
    if |s| == 0 then 0
    else 10 * DecimalValue(s[..|s| - 1]) + (s[|s| - 1] as int - '0' as int)
  }

  predicate IsLeapYear(y: int)
  {
    y % 4 == 0 && (y % 100 != 0 || y % 400 == 0)
  }

  function DaysInMonth(y: int, m: int): int
    requires 1 <= m <= 12
  {
    if m == 2 then (if IsLeapYear(y) then 29 else 28)
    else if m == 4 || m == 6 || m == 9 || m == 11 then 30
    else 31
  }

  predicate ValidDate(y: int, m: int, d: int)
  {
    1 <= y <= 9999 && 1 <= m <= 12 && 1 <= d <= DaysInMonth(y, m)
  }

  /**
   * The string-to-date coercion: `YYYY-MM-DD` naming a real calendar day,
   * or None (strptime's ValueError).
   */
  function ParseDate(s: string): (r: Option<Value>)
    ensures r.Some? ==> r.value.Date? && ValidDate(r.value.year, r.value.month, r.value.day)
    ensures r.Some? ==> |s| == 10 && s[4] == '-' && s[7] == '-'
  {
    if |s| == 10 && s[4] == '-' && s[7] == '-'
      && AllDigits(s[..4]) && AllDigits(s[5..7]) && AllDigits(s[8..])
      && ValidDate(DecimalValue(s[..4]), DecimalValue(s[5..7]), DecimalValue(s[8..]))
    then Some(Date(DecimalValue(s[..4]), DecimalValue(s[5..7]), DecimalValue(s[8..])))
    else None
  }

  function Digit(n: nat): char
    requires n < 10
  {
    ('0' as int + n) as char
  }

  /** `n` written with exactly `width` digits, zero-padded. */
  function Padded(n: nat, width: nat): (r: string)
    ensures |r| == width && AllDigits(r)
  {
    if width == 0 then [] else Padded(n / 10, width - 1) + [Digit(n % 10)]
  }

  lemma {:induction false} PaddedValue(n: nat, width: nat)
    requires n < Pow10(width)
    ensures DecimalValue(Padded(n, width)) == n
    decreases width
  {
    if width > 0 {
      var p := Padded(n, width);
      assert p[..width - 1] == Padded(n / 10, width - 1);
      PaddedValue(n / 10, width - 1);
    }
  }

  function Pow10(k: nat): nat
  {
    if k == 0 then 1 else 10 * Pow10(k - 1)
  }

  /** `date.isoformat()`. */
  function FormatDate(y: nat, m: nat, d: nat): string
  {
    Padded(y, 4) + "-" + Padded(m, 2) + "-" + Padded(d, 2)
  }

  /** Every valid date written as `YYYY-MM-DD` is coerced back to that date. */
  lemma ParseFormatDate(y: nat, m: nat, d: nat)
    requires ValidDate(y, m, d)
    ensures ParseDate(FormatDate(y, m, d)) == Some(Date(y, m, d))
  {
    var s := FormatDate(y, m, d);
    assert s[..4] == Padded(y, 4);
    assert s[5..7] == Padded(m, 2);
    assert s[8..] == Padded(d, 2);
    assert Pow10(2) == 100 && Pow10(4) == 10000;
    PaddedValue(y, 4);
    PaddedValue(m, 2);
    PaddedValue(d, 2);
  }

  /**
   * `_get_safe_comparison_value(value, other)`: when the stored value is a
   * date, a string query value is coerced to a date (TypeError when it does
   * not parse); anything else is compared as it is.
   */
  function SafeComparisonValue(value: Value, other: Value): (r: Result<Value>)
    ensures !other.Date? || !value.Str? ==> r == Success(value)
    ensures r.Failure? ==> r.error == TypeError
  {
    if other.Date? && value.Str? then
      match ParseDate(value.s)
      case None => Failure(TypeError)
      case Some(d) => Success(d)
    else Success(value)
  }

  // ------------------------------------------------------------------
  // Rewriting a condition

  /** Python's `b == v` for a bool `b` (True == 1 and False == 0). */
  predicate BoolEquals(b: bool, v: Value)
  {
    v == Bool(b) || v == Int(if b then 1 else 0)
  }

  /** A condition after the rewrites at the top of the loop. */
  datatype Plan = Plan(key: string, t: LookupType, value: Value, negate: bool)

  /**
   * `exact` with None becomes `filled` with False; `not` becomes `exact`
   * with the negation flipped; for `exists` and `filled` the value decides
   * the negation (`negate = negate == value`).
   */
  function Rewrite(c: Criterion): (p: Plan)
    ensures p.key == ResolveLookup(c.lookup).0
    ensures p.t != Not
    ensures ResolveLookup(c.lookup).1 == Not ==> p == Plan(p.key, Exact, c.value, !c.negate)
    ensures ResolveLookup(c.lookup).1 == Exact && c.value == Null ==> p.t == Filled && p.value == Bool(false)
    ensures p.t !in {Exists, Filled} && ResolveLookup(c.lookup).1 != Not ==> p.negate == c.negate
  {
    var (key, t0) := ResolveLookup(c.lookup);
    var t1 := if t0 == Exact && c.value == Null then Filled else t0;
    var v1 := if t0 == Exact && c.value == Null then Bool(false) else c.value;
    var t2 := if t1 == Not then Exact else t1;
    var n2 := if t1 == Not then !c.negate else c.negate;
    var n3 := if t2 == Exists || t2 == Filled then BoolEquals(n2, v1) else n2;
    Plan(key, t2, v1, n3)
  }

  /** `find(k__exists=False)` asks the same as `exclude(k__exists=True)`, and likewise for filled. */
  lemma ExistsDuality(key: string, t: LookupType, negate: bool)
    requires t == Exists || t == Filled
    requires ResolveLookup(key + "__" + TypeName(t)) == (key, t)
    ensures Rewrite(Criterion(key + "__" + TypeName(t), Bool(false), negate))
         == Rewrite(Criterion(key + "__" + TypeName(t), Bool(true), !negate)).(value := Bool(false))
    ensures Rewrite(Criterion(key + "__" + TypeName(t), Bool(false), negate)).negate == !negate
  {
  }

  /** `find(k=None)` is answered as `find(k__filled=False)`, i.e. as excluding filled values. */
  lemma NoneIsNotFilled(key: string, negate: bool)
    requires ResolveLookup(key) == (key, Exact)
    requires ResolveLookup(key + "__filled") == (key, Filled)
    ensures Rewrite(Criterion(key, Null, negate)) == Rewrite(Criterion(key + "__filled", Bool(false), negate))
    ensures Rewrite(Criterion(key, Null, negate)) == Plan(key, Filled, Bool(false), !negate)
  {
  }

  // ------------------------------------------------------------------
  // Answering one condition

  /** The distinct values indexed under `k`, as `values_for(k)` returns them. */
  function IndexedValues(index: Index, k: string): (r: seq<Value>)
    ensures StrictlySorted(r)
    ensures forall v :: v in r <==> k in index && v in index[k]
  {
    SortSet(if k in index then index[k].Keys else {})
  }

  /** `values_for(k)` through the per-key cache: a cached list wins. */
  function ValuesView(index: Index, cache: map<string, seq<Value>>, k: string): seq<Value>
  {
    if k in cache then cache[k] else IndexedValues(index, k)
  }

  /** A cache that only ever gained keys, each holding what `values_for` would have stored. */
  ghost predicate CacheExtends(index: Index, cache: map<string, seq<Value>>, cache': map<string, seq<Value>>)
  {
    (forall k :: k in cache ==> k in cache' && cache'[k] == cache[k])
    && (forall k :: k in cache' && k !in cache ==> cache'[k] == IndexedValues(index, k))
  }

  lemma CacheExtendsView(index: Index, cache: map<string, seq<Value>>, cache': map<string, seq<Value>>, k: string)
    requires CacheExtends(index, cache, cache')
    ensures ValuesView(index, cache', k) == ValuesView(index, cache, k)
  {
  }

  /**
   * The postings of every value in `vals` (scanned in order) for which the
   * lookup holds; the first coercion or predicate error ends the scan.
   */
  function Scan(index: Index, k: string, t: LookupType, value: Value, vals: seq<Value>): Result<seq<nat>>
  {
    if |vals| == 0 then Success([])
    else
      match Scan(index, k, t, value, vals[..|vals| - 1])
      case Failure(e) => Failure(e)
      case Success(found) => ScanOne(index, k, t, value, vals[|vals| - 1], found)
  }

  /** One stored value `o` in the scan: its postings join `found` when the lookup holds. */
  function ScanOne(index: Index, k: string, t: LookupType, value: Value, o: Value, found: seq<nat>): Result<seq<nat>>
  {
    match SafeComparisonValue(value, o)
    case Failure(e) => Failure(e)
    case Success(safe) =>
      match Holds(t, safe, o)
      case Failure(e) => Failure(e)
      case Success(b) => Success(if b then found + Lookup(index, k, o) else found)
  }

  /** The lookup holds between the (coerced) query value and the stored value `o`. */
  predicate Selects(t: LookupType, value: Value, o: Value)
  {
    SafeComparisonValue(value, o).Success? && Holds(t, SafeComparisonValue(value, o).value, o) == Success(true)
  }

  /** `x` is a posting of some value in `vals` that the lookup selects. */
  ghost predicate Hit(index: Index, k: string, t: LookupType, value: Value, vals: seq<Value>, x: nat)
  {
    exists j :: 0 <= j < |vals| && HitAt(index, k, t, value, vals[j], x)
  }

  /** `x` is a posting of `o`, which the lookup selects. */
  ghost predicate HitAt(index: Index, k: string, t: LookupType, value: Value, o: Value, x: nat)
  {
    Selects(t, value, o) && x in Lookup(index, k, o)
  }

  /** A scan finds exactly the postings of the values the lookup selects. */
  lemma {:induction false} ScanMembers(index: Index, k: string, t: LookupType, value: Value, vals: seq<Value>, x: nat)
    requires Scan(index, k, t, value, vals).Success?
    ensures x in Scan(index, k, t, value, vals).value
        <==> exists j :: 0 <= j < |vals| && Selects(t, value, vals[j]) && x in Lookup(index, k, vals[j])
    decreases |vals|
  {
    if |vals| > 0 {
      var n := |vals| - 1;
      var front := vals[..n];
      ScanMembers(index, k, t, value, front, x);
      var found := Scan(index, k, t, value, front).value;
      ScanOneMembers(index, k, t, value, vals[n], found, x);
      HitSnoc(index, k, t, value, vals, x);
    }
  }

  /** A hit in `vals` is a hit in all but its last value, or in the last value. */
  lemma HitSnoc(index: Index, k: string, t: LookupType, value: Value, vals: seq<Value>, x: nat)
    requires |vals| > 0
    ensures Hit(index, k, t, value, vals, x) <==>
      Hit(index, k, t, value, vals[..|vals| - 1], x) || HitAt(index, k, t, value, vals[|vals| - 1], x)
  {
    var n := |vals| - 1;
    if Hit(index, k, t, value, vals, x) {
      HitSplits(index, k, t, value, vals, x);
    }
    if Hit(index, k, t, value, vals[..n], x) {
      HitExtends(index, k, t, value, vals, x);
    }
  }

  /** A hit in `vals` that is not in its last value lies in the rest. */
  lemma HitSplits(index: Index, k: string, t: LookupType, value: Value, vals: seq<Value>, x: nat)
    requires |vals| > 0 && Hit(index, k, t, value, vals, x)
    ensures Hit(index, k, t, value, vals[..|vals| - 1], x) || HitAt(index, k, t, value, vals[|vals| - 1], x)
  {
    var n := |vals| - 1;
    var j: nat :| j < |vals| && HitAt(index, k, t, value, vals[j], x);
    if j < n {
      assert vals[..n][j] == vals[j];
    }
  }

  /** A hit in all but the last value is a hit in `vals`. */
  lemma HitExtends(index: Index, k: string, t: LookupType, value: Value, vals: seq<Value>, x: nat)
    requires |vals| > 0 && Hit(index, k, t, value, vals[..|vals| - 1], x)
    ensures Hit(index, k, t, value, vals, x)
  {
    var n := |vals| - 1;
    var j: nat :| j < n && HitAt(index, k, t, value, vals[..n][j], x);
    assert vals[..n][j] == vals[j];
  }


  /** One step of the scan adds the postings of `o` exactly when the lookup selects it. */
  lemma ScanOneMembers(index: Index, k: string, t: LookupType, value: Value, o: Value, found: seq<nat>, x: nat)
    requires ScanOne(index, k, t, value, o, found).Success?
    ensures x in ScanOne(index, k, t, value, o, found).value
        <==> x in found || (Selects(t, value, o) && x in Lookup(index, k, o))
  {
  }

  /** The ids one rewritten condition finds (`found`). */
  function Found(index: Index, cache: map<string, seq<Value>>, p: Plan): Result<seq<nat>>
  {
    if p.t == Exact then ExactIds(index, p.key, p.value)
    else Scan(index, p.key, p.t, p.value, ValuesView(index, cache, p.key))
  }

  // ------------------------------------------------------------------
  // Combining the answers

  /** One evaluated condition: the set it found and whether it excludes. */
  datatype Answer = Answer(found: set<nat>, negate: bool)

  /** An evaluation stops right after a condition that found nothing. */
  predicate Stopped(answers: seq<Answer>)
  {
    |answers| > 0 && answers[|answers| - 1].found == {}
  }

  /**
   * Evaluating the conditions left to right, stopping at the first one that
   * finds nothing; an error in a condition that is reached is raised.
   */
  function Evaluate(index: Index, cache: map<string, seq<Value>>, conds: seq<Criterion>): Result<seq<Answer>>
  {
    if |conds| == 0 then Success([])
    else
      match Evaluate(index, cache, conds[..|conds| - 1])
      case Failure(e) => Failure(e)
      case Success(answers) =>
        if Stopped(answers) then Success(answers)
        else
          var p := Rewrite(conds[|conds| - 1]);
          match Found(index, cache, p)
          case Failure(e) => Failure(e)
          case Success(found) => Success(answers + [Answer(Members(found), p.negate)])
  }

  /** The running `ids_include` (None until a positive condition) and `ids_exclude`. */
  datatype Acc = Acc(idsInclude: Option<set<nat>>, idsExclude: set<nat>)

  /**
   * One non-empty answer: excluded ids are added to `ids_exclude`; included
   * ids are intersected with `ids_include` while that is non-empty, and
   * replace it when it is None or empty (an empty set is falsy).
   */
  function AddAnswer(acc: Acc, a: Answer): (r: Acc)
    ensures a.negate ==> r == Acc(acc.idsInclude, acc.idsExclude + a.found)
    ensures !a.negate ==> r.idsExclude == acc.idsExclude && r.idsInclude.Some?
    ensures !a.negate && acc.idsInclude.Some? && acc.idsInclude.value != {} ==> r.idsInclude == Some(acc.idsInclude.value * a.found)
    ensures !a.negate && (acc.idsInclude.None? || acc.idsInclude.value == {}) ==> r.idsInclude == Some(a.found)
  {
    if a.negate then Acc(acc.idsInclude, acc.idsExclude + a.found)
    else if acc.idsInclude.Some? && acc.idsInclude.value != {} then Acc(Some(acc.idsInclude.value * a.found), acc.idsExclude)
    else Acc(Some(a.found), acc.idsExclude)
  }

  /** The accumulated sets, or None once some answer was empty (bail out). */
  function Accumulate(answers: seq<Answer>): Option<Acc>
  {
    if |answers| == 0 then Some(Acc(None, {}))
    else
      match Accumulate(answers[..|answers| - 1])
      case None => None
      case Some(acc) =>
        var a := answers[|answers| - 1];
        if a.found == {} then None else Some(AddAnswer(acc, a))
  }

  /** `set(xrange(0, n))`. */
  function Below(n: nat): (r: set<nat>)
    ensures forall x: nat :: x in r <==> x < n
  {
    if n == 0 then {} else Below(n - 1) + {n - 1}
  }

  /** `set(found)`. */
  function Members(s: seq<nat>): (r: set<nat>)
    ensures forall x :: x in r <==> x in s
    ensures r == {} <==> s == []
  {
    if |s| == 0 then {} else
      assert s[0] in Members(s[1..]) + {s[0]};
      Members(s[1..]) + {s[0]}
  }

  /** `ids_include - ids_exclude`, with all positions when nothing was included. */
  function Combine(n: nat, answers: seq<Answer>): set<nat>
  {
    match Accumulate(answers)
    case None => {}
    case Some(acc) => acc.idsInclude.GetOr(Below(n)) - acc.idsExclude
  }

  /** What `find_ids(*conds)` yields, as a set, on a collection of `n` items. */
  function FindSpec(n: nat, index: Index, cache: map<string, seq<Value>>, conds: seq<Criterion>): Result<set<nat>>
  {
    match Evaluate(index, cache, conds)
    case Failure(e) => Failure(e)
    case Success(answers) => Success(Combine(n, answers))
  }

  // ------------------------------------------------------------------
  // Properties of the combination

  lemma {:induction false} StoppedPersists(index: Index, cache: map<string, seq<Value>>, conds: seq<Criterion>, m: nat)
    requires m <= |conds|
    requires Evaluate(index, cache, conds[..m]).Success? && Stopped(Evaluate(index, cache, conds[..m]).value)
    ensures Evaluate(index, cache, conds) == Evaluate(index, cache, conds[..m])
    decreases |conds| - m
  {
    if m < |conds| {
      assert conds[..m + 1][..m] == conds[..m];
      StoppedPersists(index, cache, conds, m + 1);
    } else {
      assert conds[..m] == conds;
    }
  }

  /** Once an answer is empty, the accumulation stays bailed out. */
  lemma {:induction false} AccumulateBails(answers: seq<Answer>, j: nat)
    requires j < |answers| && answers[j].found == {}
    ensures Accumulate(answers) == None
    decreases |answers|
  {
    var n := |answers| - 1;
    if j < n {
      assert answers[..n][j] == answers[j];
      AccumulateBails(answers[..n], j);
    }
  }

  /** If some condition that is reached finds nothing, `find_ids` yields nothing at all. */
  lemma EmptyAnswerEmptiesResult(n: nat, answers: seq<Answer>, j: nat)
    requires j < |answers| && answers[j].found == {}
    ensures Combine(n, answers) == {}
  {
    AccumulateBails(answers, j);
  }

  /** The intersection of the positive answers and the union of the negative ones. */
  function Included(answers: seq<Answer>, n: nat): (r: set<nat>)
  {
    if |answers| == 0 then Below(n)
    else
      var a := answers[|answers| - 1];
      var rest := Included(answers[..|answers| - 1], n);
      if a.negate then rest else rest * a.found
  }

  function Excluded(answers: seq<Answer>): set<nat>
  {
    if |answers| == 0 then {}
    else
      var a := answers[|answers| - 1];
      var rest := Excluded(answers[..|answers| - 1]);
      if a.negate then rest + a.found else rest
  }

  /**
   * The conjunction every condition asks for: positions that every positive
   * answer holds and no negative answer holds.
   */
  function Conjunction(n: nat, answers: seq<Answer>): set<nat>
  {
    Included(answers, n) - Excluded(answers)
  }

  /** The include set was never emptied while more positive answers followed. */
  predicate NeverEmptied(answers: seq<Answer>)
  {
    forall j :: 0 <= j < |answers| ==> Accumulate(answers[..j]).Some? ==>
      Accumulate(answers[..j]).value.idsInclude != Some({})
  }

  lemma {:induction false} AccumulateSets(answers: seq<Answer>, n: nat)
    requires Accumulate(answers).Some?
    requires forall j :: 0 <= j < |answers| ==> answers[j].found <= Below(n)
    ensures Accumulate(answers).value.idsExclude == Excluded(answers)
    ensures Included(answers, n) <= Accumulate(answers).value.idsInclude.GetOr(Below(n))
    ensures Accumulate(answers).value.idsInclude.None? ==> Included(answers, n) == Below(n)
    ensures NeverEmptied(answers) ==> Included(answers, n) == Accumulate(answers).value.idsInclude.GetOr(Below(n))
    decreases |answers|
  {
    if |answers| > 0 {
      var m := |answers| - 1;
      var prefix := answers[..m];
      assert forall j :: 0 <= j < |prefix| ==> prefix[j] == answers[j];
      AccumulateSets(prefix, n);
      if NeverEmptied(answers) {
        assert NeverEmptied(prefix) by {
          forall j | 0 <= j < |prefix| && Accumulate(prefix[..j]).Some?
            ensures Accumulate(prefix[..j]).value.idsInclude != Some({})
          {
            assert prefix[..j] == answers[..j];
          }
        }
        assert answers[..m] == prefix;
      }
    }
  }

  /**
   * On every input the result contains the conjunction of the conditions
   * (restarting the include set only ever widens it), and equals it when
   * no condition found nothing and the include set never became empty
   * before the last condition.
   */
  lemma CombineVersusConjunction(n: nat, answers: seq<Answer>)
    requires forall j :: 0 <= j < |answers| ==> answers[j].found <= Below(n)
    requires forall j :: 0 <= j < |answers| ==> answers[j].found != {}
    ensures Conjunction(n, answers) <= Combine(n, answers)
    ensures NeverEmptied(answers) ==> Combine(n, answers) == Conjunction(n, answers)
  {
    AccumulateNoBail(answers);
    AccumulateSets(answers, n);
  }

  lemma {:induction false} AccumulateNoBail(answers: seq<Answer>)
    requires forall j :: 0 <= j < |answers| ==> answers[j].found != {}
    ensures Accumulate(answers).Some?
    decreases |answers|
  {
    if |answers| > 0 {
      var m := |answers| - 1;
      assert forall j :: 0 <= j < m ==> answers[..m][j] == answers[j];
      AccumulateNoBail(answers[..m]);
    }
  }

  /**
   * The restart in action: three positive conditions finding {0}, {1} and
   * {0, 1} yield {0, 1} although no position satisfies all three.
   */
  lemma IncludeRestarts()
    ensures Combine(2, [Answer({0}, false), Answer({1}, false), Answer({0, 1}, false)]) == {0, 1}
    ensures Conjunction(2, [Answer({0}, false), Answer({1}, false), Answer({0, 1}, false)]) == {}
  {
    var a := [Answer({0}, false), Answer({1}, false), Answer({0, 1}, false)];
    assert a[..2][..1] == [Answer({0}, false)];
    assert a[..2] == [Answer({0}, false), Answer({1}, false)];
    assert Accumulate(a[..2][..1]) == Some(Acc(Some({0}), {}));
    assert {0} * {1} == {};
    assert Included(a[..2][..1], 2) == {0};
    assert Included(a, 2) == {};
  }

  /**
   * An exclusion that matches nothing also bails out: `find(a=1).exclude(b=9)`
   * yields nothing when no item has b == 9.
   */
  lemma UnmatchedExclusionEmpties()
    ensures Combine(2, [Answer({0}, false), Answer({}, true)]) == {}
    ensures Conjunction(2, [Answer({0}, false), Answer({}, true)]) == {0}
  {
    var a := [Answer({0}, false), Answer({}, true)];
    assert a[..1] == [Answer({0}, false)];
    assert a[..1][..0] == [];
    assert 0 in Below(2);
    assert Below(2) * {0} == {0};
    assert Included(a[..1], 2) == {0};
    assert Excluded(a[..1]) == {};
  }

  /** Exclusions alone start from every position, including deleted ones. */
  lemma ExclusionsStartFromAll(n: nat, found: set<nat>)
    requires found != {}
    ensures Combine(n, [Answer(found, true)]) == Below(n) - found
  {
    var a := [Answer(found, true)];
    assert a[..0] == [];
    assert Accumulate(a) == Some(Acc(None, {} + found));
    assert {} + found == found;
  }

  // ------------------------------------------------------------------
  // Meaning of an answer on a consistent index

  /**
   * On an index consistent with the items' pairs, an exact lookup finds
   * exactly the positions whose item holds the pair.
   */
  lemma ExactFinds(index: Index, items: seq<multiset<Pair>>, cache: map<string, seq<Value>>, p: Plan, x: nat)
    requires Consistent(index, items)
    requires p.t == Exact
    ensures Found(index, cache, p) == Failure(TypeError) <==> !IsScalar(p.value)
    ensures Found(index, cache, p).Success? ==>
      (x in Found(index, cache, p).value <==> x < |items| && Count(items[x], p.key, p.value) > 0)
  {
    PostingsMembership(items, p.key, p.value, x);
  }

  /**
   * On a consistent index with an up-to-date cache, a scanning lookup finds
   * exactly the positions whose item holds some value of the key that the
   * lookup selects.
   */
  lemma ScanFinds(index: Index, items: seq<multiset<Pair>>, cache: map<string, seq<Value>>, p: Plan, x: nat)
    requires Consistent(index, items)
    requires p.key !in cache
    requires p.t != Exact && Found(index, cache, p).Success?
    ensures x in Found(index, cache, p).value
        <==> x < |items| && exists o :: Selects(p.t, p.value, o) && Count(items[x], p.key, o) > 0
  {
    var vals := IndexedValues(index, p.key);
    ScanMembers(index, p.key, p.t, p.value, vals, x);
    if exists j :: 0 <= j < |vals| && Selects(p.t, p.value, vals[j]) && x in Lookup(index, p.key, vals[j]) {
      ItemOfHit(index, items, p.key, p.t, p.value, x);
    }
    if x < |items| && exists o :: Selects(p.t, p.value, o) && Count(items[x], p.key, o) > 0 {
      HitOfItem(index, items, p.key, p.t, p.value, x);
    }
  }

  /** A position posted under a selected indexed value is an item indexed under it. */
  lemma ItemOfHit(index: Index, items: seq<multiset<Pair>>, k: string, t: LookupType, value: Value, x: nat)
    requires Consistent(index, items)
    requires exists j :: 0 <= j < |IndexedValues(index, k)| && Selects(t, value, IndexedValues(index, k)[j])
                         && x in Lookup(index, k, IndexedValues(index, k)[j])
    ensures x < |items| && exists o :: Selects(t, value, o) && Count(items[x], k, o) > 0
  {
    var vals := IndexedValues(index, k);
    var j :| 0 <= j < |vals| && Selects(t, value, vals[j]) && x in Lookup(index, k, vals[j]);
    PostingsMembership(items, k, vals[j], x);
  }

  /** An item indexed under a selected value is posted under that indexed value. */
  lemma HitOfItem(index: Index, items: seq<multiset<Pair>>, k: string, t: LookupType, value: Value, x: nat)
    requires Consistent(index, items)
    requires x < |items| && exists o :: Selects(t, value, o) && Count(items[x], k, o) > 0
    ensures exists j :: 0 <= j < |IndexedValues(index, k)| && Selects(t, value, IndexedValues(index, k)[j])
                        && x in Lookup(index, k, IndexedValues(index, k)[j])
  {
    var vals := IndexedValues(index, k);
    var o :| Selects(t, value, o) && Count(items[x], k, o) > 0;
    PostingsMembership(items, k, o, x);
    assert o in vals;
    var j :| 0 <= j < |vals| && vals[j] == o;
  }

  // ------------------------------------------------------------------
  // The algorithm

  /** Positions below `n` that are in `s`, in ascending order. */
  function Ascending(s: set<nat>, n: nat): (r: seq<nat>)
    ensures forall x :: x in r <==> x in s && x < n
    ensures forall i, j :: 0 <= i < j < |r| ==> r[i] < r[j]
  {
    if n == 0 then []
    else
      var prev := Ascending(s, n - 1);
      assert forall i :: 0 <= i < |prev| ==> prev[i] < n - 1 by {
        forall i | 0 <= i < |prev| ensures prev[i] < n - 1 {
          assert prev[i] in prev;
        }
      }
      prev + (if n - 1 in s then [n - 1] else [])
  }

  /** Enumerating a set of positions in ascending order (`iter(set)` on small ints). */
  method Enumerate(s: set<nat>, n: nat) returns (r: seq<nat>)
    ensures r == Ascending(s, n)
  {
    r := [];
    var i := 0;
    while i < n
      invariant 0 <= i <= n
      invariant r == Ascending(s, i)
    {
      if i in s {
        r := r + [i];
      }
      i := i + 1;
    }
  }

  /**
   * `values_for(key)` without a filter: the cached list, or the sorted
   * distinct indexed values, which are then cached.
   */
  method CachedValues(index: Index, cache: map<string, seq<Value>>, key: string)
    returns (vals: seq<Value>, cache': map<string, seq<Value>>)
    ensures vals == ValuesView(index, cache, key)
    ensures key in cache' && CacheExtends(index, cache, cache')
    ensures key in cache ==> cache' == cache
    ensures cache' == cache[key := vals]
  {
    if key in cache {
      vals, cache' := cache[key], cache;
    } else {
      vals := IndexedValues(index, key);
      cache' := cache[key := vals];
    }
  }

  /** The scan over the distinct values of a key (the inner loop of `find_ids`). */
  method ScanValues(index: Index, key: string, t: LookupType, value: Value, vals: seq<Value>)
    returns (r: Result<seq<nat>>)
    ensures r == Scan(index, key, t, value, vals)
  {
    var found: seq<nat> := [];
    var j := 0;
    while j < |vals|
      invariant 0 <= j <= |vals|
      invariant Scan(index, key, t, value, vals[..j]) == Success(found)
    {
      var step := ScanOne(index, key, t, value, vals[j], found);
      ScanSnoc(index, key, t, value, vals, j);
      if step.Failure? {
        StopsScan(index, key, t, value, vals, j + 1);
        return step;
      }
      found := step.value;
      j := j + 1;
    }
    assert vals[..j] == vals;
    r := Success(found);
  }

  /** One more value of the scan. */
  lemma ScanSnoc(index: Index, key: string, t: LookupType, value: Value, vals: seq<Value>, j: nat)
    requires j < |vals| && Scan(index, key, t, value, vals[..j]).Success?
    ensures Scan(index, key, t, value, vals[..j + 1]) ==
      ScanOne(index, key, t, value, vals[j], Scan(index, key, t, value, vals[..j]).value)
  {
    assert vals[..j + 1][..j] == vals[..j];
  }

  lemma {:induction false} StopsScan(index: Index, key: string, t: LookupType, value: Value, vals: seq<Value>, m: nat)
    requires m <= |vals| && Scan(index, key, t, value, vals[..m]).Failure?
    ensures Scan(index, key, t, value, vals) == Scan(index, key, t, value, vals[..m])
    decreases |vals| - m
  {
    if m < |vals| {
      assert vals[..m + 1][..m] == vals[..m];
      StopsScan(index, key, t, value, vals, m + 1);
    } else {
      assert vals[..m] == vals;
    }
  }

  lemma {:induction false} StopsEvaluate(index: Index, cache: map<string, seq<Value>>, conds: seq<Criterion>, m: nat)
    requires m <= |conds| && Evaluate(index, cache, conds[..m]).Failure?
    ensures Evaluate(index, cache, conds) == Evaluate(index, cache, conds[..m])
    decreases |conds| - m
  {
    if m < |conds| {
      assert conds[..m + 1][..m] == conds[..m];
      StopsEvaluate(index, cache, conds, m + 1);
    } else {
      assert conds[..m] == conds;
    }
  }

  /** Evaluating one more condition, after conditions that all found something. */
  lemma EvaluateSnoc(index: Index, cache: map<string, seq<Value>>, conds: seq<Criterion>, i: nat, answers: seq<Answer>, r: Result<seq<nat>>)
    requires i < |conds|
    requires Evaluate(index, cache, conds[..i]) == Success(answers) && !Stopped(answers)
    requires r == Found(index, cache, Rewrite(conds[i]))
    ensures r.Failure? ==> Evaluate(index, cache, conds[..i + 1]) == Failure(r.error)
    ensures r.Success? ==> Evaluate(index, cache, conds[..i + 1]) == Success(answers + [Answer(Members(r.value), Rewrite(conds[i]).negate)])
  {
    assert conds[..i + 1][..i] == conds[..i];
  }

  lemma AccumulateSnoc(answers: seq<Answer>, a: Answer, acc: Acc)
    requires Accumulate(answers) == Some(acc)
    ensures a.found == {} ==> Accumulate(answers + [a]) == None
    ensures a.found != {} ==> Accumulate(answers + [a]) == Some(AddAnswer(acc, a))
  {
    assert (answers + [a])[..|answers|] == answers;
  }

  /** `found` for one rewritten condition, reading values through the cache. */
  method AnswerCondition(index: Index, ghost cache: map<string, seq<Value>>, current: map<string, seq<Value>>, p: Plan)
    returns (r: Result<seq<nat>>, cache': map<string, seq<Value>>)
    requires CacheExtends(index, cache, current)
    ensures r == Found(index, cache, p)
    ensures CacheExtends(index, cache, cache')
  {
    if p.t == Exact {
      r, cache' := ExactIds(index, p.key, p.value), current;
    } else {
      var vals;
      vals, cache' := CachedValues(index, current, p.key);
      CacheExtendsView(index, cache, current, p.key);
      r := ScanValues(index, p.key, p.t, p.value, vals);
    }
  }

  /**
   * One pass of the condition loop: answer condition `i` and fold it into
   * the running sets; Success(None) is the bail-out on an empty answer.
   */
  method ConsiderCondition(index: Index, ghost cache: map<string, seq<Value>>, current: map<string, seq<Value>>,
                           conds: seq<Criterion>, i: nat, ghost answers: seq<Answer>, acc: Acc)
    returns (res: Result<Option<Acc>>, cache': map<string, seq<Value>>, ghost answers': seq<Answer>)
    requires i < |conds| && CacheExtends(index, cache, current)
    requires Evaluate(index, cache, conds[..i]) == Success(answers) && !Stopped(answers)
    requires Accumulate(answers) == Some(acc)
    ensures CacheExtends(index, cache, cache')
    ensures res.Failure? ==> Evaluate(index, cache, conds[..i + 1]) == Failure(res.error)
    ensures res.Success? ==> Evaluate(index, cache, conds[..i + 1]) == Success(answers')
    ensures res == Success(None) ==> Stopped(answers') && Accumulate(answers') == None
    ensures res.Success? && res.value.Some? ==> !Stopped(answers') && Accumulate(answers') == res.value
  {
    var p := Rewrite(conds[i]);
    var found;
    found, cache' := AnswerCondition(index, cache, current, p);
    EvaluateSnoc(index, cache, conds, i, answers, found);
    if found.Failure? {
      return Failure(found.error), cache', answers;
    }
    var a := Answer(Members(found.value), p.negate);
    AccumulateSnoc(answers, a, acc);
    answers' := answers + [a];
    if found.value == [] {
      return Success(None), cache', answers';
    }
    if p.negate {
      res := Success(Some(Acc(acc.idsInclude, acc.idsExclude + a.found)));
    } else if acc.idsInclude.Some? && acc.idsInclude.value != {} {
      res := Success(Some(Acc(Some(acc.idsInclude.value * a.found), acc.idsExclude)));
    } else {
      res := Success(Some(Acc(Some(a.found), acc.idsExclude)));
    }
  }

  /** An error in a condition reached is what the whole search gives. */
  lemma FindFails(n: nat, index: Index, cache: map<string, seq<Value>>, conds: seq<Criterion>, m: nat, e: Error)
    requires m <= |conds| && Evaluate(index, cache, conds[..m]) == Failure(e)
    ensures FindSpec(n, index, cache, conds) == Failure(e)
  {
    StopsEvaluate(index, cache, conds, m);
  }

  /** A condition that finds nothing makes the whole search find nothing. */
  lemma FindStops(n: nat, index: Index, cache: map<string, seq<Value>>, conds: seq<Criterion>, m: nat, answers: seq<Answer>)
    requires m <= |conds| && Evaluate(index, cache, conds[..m]) == Success(answers)
    requires Stopped(answers) && Accumulate(answers) == None
    ensures FindSpec(n, index, cache, conds) == Success({})
  {
    StoppedPersists(index, cache, conds, m);
  }

  /**
   * An exact (or `not`) condition whose value is a list or a dict, once
   * reached, makes the whole search raise TypeError: `ids_by` hashes it.
   */
  lemma UnhashableExactFails(n: nat, index: Index, cache: map<string, seq<Value>>, conds: seq<Criterion>, m: nat, answers: seq<Answer>)
    requires m < |conds| && Evaluate(index, cache, conds[..m]) == Success(answers) && !Stopped(answers)
    requires Rewrite(conds[m]).t == Exact && !IsScalar(Rewrite(conds[m]).value)
    ensures FindSpec(n, index, cache, conds) == Failure(TypeError)
  {
    EvaluateSnoc(index, cache, conds, m, answers, Found(index, cache, Rewrite(conds[m])));
    FindFails(n, index, cache, conds, m + 1, TypeError);
  }

  /**
   * One pass of the condition loop, with the search's outcome when it
   * stops there: the error raised, or nothing found.
   */
  method FindStep(n: nat, index: Index, ghost cache: map<string, seq<Value>>, current: map<string, seq<Value>>,
                  conds: seq<Criterion>, i: nat, ghost answers: seq<Answer>, acc: Acc)
    returns (stop: Option<Result<set<nat>>>, cache': map<string, seq<Value>>, ghost answers': seq<Answer>, acc': Acc)
    requires i < |conds| && CacheExtends(index, cache, current)
    requires Evaluate(index, cache, conds[..i]) == Success(answers) && !Stopped(answers)
    requires Accumulate(answers) == Some(acc)
    ensures CacheExtends(index, cache, cache')
    ensures stop.None? ==> Evaluate(index, cache, conds[..i + 1]) == Success(answers') && !Stopped(answers')
    ensures stop.None? ==> Accumulate(answers') == Some(acc')
    ensures stop.Some? ==> stop.value == FindSpec(n, index, cache, conds)
  {
    var res;
    res, cache', answers' := ConsiderCondition(index, cache, current, conds, i, answers, acc);
    acc' := acc;
    if res.Failure? {
      FindFails(n, index, cache, conds, i + 1, res.error);
      stop := Some(Failure(res.error));
    } else if res.value.None? {
      FindStops(n, index, cache, conds, i + 1, answers');
      stop := Some(Success({}));
    } else {
      stop := None;
      acc' := res.value.value;
    }
  }

  /**
   * The condition loop of `find_ids` on a collection of `n` items: returns
   * what the conditions select and the values cache as `values_for` left it.
   */
  method FindIdsIn(n: nat, index: Index, cache: map<string, seq<Value>>, conds: seq<Criterion>)
    returns (r: Result<set<nat>>, cache': map<string, seq<Value>>)
    ensures r == FindSpec(n, index, cache, conds)
    ensures CacheExtends(index, cache, cache')
  {
    var acc := Acc(None, {});
    ghost var answers: seq<Answer> := [];
    cache' := cache;
    var stop: Option<Result<set<nat>>> := None;
    var i := 0;
    while i < |conds| && stop.None?
      invariant 0 <= i <= |conds|
      invariant CacheExtends(index, cache, cache')
      invariant stop.None? ==> Evaluate(index, cache, conds[..i]) == Success(answers) && !Stopped(answers)
      invariant stop.None? ==> Accumulate(answers) == Some(acc)
      invariant stop.Some? ==> stop.value == FindSpec(n, index, cache, conds)
      decreases |conds| - i
    {
      stop, cache', answers, acc := FindStep(n, index, cache, cache', conds, i, answers, acc);
      i := i + 1;
    }
    if stop.Some? {
      return stop.value, cache';
    }
    assert conds[..i] == conds;
    r := Success(acc.idsInclude.GetOr(Below(n)) - acc.idsExclude);
  }
}
