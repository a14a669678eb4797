/**
 * Lookup conditions (datashaping/storage/base.py): how a lookup such as
 * `pubdate__year` or `person__age__gt` is split into an index key and a
 * lookup type, and the predicate each lookup type applies to a stored value.
 */
module Lookups {
  import opened Outcomes
  import opened Values
  import opened Strings

  /** The keys of LOOKUP_TYPES. */
  datatype LookupType =
    | Exact | Not | Gt | Lt | Gte | Lte | In | Contains
    | Filled | Exists | Year | Month | Day | WeekDay

  function TypeName(t: LookupType): string
  {
    match t
    case Exact => "exact"
    case Not => "not"
    case Gt => "gt"
    case Lt => "lt"
    case Gte => "gte"
    case Lte => "lte"
    case In => "in"
    case Contains => "contains"
    case Filled => "filled"
    case Exists => "exists"
    case Year => "year"
    case Month => "month"
    case Day => "day"
    case WeekDay => "week_day"
  }

  /** `name in LOOKUP_TYPES`, and which type it names. */
  function ParseType(name: string): (r: Option<LookupType>)
    ensures r.Some? ==> TypeName(r.value) == name
  {
    if name == "exact" then Some(Exact)
    else if name == "not" then Some(Not)
    else if name == "gt" then Some(Gt)
    else if name == "lt" then Some(Lt)
    else if name == "gte" then Some(Gte)
    else if name == "lte" then Some(Lte)
    else if name == "in" then Some(In)
    else if name == "contains" then Some(Contains)
    else if name == "filled" then Some(Filled)
    else if name == "exists" then Some(Exists)
    else if name == "year" then Some(Year)
    else if name == "month" then Some(Month)
    else if name == "day" then Some(Day)
    else if name == "week_day" then Some(WeekDay)
    else None
  }

  /** Every lookup type is recognised by its own name. */
  lemma ParseTypeName(t: LookupType)
    ensures ParseType(TypeName(t)) == Some(t)
  {
  }

  lemma TypeNameUndelimited(t: LookupType)
    ensures !HasDelim(TypeName(t))
  {
    var n := TypeName(t);
    forall i | 0 <= i < |n| ensures !DelimAt(n, i) {
      if t == WeekDay {
        assert n == ['w', 'e', 'e', 'k', '_', 'd', 'a', 'y'];
      }
    }
  }

  /**
   * `_resolve_lookup`: split the lookup on "__"; when there is more than one
   * part and the last part names a lookup type, that part is the type and
   * the rest, joined again, is the key; otherwise the whole lookup is the
   * key and the type is "exact".
   */
  function ResolveLookup(lookup: string): (r: (string, LookupType))
    ensures r.1 != Exact ==> r.0 + Delimiter + TypeName(r.1) == lookup
    ensures r.1 == Exact ==> r.0 == lookup || r.0 + Delimiter + "exact" == lookup
  {
    var parts := Split(lookup);
    var n := |parts|;
    if n > 1 && ParseType(parts[n - 1]).Some? then
      var t := ParseType(parts[n - 1]).value;
      assert Join(parts[..n - 1]) + Delimiter + TypeName(t) == lookup by {
        JoinSnoc(parts);
        JoinSplit(lookup);
      }
      (Join(parts[..n - 1]), t)
    else
      (lookup, Exact)
  }

  /**
   * Composing a key with a type name resolves back to that key and type,
   * for every key that does not end with an underscore (a key ending in "_"
   * moves the first "__" one character to the left).
   */
  lemma ResolveCompose(key: string, t: LookupType)
    requires !EndsWithUnderscore(key)
    ensures ResolveLookup(key + Delimiter + TypeName(t)) == (key, t)
  {
    TypeNameUndelimited(t);
    SplitAppend(key, TypeName(t));
    var parts := Split(key + Delimiter + TypeName(t));
    assert parts[..|parts| - 1] == Split(key);
    JoinSplit(key);
    ParseTypeName(t);
  }

  /**
   * A key ending in "_" does not survive the composition: `a___gt` splits
   * as `a` and `_gt`, so the whole lookup becomes an exact key.
   */
  lemma ResolveComposeUnderscore()
    ensures ResolveLookup("a_" + Delimiter + "gt") == ("a_" + Delimiter + "gt", Exact)
  {
    var s := "a_" + Delimiter + "gt";
    assert s == ['a', '_', '_', '_', 'g', 't'];
    assert FirstDelim(s) == Some(1);
    assert s[3..] == ['_', 'g', 't'];
    assert FirstDelim(s[3..]).None? by {
      assert !DelimAt(s[3..], 0) && !DelimAt(s[3..], 1) && !DelimAt(s[3..], 2);
    }
    assert Split(s[3..]) == [s[3..]];
    assert s[..1] == "a";
    assert Split(s) == [s[..1]] + Split(s[3..]);
    assert Split(s) == ["a", "_gt"];
    assert ParseType("_gt").None?;
  }

  // ------------------------------------------------------------------
  // The predicates of LOOKUP_TYPES

  /** `date.weekday()`: Monday is 0, Sunday is 6 (proleptic Gregorian). */
  function Weekday(year: int, month: int, day: int): (r: int)
    ensures 0 <= r < 7
  {
    var y := if month <= 2 then year - 1 else year;
    var era := y / 400;
    var yoe := y - era * 400;
    var mp := (month + 9) % 12;
    var doy := (153 * mp + 2) / 5 + day - 1;
    var doe := yoe * 365 + yoe / 4 - yoe / 100 + doy;
    var days := era * 146097 + doe - 719468;
    (days + 3) % 7
  }

  /** `t` occurs in `s` starting at position `i`. */
  predicate OccursAt(t: string, s: string, i: int)
  {
    0 <= i <= |s| - |t| && s[i..i + |t|] == t
  }

  /** `t in s` for two strings. */
  predicate IsSubstring(t: string, s: string)
  {
    exists i :: 0 <= i <= |s| && OccursAt(t, s, i)
  }

  /**
   * Python's `x in container`: list membership, substring test, dict key
   * membership; a TypeError for containers that are not iterable and for a
   * non-string probe of a string or an unhashable probe of a dict.
   */
  function Member(x: Value, container: Value): (r: Result<bool>)
    ensures container.List? ==> r == Success(x in container.items)
    ensures container.Str? ==> (r.Success? <==> x.Str?)
    ensures container.Str? && x.Str? ==> r == Success(IsSubstring(x.s, container.s))
    ensures container.Map? ==> (r.Success? <==> IsScalar(x))
    ensures container.Map? && r.Success? ==>
      (r.value <==> exists i :: 0 <= i < |container.entries| && x == Str(container.entries[i].key))
    ensures IsScalar(container) && !container.Str? ==> r == Failure(TypeError)
    ensures r.Failure? ==> r.error == TypeError
  {
    match container
    case List(items) => Success(x in items)
    case Str(s) => if x.Str? then Success(IsSubstring(x.s, s)) else Failure(TypeError)
    case Map(entries) =>
      if x.List? || x.Map? then Failure(TypeError)
      else Success(exists i :: 0 <= i < |entries| && x == Str(entries[i].key))
    case _ => Failure(TypeError)
  }

  /**
   * The predicate of a lookup type, applied to the lookup's value and a
   * stored value `other`.  Date parts of a non-date raise AttributeError.
   */
  function Holds(t: LookupType, value: Value, other: Value): (r: Result<bool>)
    ensures t in {Exact, Not, Gt, Lt, Gte, Lte, Filled, Exists} ==> r.Success?
    ensures t == Exact ==> (r.value <==> value == other)
    ensures t == Not ==> (r.value <==> value != other)
    ensures t == Filled ==> r == Success(other != Null)
    ensures t == Exists ==> r == Success(true)
    ensures t == Gt ==> r == Success(Less(value, other))
    ensures t == Lt ==> r == Success(Less(other, value))
    ensures t == Gte ==> (r.value <==> Less(value, other) || value == other)
    ensures t == Lte ==> (r.value <==> Less(other, value) || value == other)
    ensures t == In ==> r == Member(other, value)
    ensures t == Contains ==> r == Member(value, other)
    ensures t in {Year, Month, Day, WeekDay} ==> (r.Success? <==> other.Date?)
    ensures t in {Year, Month, Day, WeekDay} && r.Failure? ==> r.error == AttributeError
    ensures t == Year && other.Date? ==> r == Success(value == Int(other.year))
    ensures t == Month && other.Date? ==> r == Success(value == Int(other.month))
    ensures t == Day && other.Date? ==> r == Success(value == Int(other.day))
    ensures t == WeekDay && other.Date? ==> r == Success(value == Int(Weekday(other.year, other.month, other.day)))
  {
    match t
    case Exact => Success(value == other)
    case Not => Success(value != other)
    case Gt => Success(Less(value, other))
    case Lt => Success(Less(other, value))
    case Gte => Success(LessEq(value, other))
    case Lte => Success(LessEq(other, value))
    case In => Member(other, value)
    case Contains => Member(value, other)
    case Filled => Success(other != Null)
    case Exists => Success(true)
    case Year => if other.Date? then Success(value == Int(other.year)) else Failure(AttributeError)
    case Month => if other.Date? then Success(value == Int(other.month)) else Failure(AttributeError)
    case Day => if other.Date? then Success(value == Int(other.day)) else Failure(AttributeError)
    case WeekDay =>
      if other.Date? then Success(value == Int(Weekday(other.year, other.month, other.day)))
      else Failure(AttributeError)
  }

  /** gt and lt are mirror images; gte is gt or equality. */
  lemma OrderLookupsMirror(value: Value, other: Value)
    ensures Holds(Gt, value, other) == Holds(Lt, other, value)
    ensures Holds(Gte, value, other).value <==> (Holds(Gt, value, other).value || Holds(Exact, value, other).value)
    ensures !(Holds(Gt, value, other).value && Holds(Lt, value, other).value)
  {
    if Less(value, other) {
      LessAsymmetric(value, other);
    }
  }

  /**
   * `not` is the negation of `exact`; `in` and `contains` test membership
   * in opposite directions; `lte` is `gte` with the operands swapped.
   */
  lemma LookupDualities(value: Value, other: Value)
    ensures Holds(Not, value, other).value == !Holds(Exact, value, other).value
    ensures Holds(In, value, other) == Holds(Contains, other, value)
    ensures Holds(Lte, value, other) == Holds(Gte, other, value)
  {
  }

  /**
   * A string contains itself and the empty string, so `contains` with the
   * stored string itself, or with "", always holds for a string.
   */
  lemma ContainsItself(s: string)
    ensures Holds(Contains, Str(s), Str(s)) == Success(true)
    ensures Holds(Contains, Str(""), Str(s)) == Success(true)
  {
    assert s[0..|s|] == s;
    assert OccursAt(s, s, 0);
    assert s[0..0] == "";
    assert OccursAt("", s, 0);
  }

  /** A lookup as passed to find/exclude: `Condition(lookup, value, negate)`. */
  datatype Criterion = Criterion(lookup: string, value: Value, negate: bool)

  /** The criteria of `find(**kw)` (negate False) or `exclude(**kw)` (negate True). */
  function Criteria(kw: seq<Entry>, negate: bool): (r: seq<Criterion>)
    ensures |r| == |kw|
    ensures forall i :: 0 <= i < |kw| ==> r[i] == Criterion(kw[i].key, kw[i].val, negate)
  {
    seq(|kw|, i requires 0 <= i < |kw| => Criterion(kw[i].key, kw[i].val, negate))
  }

  /**
   * The Condition object: the key and lookup type are resolved on first
   * access and then kept (re-resolved while the kept key is empty, because
   * an empty string is falsy).
   */
  class Condition {
    const lookup: string
    const value: Value
    const negate: bool
    var resolvedKey: Option<string>
    var resolvedType: Option<LookupType>

    ghost predicate Valid()
      reads this
    {
      (resolvedKey.Some? ==> resolvedKey.value == ResolveLookup(lookup).0 && resolvedType == Some(ResolveLookup(lookup).1))
      && (resolvedType.Some? ==> resolvedKey.Some?)
    }

    constructor (lookup: string, value: Value, negate: bool)
      ensures Valid()
      ensures this.lookup == lookup && this.value == value && this.negate == negate
      ensures resolvedKey == None && resolvedType == None
    {
      this.lookup := lookup;
      this.value := value;
      this.negate := negate;
      resolvedKey := None;
      resolvedType := None;
    }

    function AsCriterion(): Criterion
    {
      Criterion(lookup, value, negate)
    }

    method ResolveLookupNow()
      modifies this
      ensures Valid() && resolvedKey.Some?
    {
      var r := ResolveLookup(lookup);
      resolvedKey := Some(r.0);
      resolvedType := Some(r.1);
    }

    /** The `key` property. */
    method Key() returns (k: string)
      requires Valid()
      modifies this
      ensures Valid() && resolvedKey.Some?
      ensures k == ResolveLookup(lookup).0
      ensures old(resolvedKey).Some? && old(resolvedKey).value != "" ==> resolvedKey == old(resolvedKey)
    {
      if resolvedKey.None? || resolvedKey.value == "" {
        ResolveLookupNow();
      }
      k := resolvedKey.value;
    }

    /** The `lookup_type` property. */
    method Type() returns (t: LookupType)
      requires Valid()
      modifies this
      ensures Valid() && resolvedType.Some?
      ensures t == ResolveLookup(lookup).1
    {
      if resolvedType.None? {
        ResolveLookupNow();
      }
      t := resolvedType.value;
    }
  }
}
