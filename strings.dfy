/**
 * Splitting and joining on the lookup delimiter "__", with the semantics of
 * Python's `str.split(sep)` / `sep.join(parts)`: occurrences are found left
 * to right and do not overlap.
 */
module Strings {
  import opened Outcomes

  const Delimiter: string := "__"

  /** `s` has a delimiter starting at position `i`. */
  predicate DelimAt(s: string, i: int)
  {
    0 <= i && i + 2 <= |s| && s[i] == '_' && s[i + 1] == '_'
  }

  predicate HasDelim(s: string)
  {
    exists i :: 0 <= i < |s| && DelimAt(s, i)
  }

  predicate EndsWithUnderscore(s: string)
  {
    |s| > 0 && s[|s| - 1] == '_'
  }

  /** The position of the leftmost delimiter, if any. */
  function FirstDelim(s: string): (r: Option<nat>)
    ensures r.Some? ==> DelimAt(s, r.value) && forall j :: 0 <= j < r.value ==> !DelimAt(s, j)
    ensures r.None? ==> !HasDelim(s)
  {
    if |s| < 2 then None
    else if s[0] == '_' && s[1] == '_' then Some(0)
    else
      match FirstDelim(s[1..])
      case None =>
        assert !HasDelim(s) by {
          forall i | 0 < i < |s| ensures !DelimAt(s, i) {
            assert DelimAt(s, i) ==> DelimAt(s[1..], i - 1);
          }
        }
        None
      case Some(k) =>
        assert forall j :: 0 < j < k + 1 ==> !DelimAt(s, j) by {
          forall j | 0 < j < k + 1 ensures !DelimAt(s, j) {
            assert DelimAt(s, j) ==> DelimAt(s[1..], j - 1);
          }
        }
        Some(k + 1)
  }

  /** `s.split("__")`. */
  function Split(s: string): (parts: seq<string>)
    ensures |parts| >= 1
    ensures forall i :: 0 <= i < |parts| ==> !HasDelim(parts[i])
    decreases |s|
  {
    match FirstDelim(s)
    case None => [s]
    case Some(i) =>
      assert !HasDelim(s[..i]) by {
        forall j | 0 <= j < i ensures !DelimAt(s[..i], j) {
          assert DelimAt(s[..i], j) ==> DelimAt(s, j);
        }
      }
      [s[..i]] + Split(s[i + 2..])
  }

  /** `"__".join(parts)`. */
  function Join(parts: seq<string>): string
  {
    if |parts| == 0 then ""
    else if |parts| == 1 then parts[0]
    else parts[0] + Delimiter + Join(parts[1..])
  }

  /** Splitting and joining again gives back the string. */
  lemma {:induction false} JoinSplit(s: string)
    ensures Join(Split(s)) == s
    decreases |s|
  {
    match FirstDelim(s)
    case None =>
    case Some(i) =>
      var rest := Split(s[i + 2..]);
      JoinSplit(s[i + 2..]);
      assert ([s[..i]] + rest)[1..] == rest;
      assert Join(Split(s)) == s[..i] + Delimiter + Join(rest);
      assert s == s[..i] + Delimiter + s[i + 2..];
  }

  /** Joining all but the last part, then appending the last one. */
  lemma {:induction false} JoinSnoc(parts: seq<string>)
    requires |parts| >= 2
    ensures Join(parts) == Join(parts[..|parts| - 1]) + Delimiter + parts[|parts| - 1]
    decreases |parts|
  {
    if |parts| > 2 {
      JoinSnoc(parts[1..]);
      assert parts[1..][..|parts| - 2] == parts[1..|parts| - 1];
      assert parts[..|parts| - 1][1..] == parts[1..|parts| - 1];
    }
  }

  /**
   * Appending a delimiter and an undelimited segment adds exactly one part,
   * as long as `s` does not end with an underscore (otherwise the delimiter
   * would be found one position earlier).
   */
  lemma {:induction false} SplitAppend(s: string, t: string)
    requires !EndsWithUnderscore(s) && !HasDelim(t)
    ensures Split(s + Delimiter + t) == Split(s) + [t]
    decreases |s|
  {
    var u := s + Delimiter + t;
    match FirstDelim(s)
    case Some(i) =>
      AppendKeepsDelim(s, t, i);
      SplitAppend(s[i + 2..], t);
      assert Split(u) == [s[..i]] + Split(s[i + 2..] + Delimiter + t);
    case None =>
      AppendAddsDelim(s, t);
      assert Split(u) == [s] + Split(t);
  }

  /** The leftmost delimiter is the one with none before it. */
  lemma FirstDelimIs(u: string, i: nat)
    requires DelimAt(u, i)
    requires forall j :: 0 <= j < i ==> !DelimAt(u, j)
    ensures FirstDelim(u) == Some(i)
  {
  }

  /** A delimiter of `s` stays the leftmost one of `s + "__" + t`. */
  lemma AppendKeepsDelim(s: string, t: string, i: nat)
    requires FirstDelim(s) == Some(i) && !EndsWithUnderscore(s)
    ensures FirstDelim(s + Delimiter + t) == Some(i)
    ensures (s + Delimiter + t)[..i] == s[..i]
    ensures (s + Delimiter + t)[i + 2..] == s[i + 2..] + Delimiter + t
    ensures !EndsWithUnderscore(s[i + 2..])
  {
    var u := s + Delimiter + t;
    forall j | 0 <= j < i ensures !DelimAt(u, j) {
      assert DelimAt(u, j) ==> DelimAt(s, j);
    }
    FirstDelimIs(u, i);
    if |s[i + 2..]| > 0 {
      assert s[i + 2..][|s[i + 2..]| - 1] == s[|s| - 1];
    }
  }

  /** Without a delimiter in `s`, the appended one is the leftmost of `s + "__" + t`. */
  lemma AppendAddsDelim(s: string, t: string)
    requires FirstDelim(s).None? && !EndsWithUnderscore(s)
    ensures FirstDelim(s + Delimiter + t) == Some(|s|)
    ensures (s + Delimiter + t)[..|s|] == s
    ensures (s + Delimiter + t)[|s| + 2..] == t
  {
    var u := s + Delimiter + t;
    forall j | 0 <= j < |s| ensures !DelimAt(u, j) {
      if j + 2 <= |s| {
        assert DelimAt(u, j) ==> DelimAt(s, j);
      } else {
        assert u[j] == s[|s| - 1];
      }
    }
    FirstDelimIs(u, |s|);
  }
}
