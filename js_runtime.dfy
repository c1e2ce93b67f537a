/**
 * The few ECMAScript built-ins the components rely on, on the inputs the
 * components give them: truthiness of optional strings and ids, `x || d`,
 * `String.prototype.indexOf` with a start inside the string,
 * `String.prototype.replace` with a string pattern and an empty
 * replacement (first occurrence only) and `String.prototype.toUpperCase`
 * (restricted to ASCII letters).
 */
module JsRuntime {
  import opened Wrappers

  /** A string-or-missing value is truthy when it is present and not "". */
  predicate Truthy(s: Option<string>)
  {
    s.Some? && s.value != ""
  }

  /** A numeric id is truthy when it is present and not 0. */
  predicate TruthyId(id: Option<int>)
  {
    id.Some? && id.value != 0
  }

  /** `x || fallback` where `x` is a string or missing. */
  function Or(x: Option<string>, fallback: string): (r: string)
    ensures Truthy(x) ==> Some(r) == x
    ensures !Truthy(x) ==> r == fallback
    ensures fallback != "" ==> r != ""
  {
    if Truthy(x) then x.value else fallback
  }

  // ---------------------------------------------------------------------
  // Substring search and first-occurrence removal
  // ---------------------------------------------------------------------

  /** `pat` occurs in `s` starting at index `i`. */
  predicate OccursAt(s: string, pat: string, i: nat)
  {
    i + |pat| <= |s| && s[i..i + |pat|] == pat
  }

  predicate Occurs(s: string, pat: string)
  {
    exists i: nat :: i <= |s| && OccursAt(s, pat, i)
  }

  /** `i` is the leftmost index at which `pat` occurs in `s`. */
  predicate IsFirstOccurrence(s: string, pat: string, i: nat)
  {
    OccursAt(s, pat, i) && forall j: nat :: j < i ==> !OccursAt(s, pat, j)
  }

  /** `s.indexOf(pat, from)` for a start within `s`, with a missing result for -1. */
  function IndexOfFrom(s: string, pat: string, from: nat): (r: Option<nat>)
    requires from <= |s|
    decreases |s| - from
    ensures r.Some? ==> from <= r.value && OccursAt(s, pat, r.value)
    ensures r.Some? ==> forall j: nat :: from <= j < r.value ==> !OccursAt(s, pat, j)
    ensures r.None? ==> forall j: nat :: from <= j ==> !OccursAt(s, pat, j)
  {
    if from + |pat| > |s| then None
    else if s[from..from + |pat|] == pat then Some(from)
    else IndexOfFrom(s, pat, from + 1)
  }

  /** `s.indexOf(pat)`: the first occurrence, if any. */
  function IndexOf(s: string, pat: string): (r: Option<nat>)
    ensures r.Some? <==> Occurs(s, pat)
    ensures r.Some? ==> IsFirstOccurrence(s, pat, r.value)
  {
    IndexOfFrom(s, pat, 0)
  }

  /**
   * `s.replace(pat, "")` with a string pattern: only the first occurrence
   * of `pat`, wherever it is, is removed; without one, `s` is returned as
   * it is.
   */
  function RemoveFirst(s: string, pat: string): (r: string)
    ensures !Occurs(s, pat) ==> r == s
    ensures Occurs(s, pat) ==> |r| == |s| - |pat|
    ensures forall i: nat :: IsFirstOccurrence(s, pat, i) ==> r == s[..i] + s[i + |pat|..]
  {
    match IndexOf(s, pat)
    case None => s
    case Some(i) => s[..i] + s[i + |pat|..]
  }

  /** Removing a pattern that starts the string leaves exactly what follows it. */
  lemma RemoveLeading(pat: string, rest: string)
    ensures RemoveFirst(pat + rest, pat) == rest
  {
    var s := pat + rest;
    assert s[0..|pat|] == pat;
    assert IsFirstOccurrence(s, pat, 0);
    assert s[|pat|..] == rest;
  }

  // ---------------------------------------------------------------------
  // Upper-casing and case-insensitive comparison
  // ---------------------------------------------------------------------

  predicate IsLowerAscii(c: char)
  {
    'a' <= c <= 'z'
  }

  predicate IsUpperAscii(c: char)
  {
    'A' <= c <= 'Z'
  }

  /** Upper-case mapping of one character, for ASCII letters. */
  function UpperChar(c: char): (u: char)
  {
    if IsLowerAscii(c) then (c as int - 32) as char else c
  }

  /** `s.toUpperCase()` for strings whose letters are ASCII. */
  function ToUpperCase(s: string): (r: string)
    ensures |r| == |s|
    ensures forall i :: 0 <= i < |s| ==> r[i] == UpperChar(s[i])
  {
    seq(|s|, i requires 0 <= i < |s| => UpperChar(s[i]))
  }

  /** A word written without lower-case letters, such as "PENDING_VALIDATION". */
  predicate IsUpperWord(w: string)
  {
    forall i :: 0 <= i < |w| ==> !IsLowerAscii(w[i])
  }

  /** `c` is `d` itself or, when `d` is an upper-case letter, its lower-case form. */
  predicate SameLetterIgnoringCase(c: char, d: char)
  {
    c == d || (IsUpperAscii(d) && c as int == d as int + 32)
  }

  /** `s` spells `w` letter by letter, ignoring case. */
  predicate MatchesIgnoringCase(s: string, w: string)
  {
    |s| == |w| && forall i :: 0 <= i < |s| ==> SameLetterIgnoringCase(s[i], w[i])
  }

  /** Upper-casing `s` yields the upper-case word `w` exactly when `s` spells `w` in any case. */
  lemma UpperCaseEqualsIff(s: string, w: string)
    requires IsUpperWord(w)
    ensures ToUpperCase(s) == w <==> MatchesIgnoringCase(s, w)
  {
    var u := ToUpperCase(s);
    if u == w {
      forall i | 0 <= i < |s| ensures SameLetterIgnoringCase(s[i], w[i]) {
        assert u[i] == UpperChar(s[i]);
      }
    }
    if MatchesIgnoringCase(s, w) {
      forall i | 0 <= i < |s| ensures u[i] == w[i] {
        assert !IsLowerAscii(w[i]);
      }
    }
  }
}
