/**
 * Element and sub-range access shared by the three evaluators
 * (src/index.rs, src/query.rs, src/filter.rs), each as the code is written
 * and as it is evidently meant.
 */
module Access {
  import opened Wrappers
  import Json
  import Range

  /**
   * The position an integer index selects in an array of length `len`, AS
   * WRITTEN: a negative `i` gives up when `|i| >= len`, so `-len` (which
   * denotes the first element) is refused along with the out-of-range ones.
   */
  function ArrayPositionAsWritten(len: nat, i: int): (p: Option<nat>)
    ensures i < 0 && -i >= len ==> p.None?
    ensures i < 0 && -i < len ==> p == Some(len + i)
    ensures i >= 0 ==> (p.Some? <==> i < len) && (p.Some? ==> p.value == i)
  {
    if i < 0 then
      var j := -i;
      if j >= len then None else Some(len - j)
    else if i < len then Some(i)
    else None
  }

  /**
   * The corrected position: a negative `i` counts back from the end and is
   * out of range only when `|i| > len`.
   */
  function ArrayPosition(len: nat, i: int): (p: Option<nat>)
    ensures p.Some? ==> p.value < len
    ensures p.Some? <==> -(len as int) <= i < len
  {
    if i < 0 then
      var j := -i;
      if j > len then None else Some(len - j)
    else if i < len then Some(i)
    else None
  }

  /** `-k` and `len - k` select the same element, for every `0 < k <= len`. */
  lemma ArrayPositionNegativeEquivalence(len: nat, k: int)
    requires 0 < k <= len
    ensures ArrayPosition(len, -k) == ArrayPosition(len, len - k) == Some(len - k)
  {
  }

  /** The corrected position agrees with `Range::normalize` on every index it accepts. */
  lemma ArrayPositionMatchesRange(len: nat, i: int)
    requires ArrayPosition(len, i).Some?
    ensures ArrayPosition(len, i).value == Range.Normalize(Range.Lower(i), len).0
  {
  }

  /** The two definitions differ at exactly one index: `-len` of a non-empty array. */
  lemma ArrayPositionDiffersOnlyAtMinusLen(len: nat, i: int)
    ensures ArrayPositionAsWritten(len, i) != ArrayPosition(len, i) <==> (len > 0 && i == -(len as int))
  {
  }

  /** `.[-3]` on a three-element array: as written nothing is selected, though the first element is meant. */
  lemma ArrayPositionCounterexample()
    ensures ArrayPositionAsWritten(3, -3).None?
    ensures ArrayPosition(3, -3) == Some(0)
  {
  }

  /**
   * Rust's `s[l..u]` AS WRITTEN on a normalised span (both ends within `s`):
   * it panics (here `None`) when `l > u`, which `Range::normalize` produces
   * for e.g. `3..2`.
   */
  function SliceAsWritten<T>(s: seq<T>, l: nat, u: nat): (r: Option<seq<T>>)
    requires l <= |s| && u <= |s|
    ensures r.Some? <==> l <= u
    ensures r.Some? ==> |r.value| == u - l && forall k :: 0 <= k < u - l ==> r.value[k] == s[l + k]
  {
    if l <= u then Some(s[l..u]) else None
  }

  /** The corrected slice of a normalised span: a span with `l >= u` is empty, never an error. */
  function SliceOf<T>(s: seq<T>, l: nat, u: nat): (r: seq<T>)
    requires l <= |s| && u <= |s|
    ensures |r| == (if l < u then u - l else 0)
    ensures forall k :: 0 <= k < |r| ==> r[k] == s[l + k]
  {
    if l < u then s[l..u] else []
  }

  /** Wherever the code as written does not panic, the corrected slice gives the same result. */
  lemma SliceOfAgrees<T>(s: seq<T>, l: nat, u: nat)
    requires l <= |s| && u <= |s| && SliceAsWritten(s, l, u).Some?
    ensures SliceOf(s, l, u) == SliceAsWritten(s, l, u).value
  {
  }

  /** Slicing a normalised span: `.[3:2]` over ten elements panics as written, and is empty as meant. */
  lemma SliceCounterexample(s: seq<int>)
    requires |s| == 10
    ensures Range.Normalize(Range.New(3, 2), |s|) == (3, 2)
    ensures SliceAsWritten(s, 3, 2).None?
    ensures SliceOf(s, 3, 2) == []
  {
  }

  /**
   * Whether `k` falls on a character boundary of the UTF-8 text `s`, as
   * `str::is_char_boundary` decides: at either end, or in front of a byte
   * that is not a continuation byte (`0x80` to `0xBF`).
   */
  predicate CharBoundary(s: Json.Bytes, k: nat)
  {
    k == 0 || k == |s| || (k < |s| && s[k] as int / 64 != 2)
  }

  /**
   * Rust's `s[l..u]` on a `String` AS WRITTEN, on a normalised span: it
   * panics (here `None`) when `l > u`, and also when either end falls inside
   * a multi-byte character.
   */
  function StrSliceAsWritten(s: Json.Bytes, l: nat, u: nat): (r: Option<Json.Bytes>)
    requires l <= |s| && u <= |s|
    ensures r.Some? <==> l <= u && CharBoundary(s, l) && CharBoundary(s, u)
    ensures r.Some? ==> |r.value| == u - l && forall k :: 0 <= k < u - l ==> r.value[k] == s[l + k]
  {
    if l <= u && CharBoundary(s, l) && CharBoundary(s, u) then Some(s[l..u]) else None
  }

  /** Wherever the string slice as written does not panic, the byte slice gives the same result. */
  lemma StrSliceAgrees(s: Json.Bytes, l: nat, u: nat)
    requires l <= |s| && u <= |s| && StrSliceAsWritten(s, l, u).Some?
    ensures SliceOf(s, l, u) == StrSliceAsWritten(s, l, u).value
  {
  }

  /** A text made of single-byte characters only is never cut inside a character. */
  lemma AsciiStrSliceNeverPanics(s: Json.Bytes, l: nat, u: nat)
    requires l <= u <= |s|
    requires forall k :: 0 <= k < |s| ==> s[k] as int < 0x80
    ensures StrSliceAsWritten(s, l, u) == Some(s[l..u])
  {
    assert CharBoundary(s, l) && CharBoundary(s, u);
  }

  /**
   * `.[0:1]` on `"é"` (the bytes C3 A9): the span normalises to `0..1`,
   * which ends inside the character, so the slice as written panics.
   */
  lemma StrSliceSplitsCharacter()
    ensures var s: Json.Bytes := ['\U{C3}', '\U{A9}'];
      Range.Normalize(Range.New(0, 1), |s|) == (0, 1) && StrSliceAsWritten(s, 0, 1).None?
  {
  }

  /** For bounds `0 <= i <= j <= len` the slice of `New(i, j)` is exactly `s[i..j]`. */
  lemma SliceRoundTrip<T>(s: seq<T>, i: nat, j: nat)
    requires i <= j <= |s|
    ensures var span := Range.Normalize(Range.New(i, j), |s|); SliceOf(s, span.0, span.1) == s[i..j]
  {
  }
}
