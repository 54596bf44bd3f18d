/**
 * src/range.rs: a pair of optional signed slice bounds and their
 * normalisation into a concrete half-open span `[l, u)` over a length.
 */
module Range {
  import opened Wrappers

  datatype Bounds = Bounds(lower: Option<int>, upper: Option<int>)

  /**
   * A `Range` as the program builds it: every constructor sets at least one
   * bound, so a range without bounds cannot be formed at all.
   */
  type Range = b: Bounds | b.lower.Some? || b.upper.Some? witness Bounds(Some(0), None)

  /** `Range::new((l, u))`. */
  function New(l: int, u: int): (r: Range)
    ensures r.lower == Some(l) && r.upper == Some(u)
  {
    Bounds(Some(l), Some(u))
  }

  /** `Range::lower(i)`: from `i` to the end. */
  function Lower(i: int): (r: Range)
    ensures r.lower == Some(i) && r.upper.None?
  {
    Bounds(Some(i), None)
  }

  /** `Range::upper(i)`: from the start to `i`. */
  function Upper(i: int): (r: Range)
    ensures r.lower.None? && r.upper == Some(i)
  {
    Bounds(None, Some(i))
  }

  function Min(a: int, b: int): int { if a <= b then a else b }

  /**
   * The closure `normalize_bound`: a negative bound counts back from the end
   * and stops at 0, a non-negative one stops at `len`.
   */
  function NormalizeBound(bound: int, len: nat): (r: nat)
    ensures r <= len
    ensures bound < 0 ==> r == len - Min(-bound, len)
    ensures bound >= 0 ==> r == Min(bound, len)
  {
    if bound < 0 then
      var u := -bound;
      if u > len then 0 else len - u
    else
      var u := bound;
      if u > len then len else u
  }

  /**
   * `Range::normalize`: each present bound is normalised on its own, a missing
   * lower bound is 0 and a missing upper bound is `len`.  The two ends are
   * never reordered, so the span may be empty with `l > u`.
   */
  function Normalize(r: Range, len: nat): (span: (nat, nat))
    ensures span.0 <= len && span.1 <= len
    ensures span.0 == (if r.lower.Some? then NormalizeBound(r.lower.value, len) else 0)
    ensures span.1 == (if r.upper.Some? then NormalizeBound(r.upper.value, len) else len)
  {
    match (r.lower, r.upper)
    case (None, Some(u)) => (0, NormalizeBound(u, len))
    case (Some(l), None) => (NormalizeBound(l, len), len)
    case (Some(l), Some(u)) => (NormalizeBound(l, len), NormalizeBound(u, len))
  }

  /** Bounds already inside `[0, len]` come back unchanged, in any order. */
  lemma NormalizeInBounds(l: nat, u: nat, len: nat)
    requires l <= len && u <= len
    ensures Normalize(New(l, u), len) == (l, u)
  {
  }

  /** A bound `-k` with `0 < k <= len` means the same as the bound `len - k`. */
  lemma NormalizeNegativeEquivalence(k: int, len: nat, other: int)
    requires 0 < k <= len
    ensures Normalize(Lower(-k), len) == Normalize(Lower(len - k), len)
    ensures Normalize(Upper(-k), len) == Normalize(Upper(len - k), len)
    ensures Normalize(New(-k, other), len) == Normalize(New(len - k, other), len)
    ensures Normalize(New(other, -k), len) == Normalize(New(other, len - k), len)
  {
  }

  /** The expectations of the unit tests in src/range.rs. */
  lemma NormalizeExamples()
    ensures Normalize(New(1, 3), 10) == (1, 3)
    ensures Normalize(New(1, 10), 3) == (1, 3)
    ensures Normalize(New(-100, 3), 10) == (0, 3)
    ensures Normalize(New(1, -2), 10) == (1, 8)
    ensures Normalize(New(-100, 100), 10) == (0, 10)
    ensures Normalize(New(3, 2), 10) == (3, 2)
    ensures Normalize(New(-3, -2), 10) == (7, 8)
    ensures Normalize(Lower(1), 10) == (1, 10)
    ensures Normalize(Lower(-1), 10) == (9, 10)
    ensures Normalize(Lower(100), 10) == (10, 10)
    ensures Normalize(Lower(-100), 10) == (0, 10)
    ensures Normalize(Upper(1), 10) == (0, 1)
    ensures Normalize(Upper(-1), 10) == (0, 9)
    ensures Normalize(Upper(100), 10) == (0, 10)
    ensures Normalize(Upper(-100), 10) == (0, 0)
  {
  }
}
