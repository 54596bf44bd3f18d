/**
 * src/filter.rs: the same evaluator as src/query.rs under the names
 * `Filter`, `Filter::filter` and `FilterError`.  The byte-level parser of
 * src/parse.rs produces this `Filter`; `FilterMatchesQuery` shows the two
 * copies compute the same thing.
 */
module LegacyFilter {
  import opened Wrappers
  import opened Json
  import Range
  import Access
  import LegacyQuery

  /** The one `FilterError` variant the evaluator raises. */
  datatype FilterError = MismatchingTypes(expected: string, found: string)

  type FilterResult = Result<seq<Value>, FilterError>

  /** As in `LegacyQuery`: a type mismatch over a value that is not `Null`. */
  predicate Raised(e: FilterError)
  {
    e.found != "Null" && e.expected in {"Object", "Array", "Array or String", "Object or Array"}
  }

  datatype Filter =
    | Empty
    | Identity
    | ObjectIndex(key: Bytes, opt: bool, next: Filter)
    | ArrayIndex(index: int, opt: bool, next: Filter)
    | Slice(range: Range.Range, opt: bool, next: Filter)
    | Iterator(opt: bool, next: Filter)

  /** `Filter::filter`: a `Null` input gives `[Null]` whatever the filter; otherwise dispatch. */
  function Apply(f: Filter, v: Value): (r: FilterResult)
    ensures r.Err? ==> Raised(r.error)
    decreases f, 0, 0
  {
    if v.Null? then Ok([Null])
    else
      match f
      case Empty => Ok([])
      case Identity => Ok([v])
      case ObjectIndex(key, opt, next) => IndexObject(v, key, opt, next)
      case ArrayIndex(i, opt, next) => IndexArray(v, i, opt, next)
      case Slice(range, opt, next) => SliceValue(v, range, opt, next)
      case Iterator(opt, next) => Iteration(v, opt, next)
  }

  /** `object_index`. */
  function IndexObject(v: Value, key: Bytes, opt: bool, next: Filter): (r: FilterResult)
    ensures r.Err? && !v.Null? ==> Raised(r.error)
    decreases next, 2, 0
  {
    if v.Obj? then
      match Get(v.fields, key)
      case Some(child) => Apply(next, child)
      case None => Ok([Null])
    else if opt then Ok([])
    else Err(MismatchingTypes("Object", LegacyQuery.TypeString(v)))
  }

  /** `array_index`, with the corrected position of a negative index. */
  function IndexArray(v: Value, i: int, opt: bool, next: Filter): (r: FilterResult)
    ensures r.Err? && !v.Null? ==> Raised(r.error)
    decreases next, 2, 0
  {
    if v.Arr? then
      match Access.ArrayPosition(|v.elems|, i)
      case Some(p) => Apply(next, v.elems[p])
      case None => Ok([Null])
    else if opt then Ok([])
    else Err(MismatchingTypes("Array", LegacyQuery.TypeString(v)))
  }

  /** `slice`. */
  function SliceValue(v: Value, range: Range.Range, opt: bool, next: Filter): (r: FilterResult)
    ensures r.Err? && !v.Null? ==> Raised(r.error)
    decreases next, 2, 0
  {
    match v
    case Arr(elems) =>
      var span := Range.Normalize(range, |elems|);
      Apply(next, Arr(Access.SliceOf(elems, span.0, span.1)))
    case Str(s) =>
      var span := Range.Normalize(range, |s|);
      Apply(next, Str(Access.SliceOf(s, span.0, span.1)))
    case _ =>
      if opt then Ok([]) else Err(MismatchingTypes("Array or String", LegacyQuery.TypeString(v)))
  }

  /** `iterate`. */
  function Iteration(v: Value, opt: bool, next: Filter): (r: FilterResult)
    ensures r.Err? && !v.Null? ==> Raised(r.error)
    decreases next, 2, 0
  {
    if v.Arr? || v.Obj? then ApplyEach(next, LegacyQuery.Children(v))
    else if opt then Ok([])
    else Err(MismatchingTypes("Object or Array", LegacyQuery.TypeString(v)))
  }

  /** `next.filter` over `vals`: the first error in order, or all results concatenated. */
  function ApplyEach(f: Filter, vals: seq<Value>): (r: FilterResult)
    ensures r.Err? ==> Raised(r.error)
    decreases f, 1, |vals|
  {
    if vals == [] then Ok([])
    else
      match ApplyEach(f, vals[..|vals| - 1])
      case Err(e) => Err(e)
      case Ok(front) =>
        match Apply(f, vals[|vals| - 1])
        case Err(e) => Err(e)
        case Ok(last) => Ok(front + last)
  }

  /** One more value: its result is appended, unless the prefix or it fails. */
  lemma ApplyEachStep(f: Filter, vals: seq<Value>, k: nat)
    requires k < |vals|
    ensures ApplyEach(f, vals[..k + 1]) ==
      (match ApplyEach(f, vals[..k])
       case Err(e) => Err(e)
       case Ok(front) =>
         match Apply(f, vals[k])
         case Err(e) => Err(e)
         case Ok(last) => Ok(front + last))
  {
    assert vals[..k + 1][..k] == vals[..k];
  }

  lemma {:induction false} ApplyEachPrefixErr(f: Filter, vals: seq<Value>, n: nat)
    requires n <= |vals| && ApplyEach(f, vals[..n]).Err?
    ensures ApplyEach(f, vals) == ApplyEach(f, vals[..n])
    decreases |vals| - n
  {
    if n < |vals| {
      var front := vals[..|vals| - 1];
      assert front[..n] == vals[..n];
      ApplyEachPrefixErr(f, front, n);
    } else {
      assert vals[..n] == vals;
    }
  }

  /** `iterate` as the program runs it: a vector filled in a loop, then `next` on each entry. */
  method Iterate(v: Value, opt: bool, next: Filter) returns (r: FilterResult)
    ensures r == Iteration(v, opt, next)
  {
    if !(v.Arr? || v.Obj?) {
      if !opt {
        return Err(MismatchingTypes("Object or Array", LegacyQuery.TypeString(v)));
      }
      return Ok([]);
    }
    var vec := LegacyQuery.CollectChildren(v);
    var out: seq<Value> := [];
    for k := 0 to |vec|
      invariant ApplyEach(next, vec[..k]) == Ok(out)
    {
      ApplyEachStep(next, vec, k);
      var res := Apply(next, vec[k]);
      if res.Err? {
        ApplyEachPrefixErr(next, vec, k + 1);
        return Err(res.error);
      }
      out := out + res.value;
    }
    assert vec[..|vec|] == vec;
    return Ok(out);
  }

  /** The query of src/query.rs that a filter corresponds to, node for node. */
  function ToQuery(f: Filter): (q: LegacyQuery.Query)
  {
    match f
    case Empty => LegacyQuery.Empty
    case Identity => LegacyQuery.Identity
    case ObjectIndex(key, opt, next) => LegacyQuery.ObjectIndex(key, opt, ToQuery(next))
    case ArrayIndex(i, opt, next) => LegacyQuery.ArrayIndex(i, opt, ToQuery(next))
    case Slice(range, opt, next) => LegacyQuery.Slice(range, opt, ToQuery(next))
    case Iterator(opt, next) => LegacyQuery.Iterator(opt, ToQuery(next))
  }

  function ToQueryResult(r: FilterResult): LegacyQuery.QueryResult
  {
    match r
    case Ok(vs) => Ok(vs)
    case Err(MismatchingTypes(expected, found)) => Err(LegacyQuery.MismatchingTypes(expected, found))
  }

  /** The two copies of the evaluator agree on every filter and every input. */
  lemma {:induction false} FilterMatchesQuery(f: Filter, v: Value)
    ensures ToQueryResult(Apply(f, v)) == LegacyQuery.Execute(ToQuery(f), v)
    decreases f, 0
  {
    if !v.Null? {
      match f
      case Empty =>
      case Identity =>
      case ObjectIndex(key, opt, next) =>
        if v.Obj? && Get(v.fields, key).Some? {
          FilterMatchesQuery(next, Get(v.fields, key).value);
        }
      case ArrayIndex(i, opt, next) =>
        if v.Arr? && Access.ArrayPosition(|v.elems|, i).Some? {
          FilterMatchesQuery(next, v.elems[Access.ArrayPosition(|v.elems|, i).value]);
        }
      case Slice(range, opt, next) =>
        if v.Arr? {
          var span := Range.Normalize(range, |v.elems|);
          FilterMatchesQuery(next, Arr(Access.SliceOf(v.elems, span.0, span.1)));
        } else if v.Str? {
          var span := Range.Normalize(range, |v.s|);
          FilterMatchesQuery(next, Str(Access.SliceOf(v.s, span.0, span.1)));
        }
      case Iterator(opt, next) =>
        if v.Arr? || v.Obj? {
          EachMatches(next, LegacyQuery.Children(v));
        }
    }
  }

  lemma {:induction false} EachMatches(f: Filter, vals: seq<Value>)
    ensures ToQueryResult(ApplyEach(f, vals)) == LegacyQuery.ExecuteEach(ToQuery(f), vals)
    decreases f, |vals| + 1
  {
    if vals != [] {
      EachMatches(f, vals[..|vals| - 1]);
      FilterMatchesQuery(f, vals[|vals| - 1]);
    }
  }

  /** A `Null` input gives `[Null]` for every filter, `Empty` included. */
  lemma NullAbsorbs(f: Filter)
    ensures Apply(f, Null) == Ok([Null])
  {
  }
}
