/**
 * The shared error type of the node-based evaluator and `type_str`
 * (src/lib.rs), together with the outcome of evaluating a query.
 */
module Lib {
  import opened Json

  /** `QueryError`: `Index(found, expected)`, `Iterate(found)`, `ObjectKey(found)`. */
  datatype QueryError =
    | Index(found: string, expected: string)
    | Iterate(found: string)
    | ObjectKey(found: string)

  /**
   * What running a query gives: `Ok` and `Err` are the two sides of
   * `QueryResult`; `Unimplemented` stands for reaching one of the `todo!()`
   * arms of src/operators.rs, which panics instead of returning.
   */
  datatype Outcome = Ok(values: seq<Value>) | Err(error: QueryError) | Unimplemented

  /** `single`: exactly one result. */
  function Single(v: Value): (r: Outcome)
    ensures r.Ok? && r.values == [v]
  {
    Ok([v])
  }

  /** `type_str`: the lower-case name of a value's variant. */
  function TypeStr(v: Value): (r: string)
    ensures r in {"null", "bool", "number", "string", "array", "object"}
    ensures r == "null" <==> v.Null?
  {
    match v
    case Null => "null"
    case Bool(_) => "bool"
    case Num(_) => "number"
    case Str(_) => "string"
    case Arr(_) => "array"
    case Obj(_) => "object"
  }

  /** No two variants share a name, so the name identifies the variant. */
  lemma TypeStrInjective(v: Value, w: Value)
    ensures TypeStr(v) == TypeStr(w) <==> (
      (v.Null? && w.Null?) || (v.Bool? && w.Bool?) || (v.Num? && w.Num?) ||
      (v.Str? && w.Str?) || (v.Arr? && w.Arr?) || (v.Obj? && w.Obj?))
  {
  }
}
