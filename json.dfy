/**
 * The document model the engine queries: serde_json's `Value`, restricted to
 * integer numbers.  Strings are byte sequences because every length and slice
 * in the engine is taken in bytes.  An object is an association list kept in
 * ascending key order, which is the iteration order of serde_json's default map.
 */
module Json {
  import opened Wrappers

  /** A byte, written as a character below 256 so that texts read as string literals. */
  type Byte = c: char | c as int < 256
  type Bytes = seq<Byte>

  datatype Value =
    | Null
    | Bool(b: bool)
    | Num(n: int)
    | Str(s: Bytes)
    | Arr(elems: seq<Value>)
    | Obj(fields: seq<(Bytes, Value)>)

  /** Byte-wise lexicographic order, the order of Rust's `String`. */
  predicate Less(a: Bytes, b: Bytes)
  {
    if a == [] then b != []
    else if b == [] then false
    else a[0] < b[0] || (a[0] == b[0] && Less(a[1..], b[1..]))
  }

  lemma {:induction false} LessIrreflexive(a: Bytes)
    ensures !Less(a, a)
  {
    if a != [] {
      LessIrreflexive(a[1..]);
    }
  }

  /** The keys of a serde_json map: strictly ascending, hence pairwise distinct. */
  predicate KeysSorted(fields: seq<(Bytes, Value)>)
  {
    forall i, j :: 0 <= i < j < |fields| ==> Less(fields[i].0, fields[j].0)
  }

  /** `Map::get`: the value stored under `key`, if any. */
  function Get(fields: seq<(Bytes, Value)>, key: Bytes): (r: Option<Value>)
    ensures r.None? <==> forall i :: 0 <= i < |fields| ==> fields[i].0 != key
    ensures r.Some? ==> exists i :: 0 <= i < |fields| && fields[i] == (key, r.value)
  {
    if fields == [] then None
    else if fields[0].0 == key then Some(fields[0].1)
    else
      var r := Get(fields[1..], key);
      assert r.Some? ==> exists i :: 1 <= i < |fields| && fields[i] == (key, r.value) by {
        if r.Some? {
          var i :| 0 <= i < |fields[1..]| && fields[1..][i] == (key, r.value);
          assert fields[i + 1] == (key, r.value);
        }
      }
      r
  }

  /** In a well-formed object a key occurs once, so `Get` finds exactly the stored value. */
  lemma {:induction false} GetStored(fields: seq<(Bytes, Value)>, i: nat)
    requires KeysSorted(fields) && i < |fields|
    ensures Get(fields, fields[i].0) == Some(fields[i].1)
  {
    if i == 0 {
    } else {
      LessIrreflexive(fields[0].0);
      assert Less(fields[0].0, fields[i].0);
      assert fields[0].0 != fields[i].0;
      assert KeysSorted(fields[1..]) by {
        forall a, b | 0 <= a < b < |fields[1..]|
          ensures Less(fields[1..][a].0, fields[1..][b].0)
        {
          assert fields[1..][a] == fields[a + 1] && fields[1..][b] == fields[b + 1];
        }
      }
      GetStored(fields[1..], i - 1);
      assert fields[1..][i - 1] == fields[i];
    }
  }

  /** `Map::values`: the stored values in key order. */
  function Values(fields: seq<(Bytes, Value)>): (r: seq<Value>)
    ensures |r| == |fields|
    ensures forall i :: 0 <= i < |fields| ==> r[i] == fields[i].1
  {
    if fields == [] then [] else Values(fields[..|fields| - 1]) + [fields[|fields| - 1].1]
  }

  /** The concatenation of a sequence of result sequences, in order. */
  function Flatten(parts: seq<seq<Value>>): (r: seq<Value>)
    ensures forall k, j :: 0 <= k < |parts| && 0 <= j < |parts[k]| ==> parts[k][j] in r
    ensures forall x :: x in r ==> exists k :: 0 <= k < |parts| && x in parts[k]
  {
    if parts == [] then [] else parts[0] + Flatten(parts[1..])
  }

  lemma {:induction false} FlattenSnoc(parts: seq<seq<Value>>, last: seq<Value>)
    ensures Flatten(parts + [last]) == Flatten(parts) + last
  {
    if parts == [] {
      assert [] + [last] == [last];
    } else {
      assert (parts + [last])[1..] == parts[1..] + [last];
      FlattenSnoc(parts[1..], last);
    }
  }
}
