# roq query engine: a verified model

roq is a small jq-style query engine. A filter text is parsed into a query tree, and the tree is evaluated against a JSON document. The result is a *sequence* of values: zero, one or many. This project models the engine's core in Dafny and proves what that core promises.

The repository holds two generations of the design side by side, and both are modelled.

- **The first design** (src/query.rs, with a copy in src/filter.rs, and the byte parser in src/parse.rs):
  - Every node carries an `opt` flag (a trailing `?`) and a `next` continuation.
  - `LegacyQuery` and `LegacyFilter` are the two evaluators.
  - `LegacyFilter.FilterMatchesQuery` proves that the two compute the same thing.
  - `LegacyParse` is the grammar. A printer is proved to be its inverse (`LegacyParse.ParsePrint`).
- **The node-based design**:
  - `Index` models bracket indices and their parser (src/index.rs).
  - `Query` holds the `Split`, `Chain` and `Optional` combinators (src/combinator.rs), array construction (src/construction.rs) and the evaluation of binary operators (src/operators.rs).
  - `Combinator` holds the `?` and chain parser combinators.
  - `Operators` holds sign parsing, `add` and the cartesian broadcast.
  - `Raw` holds literals, `Space` the blank-skipping wrappers, and `Lib` the error type and `type_str`.
- **Shared modules**:
  - `Json` is the document model. Numbers are integers and strings are bytes. Objects are association lists with keys in ascending order, which is the iteration order of serde_json's default map.
  - `Range` is slice-bound normalisation (src/range.rs).
  - `Access` holds element and sub-range selection, both as written and as corrected (see Findings).
  - `Nom` holds the few parser primitives the grammar is built from, and `ParseError`, the crate-wide parse error that src/parse.rs and src/raw.rs both use (its declaration is not part of this model's sources).

The node-based design's `Query` enum, its dispatching `execute`, `iterate_results` and `iterate_values` are not part of this model's sources. `Query.Query` and `Query.Execute` define them from their uses:

- `iterate_results` gives the first outcome that is not `Ok`, in order; otherwise it concatenates all values.
- `iterate_values` runs the query on each value in order, with the same rule.
- The `null` short-circuit applies only in front of `Index`.
- `Split` evaluates both branches before combining them.

The parsers `range::parse`, `parse_init` and `parse_chain` are function parameters.

An evaluation outcome is `Lib.Outcome`: `Ok(values)`, `Err(error)`, or `Unimplemented`. `Unimplemented` stands for reaching a `todo!()` arm of src/operators.rs. Those arms panic, so no `Optional` can catch them.

On these points the model follows the code:

- A string key on a non-object fails with `Index(type, "string")`, not a type mismatch naming "object" (src/index.rs:38).
- An iterator over a scalar fails with `MismatchingTypes("Object or Array", ...)`, not an `Iterate` error (src/query.rs:69-74).
- In the first design a `null` input gives `[null]` for every query, `Empty` included (src/query.rs:32-34).
- Object values are iterated in key order, not insertion order (serde_json's default map; see the output expected at src/query.rs:220-222).
- `+` is implemented only when one side is `null`. Everything else is `todo!()`.
- The operator parser skips no blanks (src/operators.rs:57-62).

## Model

| member | source | states |
|---|---|---|
| Range.New | src/range.rs:5-7 | sets both bounds |
| Range.Lower | src/range.rs:9-11 | sets only the lower bound |
| Range.Upper | src/range.rs:13-15 | sets only the upper bound; with `New` and `Lower`, every constructor sets a bound, so the `Range` subset type excludes the unreachable `(None, None)` arm |
| Range.NormalizeBound | src/range.rs:18-34 | the result lies in `[0, len]`; a negative bound gives `len - min(-b, len)`, a non-negative one gives `min(b, len)` |
| Range.Normalize | src/range.rs:17-42 | both ends lie in `[0, len]`; each present bound is normalised on its own; a missing lower bound is 0 and a missing upper bound is `len`; the ends are never reordered |
| Range.NormalizeInBounds | src/range.rs:51 | bounds already inside `[0, len]` come back unchanged, in either order |
| Range.NormalizeNegativeEquivalence | src/range.rs:19-25 | a bound `-k` with `0 < k <= len` means the same as `len - k`, in every constructor and position |
| Range.NormalizeExamples | src/range.rs:49-74 | every expectation of the unit tests |
| Access.ArrayPositionAsWritten | src/index.rs:52-61 | as written: a negative `i` with `-i >= len` selects nothing, otherwise `len + i`; a non-negative `i` selects `i` exactly when `i < len` |
| Access.ArrayPosition | src/index.rs:52-67 | corrected: a position is selected exactly when `-len <= i < len`, and it is inside the array |
| Access.ArrayPositionNegativeEquivalence | src/index.rs:53-58 | `-k` and `len - k` select the same element for every `0 < k <= len` |
| Access.ArrayPositionMatchesRange | src/range.rs:19-25 | the corrected position agrees with the range normalisation of the same bound |
| Access.ArrayPositionDiffersOnlyAtMinusLen | src/index.rs:55 | the two definitions differ exactly at `i == -len` of a non-empty array |
| Access.ArrayPositionCounterexample | src/query.rs:108-113 | `.[-3]` over three elements selects nothing as written, and the first element as intended |
| Access.SliceAsWritten | src/index.rs:32-35 | as written, `vec[l..u]` succeeds exactly when `l <= u`, and then holds the elements `l` to `u` |
| Access.SliceOf | src/index.rs:32-35 | corrected: the slice has length `u - l` (0 when `l >= u`) and holds the elements from `l` on |
| Access.SliceOfAgrees | src/index.rs:33-34 | wherever the code as written does not panic, the corrected slice is the same |
| Access.SliceCounterexample | src/range.rs:56 | `(3, 2)` over ten elements normalises to `3..2`; slicing it panics as written and is empty as corrected |
| Access.SliceRoundTrip | src/range.rs:17-42 | for `0 <= i <= j <= len`, slicing `New(i, j)` gives exactly `s[i..j]` |
| Access.StrSliceAsWritten | src/index.rs:27-30 | as written, `s[l..u]` on a string succeeds exactly when `l <= u` and both ends are character boundaries (no UTF-8 continuation byte at either end), and then holds the bytes `l` to `u` |
| Access.StrSliceAgrees | src/query.rs:142-145 | wherever the string slice as written does not panic, the byte slice the model takes is the same |
| Access.AsciiStrSliceNeverPanics | src/filter.rs:122-125 | on a text of single-byte characters every in-order span is sliced without a panic |
| Access.StrSliceSplitsCharacter | src/query.rs:143-144 | `.[0:1]` on `"é"` (bytes C3 A9) normalises to `0..1`, which ends inside the character, so the slice as written panics |
| Json.Get | src/index.rs:45 | finds nothing exactly when no field has the key; what it finds is stored under the key |
| Json.GetStored | src/index.rs:45-46 | in an object with sorted, hence unique, keys, `get` of a field's key gives that field's value |
| Json.Values | src/query.rs:59-63 | the object's values in key order, one per field |
| Json.Flatten | src/query.rs:81-84 | every value of every part is in the result, and every value of the result comes from some part |
| Json.FlattenSnoc | src/query.rs:78-84 | flattening one more part appends that part |
| Lib.TypeStr | src/lib.rs:22-31 | the name is one of the six lower-case variant names, and it is `null` exactly for `null` |
| Lib.TypeStrInjective | src/lib.rs:22-31 | two values get the same name exactly when they are the same variant |
| Nom.Char | src/index.rs:73 | succeeds exactly on the given byte, and consumes it |
| Nom.Tag | src/parse.rs:56 | succeeds exactly when the input starts with the tag, and consumes it |
| Nom.Eof | src/parse.rs:51 | succeeds exactly on empty input |
| Nom.TakeWhile | src/raw.rs:32 | never fails; the taken prefix and the rest make up the input; every taken byte satisfies the predicate and the next one does not |
| Nom.TakeWhile1 | src/index.rs:78 | as `take_while`, and it fails exactly when the first byte does not qualify |
| Nom.Opt | src/combinator.rs:42 | never fails; the wrapped parser's result, or nothing with no input consumed |
| Nom.OptChar | src/parse.rs:57 | reports whether the byte was there and consumes it exactly then |
| Nom.Space0 | src/space.rs:10 | never fails and consumes exactly the leading blanks |
| Nom.I32 | src/index.rs:76 | a success lies within 32 bits, consumes at least one byte, and stops before a digit |
| Nom.I32RoundTrip | src/raw.rs:35 | every 32-bit integer is read back from its decimal text |
| Nom.TakeWhileAll | src/index.rs:78 | `take_while` stops exactly where the qualifying prefix ends |
| Index.KindName | src/index.rs:38-40 | the index kind's name is `string`, `number` or `slice` |
| Index.Execute | src/index.rs:25-41 | never unimplemented; every success is exactly one value; every error is `Index(type_str(v), kind)` with the value's type and the index kind |
| Index.IndexObject | src/index.rs:44-50 | always one value: `null` when no field has the key, otherwise a value stored under the key |
| Index.IndexArray | src/index.rs:52-68 | (corrected at `i == -len`, see Findings) always one value: element `i`, or element `len + i` for `-len <= i < 0`, otherwise `null` |
| Index.ExecuteAccepts | src/index.rs:27-37 | the accepted pairings of index kind and value never fail and give one value |
| Index.ExecuteRejects | src/index.rs:38-40 | every other pairing fails with `Index(type_str(v), kind)` |
| Index.ObjectKeySelects | src/index.rs:44-46 | in a well-formed object, every field's key selects that field's value |
| Index.SliceRoundTrip | src/index.rs:32-35 | slicing an array in bounds gives exactly the sub-array |
| Index.StringSliceRoundTrip | src/index.rs:27-31 | slicing a string in bounds gives exactly the byte sub-string; the code as written gives that sub-string exactly when both bounds are character boundaries, and panics otherwise |
| Index.StringSliceSplitsCharacter | src/index.rs:27-30 | `.[0:1]` on `"é"` panics as written, while the model gives the lone byte C3 |
| Index.Parse | src/index.rs:71-84 | a success starts with `[`; an integer lies within 32 bits; a key is non-empty and has no `"` |
| Index.Content | src/index.rs:74-81 | the slice alternative wins whenever it parses; the integer and key alternatives keep their bounds |
| Index.QuotedKey | src/index.rs:78 | a key is non-empty and has no `"` |
| Index.ParseInteger | src/index.rs:76 | `[n]` is read back as `Integer(n)` whenever the range parser refuses it |
| Index.ParseKey | src/index.rs:77-80 | `["key"]` is read back as `String(key)` whenever the range parser refuses it |
| Index.ParseSliceFirst | src/index.rs:75 | whatever the range parser reads comes first, as a slice |
| Raw.Execute | src/raw.rs:21-25 | always exactly one value |
| Raw.ExecuteIgnoresInput | src/raw.rs:22-24 | every input gives the singleton literal |
| Raw.QuotedString | src/raw.rs:32 | a success starts with `"` and has no `"` inside |
| Raw.Parser | src/raw.rs:28-42 | a success consumes input and is a string, or a number within 32 bits |
| Raw.Parse | src/raw.rs:51-78 | accepts exactly when the parser succeeds with nothing left over, otherwise reports the leftover |
| Raw.StringRoundTrip | src/raw.rs:32-33 | any text without `"`, empty or with blanks, reads back as that string |
| Raw.IntegerRoundTrip | src/raw.rs:35 | every 32-bit integer reads back as that number |
| Raw.ParseLiterals | src/raw.rs:55-74 | a whole string literal or integer is accepted as exactly that value |
| Raw.TrailingTextRejected | src/raw.rs:68-69 | a non-digit after a number is left over (`4 4`, `0..5`) |
| Raw.UnquotedRejected | src/raw.rs:51-53 | unquoted text is no literal |
| Raw.UnclosedRejected | src/raw.rs:52 | a string without its closing quote is no literal |
| Raw.DoubleMinusRejected | src/raw.rs:67 | `--4` is no literal |
| Space.Before | src/space.rs:5-13 | fails exactly when `f` fails on the text after the blanks |
| Space.After | src/space.rs:15-24 | fails exactly when `f` fails; the output is `f`'s |
| Space.Around | src/space.rs:26-31 | fails exactly when `f` fails on the text after the leading blanks |
| Space.BeforeSkips | src/space.rs:9-12 | any run of blanks is skipped and `f` sees exactly what follows |
| Space.AfterSkips | src/space.rs:19-23 | the blanks after `f`'s match are consumed and the output is `f`'s |
| Space.AroundSkips | src/space.rs:30 | blanks on both sides of what `f` reads are skipped |
| Operators.SignByte | src/operators.rs:64-71 | every sign has its byte among `+ - * / %` |
| Operators.ParseSign | src/operators.rs:64-71 | succeeds exactly on one of `+ - * / %`, consumes it, and gives the sign of that byte |
| Operators.SignRoundTrip | src/operators.rs:64-71 | every sign is read back from its byte |
| Operators.Parse | src/operators.rs:57-62 | a success is a left operand directly followed by a sign byte, then a right operand |
| Operators.ParseReads | src/operators.rs:57-62 | operand, sign and operand are read as that operation |
| Operators.BlankBeforeSignRefused | src/operators.rs:59 | a blank before the sign is not skipped, so the parse fails |
| Operators.AddValues | src/operators.rs:44-54 | never an error; defined exactly when a side is `null`, and then the other side (`null + null` is `null`) |
| Operators.Apply | src/operators.rs:31-37 | only `Add` with a `null` side succeeds, giving the non-null side; nothing is an error |
| Operators.Broadcast | src/operators.rs:28-40 | no outcome of any pair is an error |
| Operators.Sums | src/operators.rs:44-54 | every value of a successful broadcast is one of the operand values |
| Operators.Row | src/operators.rs:30-39 | one outcome per right value, in order |
| Operators.BroadcastLength | src/operators.rs:28-40 | the broadcast has one outcome per pair of values |
| Operators.RowSums | src/operators.rs:51 | one value per right operand, the non-null side of each pair |
| Operators.SumsLength | src/operators.rs:28-40 | the values of a broadcast number one per pair |
| Operators.SumsAt | src/operators.rs:28-40 | the pair `(i, j)` sits at position `i` times the number of right values, plus `j`: left values outermost |
| Operators.BroadcastShape | src/operators.rs:31-38 | no pair is an error, and every successful pair gives one value |
| Operators.BroadcastContains | src/operators.rs:29-30 | every pair of a left and a right value is applied |
| Operators.BroadcastEmpty | src/operators.rs:29-30 | no left or no right values means no outcomes |
| Operators.BroadcastSingle | src/operators.rs:29-30 | one left value gives exactly its row |
| Query.IterateResults | src/operators.rs:41 | succeeds exactly when every outcome succeeds; a failure is one of the outcomes |
| Query.Concat | src/combinator.rs:11 | combining two outcomes reports one of them when it fails |
| Query.Execute | src/combinator.rs:9-34 | the only error any query reports is `Index(found, kind)` with `found` not `null` and `kind` one of `string`, `number`, `slice`: operators, literals, `Split`, `Chain`, `Optional` and construction raise no error of their own, and an `Index` on `null` gives `null` |
| Query.Bind | src/combinator.rs:20 | binding passes on a failure and raises no new kind of error |
| Query.ExecuteEach | src/combinator.rs:20 | `iterate_values` reports only the errors `execute` reports |
| Query.IterateResultsValues | src/combinator.rs:11 | when all outcomes succeed, their values are concatenated in order |
| Query.IterateResultsFirstFailure | src/combinator.rs:11 | the first outcome that is not `Ok` is the result |
| Query.IterateResultsPrefix | src/operators.rs:41 | a failing prefix decides the result for every extension |
| Query.IterateResultsNoErr | src/operators.rs:41 | without an error among the outcomes there is none in the result |
| Query.IterateResultsAppend | src/operators.rs:41 | two runs of outcomes combine as their two results |
| Query.IterateSingles | src/combinator.rs:11 | single-value outcomes are listed in order |
| Query.ExecuteOp | src/operators.rs:24-42 | the nested loops compute exactly the operator's outcome |
| Query.ApplyAll | src/operators.rs:28-41 | the loops push every pair, left outermost, and give `iterate_results` of the broadcast, stopping at an unimplemented pair |
| Query.StopsAt | src/operators.rs:38-41 | the first unimplemented pair reached decides the outcome |
| Query.OpPropagates | src/operators.rs:25-26 | a failure of the left operand, then one of the right operand, is passed on; two successful operands never give an error |
| Query.OpCartesian | src/operators.rs:24-42 | a successful operator had successful operands and gives the sum of every pair in cartesian order |
| Query.RowValues | src/operators.rs:30-39 | a successful row gives the sums of its pairs |
| Query.BroadcastValues | src/operators.rs:28-41 | a successful broadcast gives the sums of every pair in cartesian order |
| Query.BroadcastNullRight | src/operators.rs:51 | adding a single `null` on the right gives the left values back |
| Query.RowNullLeft | src/operators.rs:51 | `null` added to each right value gives the right values back |
| Query.BroadcastNullLeft | src/operators.rs:51 | adding a single `null` on the left gives the right values back |
| Query.BroadcastUnimplemented | src/operators.rs:31-37 | one unimplemented pair makes the whole broadcast unimplemented |
| Query.OpAddNullRight | src/operators.rs:50-51 | `v + null` gives `v` |
| Query.OpAddNullLeft | src/operators.rs:51 | `null + v` gives `v` |
| Query.OpNoOperands | src/operators.rs:28-41 | an operand with no results gives no results, whatever the sign |
| Query.OpUnimplemented | src/operators.rs:31-41 | a pair outside the implemented `null` cases makes the operator unimplemented |
| Query.IndexCases | src/index.rs:25-41 | `Index` on `null` gives `null`; otherwise one value or `Index(type, kind)` of a non-null value |
| Query.Runs | src/combinator.rs:20 | the outcome of the query on each value, in order |
| Query.EachIterates | src/combinator.rs:20 | `iterate_values` is `iterate_results` over the outcomes of each value |
| Query.EachOk | src/combinator.rs:20 | `iterate_values` succeeds exactly when the query succeeds on every value |
| Query.EachValues | src/combinator.rs:20 | when it succeeds, it concatenates the results in order |
| Query.EachFirstFailure | src/combinator.rs:20 | the first value without success decides it |
| Query.EachIdentity | src/combinator.rs:20 | `Identity` on each value gives the values back |
| Query.EachAppend | src/combinator.rs:20 | two runs of values combine as their two results |
| Query.SplitCases | src/combinator.rs:9-13 | succeeds exactly when both sides do, then left results before right ones; otherwise the first failure, with an unimplemented side winning |
| Query.IterateResultsPair | src/combinator.rs:11 | `iterate_results` of two outcomes combines them |
| Query.ChainStep | src/combinator.rs:18-22 | `Chain` binds the first query's outcome to the second query |
| Query.ChainCases | src/combinator.rs:18-22 | a failure of the first query passes through without running the second; otherwise the second runs on each result |
| Query.ChainValues | src/combinator.rs:20 | when the second query succeeds on every result of the first, the results are concatenated in order |
| Query.ChainFirstFailure | src/combinator.rs:20 | the first result on which the second query fails decides the chain |
| Query.ChainIdentity | src/combinator.rs:18-22 | `Identity` is a unit of `Chain` on either side |
| Query.ChainEach | src/combinator.rs:18-22 | binding to `c` after `b` over many values agrees, up to the failure reported, with running `Chain(b, c)` on each |
| Query.ChainAssociative | src/combinator.rs:18-22 | the two groupings of a chain agree on success and on the values |
| Query.LeftGroupingFails | src/combinator.rs:20 | grouped to the left, a failure of `b` on a later value is reported before `c` runs |
| Query.RightGroupingFails | src/combinator.rs:20 | grouped to the right, a failure of `c` on an early result is reported first |
| Query.ChainRegroupingChangesError | src/combinator.rs:20 | a concrete chain whose two groupings report different errors |
| Query.ConcatAssociative | src/combinator.rs:11 | combining outcomes is associative |
| Query.SameOkConcat | src/combinator.rs:11 | combining preserves agreement on success and values |
| Query.OptionalCases | src/combinator.rs:27-34 | never an error; an error becomes no results; anything else passes through unchanged |
| Query.ConstructCases | src/construction.rs:17-19 | succeeds exactly when the inner query does, with one array of its results in order (`[[]]` for no results); failures pass through |
| Combinator.Optional | src/combinator.rs:36-49 | fails exactly when `f` fails |
| Combinator.OptionalMarked | src/combinator.rs:41-47 | a `?` after what `f` reads wraps the query in `Optional` and is consumed |
| Combinator.OptionalUnmarked | src/combinator.rs:42-46 | without a `?` the result is `f`'s |
| Combinator.OptionalTakesOneMark | src/combinator.rs:42 | only one `?` is taken |
| Combinator.Chain | src/combinator.rs:51-64 | fails exactly when `f` fails |
| Combinator.ChainJoins | src/combinator.rs:56-60 | when a chain element follows, the result is `Chain` of the two and both are consumed |
| Combinator.ChainAlone | src/combinator.rs:57-61 | when none follows, the result is `f`'s |
| Combinator.ChainParsedRuns | src/combinator.rs:59 | a parsed chain passes on a failure of its first query |
| Combinator.OptionalParsedNeverErrs | src/combinator.rs:44 | a parsed `Optional` never reports an error |
| LegacyQuery.TypeString | src/query.rs:158-167 | the name is one of the six capitalised variant names, and it is `Null` exactly for `Null` |
| LegacyQuery.Execute | src/query.rs:31-44 | the only error is `MismatchingTypes`, naming one of `Object`, `Array`, `Array or String`, `Object or Array` and a type that is not `Null`; `IndexOutOfBounds` and `IndexDoesNotExist` are never raised |
| LegacyQuery.IndexObject | src/query.rs:87-104 | on a non-null value, an error is such a type mismatch |
| LegacyQuery.IndexArray | src/query.rs:106-133 | (corrected at `i == -len`, see Findings) on a non-null value, an error is such a type mismatch |
| LegacyQuery.SliceValue | src/query.rs:135-156 | on a non-null value, an error is such a type mismatch |
| LegacyQuery.Iteration | src/query.rs:56-85 | on a non-null value, an error is such a type mismatch |
| LegacyQuery.ExecuteEach | src/query.rs:78-84 | collecting over many values raises only such type mismatches |
| LegacyQuery.Outputs | src/query.rs:80 | the results of `next` on each value, in order |
| LegacyQuery.ExecuteEachOk | src/query.rs:78-84 | collecting succeeds exactly when `next` succeeds on every value |
| LegacyQuery.ExecuteEachValues | src/query.rs:78-84 | when it succeeds, the results are concatenated in order |
| LegacyQuery.ExecuteEachFirstError | src/query.rs:81 | the error of the first failing value is the error of the whole |
| LegacyQuery.CollectChildren | src/query.rs:57-68 | the loops push every array element, or every object value in key order |
| LegacyQuery.Iterate | src/query.rs:56-85 | the loops compute exactly the iteration: collect the children, run `next` on each and stop at the first error |
| LegacyQuery.NullAbsorbs | src/query.rs:32-34 | a `null` input gives `[null]` for every query |
| LegacyQuery.EmptyAndIdentity | src/query.rs:36-37 | `Empty` gives nothing and `Identity` gives the input |
| LegacyQuery.ObjectIndexCases | src/query.rs:87-104 | a present key runs `next` on its value; an absent key gives `[null]`; a non-object gives nothing with `opt`, else a type mismatch |
| LegacyQuery.ArrayIndexCases | src/query.rs:106-133 | (corrected at `i == -len`, see Findings) element `i` or `len + i` goes to `next`; out of range gives `[null]`; a non-array gives nothing with `opt`, else a type mismatch |
| LegacyQuery.IteratorCases | src/query.rs:56-85 | succeeds exactly when `next` succeeds on every child, then concatenates in order; a scalar gives nothing with `opt`, else a type mismatch |
| LegacyQuery.SliceCases | src/query.rs:135-156 | (corrected, see Findings and Left out) `next` runs on the sub-array or byte sub-string between the normalised bounds; other inputs give nothing with `opt`, else a type mismatch |
| LegacyQuery.ExampleNegativeIndex | src/query.rs:228-230 | `.[-2]` on `[1,2,3]` gives `2` |
| LegacyQuery.ExampleSlices | src/query.rs:250-264 | `.[2:4]` and `.[-2:]` on arrays, and `.[2:4]` on a string |
| LegacyQuery.ExampleKeys | src/query.rs:182-203 | `.foo` with the key present and `.foo?` with it absent |
| LegacyFilter.Apply | src/filter.rs:18-31 | the only error is `MismatchingTypes`, naming one of the four expectations and a type that is not `Null` |
| LegacyFilter.IndexObject | src/filter.rs:67-84 | on a non-null value, an error is such a type mismatch |
| LegacyFilter.IndexArray | src/filter.rs:86-113 | (corrected at `i == -len`, see Findings) on a non-null value, an error is such a type mismatch |
| LegacyFilter.SliceValue | src/filter.rs:115-134 | on a non-null value, an error is such a type mismatch |
| LegacyFilter.Iteration | src/filter.rs:43-65 | on a non-null value, an error is such a type mismatch |
| LegacyFilter.ApplyEach | src/filter.rs:59-64 | collecting over many values raises only such type mismatches |
| LegacyFilter.Iterate | src/filter.rs:43-65 | the loops compute exactly the iteration of the filter copy |
| LegacyFilter.FilterMatchesQuery | src/filter.rs:18-31 | on every filter and input, the filter copy gives what the query evaluator gives |
| LegacyFilter.EachMatches | src/filter.rs:59-64 | the two copies agree when they collect over many values |
| LegacyFilter.NullAbsorbs | src/filter.rs:19-21 | a `null` input gives `[null]` for every filter |
| LegacyParse.Num | src/parse.rs:103-114 | a success starts with a digit or with `-` and a digit, consumes input, stops before a digit and fits in an `isize` |
| LegacyParse.SignedDigits | src/parse.rs:105-112 | a success starts with a digit and fits in an `isize` |
| LegacyParse.Key | src/parse.rs:64-67 | a key is non-empty, alphabetic, and consumes input |
| LegacyParse.Bounds | src/parse.rs:90-94 | a success consumes input and its bounds fit in an `isize` |
| LegacyParse.BothBounds | src/parse.rs:91 | as `Bounds`, for `a:b` |
| LegacyParse.UpperBound | src/parse.rs:92 | as `Bounds`, for `:b` |
| LegacyParse.LowerBound | src/parse.rs:93 | as `Bounds`, for `a:` |
| LegacyParse.Parser | src/parse.rs:45-53 | every success consumes the whole input and is a chain ending in `Identity` |
| LegacyParse.ObjectIndex | src/parse.rs:62-73 | a success starts with `.`, consumes everything, and is an object index heading a chain |
| LegacyParse.ArrayIndex | src/parse.rs:75-85 | a success starts with `[`, consumes everything, and is an array index heading a chain |
| LegacyParse.Slice | src/parse.rs:87-101 | a success starts with `[`, consumes everything, and is a slice heading a chain |
| LegacyParse.Iterator | src/parse.rs:55-60 | a success starts with `[`, consumes everything, and is an iterator heading a chain |
| LegacyParse.AfterDot | src/parse.rs:38-40 | succeeds exactly on a `.` followed by what the parser accepts |
| LegacyParse.InitParser | src/parse.rs:35-43 | a success consumes everything and the input starts with `.` |
| LegacyParse.Parse | src/parse.rs:22-33 | results are well formed; a non-empty accepted text starts with `.`; leftover characters are never reported; only `""` gives `Empty` |
| LegacyParse.Print | src/parse.rs:22-43 | only `Empty` prints as nothing, and every other filter's text starts with `.` |
| LegacyParse.ParsePrint | src/parse.rs:22-53 | every well-formed filter is parsed back from its printed text |
| LegacyParse.ParserReadsChain | src/parse.rs:45-53 | every printed chain is read back, each element through its own alternative after the earlier ones fail |
| LegacyParse.NumReads | src/parse.rs:103-114 | every `isize` is read back from its text |
| LegacyParse.SignedDigitsNegated | src/parse.rs:110-112 | with the sign, the digits are read as without it and negated |
| LegacyParse.OptReads | src/parse.rs:57 | a printed `?` is read back as the flag |
| LegacyParse.BoundsReads | src/parse.rs:88-96 | every printed range is read back, up to any byte that cannot continue a number |
| LegacyParse.ObjectIndexReads | src/parse.rs:62-73 | `.key` reads the whole key and goes on with what follows |
| LegacyParse.ArrayIndexNotSlice | src/parse.rs:87-96 | `[n]` is not a slice |
| LegacyParse.ArrayIndexReads | src/parse.rs:75-85 | `[n]` is read as an array index |
| LegacyParse.SliceReads | src/parse.rs:87-101 | `[bounds]` is read as a slice |
| LegacyParse.IteratorReads | src/parse.rs:55-60 | `[]` is neither a slice nor an array index, and is read as an iterator |
| LegacyParse.InitParserReadsBracket | src/parse.rs:38-40 | a chain that starts with a bracket is read after the leading `.` |
| LegacyParse.DotBracketNotObjectIndex | src/parse.rs:62-67 | `.` followed by `[` without `"` is not an object index |
| LegacyParse.DoubleDotRefused | src/parse.rs:122 | `..` followed by anything is refused |
| LegacyParse.DotBeforeBracketRefused | src/parse.rs:173 | after the first element a bracket may not follow a `.` (`.[0].[0]`, `.[].[]`) |
| LegacyParse.QuestionRefused | src/parse.rs:68 | a second `?` is refused |
| LegacyParse.EmptySliceRefused | src/parse.rs:191 | `[:]` is neither bounds nor anything else, and `.[:]` followed by anything is refused |
| LegacyParse.DoubleMinusRefused | src/parse.rs:194 | `--` starts no number, and `.[--` followed by anything is refused |
| LegacyParse.NotElement | src/parse.rs:35-43 | after `.`, a bracket that opens no slice, index, iterator or quoted key is refused |
| LegacyParse.BracketLetterRefused | src/parse.rs:150-153 | a letter right after `.[` is refused, whatever follows (`.[foo]`, `.[f$$]`, `.[foo"]`) |
| LegacyParse.OpenBracketRefused | src/parse.rs:130 | `.[` is refused |
| LegacyParse.CloseBracketRefused | src/parse.rs:131 | `.]` followed by anything is refused |
| LegacyParse.UnclosedQuotedKeyRefused | src/parse.rs:152 | a quoted key not closed by `"]` is refused (`.["foo]`) |
| LegacyParse.BoundsNotIndex | src/parse.rs:75-85 | the bounds of a slice, whatever follows, are never an array index |
| LegacyParse.SliceStopsBefore | src/parse.rs:87-101 | bounds followed by `:` do not close a slice |
| LegacyParse.SecondColonRefused | src/parse.rs:192-196 | any bounds followed by a second `:` are refused (`.[1::2]`, `.[:2:]`, `.[-2:4:]`, `.[:-2:4]`) |
| LegacyParse.AfterKeyRefused | src/parse.rs:149 | after a bare key, a byte that is not a letter, `.`, `[` or `?` is refused (`.f$$`) |
| LegacyParse.QuotedKey | src/parse.rs:66 | the key of `["key"]` is read up to the closing `"]` |
| LegacyParse.QuotedKeyReads | src/parse.rs:62-73 | `.["key"]` gives the same element as `.key` followed by the same text |
| LegacyParse.QuotedKeyParses | src/parse.rs:62-73 | `.["key"]` and `.key` followed by the same text (not a letter) parse to the same result |
| LegacyParse.QuotedKeyChain | src/parse.rs:157-158 | `.["key"]`, an optional `?` and a printed chain parse to the object index of `key` heading that chain |
| LegacyParse.ParsedAsObjectIndex | src/parse.rs:35-43 | after `.`, a letter or `["` is accepted exactly when the object-index alternative accepts it |
| LegacyParse.ExampleKeys | src/parse.rs:159-166 | `.foo.bar` nests to the right and ends in `Identity` |
| LegacyParse.ExampleIndices | src/parse.rs:177-186 | `.[5][8]?` nests to the right, with the flag on the second element |
| LegacyParse.ExampleSlice | src/parse.rs:198 | `.[-1:2]` is the slice `New(-1, 2)` |

## Left out

- The command-line driver (src/main.rs): reading standard input and arguments, JSON decoding and printing.
- Raw.Parser, Raw.Parse: floating-point numbers are left out. Numbers are integers, and the float alternative of the literal parser (src/raw.rs:36-38) is not modelled, so texts the source reads as floats are refused here. Only texts on which `i32` itself fails reach `float`, such as `.5` and integers outside the 32-bit range such as `2147483648`; a text such as `1.5` is read by `i32` as `1` with `.5` left over, and both the source and the model refuse it.
- The `todo!()` arms of src/operators.rs. They are the single outcome `Unimplemented`; no semantics are invented for them.
- The conversion of nom errors to `ParseError`, nom's `Failure` and `Incomplete` results, and the error messages of the `#[error]` attributes. A failed parse is one recoverable `Fail`, and errors are compared by variant and payload.
- `from_utf8(...).unwrap()` (src/parse.rs:29,71) is not modelled, because it cannot panic: a key is ASCII letters (`LegacyParse.Key`), and leftover characters are never reported (`LegacyParse.Parse`).
- Index.Execute, Index.StringSliceRoundTrip, LegacyQuery.SliceValue, LegacyQuery.SliceCases, LegacyFilter.SliceValue: a string is sliced by bytes and never panics. In the source, `s[range]` on a `String` (src/index.rs:29, src/query.rs:144, src/filter.rs:124) panics when a normalised bound falls inside a multi-byte UTF-8 character; the model gives the byte sub-string instead, which need not be UTF-8. `Access.StrSliceAsWritten` states exactly when the source panics, and `Index.StringSliceSplitsCharacter` shows `.[0:1]` on `"é"`. The intended result is not evident (bytes or characters), so no corrected behaviour is claimed.
- Query.Execute: the node-based `Query` enum, `execute`, `iterate_results` and `iterate_values` are defined from their uses. Its variants `Empty`, `Recurse`, `Iterator` and object construction are not in this model's sources.
- Query.SplitCases: `Split` evaluates both branches before combining them (src/combinator.rs:11 builds the vector of both outcomes first), so a `todo!()` panic in the right branch wins over an error of the left one, and the model's `Unimplemented` wins likewise.
- Query.ChainAssociative: the two groupings agree only on success and on the values. Which failure is reported can differ (`Query.ChainRegroupingChangesError`).
- Index.IndexArray, Index.Execute: `.[-2147483648]` reaches `let j = -i as usize;` (src/index.rs:54) with `i == i32::MIN`, since nom's `i32` accepts that value. Negating it panics in a debug build and wraps in a release build, where the cast gives a huge `usize` and the result is `null`. The model follows the release build: the position `2^31` is beyond every array shorter than `2^31` elements, so the result is `null`.
- LegacyParse.Num: negating `isize::MIN` cannot occur, because `num` refuses magnitudes above `isize::MAX` before negating.
- LegacyParse.Num, LegacyParse.Bounds: `isize` is taken to be 64 bits wide (`ISIZE_MAX` is `2^63 - 1`), as on the usual 64-bit targets; a 32-bit build would refuse larger indices.
- `range::parse`, `parse_init` and `parse_chain` are function parameters, so their grammars are not modelled.
- The `Parseable` and `Executable` default methods: `Raw.Parse` assumes the whole input must be consumed.
- Index.IndexArray, Index.Execute, LegacyQuery.ArrayIndexCases, LegacyQuery.IndexArray, LegacyFilter.IndexArray, LegacyQuery.SliceCases, LegacyQuery.SliceValue, LegacyFilter.SliceValue: these use the corrected array position and slice of the findings below, not the code as written: `-len` selects the first element where the source gives `null`, and a span with `l > u` is empty where the source panics.

## Findings

| source | as written | input that shows it | evidently intended | confidence | as-written member | corrected member |
|---|---|---|---|---|---|---|
| src/index.rs:55 | a negative index `i` with `-i >= len` yields `null` (also src/query.rs:110 and src/filter.rs:90) | `.[-3]` on `[1,2,3]` yields `null` | `-len` selects the first element, as `-k` selects `len - k` for every `0 < k <= len` | high, not executed | Access.ArrayPositionAsWritten | Access.ArrayPosition |
| src/index.rs:34 | `vec[range]` on the normalised span, which may have `l > u` (also src/index.rs:29, src/query.rs:139,144 and src/filter.rs:119,124) | `.[3:2]` on an array of ten elements panics | a span with `l >= u` is an empty slice | high, not executed | Access.SliceAsWritten | Access.SliceOf |
