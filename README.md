# Ranges: a verified model of the pipeline operators

The Ranges library composes lazy views and eager sinks over C++ ranges with
`range | op`. This project models the operators in `lib/` and proves properties about them:

- the lazy views: `Filter`, `Transform`, `DropNullopt`, `Split`, `SplitExpected` and `Join`;
- the eager operators: `AggregateByKey` and `AsVector`;
- the sinks: `Write` and `Out`;
- the entry point `AsDataFlow`.

An upstream range is modelled as the sequence it yields (`seq<T>`). Each operator has two parts:

- **A specification function** on sequences, with the operator's laws proved about it as
  lemmas. Examples: `Filter.Filtered`, `Transform.Mapped`, `DropNullopt.Present`,
  `SplitSpec.SplitAll`, `SplitExpected.Values`/`Errors`, `JoinSpec.Joined`,
  `AggregateByKey.Aggregated`, `Write.WrittenText`.
- **The source's own iterator and range classes**, written imperatively. Each iterator is a
  `class` with the source's fields: the upstream position, and for `Split` and `Join` also the
  token list or match list and the cursor into it. Its skip loops are `while` loops with
  invariants. `Deref`, `Next` and `NotEqual` model `operator*`, `operator++` and
  `operator!=`.
  - Every iterator carries a ghost `Rest()`: what it has still to yield, stated with the
    specification function.
  - `Deref` returns the head of `Rest()`, and `Next` drops it.
  - Each operator's `Collect` method is the range-for over `begin()`/`end()` that
    `| AsVector()` performs, and it is proved to produce the specification function's value.

The composition `range | op` is function application, so a pipeline is a nested call. The
`Pipelines` module proves cross-operator laws and the worked pipelines of the repository's tests.

The sinks write into `Common.OutputStream`, a class whose `text` field only grows. The text an
item prints as (`stream << item`) is a parameter `toText`.

## Model

| member | source | states |
|---|---|---|
| Common.OutputStream.Put | lib/write/write.h:30-33 | `stream << s` appends `s` to the stream's text and changes nothing else |
| Filter.Filtered | lib/filter/filter.h:38-42 | the filtered items number at most the input's, all satisfy the predicate, and all come from the input |
| Filter.FilteredAppend | lib/filter/filter.h:38-42 | filtering distributes over concatenation, keeping upstream order |
| Filter.FilteredMembership | lib/filter/filter.h:38-42 | an item is in the output iff it is in the input and satisfies the predicate |
| Filter.FilterAllAccept | tests/filter_ut.cpp:37-42 | an always-true predicate returns the input unchanged |
| Filter.FilterAllReject | tests/filter_ut.cpp:31-35 | an always-false predicate returns nothing |
| Filter.FilterFilter | tests/filter_ut.cpp:94-115 | `Filter(p) \| Filter(q)` equals `Filter(p && q)` |
| Filter.FilterIterator.constructor | lib/filter/filter.h:16-19 | after `findNext`, the iterator will yield the filtered suffix from its start position |
| Filter.FilterIterator.FindNext | lib/filter/filter.h:38-42 | skips only rejected items: rests on an accepted item or the end, without changing what is left to yield; the predicate is asked about each skipped position once, in order |
| Filter.FilterIterator.Deref | lib/filter/filter.h:21 | the current item satisfies the predicate and is the next filtered item |
| Filter.FilterIterator.Next | lib/filter/filter.h:23-27 | advances past exactly one filtered item |
| Filter.FilterIterator.NotEqual | lib/filter/filter.h:29-31 | iterators differ iff their upstream positions differ |
| Filter.FilterRange.constructor | lib/filter/filter.h:53-54 | the range stores the upstream range and the predicate |
| Filter.FilterRange.Begin | lib/filter/filter.h:56-58 | `begin()` yields exactly `Filtered(range, pred)` |
| Filter.FilterRange.End | lib/filter/filter.h:60 | `end()` sits at the end of the upstream range |
| Filter.Collect | lib/filter/filter.h:16-60 | a full pass yields `Filtered(range, pred)`, and the predicate is called once per upstream item, in upstream order |
| Transform.Mapped | lib/transform/transform.h:20-22 | the output has the input's length and its i-th item is `func` of the i-th input |
| Transform.MappedAppend | lib/transform/transform.h:20-27 | mapping distributes over concatenation |
| Transform.TransformIterator.constructor | lib/transform/transform.h:17-18 | the iterator stands at the given position with the given function |
| Transform.TransformIterator.Deref | lib/transform/transform.h:20-22 | `operator*` is `func` of the current upstream item, the head of what is left |
| Transform.TransformIterator.Next | lib/transform/transform.h:24-27 | advances the upstream position by one and drops one mapped item |
| Transform.TransformIterator.NotEqual | lib/transform/transform.h:29-31 | iterators differ iff their upstream positions differ |
| Transform.TransformRange.constructor | lib/transform/transform.h:45-46 | the range stores the upstream range and the function |
| Transform.TransformRange.Begin | lib/transform/transform.h:48-50 | `begin()` is at upstream position 0 |
| Transform.TransformRange.End | lib/transform/transform.h:52-54 | `end()` is at the upstream end |
| Transform.Collect | lib/transform/transform.h:17-54 | a full pass yields as many items as the input, the i-th being `func(range[i])` |
| DropNullopt.Present | lib/drop_nullopt/drop_nullopt.h:40-44 | the present values are never more than the input items |
| DropNullopt.PresentSound | lib/drop_nullopt/drop_nullopt.h:24 | every output value was present upstream |
| DropNullopt.PresentComplete | lib/drop_nullopt/drop_nullopt.h:40-44 | every present upstream value reaches the output |
| DropNullopt.PresentLength | lib/drop_nullopt/drop_nullopt.h:26-30 | output length equals the number of present items |
| DropNullopt.PresentAppend | lib/drop_nullopt/drop_nullopt.h:40-44 | dropping distributes over concatenation, so absent items anywhere, in runs or at the ends, are simply skipped |
| DropNullopt.PresentAllSome | tests/drop_nullopt_ut.cpp:27-31 | with no absent item, the output is every value unwrapped, position by position |
| DropNullopt.PresentAllNone | tests/drop_nullopt_ut.cpp:21-25 | an all-absent input yields nothing |
| DropNullopt.FilterAfterDrop | tests/drop_nullopt_ut.cpp:83-92 | `DropNullopt() \| Filter(p)` applies `p` to the unwrapped values |
| DropNullopt.DropNulloptIterator.constructor | lib/drop_nullopt/drop_nullopt.h:19-22 | after `skipNullopt` the iterator will yield the present values of its suffix |
| DropNullopt.DropNulloptIterator.SkipNullopt | lib/drop_nullopt/drop_nullopt.h:40-44 | skips only absent items and rests on a present item or the end |
| DropNullopt.DropNulloptIterator.Deref | lib/drop_nullopt/drop_nullopt.h:24 | `current_->value()` is the unwrapped current item and the next output |
| DropNullopt.DropNulloptIterator.Next | lib/drop_nullopt/drop_nullopt.h:26-30 | advances past exactly one present value |
| DropNullopt.DropNulloptIterator.NotEqual | lib/drop_nullopt/drop_nullopt.h:32-34 | iterators differ iff their upstream positions differ |
| DropNullopt.DropNulloptRange.constructor | lib/drop_nullopt/drop_nullopt.h:55-56 | the range stores the upstream range |
| DropNullopt.DropNulloptRange.Begin | lib/drop_nullopt/drop_nullopt.h:58 | `begin()` yields exactly `Present(range)` |
| DropNullopt.DropNulloptRange.End | lib/drop_nullopt/drop_nullopt.h:60 | `end()` is at the upstream end |
| DropNullopt.Collect | lib/drop_nullopt/drop_nullopt.h:19-60 | a full pass yields `Present(range)` |
| SplitSpec.LocalDelimiters | lib/split/split.h:72-75 | the local set always holds `'\n'`, holds exactly the given delimiters plus `'\n'`, and is unchanged when `'\n'` is already there |
| SplitSpec.SplitOn | lib/split/split.h:77-85 | splitting always yields at least one token |
| SplitSpec.Separators | lib/split/split.h:77-83 | the consumed separators number at most the input's characters, and each is a delimiter character occurring in the input; `SplitOnRoundTrip` fixes their order and positions |
| SplitSpec.Chars | lib/split/split.h:66-71 | one single-character token per input character, in order |
| SplitSpec.SplitOnCount | lib/split/split.h:77-85 | token count is the number of delimiter occurrences plus one |
| SplitSpec.SplitOnTokensDelimiterFree | lib/split/split.h:77-85 | no token contains a delimiter character |
| SplitSpec.SplitOnNoDelimiter | lib/split/split.h:77-85 | content without delimiters is a single token, itself |
| SplitSpec.SplitOnAt | lib/split/split.h:80-83 | the first delimiter at position `i` cuts off the token `input[..i]` and splitting resumes after it |
| SplitSpec.SplitOnRoundTrip | lib/split/split.h:77-85 | putting the consumed delimiters back between the tokens reconstructs the content |
| SplitSpec.SplitOnUnique | lib/split/split.h:77-85 | any delimiter-free tokens that interleave with delimiters to the content are the split tokens, so the split is determined by the content |
| SplitSpec.EmptyDelimitersGiveChars | lib/split/split.h:66-71 | with an empty delimiter set the tokens are the single characters of the content |
| SplitSpec.NewlineAlwaysDelimits | lib/split/split.h:72-75 | with a non-empty set, no token contains a delimiter or `'\n'` |
| SplitSpec.TokenCount | lib/split/split.h:77-85 | with a non-empty set, token count is the number of delimiters in the content plus one, and empty content gives `[""]` |
| SplitSpec.DelimiterNotFound | tests/split_ut.cpp:62-67 | content without any delimiter or newline is one token |
| SplitSpec.TokensNonEmpty | lib/split/split.h:32-46 | the token list is non-empty unless both the delimiters and the content are empty |
| SplitSpec.SplitAllAppend | lib/split/split.h:36-49 | the flattened tokens of two upstream ranges are the tokens of each, one after the other |
| Split.FindFirstOf | lib/split/split.h:80 | `find_first_of` returns the first position from `prev` holding a delimiter, or none when there is none |
| Split.SplitString | lib/split/split.h:63-86 | `splitCurrentString` builds exactly `Tokens(content, delimiters)` |
| Split.SplitChars | lib/split/split.h:66-71 | the empty-delimiter branch pushes one token per character |
| Split.SplitAt | lib/split/split.h:72-85 | the find/substr loop builds exactly `SplitOn(content, localDelimiters)` |
| Split.CharsSnoc | lib/split/split.h:66-71 | one more character adds one more single-character token |
| Split.SplitAllFrom | lib/split/split.h:36-49 | the flattened tokens from item `c` on are item `c`'s tokens followed by the rest |
| Split.SplitIterator.constructor | lib/split/split.h:20-26 | the iterator will yield the flattened tokens of its upstream suffix |
| Split.SplitIterator.AtEnd | lib/split/split.h:28 | the end iterator yields nothing |
| Split.SplitIterator.SplitCurrentString | lib/split/split.h:63-86 | `tokens_` becomes the tokens of the current item and the cursor is reset |
| Split.SplitIterator.Deref | lib/split/split.h:32 | `tokens_[current_index_]` is the next flattened token |
| Split.SplitIterator.Next | lib/split/split.h:36-49 | advances past exactly one flattened token, moving to the next item when the token list is used up |
| Split.SplitIterator.NextToken | lib/split/split.h:37 | inside the token list only the cursor moves |
| Split.SplitIterator.NextItem | lib/split/split.h:39-46 | past the last token the iterator moves to the next item and re-splits it |
| Split.SplitIterator.NotEqual | lib/split/split.h:51-54 | iterators differ iff their items differ, or both are before the end with different cursors |
| Split.SplitRange.constructor | lib/split/split.h:138-139 | the range stores the upstream range and the delimiters |
| Split.SplitRange.Begin | lib/split/split.h:141 | `begin()` yields exactly `SplitAll(range, delimiters)` |
| Split.SplitRange.End | lib/split/split.h:143 | `end()` is at the upstream end |
| Split.Collect | lib/split/split.h:20-54 | a full pass yields the concatenation of every item's tokens, in upstream order |
| SplitExpected.Values | lib/split_expected/split_expected.h:23-43 | the success values are never more than the input items |
| SplitExpected.Errors | lib/split_expected/split_expected.h:65-85 | the errors are never more than the input items |
| SplitExpected.BranchLengths | lib/split_expected/split_expected.h:39-85 | the two branch lengths sum to the upstream length |
| SplitExpected.ValuesAppend | lib/split_expected/split_expected.h:39-43 | the success branch distributes over concatenation |
| SplitExpected.ErrorsAppend | lib/split_expected/split_expected.h:81-85 | the error branch distributes over concatenation |
| SplitExpected.ValuesMembership | lib/split_expected/split_expected.h:23-43 | a value is on the success branch iff some upstream item succeeded with it |
| SplitExpected.ErrorsMembership | lib/split_expected/split_expected.h:65-85 | an error is on the error branch iff some upstream item failed with it |
| SplitExpected.BranchesAppend | lib/split_expected/split_expected.h:39-85 | both branches distribute over concatenation |
| SplitExpected.AllSuccessful | tests/split_expected_ut.cpp:69-88 | all successes: empty error branch, and every value in order |
| SplitExpected.AllFailed | tests/split_expected_ut.cpp:90-104 | all failures: empty success branch, and every error in order |
| SplitExpected.IteratorExpected.constructor | lib/split_expected/split_expected.h:18-21 | after `SkipUnexpected` the iterator will yield the values of its suffix |
| SplitExpected.IteratorExpected.SkipUnexpected | lib/split_expected/split_expected.h:39-43 | skips only failures and rests on a success or the end |
| SplitExpected.IteratorExpected.Deref | lib/split_expected/split_expected.h:23-25 | `.value()` of the current success is the next value |
| SplitExpected.IteratorExpected.Next | lib/split_expected/split_expected.h:27-31 | advances past exactly one value |
| SplitExpected.IteratorExpected.NotEqual | lib/split_expected/split_expected.h:33-35 | iterators differ iff their positions differ |
| SplitExpected.IteratorUnexpected.constructor | lib/split_expected/split_expected.h:60-63 | after `SkipExpected` the iterator will yield the errors of its suffix |
| SplitExpected.IteratorUnexpected.SkipExpected | lib/split_expected/split_expected.h:81-85 | skips only successes and rests on a failure or the end |
| SplitExpected.IteratorUnexpected.Deref | lib/split_expected/split_expected.h:65-67 | `.error()` of the current failure is the next error |
| SplitExpected.IteratorUnexpected.Next | lib/split_expected/split_expected.h:69-73 | advances past exactly one error |
| SplitExpected.IteratorUnexpected.NotEqual | lib/split_expected/split_expected.h:75-77 | iterators differ iff their positions differ |
| SplitExpected.RangeExpected.constructor | lib/split_expected/split_expected.h:97 | the success range stores its own copy of the upstream range |
| SplitExpected.RangeExpected.Begin | lib/split_expected/split_expected.h:99-101 | the success branch yields exactly `Values(range)` |
| SplitExpected.RangeExpected.End | lib/split_expected/split_expected.h:103-105 | `end()` is at the upstream end |
| SplitExpected.RangeUnexpected.constructor | lib/split_expected/split_expected.h:117 | the error range stores its own copy of the upstream range |
| SplitExpected.RangeUnexpected.Begin | lib/split_expected/split_expected.h:119-121 | the error branch yields exactly `Errors(range)` |
| SplitExpected.RangeUnexpected.End | lib/split_expected/split_expected.h:123-125 | `end()` is at the upstream end |
| SplitExpected.MakeSplitExpected | lib/split_expected/split_expected.h:152-155 | the adapter only stores the parser |
| SplitExpected.GetSplitRanges | lib/split_expected/split_expected.h:142-146 | two fresh, distinct branch objects, each over its own copy of the range |
| SplitExpected.DrainInterleaved | lib/split_expected/split_expected.h:97-146 | whatever order the two branches are advanced in, the error branch yields `Errors(range)` and the success branch `Values(range)`: advancing one never moves the other |
| JoinSpec.ResultsFor | lib/join/join.h:113-130 | a left item yields one result per match, each with the left value and that match in order, or one result with an absent right value when there is no match |
| JoinSpec.MatchesLength | lib/join/join.h:154-157 | a key's match list holds one value per right item with that key |
| JoinSpec.MatchesSnoc | lib/join/join.h:154-157 | a right item with the key appends its value at the end of the key's list (right order kept) |
| JoinSpec.IndexLookup | lib/join/join.h:154-157 | looking a key up in the built index gives its right values in right order |
| JoinSpec.IndexKeys | lib/join/join.h:154-157 | a key is in the index iff some right item has it, and its list is then non-empty |
| JoinSpec.JoinWithIndex | lib/join/join.h:64-95 | walking the left side against the built index gives the reference join |
| JoinSpec.JoinLength | lib/join/join.h:82-95 | output length is the sum over left items of max(1, number of right items with its key) |
| JoinSpec.JoinAppendLeft | tests/join_ut.cpp:164-174 | the results of a left range are those of its parts, one after the other, so left order is kept |
| JoinSpec.JoinOneLeft | lib/join/join.h:113-130 | a single left item yields exactly its `ResultsFor` its matches |
| JoinSpec.JoinResultOrigin | lib/join/join.h:82-95 | result `i` comes from exactly one left item `left[j]`: the results of `left[..j]` come before it, and it is the entry at `i - \|Joined(left[..j])\|` of `left[j]`'s `ResultsFor` |
| JoinSpec.JoinEmptyRight | tests/join_ut.cpp:79-99 | an empty right side gives one absent-right result per left item |
| JoinSpec.JoinEmptyLeft | tests/join_ut.cpp:79-99 | an empty left side gives no result |
| JoinSpec.KeyExtractor | lib/join/join.h:24-27 | reads `.key`: with the item's `.value` it rebuilds the item |
| JoinSpec.ValueExtractor | lib/join/join.h:29-32 | reads `.value`: with the item's `.key` it rebuilds the item |
| JoinSpec.IdentityExtractor | lib/join/join.h:34-40 | returns the item unchanged |
| JoinSpec.JoinKV | lib/join/join.h:220-223 | the one-argument `Join` keeps the right range, and its extractors read `.key` and `.value` (join.h:24-32) on both sides |
| JoinSpec.JoinOn | lib/join/join.h:225-237 | the three-argument `Join` keeps the right range and the two key extractors, and its identity value extractors keep whole items on both sides |
| Join.BuildIndex | lib/join/join.h:154-157 | the constructor loop builds `RightIndex(right)`, where each key maps to its right values in right order |
| Join.JoinIterator.constructor | lib/join/join.h:64-76 | the iterator will yield the join of its left suffix against the index |
| Join.JoinIterator.UpdateRightValues | lib/join/join.h:113-130 | loads the current left item's matches, or none when its key is missing, and positions on its first result |
| Join.JoinIterator.Deref | lib/join/join.h:80 | `current_` is the next result |
| Join.JoinIterator.Next | lib/join/join.h:82-95 | advances past exactly one result: the next match of the same left item, or the next left item |
| Join.JoinIterator.NextLeft | lib/join/join.h:88-93 | moves to the next left item and loads its matches |
| Join.JoinIterator.NotEqual | lib/join/join.h:97-101 | iterators differ iff their left positions differ, or both are before the end with different match cursors |
| Join.JoinRange.constructor | lib/join/join.h:146-158 | the range holds the left range, the extractors and the built right index |
| Join.JoinRange.Begin | lib/join/join.h:160-163 | `begin()` yields the join of the whole left range |
| Join.JoinRange.End | lib/join/join.h:165-168 | `end()` is at the left end |
| Join.Collect | lib/join/join.h:146-168 | `left \| Join(...) \| AsVector()` is exactly the reference join `Joined` |
| AggregateByKey.AggregatedSpec | lib/aggregate_by_key/aggregate_by_key.h:38-46 | a key is aggregated iff some item has it, and its accumulator is the left-to-right fold, from a fresh copy of the seed, over exactly the items with that key |
| AggregateByKey.AggregatedKeys | lib/aggregate_by_key/aggregate_by_key.h:36-53 | the aggregated keys are exactly the distinct extracted keys |
| AggregateByKey.AggregatedEmpty | tests/aggregate_by_key_ut.cpp:70-82 | empty input aggregates nothing |
| AggregateByKey.AggregatedSingle | tests/aggregate_by_key_ut.cpp:84-98 | one item gives one key, with the aggregator applied once to the seed |
| AggregateByKey.CountingAggregator | tests/aggregate_by_key_ut.cpp:13-34 | counting from 0 gives each key its number of items |
| AggregateByKey.CappedAggregator | tests/aggregate_by_key_ut.cpp:36-68 | an aggregator that stops appending after `cap` items keeps each key's first `cap` items in input order |
| AggregateByKey.MakeAggregateByKey | lib/aggregate_by_key/aggregate_by_key.h:64-70 | the operator stores the seed, the aggregator and the key extractor |
| AggregateByKey.Apply | lib/aggregate_by_key/aggregate_by_key.h:30-56 | the whole input is consumed, then one pair per distinct key is returned, with no key twice and each paired with its aggregated value |
| AggregateByKey.AsDataFlow | lib/aggregate_by_key/aggregate_by_key.h:9-12 | the forwarding `AsDataFlow` yields the container's items unchanged |
| AggregateByKey.AsVector | lib/aggregate_by_key/aggregate_by_key.h:14-18 | the range's items are copied in iteration order |
| Write.Separator | lib/write/write.h:26-33 | the delimiter writes itself, and writes nothing iff it is `'\0'` |
| Write.WrittenAppend | lib/write/write.h:13-35 | writing two ranges one after the other writes their texts one after the other |
| Write.WrittenSnoc | lib/write/write.h:29-33 | one more item appends its text and then the separator |
| Write.WrittenLength | lib/write/write.h:29-33 | the written length is the sum of the item texts, plus one per item when the delimiter is not `'\0'` |
| Write.WrittenEndsWithDelimiter | tests/write_ut.cpp:6-11 | a delimiter follows every item, the last one included |
| Write.MakeWrite | lib/write/write.h:59-62 | `Write(stream, delimiter)` keeps the stream and the delimiter (`'\0'` by default), and the separator it writes is empty iff the delimiter is `'\0'` |
| Write.WriteProxy.constructor | lib/write/write.h:10-36 | the constructor loop appends each item's text and, unless it is `'\0'`, the delimiter; earlier stream content is kept as a prefix |
| Write.Apply | lib/write/write.h:49-52 | `range \| Write(...)` writes `WrittenText(range)` after what the stream held |
| Write.WriteStrings | tests/write_ut.cpp:20-25 | strings written with `' '` give `"Hello World Test "` |
| Write.WriteEmpty | tests/write_ut.cpp:13-18 | empty input writes nothing |
| Out.OutTextAppend | lib/out/out.h:12-14 | output text distributes over concatenation |
| Out.OutIsWriteWithoutDelimiter | lib/out/out.h:26-39 | `Out` writes what `Write` with `'\0'` writes: the item texts, no separator |
| Out.OutProxy.constructor | lib/out/out.h:10-15 | the whole range is written at construction, item texts concatenated after the earlier content |
| Out.OutProxy.OutputItem | lib/out/out.h:26-39 | `outputItem` appends one item's text |
| Out.Apply | lib/out/out.h:46-49 | `range \| Out(stream)` appends `OutText(range)` to the stream |
| AsVector.AsVectorImpl | lib/as_vector/as_vector.h:8-17 | the push-back loop copies every element, in iteration order |
| AsVector.Apply | lib/as_vector/as_vector.h:19-25 | `range \| AsVector()` is the range's elements |
| AsDataFlow.MakeAsDataFlow | lib/as_data_flow/as_data_flow.h:28-30 | the view's bounds are the container's begin and end |
| AsDataFlow.FlowYieldsContainer | lib/as_data_flow/as_data_flow.h:12-19 | the view yields the container's elements in its own order, and nothing for an empty container |
| AsDataFlow.Iterate | lib/as_data_flow/as_data_flow.h:16-19 | iterating from `begin()` to `end()` yields `Elements()` |
| AsDataFlow.CopyIsIndependent | tests/flow_convertions_ut.cpp:129-138 | after `AsDataFlow(input) \| AsVector()`, writing any value at any index of the container changes only that element, and the copy keeps the old contents |
| Pipelines.TransformThenFilter | tests/flow_convertions_ut.cpp:140-149 | `Transform(f) \| Filter(q)` equals `Filter(q . f) \| Transform(f)` |
| Pipelines.EvenNumbers | tests/flow_convertions_ut.cpp:143-144 | the even numbers of 1..10 are 2, 4, 6, 8, 10 |
| Pipelines.SquaresOfEvens | tests/flow_convertions_ut.cpp:145 | their squares are 4, 16, 36, 64, 100 |
| Pipelines.EvenSquares | tests/flow_convertions_ut.cpp:140-149 | `Filter(even) \| Transform(square)` over 1..10 gives 4, 16, 36, 64, 100 |
| Pipelines.EmptyTokensBetweenDelimiters | tests/split_ut.cpp:33-38 | `"a,,b,,,c"` split on `","` gives `a, "", b, "", "", c` |
| Pipelines.EmptyItemGivesEmptyToken | lib/split/split.h:36-85 | for any items `a`, `b` and non-empty delimiters, an empty item between them contributes exactly one empty token: `Tokens(a) + [""] + Tokens(b)` |
| Pipelines.MixedEmptyAndNonEmptyFiles | tests/split_ut.cpp:47-53 | files `"first"`, empty and `"third"` split on `","` give `first, "", third` |
| Pipelines.ParseAndFork | tests/split_expected_ut.cpp:38-51 | `"good-department\|bad department\|\|another-good-department"` split on `"\|"`, parsed and forked: the success branch holds the two good departments in order, and the error branch written with `'.'` is `"Department name contains space.Department name is empty."` |

## Left out

- Stream access in the splitter (`getCurrentContent`, `readFromIfstream`, lib/split/split.h:88-127): it uses type dispatch, `tellg`/`seekg` and `rdbuf`. Each upstream item's content is a given string.
- The `ifstream` branches of the sinks (lib/write/write.h:14-28, lib/out/out.h:28-35): they read whole files. Item text is the abstract `toText` parameter.
- lib/dir/dir.h and lib/open_files/open_files.h are not part of this model. They are file-system I/O.
- Number and floating-point formatting by `operator<<` is not modelled; `toText` stands for it.
- lib/processing.h (only includes) and the result-type deduction (`decltype`, `iterator_traits`) are not part of this model.
- AggregateByKey.Apply: does not state an output order. The pairs are read from an `unordered_map`, whose iteration order is unspecified, so the model chooses the order nondeterministically. The first-seen order that tests/aggregate_by_key_ut.cpp:25-33 expects is not promised by the code.
- AggregateByKey.Apply: the accumulator the source updates in place is a function `(item, acc) -> acc`.
- Split.Collect: requires that no upstream item is empty when the delimiter set is empty. With both empty, `tokens_` is empty and `operator*` would read `tokens_[0]` (lib/split/split.h:32); the source has no defined behaviour there. `Split.SplitIterator.constructor`, `Split.SplitIterator.NextItem` and `Split.SplitRange.Begin` carry the same precondition.
- Split.SplitIterator.Next: the increment is written as `NextToken` (within an item's tokens) or `NextItem` (on to the next item). This is the same two-way branch as `operator++`, with `current_index_ + 1` compared before it is stored.
- The default-constructed iterators (`SplitIterator()`, `JoinIterator() = default`) and `SplitIterator::operator->` are left out. The first two are never used by a range; the last is `operator*` by address.
- Join.JoinIterator: holds the right index as a value, whereas the source holds a reference to the range's map. Nothing changes the map after construction, so the two agree.
- Filter predicates are pure functions. A predicate with state (tests/filter_ut.cpp:117-128) is not modelled; instead `Filter.Collect` returns, as a ghost output, the positions asked about, and proves it asks once per item in order.
- Dead or uninstantiable code is left out: `SplitExpectedAdapter::operator|` calls `GetSplitRanges()` without an argument (lib/split_expected/split_expected.h:137-140), and `FilterRange`'s const `begin`/`end` build a `const_iterator` with three arguments (lib/filter/filter.h:62-68).
- The parser given to `SplitExpected` is stored but never called (lib/split_expected/split_expected.h:131-150), so items reach the adapter already parsed.
- AsDataFlow: a container is an array, and iterators are positions in it. Container-specific iteration order, such as a `std::set` yielding ascending elements, is not modelled. The rvalue overload in lib/aggregate_by_key/aggregate_by_key.h:9-12 is the identity function `AggregateByKey.AsDataFlow`.
- `OutProxy::begin()` and `end()` (lib/out/out.h:17-20) both return a null pointer, so the proxy iterates as empty; they carry no behaviour and are not modelled.
- Iterator categories, `difference_type` and the other typedefs carry no behaviour and are left out.
