# A verified model of the slice collector and the map utilities

This project models, in Dafny, the core of a small Go utility library:

- **The collector engine.** `Collect` in slice/slice.go walks an input slice index by index. At each index it resets a per-element context and invokes a caller-supplied handler. The handler does one of three things:
  - keeps a value with `SetValue`;
  - skips the element with `Continue(errs...)`;
  - halts the run with `Stop(errs...)`.

  The non-nil errors passed to `Continue` and `Stop` are gathered, tagged with their index and element, into an ordered `SliceError`. `Filter` is built on the engine.
- **The sequence primitives** of slice/slice.go: `Reduce`, `Every`, `Some`, `Map`, `Find`, `Contains`, `Chunk`, `Flatten` and `ForEachChunk`.
- **The error aggregate** of slice/error.go: `ElemError` and `SliceError`, with their `Error`, `Unwrap`, `At` and `OriginAt` methods.
- **The map utilities** of record/record.go: `Keys`, `Values`, `Clone`, `Merge`, `Filter`, `MapValues`, `ToSet`, `Associate`, `SortedKeys` and `SortedValues`.

## Modules

| file | module | models |
|---|---|---|
| `wrappers.dfy` | `Wrappers` | `Option`, which stands for Go's nil (a nil error, a nil function value, a nil slice or map) |
| `slice_error.dfy` | `SliceErrors` | slice/error.go |
| `collector.dfy` | `Collector` | `Collect`, its context, and `Filter` from slice/slice.go |
| `slices.dfy` | `Slices` | the other primitives of slice/slice.go |
| `record.dfy` | `Record` | record/record.go |

### The handler as a decision

In Go the handler receives a mutable context. `Continue` and `Stop` record their errors, set a flag and panic. The engine recovers the panic and reads the flags.

In the model the handler is a pure function (`Collector.Step`) of what the context lets it read:
- the input (`Slice()`);
- the index and the element (`CurrentElem()`);
- the results so far (`CurrentResult()`).

It returns a `Decision` naming the context calls it made. There are three kinds:
- `Keep(value)`: it returned normally;
- `Skip(value, errs)`: it called `Continue(errs...)`;
- `Halt(value, errs)`: it called `Stop(errs...)`.

`value` is what it last passed to `SetValue`, if anything. The engine replays those calls on a `Context` object, a class with the Go context's fields. Then it reads the flags exactly as the source does.

### How Collect is specified

`Collect` is a loop proved equal to two things:
- `Run`, a recursive function giving the decisions of a run;
- the summaries `Kept` (the values kept) and `Recorded` (the element errors recorded).

The lemmas then state what the source promises in terms of those functions.

### How maps are ranged over

Go ranges over a map in no specified order. Each loop in `Record` picks the next key with `:|`, so every contract holds in any visiting order.

The sort functions are fixed to `int`. Keys are `int` for `SortedKeys`, and values are `int` for `SortedValues`. `slices.Sort` is modelled by an in-place insertion sort on an `array<int>`, specified only as "sorted permutation".

## Model

| member | source | states |
|---|---|---|
| `SliceErrors.Join` | slice/error.go:53 | nil exactly when every argument is nil; otherwise the non-nil errors in order, and at least one |
| `SliceErrors.Present` | slice/error.go:53 | the non-nil errors: an error is kept exactly when it was given, and there are no more of them than arguments |
| `SliceErrors.PresentAllSome` | slice/error.go:49-53 | when no underlying error is nil, joining keeps every one at its own position |
| `SliceErrors.ElemError.Unwrap` | slice/error.go:24-26 | the underlying error, nil included (a definition; `Message` is stated in terms of it) |
| `SliceErrors.Lines` | slice/error.go:36-41 | the text is at least one character per element (each message is followed by a newline) |
| `SliceErrors.ElemError.Message` | slice/error.go:16-21 | the message of the underlying error, or "" when it is nil |
| `SliceErrors.LinesSnoc` | slice/error.go:37-40 | one more element appends its message and a newline to the aggregate's text |
| `SliceErrors.Causes` | slice/error.go:49-52 | position i holds the unwrapped error of element i, nil ones included |
| `SliceErrors.SliceError.At` | slice/error.go:57-65 | some exactly when 0 <= index < length, and then the element at index |
| `SliceErrors.SliceError.OriginAt` | slice/error.go:68-76 | equals unwrapping `At(index)`: nil out of range, else that element's underlying error |
| `SliceErrors.SliceError.Message` | slice/error.go:32-42 | the concatenation of each element's message plus newline; "" exactly when the aggregate is empty |
| `SliceErrors.SliceError.Unwrap` | slice/error.go:45-54 | nil exactly when every underlying error is nil (an empty aggregate included); otherwise the joined non-nil errors in element order; with no nil, one per element, agreeing with `OriginAt` |
| `Collector.Tag` | slice/slice.go:62-70 | one entry per non-nil error passed |
| `Collector.TagEntries` | slice/slice.go:61-70 | entry k recorded by a call carries the current index, the current element and the k-th non-nil error |
| `Collector.TagSound` | slice/slice.go:61-70 | every recorded entry carries the index, the element and one of the non-nil errors passed |
| `Collector.TagComplete` | slice/slice.go:76-85 | every non-nil error passed produces an entry |
| `Collector.Context.constructor` | slice/slice.go:118-132 | a fresh context: no flags, no value, no recorded errors, at index 0 |
| `Collector.Context.Snapshot` | slice/slice.go:40-58 | the handler sees the input, the current index and element, and the results so far |
| `Collector.Context.SetValue` | slice/slice.go:50-53 | the context now holds that value |
| `Collector.Context.Continue` | slice/slice.go:61-73 | appends one tagged entry per non-nil error, in argument order, and sets `continued` |
| `Collector.Context.Stop` | slice/slice.go:76-88 | appends one tagged entry per non-nil error, in argument order, and sets `stopped` |
| `Collector.Context.Perform` | slice/slice.go:168-185 | after a reset, the flags, the value and the recorded errors are those of the decision the handler made |
| `Collector.Context.Invoke` | slice/slice.go:156-185 | after resetting the per-element state: the index is the one visited and the value is the one the step set; the flags say whether it stopped or continued; the list of the signal taken holds one tagged entry per non-nil error passed, and the other list is empty |
| `Collector.Contribution` | slice/slice.go:200-202 | the value a decision appends to the result (a definition; `DecisionEffects` states its properties) |
| `Collector.Signalled` | slice/slice.go:187-198 | the entries a decision appends to the errors (a definition; `DecisionEffects` states its properties) |
| `Collector.DecisionEffects` | slice/slice.go:187-202 | a decision adds at most one value, and none when it called `Continue` or `Stop`; a decision that returned normally records nothing, one that signalled records one entry per non-nil error it passed |
| `Collector.Run` | slice/slice.go:155-203 | the decisions of the loop over the whole input: no more than one per element |
| `Collector.Kept` | slice/slice.go:200-202 | the values a sequence of decisions appends to the result: at most one per decision |
| `Collector.Recorded` | slice/slice.go:187-198 | the entries a sequence of decisions appends to the errors (a definition; its properties are `RecordedSound`, `RecordedComplete` and `RecordedOrdered`) |
| `Collector.IsRunOf` | slice/slice.go:155-203 | the declarative shape of a run (a predicate; `RunShape` and `RunUnique` connect it with `Run` both ways) |
| `Collector.RunFrom` | slice/slice.go:155-203 | a run from index i visits at most the remaining indices |
| `Collector.Aggregate` | slice/slice.go:204-207 | the returned error is nil exactly when no entry was recorded, and otherwise holds those entries |
| `Collector.KeptAppend` | slice/slice.go:200-202 | the values kept by consecutive stretches of decisions are appended in order |
| `Collector.RecordedSnoc` | slice/slice.go:187-198 | each decision appends its own entries after those recorded before it |
| `Collector.RunAdvance` | slice/slice.go:155-203 | a run advances one index at a time, and ends at a halt |
| `Collector.Collect` | slice/slice.go:108-208 | with a nil handler: no result and nil error; with empty input no handler invocation (and `Run` of empty input keeps and records nothing). Otherwise the decisions made are exactly `Run`, the result is the values kept, and the error is the aggregate of the entries recorded |
| `Collector.Visit` | slice/slice.go:155-203 | the loop over the input: the decisions made are `Run`, the result is the values they keep and the errors are the entries they record |
| `Collector.CollectStep` | slice/slice.go:187-202 | one iteration: a halt ends the run and adds only its entries; a `Continue` adds only its entries; a normal return adds its value, if one was set, and no entry |
| `Collector.RunShape` | slice/slice.go:155-203 | each index is decided on its element and the values kept before it; indices are visited in order; only the last decision can halt; a run ends early only by halting |
| `Collector.RunUnique` | slice/slice.go:155-203 | any sequence of decisions with that shape is `Run`: the input and the handler determine the run |
| `Collector.HaltEndsRun` | slice/slice.go:187-192 | a halt at k is the last decision; the result is what was kept before k, so a value set at k is dropped; the errors are those before k plus the halt's own |
| `Collector.RecordedSound` | slice/slice.go:61-88 | every recorded entry is a non-nil error that `Continue` or `Stop` received at its index, tagged with that index's element |
| `Collector.RecordedComplete` | slice/slice.go:61-88 | every non-nil error passed to `Continue` or `Stop` during the run is recorded with its index and element |
| `Collector.RecordedOrdered` | slice/slice.go:187-198 | entries are recorded in the order of their indices |
| `Collector.ErrorIffSignalledError` | slice/slice.go:204-207 | nothing is recorded exactly when no `Continue` or `Stop` of the run received a non-nil error |
| `Collector.ErasedAgree` | slice/slice.go:193-202 | decisions that differ only in a value set before `Continue`/`Stop` contribute the same values and entries |
| `Collector.RunFromErased` | slice/slice.go:187-202 | handlers that differ only in values set before a signal make runs of equal length that agree up to those values |
| `Collector.SummaryErased` | slice/slice.go:187-202 | decision sequences that agree up to such values keep the same results and record the same errors |
| `Collector.SignalledValueIgnored` | slice/slice.go:193-202 | a value set before `Continue` or `Stop` never reaches the result, and it changes no error |
| `Collector.Select` | slice/slice.go:211-223 | the selection is no longer than the input |
| `Collector.SelectMembers` | slice/slice.go:211-223 | the selection holds only elements of the input that satisfy the predicate, and every element that does |
| `Collector.MatchDecision` | slice/slice.go:215-221 | the `Filter` handler never stops; it keeps the element, as its value, exactly when the predicate holds, and otherwise continues without an error |
| `Collector.Matching` | slice/slice.go:215-221 | the `Filter` handler as a step: it decides on the current element alone (a definition) |
| `Collector.MatchingKept` | slice/slice.go:215-221 | deciding `SetValue(x)`/`Continue()` by the predicate keeps, over the first k elements, the selection from them |
| `Collector.MatchingRecorded` | slice/slice.go:215-221 | that handler records no error |
| `Collector.MatchingRun` | slice/slice.go:215-221 | the `Filter` handler visits every index, keeps exactly the selection and records no error |
| `Collector.Filter` | slice/slice.go:211-223 | the input itself when it is empty or the predicate is nil; otherwise exactly the elements satisfying the predicate, in order |
| `Collector.SelectEvens` | slice/slice.go:211-223 | the even elements of [1, 2, 3, 4, 5] are [2, 4] |
| `Collector.KeepEvens` | slice/slice.go:193-202 | a handler keeping even elements and skipping odd ones, on [1, 2, 3, 4, 5], gives [2, 4] and no error |
| `Collector.StopAtThirdRun` | slice/slice.go:187-192 | stopping at index 2 ends the run after two keeps and the halt |
| `Collector.StopAtThirdKeepsTwo` | slice/slice.go:187-192 | stopping at index 2 keeps exactly the first two elements ([1, 2] for [1, 2, 3, 4, 5]) |
| `Collector.StopAtThirdRecordsNothing` | slice/slice.go:187-192 | a `Stop()` with no errors records nothing |
| `Collector.StopAtTwoRun` | slice/slice.go:187-192 | `Stop(err)` at the element 2 ends the run after one keep |
| `Collector.StopAtTwoKeepsOne` | slice/slice.go:187-192 | stopping at the element 2 of [1, 2, 3] keeps [1] |
| `Collector.StopAtTwoRecordsError` | slice/slice.go:76-88 | the aggregate holds exactly one entry: index 1, element 2, the error passed to `Stop` |
| `Slices.FoldLeft` | slice/slice.go:230-233 | the left fold the reduction loop computes (a definition; `FoldLeftCons` and `FoldLeftAppend` state its order) |
| `Slices.FoldLeftCons` | slice/slice.go:230-233 | the fold consumes the first element first |
| `Slices.FoldLeftAppend` | slice/slice.go:230-233 | folding a concatenation folds the second part from the result of the first |
| `Slices.Reduce` | slice/slice.go:226-235 | `initial` on empty input or a nil reducer; otherwise the strict left fold of the reducer |
| `Slices.Every` | slice/slice.go:239-249 | true exactly when the predicate is nil or every element satisfies it (so true on empty input) |
| `Slices.Any` | slice/slice.go:253-263 | true exactly when the predicate is non-nil and some element satisfies it (so false on empty input) |
| `Slices.Find` | slice/slice.go:279-290 | not found exactly when the predicate is nil or nothing matches; otherwise the first matching element |
| `Slices.Contains` | slice/slice.go:294-304 | true exactly when the target occurs in the input |
| `Slices.Map` | slice/slice.go:266-275 | nil exactly on empty input or a nil mapper; otherwise the same length, with element i mapped from input i |
| `Slices.ChunkSize` | slice/slice.go:317-319 | sizes of zero or less become 1; positive sizes are kept |
| `Slices.Wrap64` | slice/slice.go:321 | a value in the range of Go's 64-bit `int`, equal to the exact value when that is in range |
| `Slices.Quot` | slice/slice.go:321 | Go's truncating division: the Euclidean quotient for a non-negative dividend, never positive for a negative one |
| `Slices.CapacityAsWritten` | slice/slice.go:321 | the capacity `Chunk` passes to `make`, with Go's 64-bit wrap-around and truncating division (a definition; the three lemmas below are about it) |
| `Slices.CapacityAsWrittenAgrees` | slice/slice.go:321 | when `len + size - 1` does not overflow, the capacity as written is the number of chunks |
| `Slices.CapacityAsWrittenOverflow` | slice/slice.go:321 | when `len + size - 1` overflows, the capacity as written is zero or negative while at least one chunk is needed |
| `Slices.CapacityAsWrittenNegative` | slice/slice.go:321 | two elements in chunks of `math.MaxInt`: the capacity as written is -1, where one chunk is meant |
| `Slices.Capacity` | slice/slice.go:321 | the intended capacity is `len / size` rounded up |
| `Slices.CapacityAtMost` | slice/slice.go:321 | the intended capacity never exceeds the length |
| `Slices.Chunks` | slice/slice.go:322-325 | there is always at least one chunk |
| `Slices.Concat` | slice/slice.go:395-397 | the slices appended one after another (a definition; `ConcatAppend` and `ChunksConcat` are about it) |
| `Slices.TotalLength` | slice/slice.go:389-392 | the sum of the inner lengths `Flatten` counts first (a definition; `ConcatLength` relates it to `Concat`) |
| `Slices.ConcatAppend` | slice/slice.go:395-397 | concatenation distributes over appending lists of slices |
| `Slices.ConcatLength` | slice/slice.go:389-397 | the concatenation is as long as the inner slices together |
| `Slices.ConcatSkipsEmpty` | slice/slice.go:395-397 | empty inner slices contribute nothing |
| `Slices.ChunksConcat` | slice/slice.go:310-327 | the chunks concatenate back to the input |
| `Slices.ChunksShape` | slice/slice.go:321-325 | every chunk but the last has exactly `size` elements, the last has 1 to `size`, and there are ceil(n / size) chunks |
| `Slices.Chunk` | slice/slice.go:310-327 | nil exactly for nil; an empty non-nil list for empty input; otherwise the chunks for the size, with sizes of zero or less counting as 1, exactly as many as the intended capacity |
| `Slices.Flatten` | slice/slice.go:381-399 | nil exactly for nil; otherwise the concatenation of the inner slices, whose length is the sum of theirs |
| `Slices.FirstFailure` | slice/slice.go:342-346 | the first chunk the handler fails on: none exactly when all succeed, otherwise a failing chunk with every earlier one succeeding |
| `Slices.EachInOrder` | slice/slice.go:341-348 | handles chunks in order up to and including the first failure and returns its error; nil after handling all when none fails |
| `Slices.EachAtOnce` | slice/slice.go:350-375 | nil exactly when every handler succeeds; otherwise one of the handlers' errors |
| `Slices.ForEachChunk` | slice/slice.go:335-376 | nil on empty input. Otherwise nil exactly when every chunk's handler succeeds, else some handler's error. Sequentially: the first failure's error, and no later chunk handled. Concurrently: every chunk handled |
| `Record.Enumerates` | record/record.go:10-16 | an order that lists every key of the map exactly once (a predicate; `Keys`, `Values` and `SortedKeys` promise it) |
| `Record.Keys` | record/record.go:10-16 | every key of the map exactly once: as many keys as entries, no repeats |
| `Record.Along` | record/record.go:20-26 | the values at the keys of an order, one per key, in that order |
| `Record.AlongHasValues` | record/record.go:20-26 | along an enumeration of the keys, every key's value occurs, and every entry is the value of some key |
| `Record.Values` | record/record.go:20-26 | as many values as keys; every key's value occurs and every entry is some key's value; the entries follow some enumeration of the keys |
| `Record.ValuesAlong` | record/record.go:22-24 | the range loop visits every key exactly once, appending that key's value |
| `Record.Clone` | record/record.go:29-38 | nil exactly for nil; otherwise the same keys and values |
| `Record.Filter` | record/record.go:57-68 | nil exactly for nil; otherwise exactly the entries satisfying the predicate, with unchanged values |
| `Record.MapValues` | record/record.go:71-80 | nil exactly for nil; otherwise the same keys, each with the mapper applied to its value |
| `Record.Merged` | record/record.go:42-54 | the last map's keys are all in the merge |
| `Record.MergedKeys` | record/record.go:42-54 | the merge's keys are the union of the arguments' keys |
| `Record.MergedLastWins` | record/record.go:48-52 | a key takes its value from the last argument that has it |
| `Record.PutAll` | record/record.go:49-51 | copies every entry of one map into the result, overriding |
| `Record.Merge` | record/record.go:42-54 | the result is the maps laid over one another in argument order |
| `Record.MergeExample` | record/record_test.go:41-49 | merging {a: 1, b: 2} with {b: 3, c: 4} gives {a: 1, b: 3, c: 4} |
| `Record.Elements` | record/record.go:88-90 | the set of a slice's elements, no larger than the slice |
| `Record.ToSet` | record/record.go:83-92 | nil exactly for nil; otherwise the keys are the slice's elements, duplicates collapsed, no more keys than elements |
| `Record.ToSetExample` | record/record_test.go:76-88 | ["a", "b", "a"] gives exactly the two keys "a" and "b" |
| `Record.Associated` | record/record.go:99-104 | the last element's key is present |
| `Record.AssociatedKeys` | record/record.go:99-104 | a key is present exactly when the transform gives it for some element |
| `Record.AssociatedLastWins` | record/record.go:99-104 | a key takes the value of the last element whose transform gives it |
| `Record.Associate` | record/record.go:95-105 | nil exactly for nil; otherwise the associated map, the last element for a key winning |
| `Record.Sort` | record/record.go:110 | the array ends sorted and a permutation of what it held |
| `Record.EnumeratesPermutation` | record/record.go:108-112 | any reordering of the keys is still every key exactly once |
| `Record.SortSlice` | record/record.go:110 | `slices.Sort` on a slice: the same elements, ascending |
| `Record.SortedKeys` | record/record.go:108-112 | every key exactly once, strictly ascending |
| `Record.SortedValues` | record/record.go:115-119 | ascending, and a permutation of the values taken one per key |

## Left out

- `Collect`'s panic and recover mechanism is replaced by the `Decision` datatype. A panic that is not one of the two control signals is propagated by the source; that path is not modelled.
- The `sync.Once` copy behind `Slice()` and the copy made by `CurrentResult()` are aliasing safeguards. In this value model the handler sees the input and the results so far directly.
- Go's nil-versus-empty distinction for the results of `Collect` and `Filter` is not modelled: an empty result is `[]`. The source returns nil when nothing was kept.
- `ForEachChunk`'s concurrent branch: goroutines, the semaphore and the wait group are not modelled. The branch is modelled as handling every chunk and returning one of the handler errors, chosen nondeterministically, which is what its unordered error channel allows.
- Handlers, predicates, mappers, reducers and transforms are pure Dafny functions, so side effects inside them are not modelled. `handled` in `ForEachChunk` counts handler invocations in their place.
- `errors.Join`, `errors.Is` and `errors.As` identity semantics are not modelled: `Unwrap` gives the ordered list of non-nil underlying errors, and an error is a value carrying its message.
- Capacity and preallocation are not modelled for `Map`, `Flatten`, `Values`, `Keys`, `Merge` (its size count), `ToSet` and `Associate`: there the capacity is at most a length and cannot be observed in the results. `Chunk`'s capacity can overflow; see Findings.
- `Record.Filter`, `Record.MapValues` and `Record.Associate` take a non-nil function. With a nil function the source panics only when the map or slice has an entry; on an empty non-nil input it returns an empty map, which the model does not cover.
- `Record.SortedKeys` and `Record.SortedValues` are fixed to `int`, where the source accepts any ordered type, strings included.
- Key types in `Record` are restricted to types with no heap references (`K(!new)`), as quantifying over map keys requires.
- `Record.Values` returns the enumeration it followed as a ghost `order`, because Go does not fix the iteration order.
- `Record.Values` and `Record.Keys` each range over the map on their own, so the model does not relate the order of one call's result to the other's. The doc comment at record/record.go:19 says the order of values matches the order of keys; that holds only within the single loop of `Values`, where each value follows its key's place in the ghost `order`.
- `Slices.Find` returns an `Option` in place of Go's `(zero value, false)` pair.
- `Slices.ForEachChunk`'s sequential branch is specified from the code: it returns at the first failing chunk and never calls the handler on later chunks, in line with the doc comment at slice/slice.go:332, which promises the first error encountered. Only the concurrent branch handles every chunk.
- `Slices.ForEachChunk` takes a non-nil handler. With a nil handler and non-empty input the source panics at the first handler call (slice/slice.go:343, 362); that panic is not modelled.
- `Slices.Chunk` and `Slices.ForEachChunk` model the intended capacity. For a size near `math.MaxInt`, `len + size - 1` overflows in the source, and `make` can receive a negative capacity and panic with "makeslice: cap out of range"; the model returns the chunks instead (see Findings).
- `Slices.Map` requires the element type of the result to have a default value (`Out(0)`), standing for the zero values `make([]Out, n)` fills in before the loop overwrites them; Go needs no such restriction.
- The unused `PipeFn` type is not modelled.

## Findings

| source | as written | input that shows it | evidently intended | confidence | as-written member | corrected member |
|---|---|---|---|---|---|---|
| slice/slice.go:321 | the capacity `(len(input)+size-1)/size` is computed in 64-bit `int`; the sum overflows when `size` is close to `math.MaxInt` | `Chunk([]int{1, 2}, math.MaxInt)`: the sum wraps to `math.MinInt`, the quotient is -1, and `make` panics; `ForEachChunk` on the same input panics too | a capacity equal to the number of chunks (here 1), for example `(len(input)-1)/size + 1`, which cannot overflow | high, not executed | `Slices.CapacityAsWrittenNegative` | `Slices.Capacity` |
