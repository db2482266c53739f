# 1brc-go aggregation engine, modelled in Dafny

The program reads a file of weather readings, one `name;value` per line. Each
value has the form `[-]D.D` or `[-]DD.D`. The program writes, for every
location, its minimum, rounded mean and maximum, sorted by name:
`{name=min/mean/max, ...}`. Values are kept as integer tenths of a degree. The
program has two paths, and this project models both:

- **The sequential scan** (`parseFile`). A line scanner hands over one line at
  a time. Each line with a ';' is folded into a map from name to `Location`
  (min, max, total, count). An insertion-ordered list keeps the names.
- **The concurrent path** (`parseFileWithConcurrency` with `lineOrchestrator`).
  The file is cut into chunks of at most 80 KiB. After each chunk, the next
  start moves back to the last newline at or before the chunk's end, so
  consecutive chunks overlap by a partial line. One worker per chunk
  (`processChunk`) splits its bytes on '\n' and runs `processLine` on each
  piece. `processLine` skips empty pieces, pieces without ';' and values that
  fail a completeness check. The consumer merges the chunk maps as they
  arrive.

Then `createResult` sorts the names in place, looks up each one and writes the
report.

Structure, one module per file:

- `bytes.dfy` (Bytes): byte strings, `strings.Index` for one byte (`IndexOf`),
  `strings.Split` on "\n" (`Split`) and its inverse `Join`.
- `fixed_point.dfy` (FixedPoint): `parseNumber` (`ParseNumber`) and the
  one-decimal formatting of tenths (`FormatTenths`), proved inverse to each
  other.
- `aggregation.dfy` (Aggregation): `Location`, the accumulate-or-insert rule
  (`Insert`, and the `Accumulate` method that performs it on the map), folds
  (`Aggregate`, `Merge`, `MergeAll`) and their algebra. Also the key-list
  invariant (`KeyList`: every map key exactly once).
- `lines.dfy` (Lines): `processLine`, as written and corrected, and the
  sequential scan's reading of a line.
- `sequential.dfy` (Sequential): the scanner's lines and the `parseFile` loop.
- `chunking.dfy` (Chunking): `findNextLineBoundary` and the chunk loop of
  `lineOrchestrator`.
- `concurrent.dfy` (Concurrent):
  - `processChunk`, the workers and the merge loop;
  - coverage: under well-formedness, the chunks together read every line
    exactly once.
- `ordering.dfy` (Ordering): Go's byte-wise string order and `sort.Strings` on
  an array.
- `output.dfy` (Output): rounding of the mean, the entry text and `createResult`.
- `program.dfy` (Program): `run` on both paths, and their agreement.

Two behaviours of the code worth noting:

- A line is skipped only when it is exactly empty. The `strings.Trim` at
  main.go:289 has an empty cutset, so it removes nothing.
- A negative mean that rounds to zero prints as "-0.0", because it is the
  float negative zero.

## Model

| member | source | states |
|---|---|---|
| Bytes.IndexOf | main.go:293 | the result is the position of the first occurrence of the byte, or -1 exactly when the byte does not occur |
| Bytes.Split | main.go:260 | the pieces contain no newline, and joining them with "\n" gives the input back |
| Bytes.SplitJoin | main.go:260 | splitting a join of newline-free pieces gives those pieces back |
| Bytes.SplitAppend | main.go:260 | splitting `a + "\n" + b` gives the pieces of `a` followed by the pieces of `b` |
| FixedPoint.ParseNumber | main.go:181-202 | on a well-formed value (an optional '-', one or two digits, '.', one digit) the result is the place-value reading in tenths, negated after a '-', and lies in -999..999 |
| FixedPoint.FormatThenParse | main.go:181-202 | for -999..999 tenths, the formatted text is a well-formed value and `parseNumber` reads it back to the same number |
| FixedPoint.ParseThenFormat | main.go:181-202 | a canonical value (no leading zero, not "-0.0") is readable, and formatting its parsed value gives the same bytes back |
| FixedPoint.Digits | main.go:170 | the decimal digits of n, with no leading zero, have place value n |
| FixedPoint.FormatTenths | main.go:170 | writes tenths as an optional '-', the whole part in decimal, '.' and the tenths digit; its properties are stated by `FormatTenthsShape`, `FormatThenParse` and `ParseThenFormat` |
| FixedPoint.FormatTenthsShape | main.go:170 | any count of tenths is written as a leading '-' exactly when the count is negative, then only digits up to a '.' second to last, then one digit |
| Aggregation.Combine | main.go:350-357 | counts and totals add; the new minimum is the smaller of the two minima and the new maximum the larger of the two maxima |
| Aggregation.Insert | main.go:114-138 | a new key is stored with its aggregate; a known key gets the new aggregate combined into it; every other key is unchanged |
| Aggregation.Aggregate | main.go:114-138 | the map that folding the entries in order with the accumulate-or-insert rule builds; what it holds per key is stated by `AggregateSummary` |
| Aggregation.Accumulate | main.go:129-138 | the in-place update of one key is the accumulate-or-insert rule `Insert` |
| Aggregation.Merge | main.go:343-361 | the merged map has the keys of both; shared keys are combined, the others keep their aggregate |
| Aggregation.MergeAll | main.go:335-364 | the consumer's fold of the chunk maps in arrival order; its order independence and its equality with one pass over all entries are stated by `MergeAllPermutation` and `MergeAllAggregates` |
| Aggregation.CombineCommutative | main.go:350-357 | combining two aggregates does not depend on their order |
| Aggregation.CombineAssociative | main.go:350-357 | combining three aggregates does not depend on grouping |
| Aggregation.MergeCommutative | main.go:343-361 | merging two maps does not depend on their order |
| Aggregation.MergeAssociative | main.go:343-361 | merging three maps does not depend on grouping |
| Aggregation.MergeEmpty | main.go:317-318 | the empty map is a unit of merging |
| Aggregation.InsertIsMerge | main.go:263-283 | accumulating one line is merging a one-key map |
| Aggregation.AggregateAppend | main.go:263-283 | accumulating two runs of entries in turn equals merging their separate aggregates |
| Aggregation.MergeAllMoveToEnd | main.go:335-364 | any one map of a sequence can be merged last without changing the result |
| Aggregation.MergeAllPermutation | main.go:335-364 | merging chunk maps gives the same result in every arrival order |
| Aggregation.MergeAllAggregates | main.go:335-364 | merging the chunks' aggregates equals aggregating all their entries in one pass |
| Aggregation.ConcatSnoc | main.go:263 | concatenating runs with one more run appends that run |
| Aggregation.AggregateSummary | main.go:114-138 | a key is stored exactly when some reading has it; its Count is the number of its readings, Total their sum, and Min and Max the least and greatest of them |
| Aggregation.CombineValid | main.go:350-357 | combining two aggregates keeps Count >= 1 and Min <= Total/Count <= Max |
| Aggregation.MergeValid | main.go:343-361 | merging maps of valid aggregates gives a map of valid aggregates |
| Aggregation.AggregateValid | main.go:263-283 | accumulating valid readings stores only valid aggregates |
| Aggregation.ObservationsValid | main.go:263-283 | accumulating single readings stores only aggregates with Count >= 1 and Min <= Total/Count <= Max |
| Aggregation.ObservationsConcat | main.go:343-361 | the entries of several chunks together are single readings when each chunk's are |
| Aggregation.KeyListInsert | main.go:114-127 | appending a key to the list only when the map lacks it keeps every map key listed exactly once |
| Lines.ProcessLineAsWritten | main.go:288-314 | the three skips of `processLine` and the parse, with the index-out-of-range outcome `parseNumber` reaches |
| Lines.Complete | main.go:302 | the completeness check: at least three bytes with '.' second to last; what it lets through is stated by `StrictPrefixIncomplete` and `CompleteButUnreadable` |
| Lines.CompleteButUnreadable | main.go:302-306 | the completeness check lets through an unreadable value exactly when the value is "-.X" |
| Lines.AsWrittenPanicsOnMinusDot | main.go:302-306 | the line "x;-.5" passes the check and `parseNumber` then indexes past its end |
| Lines.ProcessLine | main.go:288-314 | agrees with the as-written reading wherever that does not panic; an accepted line yields the prefix before its first ';' and a singleton aggregate |
| Lines.ProcessRecordLine | main.go:288-314 | a line `key;value`, with a key without ';' and a value formatted from tenths in range, is accepted as that key and value |
| Lines.StrictPrefixIncomplete | main.go:302 | no strict prefix of a well-formed value passes the completeness check |
| Lines.StrictPrefixSkipped | main.go:299-305 | a strict prefix of a well-formed line, as left at the end of a chunk, is skipped |
| Lines.ScanLine | main.go:105-112 | the scan skips a line exactly when it has no ';' |
| Lines.ScanEntries | main.go:101-112 | the entries the sequential scan reads, line by line, skipping lines without ';'; stated about by `ScanEntriesObservations` and `WellFormedLinesAgree` |
| Lines.ScanEntriesObservations | main.go:118-123 | every line the scan reads yields a single reading (Min = Max = Total, Count 1) |
| Lines.ChunkEntries | main.go:263-265 | the entries a worker reads from its pieces, in order, skipping what `processLine` skips; stated about by `ChunkEntriesAppend` and `ChunkEntriesObservations` |
| Lines.ChunkEntriesAppend | main.go:263-283 | the entries of two runs of lines are the entries of the first run followed by those of the second |
| Lines.ChunkEntriesObservations | main.go:308-313 | every accepted line yields a single reading (Min = Max = Total, Count 1) |
| Lines.WellFormedLineAgrees | main.go:105-112 | on a well-formed line the scan can read the value, and it yields what `processLine` yields |
| Lines.WellFormedLinesAgree | main.go:101-139 | on well-formed lines the scan and the chunk worker yield the same entries |
| Sequential.ScannerLines | main.go:99-102 | the scanner's lines are the newline-separated pieces when the last piece is not empty, and all but the last piece exactly when it is empty |
| Sequential.ParseFile | main.go:101-139 | the loop builds the aggregate of the scanned entries, and the key list in first-occurrence order, each key once |
| Sequential.FirstOccurrencesKeyList | main.go:114-127 | the keys in first-occurrence order list every aggregated key exactly once |
| Sequential.ScanPrefixStep | main.go:105-138 | one more line adds nothing without ';', and otherwise inserts its entry and appends its key if new |
| Sequential.ScannerLinesAgree | main.go:99-112 | on a well-formed file every scanner line is readable, and the lines yield the entries the chunk workers take from the pieces |
| Chunking.LineBoundary | main.go:367-376 | the result is the start itself outside the file or on a newline; otherwise it is the last newline before it, or -1, and never greater than the start |
| Chunking.FindNextLineBoundary | main.go:367-376 | the stepping loop returns the line boundary of its start |
| Chunking.ChunkEnd | main.go:222-226 | a chunk ends `chunkSize` bytes on or at the end of the file, whichever comes first, never before its start |
| Chunking.Chunks | main.go:216-245 | the (start, end) pairs the chunk loop hands out, from start 0 to the end of the file; their shape is stated by `ChunksCut` |
| Chunking.NextStartAdvances | main.go:216-245 | when every window holds a newline, each next start lies strictly after the current one and no later than the chunk's end, on a newline or at the end of the file |
| Chunking.StallWithoutNewline | main.go:243-244 | without a newline in the window, the next start does not move past the current one |
| Chunking.ChunksCut | main.go:216-245 | the chunks are non-empty, ordered and at most `chunkSize` long; each starts at the previous end's line boundary; the first starts at 0 and the last ends at the end of the file |
| Chunking.LineOrchestrator | main.go:216-245 | the loop hands out exactly the chunks `Chunks` describes, and the last end equals the file size |
| Concurrent.ProcessChunk | main.go:255-286 | the chunk map is the aggregate of the accepted lines among the chunk's newline-separated pieces |
| Concurrent.MergeChunk | main.go:343-361 | folding a chunk map in merges it into the global map, keeps the key list exact and only appends to it |
| Concurrent.MergeRemainingStep | main.go:343-361 | merging one more key of the chunk map extends the merge of the keys already done |
| Concurrent.Runs | main.go:227-241 | the entries of each worker are those of its chunk's bytes |
| Concurrent.SplitAtCut | main.go:260 | cutting at a newline splits the pieces there, and a range starting on the newline has an empty first piece |
| Concurrent.TailSkipped | main.go:299-305 | the tail of a chunk after its last newline, cut inside a well-formed line, contributes nothing |
| Concurrent.TailDropped | main.go:216-245 | a chunk whose end lies past the next chunk's start yields just the entries of the whole lines before that start |
| Concurrent.ChunksCover | main.go:216-245 | on a well-formed file the chunks' entries, chunk after chunk, are exactly the entries of the file's lines |
| Concurrent.RunWorkers | main.go:227-241 | the published maps are the aggregates of the chunks' entries, one per chunk |
| Concurrent.MergeResults | main.go:335-364 | taking the published maps in any arrival order, the consumer ends with their merge and an exact key list |
| Concurrent.ParseFileWithConcurrency | main.go:316-365 | the result is the aggregate of every chunk's entries, which on a well-formed file is the aggregate of the file's lines, with an exact key list |
| Ordering.BelowReflexive | main.go:152 | a name is at or below itself |
| Ordering.BelowAntisymmetric | main.go:152 | two names each at or below the other are equal |
| Ordering.BelowTransitive | main.go:152 | the byte-wise order is transitive |
| Ordering.BelowTotal | main.go:152 | any two names are ordered one way or the other |
| Ordering.Below | main.go:152 | Go's byte-wise string order: a prefix comes first, otherwise the first differing byte decides; that it is a total order is stated by the four lemmas above |
| Ordering.InsertSorted | main.go:152 | inserting into a sorted list keeps it sorted and adds exactly that name |
| Ordering.SortKeys | main.go:152 | the sorted names are in ascending order and are a permutation of the input |
| Ordering.SortedUnique | main.go:152 | two sorted permutations of the same names are equal |
| Ordering.SortKeysUnique | main.go:152 | sorting depends only on which names there are, not on their order |
| Ordering.SortStrings | main.go:152 | the array ends in ascending order and is a permutation of its old contents |
| Ordering.SwapDown | main.go:152 | moving the next name down extends the sorted prefix by one and keeps the contents |
| Ordering.KeyListsSortAlike | main.go:152 | two exact key lists of one map sort to the same names |
| Output.RoundNearest | main.go:172 | the rounded mean is within half a unit of Total/Count, and a tie goes away from zero |
| Output.RoundHalfAway | main.go:172 | the rounded mean has the sign of Total; its distance from Total/Count is stated by `RoundNearest` |
| Output.MeanBetween | main.go:172 | the rounded mean of a valid aggregate lies between its Min and Max |
| Output.MeansBetween | main.go:168-175 | every aggregate of a valid map has Count >= 1 and a rounded mean between its Min and Max |
| Output.FormatAverage | main.go:172-173 | writes the rounded mean as tenths, or "-0.0" for a negative mean that rounds to zero; its properties are stated by `FormatAverageShape` and `NegativeZeroMean` |
| Output.FormatAverageShape | main.go:172-173 | with readings the mean is written as an optional '-', then only digits up to a '.' second to last, then one digit, and without '-' when Total is not negative; without readings it is exactly "+Inf", "-Inf" or "NaN" for a positive, negative or zero Total |
| Output.NoNegativeZero | main.go:170 | a formatted minimum or maximum is never "-0.0" |
| Output.NegativeZeroMean | main.go:172-173 | the mean prints "-0.0" exactly when Total/Count lies strictly between -1/2 and 0 |
| Output.Entries | main.go:168-175 | there is one entry text per name |
| Output.EntryText | main.go:168-175 | name '=' min '/' mean '/' max for one location; stated about by `EntriesIndex` and `RenderHoldsEntry` |
| Output.EntriesIndex | main.go:168-175 | the i-th entry text is name '=' min '/' mean '/' max for the i-th name |
| Output.Render | main.go:147-179 | the report is at least "{}", opening with '{' and closing with '}' |
| Output.JoinedPrefix | main.go:163-166 | joining the first n entries gives the start of joining all of them |
| Output.RenderHoldsEntry | main.go:154-177 | the i-th entry appears whole in the report, after '{' and the entries and separators before it |
| Output.WriteReport | main.go:154-178 | the writer fails exactly when a listed name is missing from the map, naming the first such name; otherwise it writes the report for the names in order |
| Output.CreateResult | main.go:147-179 | the names end up sorted in place; the result fails exactly when a listed name is missing, naming the first; otherwise it is the report of the sorted names |
| Program.CreateReport | main.go:85-92 | given any exact key list of a map, `createResult` succeeds with that map's sorted report |
| Program.Run | main.go:73-93 | each path reports the aggregate of what it read; on a well-formed file both paths write the report of the file's readings |
| Program.PathsAgree | main_test.go:43-59 | on a well-formed file with a newline in every 80 KiB window, the two paths aggregate the same map |
| Program.SequentialAggregates | main.go:114-138 | on any file whose lines are readable, the sequential map holds single readings only, so every stored aggregate has Count >= 1 and a rounded mean between its Min and Max |
| Program.ConcurrentAggregates | main.go:343-361 | on any file the chunks cover, the concurrent map holds single readings only, so every stored aggregate has Count >= 1 and a rounded mean between its Min and Max |

## Left out

- `main` (main.go:32-71): argument handling, CPU profiling and logging are not modelled.
- File I/O: opening, `Stat` and `ReadAt` are not modelled. The file is its byte sequence, and each chunk is the slice of it. The errors of these calls, and of `scanner.Err`, are not modelled. Neither is the dropped chunk on a read error or `io.EOF` (main.go:232-238), since a read inside the file does not fail.
- `bufio.Scanner` is modelled as the newline-separated pieces minus an empty last one. Its stripping of a trailing '\r' and its 64 KiB token limit are left out.
- Concurrency: goroutines, the `WaitGroup`, the channels and the `ctx.Done()` branch are not modelled. The workers are a loop over the chunks. The consumer takes the published maps in any order (`MergeResults`), which covers every interleaving of arrivals. Cancellation is left out.
- Go's map iteration order in the merge loop is modelled as "any remaining key", which covers every order.
- Integers are unbounded: `int64` overflow of Total or Count on huge inputs is not modelled.
- Float rendering is modelled on integer tenths. `FormatFloat(float64(v)/10, 'f', 1, 64)` is taken to print v's exact decimal. That holds for the tenths a well-formed file can produce (|v| <= 999), and for a mean whose total is below 2^52 in magnitude. Beyond that, the float quotient may round differently.
- Output.FormatAverage: with Count 0 it writes "+Inf", "-Inf" or "NaN". No stored aggregate has Count 0, so no proof depends on this.
- Chunking.LineOrchestrator: it requires that every window of `chunkSize` bytes short of the end of the file holds a newline. Without one, the source's loop does not advance and never stops (`Chunking.StallWithoutNewline`).
- Sequential.ParseFile: it requires every line with a ';' to have a readable value after it. The source indexes past the end of a shorter value and panics.
- Ordering.SortStrings: it is an insertion sort in place of Go's pattern-defeating quicksort. Both leave the array in the same final order (`Ordering.SortedUnique`), but their intermediate states differ.
- Concurrent.ProcessChunk: the workers apply the corrected `processLine` (`Lines.ProcessLine`), which skips a value "-.X". Where the source panics on such a line, for instance the file `x;-.5\n`, the model returns a map (see "## Findings").
- Concurrent.ParseFileWithConcurrency: it inherits this from `Concurrent.ProcessChunk`. On a file with a line whose value is "-.X", the model returns a result where the source panics.
- Program.Run: its concurrent path inherits this from `Concurrent.ProcessChunk`. On a file with a line whose value is "-.X", the model returns `Success` where the source panics.
- Program.Run: the proofs about the report rest on well-formed files, and the coverage theorem needs a newline in every window. On other files, the two paths may read different entries.

## Findings

| source | as written | input that shows it | evidently intended | confidence | as-written member | corrected member |
|---|---|---|---|---|---|---|
| main.go:302-306 | the completeness check accepts any value of at least three bytes with '.' second to last, so "-.5" passes; `parseNumber` strips the '-' and, since ".5" has no '.' at index 1, reads index 3 of a two-byte string and panics | the line `x;-.5` | the worker skips a value it cannot parse, as it skips other incomplete values | not executed | Lines.AsWrittenPanicsOnMinusDot | Lines.ProcessLine |
