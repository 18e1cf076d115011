# Threading lab: sorted linked list, tokenizers, row partition

This project models, in Dafny, the sequential core of the threading lab
`lab_lunes13_Oc`:

- **The list benchmark (`pthread.cpp`).**
  - The sorted, duplicate-free singly-linked list of integers. `ListCoarse`, `ListFine` and `ListRW` all walk it with a `pred`/`cur` pair and splice or unlink one node. With the locks removed the three behave the same, so they become one class, `OrderedList.List`. Its ghost key sequence is tied to the heap nodes by `Valid()`: the nodes are distinct, linked in order from `head`, and their keys strictly ascend.
  - `inicializar_lista`, the bounded-retry warm-up loop, as `Benchmark.Populate`.
  - The per-operation accounting of `trabajador` (`Benchmark.Execute`, `Benchmark.Worker`). The whole pool of workers becomes a sequential interleaving chosen by a schedule (`Benchmark.RunWorkers`).
  - The exit codes of `main` and the per-thread seeds (`Launcher`).
- **The thread-safety demonstration (`thread_safety.cpp`).**
  - The strtok-style tokenizer with a hidden cursor, as the class `Tokenizer.Strtok` over a `char` array. The cursor is a field. A call whose token ends at a delimiter overwrites that delimiter with NUL.
  - Its calling loop (`Tokenizer.Strtok.TokenizeInPlace`).
  - The stateless whitespace splitter (`SafeTokenizer`).
- **The matrix-vector product (`mult_vect.cpp`).**
  - The row-partition loop, which splits `n` rows into `threadCount` contiguous ranges.
  - The per-range worker (`RowPartition`).

Each method is proved against a specification function: `SortedInsert` and `Without` for the list, `Replay` for the benchmark, `Scan` and `Tokens` for the unsafe tokenizer, `Words` for the safe one, and `RangeStart` and `Entry` for the product. Lemmas then prove what the source promises about those functions.

Random number streams become input sequences. Thread interleavings become an input schedule.

## Model

| member | source | states |
|---|---|---|
| OrderedList.AscendingPairs | lab_lunes13_Oc/pthread.cpp:68 | Neighbour-wise ascent, which is what the traversal relies on, is the same as ascent between every pair of positions. |
| OrderedList.SortedInsertKeys | lab_lunes13_Oc/pthread.cpp:70-73 | After an insertion the keys are exactly the old keys plus `k`. |
| OrderedList.SortedInsertAscending | lab_lunes13_Oc/pthread.cpp:67-72 | An insertion keeps the keys strictly ascending and free of duplicates. |
| OrderedList.SortedInsertPresent | lab_lunes13_Oc/pthread.cpp:69 | Inserting a key that is already present leaves the key sequence unchanged. |
| OrderedList.SortedInsertAt | lab_lunes13_Oc/pthread.cpp:68-72 | The new key goes right after the keys smaller than it and before the first key larger than it. Position 0 is the new-head case. |
| OrderedList.WithoutKeys | lab_lunes13_Oc/pthread.cpp:80-82 | After a deletion the keys are exactly the old keys other than `k`. |
| OrderedList.WithoutAbsent | lab_lunes13_Oc/pthread.cpp:80 | Deleting an absent key changes nothing. |
| OrderedList.WithoutAt | lab_lunes13_Oc/pthread.cpp:79-82 | Deleting a present key removes exactly its one position; the other keys keep their order. |
| OrderedList.WithoutAscending | lab_lunes13_Oc/pthread.cpp:76-82 | A deletion keeps the keys strictly ascending. |
| OrderedList.SpliceLinks | lab_lunes13_Oc/pthread.cpp:70-72 | Setting `n.next` to `cur` and pointing `pred` (or `head`) at `n` links the node sequence with `n` in place `i`. |
| OrderedList.UnlinkLinks | lab_lunes13_Oc/pthread.cpp:81 | Pointing `pred` (or `head`) past `cur` links the node sequence without `cur`. |
| OrderedList.SpliceKeys | lab_lunes13_Oc/pthread.cpp:70-72 | The spliced node sequence carries the old keys with `k` in place `i`. |
| OrderedList.UnlinkKeys | lab_lunes13_Oc/pthread.cpp:81 | The node sequence without `cur` carries the old keys without position `i`. |
| OrderedList.Node.constructor | lab_lunes13_Oc/pthread.cpp:70 | A new node holds its key and points nowhere. |
| OrderedList.List.Acyclic | lab_lunes13_Oc/pthread.cpp:53 | In a valid list no node occurs twice along the chain from `head`. |
| OrderedList.List.Unique | lab_lunes13_Oc/pthread.cpp:53 | In a valid list each node sits at exactly one position. |
| OrderedList.List.constructor | lab_lunes13_Oc/pthread.cpp:53 | A new list is valid and empty. |
| OrderedList.List.Member | lab_lunes13_Oc/pthread.cpp:58-63 | Returns true exactly when `k` is one of the keys. It changes nothing, since it has no modifies clause. |
| OrderedList.List.Locate | lab_lunes13_Oc/pthread.cpp:67-68 | The `pred`/`cur` walk stops at the first node whose key is at least `k`, with `pred` on the node before it or null. |
| OrderedList.List.Insert | lab_lunes13_Oc/pthread.cpp:65-74 | Returns true exactly when `k` was absent. The new keys are the sorted insertion of `k`. The list stays valid. |
| OrderedList.List.Delete | lab_lunes13_Oc/pthread.cpp:76-83 | Returns true exactly when `k` was present. The new keys are the old ones without `k`. The list stays valid. |
| OrderedList.List.Link | lab_lunes13_Oc/pthread.cpp:70-72 | Allocating and splicing a node at position `i` adds `k` there and keeps the list valid, both when `pred` is null and when it is not. |
| OrderedList.List.Unlink | lab_lunes13_Oc/pthread.cpp:81 | Unlinking the node at position `i` removes exactly that key and keeps the list valid. |
| OrderedList.List.Clear | lab_lunes13_Oc/pthread.cpp:85-90 | Afterwards `head` is null and the key sequence is empty. |
| Benchmark.Count | lab_lunes13_Oc/pthread.cpp:267-273 | One operation moves exactly one total, the one of its kind. It moves that kind's success counter only when the operation returned true. |
| Benchmark.Replay | lab_lunes13_Oc/pthread.cpp:264-274 | Over any sequence of operations, no success counter exceeds its total. |
| Benchmark.ReplayStep | lab_lunes13_Oc/pthread.cpp:264-274 | Replaying one more operation applies it to the keys and counters reached so far. |
| Benchmark.ReplaySnoc | lab_lunes13_Oc/pthread.cpp:264-274 | Replaying `done + [op]` is replaying `done` and then applying `op`. |
| Benchmark.PlusCount | lab_lunes13_Oc/pthread.cpp:253-256 | Counting onto a sum of tallies equals counting first and adding afterwards. This is why workers sharing one counter block add up. |
| Benchmark.ReplayAttempts | lab_lunes13_Oc/pthread.cpp:264-274 | The three totals add up to the number of operations performed. |
| Benchmark.ReplayKindTotals | lab_lunes13_Oc/pthread.cpp:267-273 | Each kind's total is the number of operations of that kind. |
| Benchmark.ReplayAscending | lab_lunes13_Oc/pthread.cpp:264-274 | Any sequence of operations keeps the keys strictly ascending. |
| Benchmark.Inserts | lab_lunes13_Oc/pthread.cpp:242-245 | The warm-up's operations are as many as the keys drawn. |
| Benchmark.InsertsEach | lab_lunes13_Oc/pthread.cpp:243 | Attempt `j` of the warm-up inserts the `j`-th key drawn. |
| OrderedList.SortedInsertLength | lab_lunes13_Oc/pthread.cpp:243 | An insertion grows the list by one exactly when the key was absent. |
| Benchmark.InsertsStep | lab_lunes13_Oc/pthread.cpp:242-245 | One more warm-up draw is one more insertion replayed. |
| Benchmark.ReplayInsertsGrowth | lab_lunes13_Oc/pthread.cpp:242-245 | After a run of insertions the list has grown by exactly the number that succeeded. |
| Benchmark.Counters.constructor | lab_lunes13_Oc/pthread.cpp:253-256 | All six counters start at zero. |
| Benchmark.Execute | lab_lunes13_Oc/pthread.cpp:267-273 | Runs the list operation of the given kind, so the keys and the result are those `Apply` gives. The counters move as `Count` says. |
| Benchmark.Worker | lab_lunes13_Oc/pthread.cpp:258-275 | A worker's loop leaves the keys that `Replay` gives. It adds that replay's tally to the shared counters. |
| Benchmark.WarmUpStep | lab_lunes13_Oc/pthread.cpp:242-245 | One warm-up step inserts one draw and counts it when it succeeds. |
| Benchmark.Populate | lab_lunes13_Oc/pthread.cpp:238-246 | The loop stops with `ins <= n`, `attempts <= 50*n` and `ins <= attempts`, and with either `n` insertions or `50*n` attempts. `ins` is the number of insertions that returned true. The list has grown by exactly `ins` keys. |
| Benchmark.OccurrencesPrefix | lab_lunes13_Oc/pthread.cpp:323-327 | A prefix of the schedule gives each worker no more turns than the whole schedule. |
| Benchmark.OccurrencesStep | lab_lunes13_Oc/pthread.cpp:323-327 | One more scheduled turn gives one more operation to the worker scheduled and none to the others. |
| Benchmark.OccurrenceSumAppend | lab_lunes13_Oc/pthread.cpp:323-327 | Appending a turn for a worker in range adds one to the total turn count. |
| Benchmark.OccurrenceSumLength | lab_lunes13_Oc/pthread.cpp:323-327 | When every turn belongs to a worker in range, the turns of all workers add up to the schedule's length. |
| Benchmark.OccurrenceSumUniform | lab_lunes13_Oc/pthread.cpp:323-327 | `n` workers with `ops` turns each have `n * ops` turns in all. |
| Benchmark.TotalOperations | lab_lunes13_Oc/pthread.cpp:323-330 | A schedule in which each of `threads` workers runs `opsPerThread` operations has `threads * opsPerThread` operations, which is the reported total. |
| Benchmark.FitsPrefix | lab_lunes13_Oc/pthread.cpp:323-327 | A prefix of a schedule that fits the workers' streams also fits them. |
| Benchmark.Interleaving | lab_lunes13_Oc/pthread.cpp:323-327 | The interleaved run has one operation per scheduled turn. |
| Benchmark.InterleavingStep | lab_lunes13_Oc/pthread.cpp:323-327 | The next scheduled turn runs the next unused operation of the scheduled worker's own stream. |
| Benchmark.PoolAttempts | lab_lunes13_Oc/pthread.cpp:323-330 | When each worker of the pool performs `opsPerThread` operations, the attempt counters of the whole run add up to the number of workers times `opsPerThread`, the reported total. |
| Benchmark.RunWorkers | lab_lunes13_Oc/pthread.cpp:319-327 | Running all workers on one list, interleaved as the schedule says, gives the keys and counter totals of replaying the interleaved operations in order. |
| Benchmark.Interleave | lab_lunes13_Oc/pthread.cpp:323-327 | Builds the interleaved operation sequence a schedule describes. |
| Launcher.ParseStrategy | lab_lunes13_Oc/pthread.cpp:310-314 | A word selects a strategy exactly when it is that strategy's name. An unknown word selects none. |
| Launcher.ParseName | lab_lunes13_Oc/pthread.cpp:311-313 | Each strategy's name reads back as that strategy. |
| Launcher.Dispatch | lab_lunes13_Oc/pthread.cpp:282-314 | The outcome is exit code 1 iff there are fewer than 10 arguments. It is 2 iff the arguments are there but the percentages miss 100 by more than 1e-6. It is 3 iff they add up but the strategy name is unknown. Otherwise the named strategy runs. |
| Launcher.DispatchTypical | lab_lunes13_Oc/pthread.cpp:282-314 | `rw` with an 80/10/10 split runs the reader-writer list. |
| Launcher.DispatchBadSplit | lab_lunes13_Oc/pthread.cpp:299-302 | The percentage check precedes the strategy check: a 99-point split fails with 2, even with an unknown name. |
| Launcher.WorkerSeed | lab_lunes13_Oc/pthread.cpp:324 | A worker's seed is a 64-bit unsigned value. |
| Launcher.WorkerSeedsDistinct | lab_lunes13_Oc/pthread.cpp:323-325 | Two workers of one run never get the same 64-bit seed. |
| Launcher.WorkerStreamsDistinct | lab_lunes13_Oc/pthread.cpp:323-325 | Two workers of one run never get seeds that agree in the low 32 bits, the only part `std::mt19937` keeps, so their random streams differ. |
| Tokenizer.Lead | lab_lunes13_Oc/thread_safety.cpp:24-25 | The skip loop stops within the string, at NUL or the end, or at a non-delimiter. |
| Tokenizer.Span | lab_lunes13_Oc/thread_safety.cpp:30-31 | The token loop stops within the string, at NUL or the end, or at a delimiter. |
| Tokenizer.LeadSkips | lab_lunes13_Oc/thread_safety.cpp:24-25 | Every cell skipped is a delimiter, not NUL. So the token starts at the first non-delimiter at or after the cursor. |
| Tokenizer.SpanRuns | lab_lunes13_Oc/thread_safety.cpp:30-31 | Every cell of the token is neither NUL nor a delimiter. |
| Tokenizer.TokensAreTokens | lab_lunes13_Oc/thread_safety.cpp:24-31 | Every token of a string is non-empty and holds no delimiter and no NUL. |
| Tokenizer.LeadSuffix | lab_lunes13_Oc/thread_safety.cpp:24-25 | The skip depends only on the text from the cursor on. |
| Tokenizer.SpanSuffix | lab_lunes13_Oc/thread_safety.cpp:30-31 | Where a token ends depends only on the text from its start on. |
| Tokenizer.TokensStep | lab_lunes13_Oc/thread_safety.cpp:24-38 | The tokens from a position: none when only delimiters precede the end; the last token when it runs to the end; otherwise one token followed by the tokens after its delimiter. |
| Tokenizer.Scan | lab_lunes13_Oc/thread_safety.cpp:24-39 | One call keeps the buffer's length. It leaves a non-null cursor only after returning a token, and that cursor is strictly past the old one. |
| Tokenizer.Terminate | lab_lunes13_Oc/thread_safety.cpp:33-35 | Writing NUL at the token's end makes the token a C string there. The cells before the cursor and after the written cell keep their contents. |
| Tokenizer.ScanAgree | lab_lunes13_Oc/thread_safety.cpp:24-31 | Two buffers that agree from the cursor on give the same token start and end. |
| Tokenizer.ScanTokens | lab_lunes13_Oc/thread_safety.cpp:19-39 | A call returns null iff no token is left. A token returned is the next token of the original text, as a C string, at or after the cursor. A non-null new cursor lies past it, and the tokens from there are the rest. The text before the cursor is untouched. |
| Tokenizer.ScanLast | lab_lunes13_Oc/thread_safety.cpp:36-38 | A token that runs to the terminator is the last one, and the cursor becomes null. |
| Tokenizer.ScanMore | lab_lunes13_Oc/thread_safety.cpp:33-35 | A token ended by a delimiter is followed by the tokens after that delimiter; the cursor moves to the next cell. |
| Tokenizer.TokensNext | lab_lunes13_Oc/thread_safety.cpp:24-35 | When the skip and the token both stop at a delimiter, the first token is that run and the remaining tokens start after the delimiter. |
| Tokenizer.InPlaceKept | lab_lunes13_Oc/thread_safety.cpp:33-35 | Tokens already returned stay intact when only cells after them change. |
| Tokenizer.ProgressStep | lab_lunes13_Oc/thread_safety.cpp:58-63 | Each call of the calling loop returns the next token in order and keeps every earlier one in place as a C string. |
| Tokenizer.SkipDelims | lab_lunes13_Oc/thread_safety.cpp:24-25 | The skip loop stops where `Lead` says. |
| Tokenizer.FindEnd | lab_lunes13_Oc/thread_safety.cpp:30-31 | The token loop stops where `Span` says. |
| Tokenizer.Strtok.constructor | lab_lunes13_Oc/thread_safety.cpp:18 | The hidden cursor starts out null. |
| Tokenizer.Strtok.Next | lab_lunes13_Oc/thread_safety.cpp:17-40 | A non-null argument replaces the cursor. A null cursor returns null. Otherwise the call returns the token, the new cursor and the rewritten buffer that `Scan` describes, and nothing else changes. |
| Tokenizer.Strtok.TokenizeInPlace | lab_lunes13_Oc/thread_safety.cpp:58-63 | One call with the buffer, then calls with null until null. It returns as many results as the string has tokens, each the start of its token as a C string. The cursor ends null. |
| SafeTokenizer.WordLen | lab_lunes13_Oc/thread_safety.cpp:47 | The run read by one extraction lies within the string and is non-empty when it starts at a non-space. |
| SafeTokenizer.WordLenIs | lab_lunes13_Oc/thread_safety.cpp:47 | A non-space run followed by white space or the end is exactly what one extraction reads. |
| SafeTokenizer.WordLenRuns | lab_lunes13_Oc/thread_safety.cpp:47 | An extracted run has no white space and ends at white space or the end. |
| SafeTokenizer.WordsAreWords | lab_lunes13_Oc/thread_safety.cpp:43-49 | Every word is non-empty and free of white space. |
| SafeTokenizer.ConcatAppend | lab_lunes13_Oc/thread_safety.cpp:48 | Joining two lists of words one after the other is joining each and concatenating. |
| SafeTokenizer.NonSpaceAppend | lab_lunes13_Oc/thread_safety.cpp:47 | Dropping white space distributes over concatenation. |
| SafeTokenizer.NonSpaceOfRun | lab_lunes13_Oc/thread_safety.cpp:47 | A run without white space loses nothing when white space is dropped. |
| SafeTokenizer.WordsKeepText | lab_lunes13_Oc/thread_safety.cpp:43-49 | The words, written one after another, are the line's non-space characters in their order of appearance. |
| SafeTokenizer.WordsCons | lab_lunes13_Oc/thread_safety.cpp:47-48 | A word followed by white space or the end is the first word read. |
| SafeTokenizer.WordsOfJoin | lab_lunes13_Oc/thread_safety.cpp:43-49 | Words written with single spaces between them split back into the same words. |
| SafeTokenizer.SpaceStep | lab_lunes13_Oc/thread_safety.cpp:47 | Leading white space contributes no word. |
| SafeTokenizer.WordStep | lab_lunes13_Oc/thread_safety.cpp:47 | A maximal non-space run is the next word. |
| SafeTokenizer.Extract | lab_lunes13_Oc/thread_safety.cpp:47 | One extraction succeeds exactly when a word is left. On success it reads the next word and the stream moves past it; on failure the stream is at its end. |
| SafeTokenizer.TokenizeSafe | lab_lunes13_Oc/thread_safety.cpp:43-50 | Returns the words of the line in order, each non-empty and free of white space. |
| RowPartition.RangeStep | lab_lunes13_Oc/mult_vect.cpp:77-79 | Each range starts where the previous one ends. |
| RowPartition.RangesSpan | lab_lunes13_Oc/mult_vect.cpp:70-83 | The first range starts at row 0 and the last ends at row `n`. |
| RowPartition.RangesBalanced | lab_lunes13_Oc/mult_vect.cpp:70-71 | Each range holds `n / threadCount` or one more rows, so any two sizes differ by at most one. |
| RowPartition.RangesOrdered | lab_lunes13_Oc/mult_vect.cpp:75-83 | Ranges follow one another: an earlier range ends no later than a later one starts. |
| RowPartition.OwnerFrom | lab_lunes13_Oc/mult_vect.cpp:75-83 | Searching from range `t` on finds a range that holds the row. |
| RowPartition.RowsCoveredOnce | lab_lunes13_Oc/mult_vect.cpp:70-83 | Every row below `n` lies in exactly one range: its owner's, and in no other. |
| RowPartition.RangesWithin | lab_lunes13_Oc/mult_vect.cpp:78 | Every range has `startRow <= endRow <= n`. |
| RowPartition.PlanRows | lab_lunes13_Oc/mult_vect.cpp:70-83 | Fills one task per thread. Task `t` runs from range `t`'s start to range `t + 1`'s start. |
| RowPartition.Worker | lab_lunes13_Oc/mult_vect.cpp:30-37 | Sets every `y[i]` of its range to row `i` of `A` times `x`. It leaves every entry outside its range unchanged. |
| RowPartition.MultiplyAll | lab_lunes13_Oc/mult_vect.cpp:66-85 | After all workers of the plan have run, every entry of `y` is the matching entry of `A x`. |

## Left out

- Threads and locks: `std::mutex` in `ListCoarse`, lock coupling in `ListFine`, `std::shared_mutex` in `ListRW`, the atomic counters and `join`. The model is sequential. The thread pool becomes an input schedule that interleaves whole operations.
- Benchmark.RunWorkers: whole operations take effect one at a time. `ListCoarse` and `ListRW` guarantee this with one list-wide lock. `ListFine` guarantees it only for runs in which no two operations overlap at the head of the list, and the model covers only such runs. `ListFine` has two defects there that this sequential model does not capture:
  - Lost insertion: two Inserts into an empty `ListFine` can both read a null `head` under `head_m` (`lab_lunes13_Oc/pthread.cpp:129-133`). Both then set `head` to their own node (`lab_lunes13_Oc/pthread.cpp:147-149`). One node is lost, yet both calls return true.
  - Deadlock: an Insert or Delete at the head holds the first node's lock and then takes `head_m` (`lab_lunes13_Oc/pthread.cpp:147-149`, `177-179`). Every operation takes `head_m` first and then that node's lock (`lab_lunes13_Oc/pthread.cpp:130-132`, `162-164`), so the two can deadlock.
- Random numbers: `std::mt19937` and the uniform distributions. The warm-up keys, and each worker's operation kinds and keys, are input sequences.
- Floating-point bucketing of `r` against `p_member` and `p_member + p_insert` in `trabajador`. Each operation's kind is given as part of the input.
- Benchmark.Populate: the draws are a finite input of at least `50*n` keys, enough for every attempt the loop can make. The source draws from an unbounded generator.
- Launcher.Dispatch: the percentages are exact reals, not doubles. The rounding of `stod` and of the sum is not modelled.
- Argument parsing with `stoi`, `stoull` and `stod`: the numbers arrive already parsed, and the parse errors these functions throw are not modelled.
- Timing (`Timer`, `high_resolution_clock`) and all printing.
- Integer widths: keys, counters and row counts are unbounded. Only the worker seed computes modulo 2^64, as `uint64_t` does.
- OrderedList.List.Clear: the loop that frees the nodes is not modelled, since Dafny has no deallocation. The destructors that call `clear` are left out for the same reason.
- The driver code of the thread-safety demonstration: its `main`, `worker_safe` and the threads. From `worker_not_safe`, only the calling loop of the tokenizer is modelled. Copying the text into a 256-byte buffer with `strncpy` is not; the model takes any NUL-terminated buffer.
- Tokenizer.Strtok.Next: requires a NUL at or after the cursor, as every C string has. `Tokens` and `Scan` also treat the end of the array as a terminator, so they are total.
- The hidden cursor shared between threads, and the race it causes: calls are modelled one at a time on one `Strtok` object.
- RowPartition.PlanRows: requires `threadCount > 0`. The source divides by `thread_count` and has no meaning for zero.
- RowPartition.Worker: doubles are exact reals. The rounding of the dot product is not modelled.
- The argument checks and the matrix initialisation in `mult_vect.cpp` `main`. The matrix and vector are inputs.
- The π estimators `secuencial.cpp`, `mutex.cpp`, `busy_waiting1.cpp` and `busy_waiting2.cpp` are not part of this model. They are floating-point series sums with spin and mutex demonstrations.
