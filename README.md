# vectordb_bench harness, modelled in Dafny

This project models the approximate-nearest-neighbour benchmark harness that
drives bustub with the SIFT1M corpus (`tools/vectordb_bench/vectordb_bench.cpp`).
The harness has three parts, each modelled here.

- **The fvecs/ivecs decoder.** `FvecsRead` and `IvecsRead` decode a file of records. Each record is a 32-bit dimension word `d` followed by `d` payload words. The decoder:
  - checks the first dimension word and the file size;
  - derives the record count;
  - reads every word into one buffer;
  - slides each record's payload down over the headers with a `memmove` loop, leaving a dense `n * d` prefix.
- **The recall accumulator.** Class `Metric` counts the queries in `n_`. `n_1_`, `n_10_` and `n_100_` count the queries whose nearest true neighbour appears among the first 1, 10 and 100 results.
- **The driver loops.**
  - `InsertIndexVectorData` creates the index, loads the base vectors and inserts them one row per vector.
  - `DoANNQuery` runs one similarity query per query vector, turns the result rows into an id list and scores it.
  - `main` copies the ground truth.

The model is organised in six modules:

- `FileWords` (`words.dfy`) holds the bytes and 32-bit words of a file.
- `Failures` (`failures.dfy`) holds the run-ending conditions as values.
- `Fvecs` (`fvecs.dfy`) is the decoder.
  - The framing checks are a function, `Framing`.
  - The meaning of a decoded file is a function, `Vectors`.
  - The header-stripping loop is a method over an `array`, proved against the function `Strip`.
- `Recall` (`metric.dfy`) is the accumulator.
  - One query's effect is the function `Record`.
  - A whole run is `RecordAll`.
  - Class `Metric` has the four counters as fields, and its scanning method is proved to perform `Record`.
- `Backend` (`backend.dfy`) is the database as an oracle. An `Instance` keeps the log of commands it has executed, and answers each command with a status and rows, as a function of that log.
- `Bench` (`bench.dfy`) holds the insert loop, the query loop and the ground-truth copy. These are methods proved against the command sequences they send, and against the replies those commands receive.

The source stops the process (`abort` or a failed `assert`) when a file is malformed, when the index cannot be created, when a dimension is wrong, or when the ground truth does not match the queries. The model returns these as `Err` values of `Failures.Result`, so every path can be stated.

## Model

| member | source | states |
|---|---|---|
| FileWords.BytesOfWord | tools/vectordb_bench/vectordb_bench.cpp:45-46 | the four little-endian bytes of a word read back, as a C `int`, to that word |
| FileWords.WordsOfBytes | tools/vectordb_bench/vectordb_bench.cpp:57-58 | reading the byte image of any word sequence into a 32-bit buffer gives back exactly those words |
| FileWords.WordBytes | tools/vectordb_bench/vectordb_bench.cpp:45-46 | the bytes of the word that four bytes are read as are those four bytes, in order |
| FileWords.BytesOfWords | tools/vectordb_bench/vectordb_bench.cpp:57-58 | for a file whose size is a multiple of four, the byte image of the words read from it is the file itself |
| Fvecs.Framing | tools/vectordb_bench/vectordb_bench.cpp:45-56 | the file is accepted iff it has a first dimension word `d` with `0 < d < 1000000` and its size is a multiple of `(d + 1) * 4`. On acceptance the shape is `d` and `n` with `n * (d + 1) * 4 == size`, `n > 0`, and the file holds `n * (d + 1)` words. A bad dimension is reported as such |
| Fvecs.FramingAsWritten | tools/vectordb_bench/vectordb_bench.cpp:45-53 | the checks in the order the code makes them, on the value the dimension variable holds. Whatever it accepts has a plausible dimension and `n * stride == size` |
| Fvecs.AsWrittenAgrees | tools/vectordb_bench/vectordb_bench.cpp:45-53 | on every file with a header word, the checks as written and `Framing` give the same outcome |
| Fvecs.ShortFileRejected | tools/vectordb_bench/vectordb_bench.cpp:45-53 | a file of one to three bytes is rejected whatever the unread dimension variable holds |
| Fvecs.EmptyFileAccepted | tools/vectordb_bench/vectordb_bench.cpp:45-53 | an empty file passes the written checks when the uninitialised dimension holds 5, yielding zero vectors. `Framing` rejects it |
| Fvecs.Vectors | tools/vectordb_bench/vectordb_bench.cpp:53-64 | the vectors of an accepted file number `n * d` words |
| Fvecs.StripFrame | tools/vectordb_bench/vectordb_bench.cpp:61-64 | stripping the headers of framed payloads gives the payloads back, for every payload of `n * d` words |
| Fvecs.FrameStrip | tools/vectordb_bench/vectordb_bench.cpp:61-64 | re-framing the stripped words restores them iff every record header equals `d` |
| Fvecs.StripBlock | tools/vectordb_bench/vectordb_bench.cpp:62-63 | record `i`'s payload lands at offset `i * d` of the stripped words, copied from offset `i * (d + 1) + 1` of the framed ones |
| Fvecs.DecodeEncoded | tools/vectordb_bench/vectordb_bench.cpp:38-68 | the bytes of `n > 0` framed records of dimension `d` are accepted with shape `(d, n)` and decode to the original payload |
| Fvecs.EncodeDecoded | tools/vectordb_bench/vectordb_bench.cpp:45-64 | for every accepted file, re-encoding its vectors with its dimension and count gives back the file's bytes iff every record header equals the first |
| Fvecs.LaterHeadersIgnored | tools/vectordb_bench/vectordb_bench.cpp:45-64 | a file whose second record claims dimension 7 is still read as two vectors of dimension 1 |
| Fvecs.MemMove | tools/vectordb_bench/vectordb_bench.cpp:63 | `memmove` copies `len` words from `src` to `dst`, correct for overlapping ranges, and leaves every other word as it was |
| Fvecs.MoveRecord | tools/vectordb_bench/vectordb_bench.cpp:62-63 | one loop iteration extends the finished prefix by record `i`'s payload, and the words from there on are still the original ones |
| Fvecs.StripHeaders | tools/vectordb_bench/vectordb_bench.cpp:61-64 | after the loop the first `n * d` words of the buffer are the stripped payloads, and the rest is unchanged |
| Fvecs.FvecsRead | tools/vectordb_bench/vectordb_bench.cpp:38-68 | succeeds iff `Framing` accepts, failing with the same error otherwise. On success it reports `Framing`'s `d` and `n` in a fresh buffer of `n * (d + 1)` words. That buffer's first `n * d` words are the file's vectors and its remaining words are the file's words at those positions |
| Fvecs.IvecsRead | tools/vectordb_bench/vectordb_bench.cpp:71-73 | the same decoder, with the same outcome and the same vectors, read as identifiers |
| Recall.FirstMatch | tools/vectordb_bench/vectordb_bench.cpp:142-153 | the scan's stopping rank is the first occurrence of the target, or the length when the target is absent |
| Recall.RecordCounts | tools/vectordb_bench/vectordb_bench.cpp:139-155 | a query is always counted. The counter for threshold 1, 10 or 100 goes up by one exactly when the target is among the first 1, 10 or 100 results, and otherwise stays |
| Recall.RecordKeepsOrdered | tools/vectordb_bench/vectordb_bench.cpp:138-168 | recording a query preserves `n1 <= n10 <= n100 <= n` and lowers no counter |
| Recall.RankTwoExample | tools/vectordb_bench/vectordb_bench.cpp:141-155 | results `[7, 3, 9, 2]` with target 9 count a hit at 10 and 100, not at 1 |
| Recall.AbsentTargetCountsOnlyQuery | tools/vectordb_bench/vectordb_bench.cpp:139-155 | a target absent from the results changes only the query count |
| Recall.RecordAllStep | tools/vectordb_bench/vectordb_bench.cpp:175-189 | scoring query `i` after the first `i` queries is scoring the first `i + 1` |
| Recall.RecordAllCounts | tools/vectordb_bench/vectordb_bench.cpp:138-168 | after a run from zero, `n` is the number of queries. Each hit counter is the number of queries whose target is among the first 1, 10 or 100 results (the numerators of the recall figures). The counters are ordered |
| Recall.Metric.constructor | tools/vectordb_bench/vectordb_bench.cpp:165-168 | a new accumulator has all four counters at zero and satisfies the ordering invariant |
| Recall.Metric.AddQueryResult | tools/vectordb_bench/vectordb_bench.cpp:138-156 | the scanning loop with its early `break` leaves the counters at exactly `Record` of the old counters, and keeps the ordering invariant |
| Backend.ReplayAt | tools/vectordb_bench/vectordb_bench.cpp:119-126 | in a sequence of commands, reply `j` is the backend's answer to command `j` given every command issued before it |
| Backend.Instance.ExecuteSql | tools/vectordb_bench/vectordb_bench.cpp:126 | executing a command appends it to the log and returns the answer to it given the previous log |
| Bench.InsertsAt | tools/vectordb_bench/vectordb_bench.cpp:119-126 | insert `i` of the insert sequence pairs vector `i` of the buffer with identifier `i` |
| Bench.QueriesAt | tools/vectordb_bench/vectordb_bench.cpp:175-180 | query `i` of the query sequence is vector `i` (128 words at offset `128 * i`) with `LIMIT 100` |
| Bench.VectorSlot | tools/vectordb_bench/vectordb_bench.cpp:124 | vector `i` of a buffer of `n` vectors of dimension `d` is the slice at offset `i * d`, and lies inside the buffer |
| Bench.RejectedMembers | tools/vectordb_bench/vectordb_bench.cpp:126-129 | an index is reported as failed iff its insert was rejected |
| Bench.RejectedIncreasing | tools/vectordb_bench/vectordb_bench.cpp:119-129 | the failed indices are reported in strictly increasing order |
| Bench.RejectedSnoc | tools/vectordb_bench/vectordb_bench.cpp:126-129 | one more reply adds its index to the failures iff it was rejected |
| Bench.IdsElements | tools/vectordb_bench/vectordb_bench.cpp:182-186 | entry `k` of a query's id list is the parse of field 0 of row `k` |
| Bench.ResultIdsAt | tools/vectordb_bench/vectordb_bench.cpp:180-186 | the id list scored for query `j` comes from the rows of reply `j` |
| Bench.TargetsAt | tools/vectordb_bench/vectordb_bench.cpp:188 | query `j` is scored against ground-truth word `100 * j` |
| Bench.InsertOne | tools/vectordb_bench/vectordb_bench.cpp:124-126 | one insert iteration sends vector `i` with identifier `i` and returns the backend's answer |
| Bench.InsertRows | tools/vectordb_bench/vectordb_bench.cpp:118-130 | the loop sends exactly the inserts of vectors `0 .. nb - 1`, in order, each with its own index, and carries on past rejections. It returns the indices of the rejected inserts |
| Bench.InsertIndexVectorData | tools/vectordb_bench/vectordb_bench.cpp:97-132 | a rejected CREATE INDEX, a malformed base file and a dimension other than 128 each end the step, after the CREATE INDEX only. Otherwise the CREATE INDEX is followed by exactly the inserts of the decoded base vectors |
| Bench.IdList | tools/vectordb_bench/vectordb_bench.cpp:182-186 | the id list has one entry per result row, in row order, each the parse of the row's field 0 |
| Bench.QueryOne | tools/vectordb_bench/vectordb_bench.cpp:179-188 | one query iteration sends query `i` and records its id list against ground-truth word `100 * i` in the accumulator, whose invariant it keeps |
| Bench.DoANNQuery | tools/vectordb_bench/vectordb_bench.cpp:171-192 | the backend receives exactly the `nq` queries in order. The fresh accumulator ends at `RecordAll` of the id lists of the replies against the ground-truth targets, whatever status each query returned |
| Bench.CopyGroundTruth | tools/vectordb_bench/vectordb_bench.cpp:230-233 | the copy has `k * nq` entries and `gt[t] == gt_int[t]` for every `t < k * nq` |
| Bench.LoadGroundTruth | tools/vectordb_bench/vectordb_bench.cpp:226-235 | succeeds iff the ids file decodes and holds exactly `nq` rows. Otherwise it reports the decoder's error or the count mismatch. On success the rows have width `k`, and every copied entry `t < k * nq` is the file's identifier `t` |

## Left out

- File I/O (`fopen`, `fstat`, `fread`, `fclose`) is not modelled: a file is the sequence of its bytes. An unopenable file (the `abort` at line 43) and a short read (the assertion at line 59) therefore do not arise.
- Assertions: the source's run-ending assertions are modelled as errors. A build with `NDEBUG` would skip them and carry on with unchecked values; that build is not modelled.
- `IvecsRead`'s `reinterpret_cast` is not modelled as a cast. Every word is held as its 32-bit pattern read as a C `int`, float payloads included, so the two readers coincide. Float values are never interpreted.
- `Vector2String` and the SQL text of every command are not modelled. A command carries the vector words and the identifier or limit its text embeds.
- `Metric::Show` is left out because it is floating-point division: recall figures and the division by zero when `n_ == 0`. `Recall.RecordAllCounts` states the numerators and the denominator it divides.
- `Elapsed`, `gettimeofday`, every `printf` progress message and the text of the `std::cerr` insert-failure message are left out. The index that message reports is modelled: it is the `failed` sequence that `Bench.InsertRows` and `Bench.InsertIndexVectorData` return.
- `std::stoi` is a parameter `parseId` from field text to a 32-bit `int`. Its exceptions on non-numeric or out-of-range text are not modelled.
- A result row with no fields, where `lines[0]` would be undefined, is excluded by the row type.
- The query's result writer: the rows a reply carries are whatever the backend oracle returns given the full command log. How `StringVectorWriter` accumulates rows across calls is not part of this model, but any such behaviour is one particular oracle.
- Bench.DoANNQuery: the status that `ExecuteSql` returns at line 180 is ignored, so a rejected query is still scored with whatever rows its reply carries.
- Bench.DoANNQuery requires `100 * nq` ground-truth words, because the loop hard-codes `k = 100`. `main` never checks that the ground truth has width 100.
- Bench.DoANNQuery takes the query vectors and the ground truth as sequences, because it only reads them; aliasing between those buffers and the backend is not modelled.
- `main`'s wiring beyond the ground-truth copy is not modelled: CREATE TABLE, loading the query file with its 128 check, the `new[]`/`delete[]` lifetimes and the final `delete[]`. The query-file check is the same `DimensionMismatch` check that `Bench.InsertIndexVectorData` makes on the base file.
- `BustubInstance`, its storage, HNSW index and planner are not part of this model; `Backend.Instance` stands for them as an oracle.
- Integer widths: the `size_t` counters and sizes are unbounded in the model. For a dimension below 1000000, `(d + 1) * 4` fits a C `int`, and `n * (d + 1)` is at most a quarter of the file size, so no wrap-around is left unmodelled.

## Findings

| source | as written | input that shows it | evidently intended | confidence | as-written member | corrected member |
|---|---|---|---|---|---|---|
| tools/vectordb_bench/vectordb_bench.cpp:45-53 | the result of the header `fread` is not checked, so for a file shorter than four bytes `d` is an uninitialised `int` | an empty file, with the uninitialised `d` holding 5: the dimension check passes, `0 % 24 == 0`, and the file is accepted as zero vectors of dimension 5 | a file without a dimension word is rejected | not executed; reading the uninitialised `d` is undefined behaviour, so the value it holds depends on the build | Fvecs.FramingAsWritten (shown by Fvecs.EmptyFileAccepted) | Fvecs.Framing |
