# One Billion Row Challenge aggregator, modelled in Dafny

The program reads a buffer of `name;value\n` records. It computes the least,
greatest, total and count of the values of every station name. To do this it
cuts the buffer into one chunk per thread (`chunks`) and scans every chunk
into a table of per-name statistics (`chunk_stats`, which uses `parse_f32`).
It then joins the threads in order and merges every chunk's table into one
global table (`main`, with `Stats::merge`).

This project models that core sequentially and proves the following:

- the ranges `chunks` produces tile the buffer and are cut at line starts;
- the scan of a chunk is the table of its records, and each entry is the
  count, least, greatest and total of that name's readings;
- the parser accepts exactly `[-]d.d` and `[-]dd.d` and reads them as whole
  tenths;
- the merge of statistics and of tables is commutative and associative, has
  an identity, and does not depend on the order of the fold;
- when every line holds a `;`, the merged tables of the chunks are exactly
  the table of the whole buffer scanned in one go, error outcome included.

Modules, one file each:

- `Outcomes` (outcomes.dfy): `Option` and `Result`.
- `Bytes` (bytes.dfy): bytes, the ASCII constants, the first-occurrence
  search `Position`, and `LineStart`.
- `FixedPoint` (fixed_point.dfy): `to_digit` and `parse_f32`, counted in
  tenths.
- `Statistics` (statistics.dfy): `Stats`, its merge algebra, and the reference
  `Summary` of a list of readings.
- `RangePlanner` (range_planner.dfy): `chunks`. It holds the cut as written
  (`CutAsWritten`) and the clamped cut (`Cut`), which the pipeline
  uses.
- `ChunkAggregator` (chunk_aggregator.dfy): `chunk_stats`, as a method with a
  loop proved against the function `ChunkTable`.
- `AggregateMerger` (aggregate_merger.dfy): `stats.entry(k).or_default().merge(st)`
  and the fold over the chunk tables.
- `Pipeline` (pipeline.dfy): `main` from the cut to the merged table.

Values are integers counting tenths of a degree. A chunk is modelled as the
window `[start, end)` of the one shared buffer, as every thread slices the
same mapped file.

## Model

| member | source | states |
|---|---|---|
| Bytes.Position | src/main.rs:55-57 | a found index lies in the searched window and holds the byte searched for |
| Bytes.PositionSpec | src/main.rs:72-78 | no earlier byte of the window is the byte searched for, and none at all when the search fails |
| FixedPoint.ToDigit | src/main.rs:131-134 | a digit is returned exactly for the ASCII digits, and it is below 10 and encodes back to the byte |
| FixedPoint.ParseTenths | src/main.rs:99-129 | the parse succeeds exactly on `[-]d.d` and `[-]dd.d`, its value lies within ±99.9, and it is negative only with a leading '-' |
| FixedPoint.ParseValue | src/main.rs:100-128 | the value of an accepted literal is its sign times `10*d0 + d2` (three bytes) or `100*d0 + 10*d1 + d3` (four bytes) |
| FixedPoint.ParseFormat | src/main.rs:99-129 | every value the parser can return has a canonical literal that it parses back exactly |
| FixedPoint.ParseExamples | src/main.rs:99-129 | "5.0", "-9.8", "23.4" and "-99.9" are read exactly; "1.23", "abc", "12", "-.5", "--1.0" and "-" are refused |
| Statistics.MergeCommutative | src/main.rs:169-174 | merging two statistics does not depend on their order |
| Statistics.MergeAssociative | src/main.rs:169-174 | merging three statistics does not depend on their grouping |
| Statistics.DefaultIsIdentity | src/main.rs:144-153 | `Stats::default()` changes nothing when merged on either side of statistics within the `f32` range |
| Statistics.MergeSummaries | src/main.rs:169-174 | merging the statistics of two lists of readings gives the statistics of the concatenated list |
| Statistics.UpdateSummary | src/main.rs:165-167 | `update(v)` gives the statistics of the readings with `v` appended |
| Statistics.Stats.Merge | src/main.rs:169-174 | the merged min is the lesser of the two mins, the merged max the greater of the two maxes, and sums and counts add; its algebra is MergeCommutative, MergeAssociative and MergeSummaries |
| Statistics.Stats.Update | src/main.rs:165-167 | one more reading: the count grows by one, the sum by the value, and the min and max widen to take the value in; see UpdateSummary |
| Statistics.Singleton | src/main.rs:156-163 | `singleton(v)` is the statistics of the single reading `v` |
| Statistics.Default | src/main.rs:144-153 | `Stats::default()` is the statistics of no readings; see DefaultIsIdentity |
| Statistics.Stats.Avg | src/main.rs:176-178 | the average times the count is the sum; see AvgWithinBounds |
| Statistics.AvgWithinBounds | src/main.rs:176-178 | the average of at least one reading lies between the least and the greatest reading |
| RangePlanner.Offset | src/main.rs:53 | the offset where the search for a cut starts lies within the buffer, and strictly inside it for the interior cuts of a non-empty buffer |
| RangePlanner.OffsetMonotone | src/main.rs:53 | offsets never decrease as the cut index grows |
| RangePlanner.Cut | src/main.rs:54-59 | a cut never lies beyond the end of the buffer |
| RangePlanner.CutAfterFirstNewline | src/main.rs:54-59 | a cut is one past the first '\n' at or after its offset, or the buffer's length when no '\n' follows the offset |
| RangePlanner.CutIsLineStart | src/main.rs:52-59 | every cut is a line start: just after a '\n', or at either end of the buffer |
| RangePlanner.CutMonotone | src/main.rs:52-59 | a later cut never lies before an earlier one |
| RangePlanner.Cuts | src/main.rs:49-62 | there are exactly `n + 1` cuts |
| RangePlanner.Windows | src/main.rs:64 | `tuple_windows` pairs every cut with the next one |
| RangePlanner.CutsOrdered | src/main.rs:49-62 | the cuts run from 0 to the length without going backwards, and every one is a line start |
| RangePlanner.Chunks | src/main.rs:46-65 | `chunks` returns the windows of the cuts |
| RangePlanner.ChunksPartition | src/main.rs:40-65 | there are exactly `n` ranges, lying end to end from 0 to the length, each inside the buffer and cut at line starts |
| RangePlanner.CutAsWritten | src/main.rs:54-59 | the cut as written is one past a '\n' when it lies within the buffer, and otherwise exactly `offset + len + 1` |
| RangePlanner.CutAsWrittenAgrees | src/main.rs:54-58 | when the buffer ends with '\n', the cut as written equals the clamped cut |
| RangePlanner.CutAsWrittenOverruns | src/main.rs:54-58 | for "X;1.0" and two threads, the first range as written is `(0, 8)`, past the buffer's 5 bytes |
| RangePlanner.CutAsWrittenOverrunsWhenNoNewline | src/main.rs:54-58 | whenever no '\n' follows the offset, the cut as written lies beyond the end of the buffer |
| ChunkAggregator.LineEnd | src/main.rs:76-80 | a value ends at a '\n' inside the chunk, or at the end of the chunk |
| ChunkAggregator.LineEndSpec | src/main.rs:76-80 | no '\n' lies between the start of a value and its end |
| ChunkAggregator.RecordAt | src/main.rs:71-93 | a record read at `i` resumes the scan strictly after `i` and at most one past the end of the chunk |
| ChunkAggregator.RecordBetween | src/main.rs:82-93 | the scan resumes one past the '\n' that ends the record |
| ChunkAggregator.ValueAt | src/main.rs:83-84 | the value is empty exactly when the ';' ends its line, it parses exactly when the slice is an accepted literal, and it then lies within ±99.9 |
| ChunkAggregator.RecordAtErrors | src/main.rs:72-84 | "expected semicolon" is reported exactly when no ';' is left in the chunk, the empty-value failure exactly when the ';' found ends its line, and "failed to parse special-case f32" exactly when the value after that ';' is not an accepted literal |
| ChunkAggregator.Insert | src/main.rs:86-91 | the record's name is added if new, its entry holds one more reading and the value in its sum, and no other entry changes |
| ChunkAggregator.ChunkStats | src/main.rs:67-97 | the loop returns the table of the chunk's records, or the first error |
| ChunkAggregator.TableOfAccounts | src/main.rs:86-91 | a name is in the table exactly when some record carries it, and its entry is the summary of that name's readings |
| ChunkAggregator.TableOfEntry | src/main.rs:86-91 | an entry's count is the number of the name's readings, its min and max are among them and bound them all, and its sum is their total |
| ChunkAggregator.RecordsWellFormed | src/main.rs:71-84 | every record of a successful scan has a name without ';' and a value within ±99.9 |
| ChunkAggregator.RecordAtLine | src/main.rs:71-93 | a record that starts a line ends at that line's '\n', and the next record starts a line |
| ChunkAggregator.RecordAtWindow | src/main.rs:67-93 | a chunk ending at a line start reads every record before that point as the whole buffer does |
| ChunkAggregator.RecordsSplit | src/main.rs:67-97 | when every line holds a ';', scanning up to a line start and then on from it reads the same records as one scan |
| ChunkAggregator.NameAcrossNewline | src/main.rs:72-82 | a name may run across a '\n': "a\nb;1.0\n" is one record named "a\nb", while its first line alone has no ';' |
| AggregateMerger.Entry | src/main.rs:32 | `entry(k).or_default()` is the table's entry when present, and otherwise an entry with no reading that changes nothing merged with it inside the `f32` range |
| AggregateMerger.MergeTables | src/main.rs:31-33 | the merged table has the keys of both tables, and each key's count is the sum of its counts in them |
| AggregateMerger.MergeInto | src/main.rs:31-33 | merging the chunk's entries one by one, in any order, gives the merged table |
| AggregateMerger.MergeTablesInRange | src/main.rs:31-33 | merging tables within the `f32` range stays within it |
| AggregateMerger.MergeTablesCommutative | src/main.rs:28-34 | merging two tables does not depend on their order |
| AggregateMerger.MergeTablesAssociative | src/main.rs:28-34 | merging three tables does not depend on their grouping |
| AggregateMerger.MergeTablesIdentity | src/main.rs:28 | the empty table `main` starts from changes nothing on either side |
| AggregateMerger.TableOfInRange | src/main.rs:86-91 | a scanned table lies within the `f32` range |
| AggregateMerger.TableOfAppend | src/main.rs:28-34 | the merged tables of two runs of records are the table of both runs scanned in one go |
| AggregateMerger.FoldTablesAccounts | src/main.rs:28-34 | the keys of the fold are those of the tables, and each key's count is the sum of its counts in them |
| AggregateMerger.FoldTablesAppend | src/main.rs:28-34 | folding two runs of tables and merging the results is the fold of both runs |
| AggregateMerger.FoldTablesSwap | src/main.rs:29-34 | swapping two neighbouring tables leaves the fold unchanged, so the join order does not matter |
| Pipeline.Combined | src/main.rs:29-34 | a successful join saw only successful chunks, and a failed join carries the error of one of them; see CombinedOk and CombinedFirstError |
| Pipeline.CombinedOk | src/main.rs:29-34 | the join succeeds exactly when every chunk succeeds, and then it is the fold of all the tables |
| Pipeline.CombinedFirstError | src/main.rs:29-30 | a failed join carries the error of the first chunk, in thread order, that fails |
| Pipeline.CombinedStops | src/main.rs:29-30 | once the join has failed, later results do not change it |
| Pipeline.Pieces | src/main.rs:21-26 | there is one result per range |
| Pipeline.PiecesCombine | src/main.rs:19-34 | when every line holds a ';', the merged tables of chunks cut at any line starts are the table of the whole stretch, error included |
| Pipeline.ScanChunks | src/main.rs:21-26 | each range's result is the table of its chunk |
| Pipeline.Join | src/main.rs:28-34 | the join loop returns the first error in thread order, or else the merged tables |
| Pipeline.ChunksCombine | src/main.rs:19-34 | the chunks `chunks` returns, merged, are the table of the whole buffer when every line holds a ';' |
| Pipeline.Run | src/main.rs:18-34 | the run is the join of the chunks' results, and it equals the single-chunk scan of the whole buffer when every line holds a ';' |

## Left out

- Argument handling, opening the file and `Mmap::map` (src/main.rs:11-16) are I/O. The buffer is a parameter of `Pipeline.Run`.
- `thread::available_parallelism`, `thread::spawn`, `join` and `Arc` (src/main.rs:18-30) are concurrency. The thread count is the parameter `n`, and the chunks are scanned one after another before the join. The threads run independently, so this changes no result.
- `print_stats` and `Display` (src/main.rs:181-212) are left out: UTF-8 decoding, sorting the names, and printing with `{:.1}` rounding are output formatting.
- `f32` arithmetic is not modelled. Readings, minima, maxima and sums are exact integers counting tenths, so the rounding of `x + y`, `* 0.1` and `sum += other.sum` is not captured.
- `f32::MAX` and `f32::MIN` are modelled exactly, in tenths.
- Statistics.Stats.Avg: requires `count > 0` and is an exact ratio. The source divides by zero and gets NaN for an empty entry, which it never prints.
- Statistics.DefaultIsIdentity: holds only for statistics inside the `f32` range, as the source's own `f32::min` and `f32::max` do. Every scanned table is inside it (`AggregateMerger.TableOfInRange`).
- `count` is a `nat`; the `u32` overflow of `count += other.count` (src/main.rs:173) is not modelled.
- `bytes.len() * i` is unbounded here; its `usize` overflow (src/main.rs:53) is not modelled.
- `NUM_KEYS` and the capacity hints (src/main.rs:8, 28, 68) do not change any result. The hash map is a Dafny `map`.
- Hash-map iteration order is not modelled as a fixed order. `AggregateMerger.MergeInto` takes the keys in any order, and the result is the same for every order.
- `Stats::update` and `Stats::merge` update their fields through `&mut self`. Here `Stats` is a value, and the method that owns the map replaces the entry.
- FixedPoint.ParseTenths: requires a non-empty slice, because the source indexes `s[0]` and panics on an empty one.
- ChunkAggregator.ValueAt: turns an empty value slice (a line `name;\n`) into the error `EmptyValue` instead of a thread panic. `main` would then panic at `expect("thread panic")` instead of returning the error; the model treats both as the run failing at that chunk.
- RangePlanner.Chunks: requires `n > 0`, which the source checks with `assert_ne!`.
- RangePlanner.Chunks: uses the corrected cut (see Findings). `RangePlanner.CutAsWritten` models the code as written.

## Findings

| source | as written | input that shows it | evidently intended | confidence | as-written member | corrected member |
|---|---|---|---|---|---|---|
| src/main.rs:54-58 | when no '\n' lies at or after the offset, `unwrap_or(bytes.len())` adds the whole length to the offset, so the cut becomes `offset + len + 1`, past the end of the buffer, and slicing that chunk panics | the 5-byte buffer "X;1.0" with `n = 2` gives the range `(0, 8)`; an empty buffer with `n >= 2` gives the range `(0, 1)` | the cut falls at the buffer's length (`boundaries.push((newline + 1).min(bytes.len()))`), so the last chunks are empty | not executed | RangePlanner.CutAsWritten (RangePlanner.CutAsWrittenOverruns, RangePlanner.CutAsWrittenOverrunsWhenNoNewline) | RangePlanner.Cut (RangePlanner.Chunks, RangePlanner.ChunksPartition) |
