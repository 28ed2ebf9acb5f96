# billion-record-challenge aggregator, modelled in Dafny

The billion-record-challenge programs read a file of `station;temperature` lines and report
the minimum, mean and maximum temperature of each station. There are three programs, in C++,
Rust and Python, and they share one design:

- the file is cut into `n` chunks, and each chunk is pushed forward to end just past a `\n`;
- every chunk is scanned in its own worker into a registry that maps a station to `Stats`,
  which holds the minimum, maximum, sum and count;
- the workers' registries are merged (`gather` / `merge`);
- `print_statistic` prints the stations in byte order.

The model follows that design, module by module:

| file | module | what it models |
|---|---|---|
| `bytes.dfy` | `Bytes` | bytes, the ASCII constants, `Option`, the first-occurrence search |
| `temperature.dfy` | `Temperature` | `parse_temperature`, the fixed-point decoder (tenths of a degree) |
| `statistics.dfy` | `Statistics` | `Stats` and the per-station combination rule |
| `registries.dfy` | `Registries` | `parse_line`, `process_line`, the mutable `Registry` (a class with a `map` field) and `gather` / `merge` |
| `chunks.dfy` | `Chunks` | the line structure of the bytes, `seek_to`, and `process_chunk` with its 64-bit `bytes_remains` counter |
| `partitioning.dfy` | `Partitioning` | the boundary loop of `process_measurements`, with a target size of `ceil(S/n)` (C++, Rust) or `floor(S/n)` (Python) |
| `measurements.dfy` | `Measurements` | the C++/Rust `process_measurements`, with the workers and the merge in any completion order |
| `mapped.dfy` | `MappedChunks` | the Python `process_chunk` (the `mmap` offset arithmetic and `readline` loop) and its `process_measurements` |
| `fnv.dfy` | `Fnv` | the FNV-1a 64-bit hasher (`StringHasher`, `FnvHasher`) |
| `report.dfy` | `Report` | `print_statistic`: byte order on names, the sorted listing and the `{...}` text |

The headline property is `Measurements.TiledAggregate`. With `ProcessMeasurements` and
`ProcessMeasurementsMapped` it says: partitioning the file, scanning each chunk separately
and merging the registries gives the outcome of one sequential scan of the whole file.
This holds for every worker count `n >= 1` and every order in which the registries reach
the merge.

Every scan takes a `Reader`, which says how a program handles one raw line:

- `CPP` is the C++ program as written: `getline` strips the `\n`, and the decoder drops the tenths of unsigned four-byte values. It takes the whole value after the `;`, where C++ stops at a NUL byte (see "Left out");
- `RUST` is the Rust program as written: the last byte of every line is dropped, and the decoder is the same;
- `CORRECTED` has both line-level Findings corrected. The Python program is read this way.

The end-to-end results (`ProcessChunk`, `ProcessMeasurements`) hold for every reader, so
they hold for the C++ and Rust programs as written.

The outcome is an `Option`. These inputs make the source fail:

- a line without `;`, in all three programs: Rust panics, C++ reads past the line, and Python's `float(b"")` raises;
- a value of one or two bytes, in C++ and Rust, whose decoders index past it;
- zero workers;
- in Python, an empty file;
- in Python, a value that `float` refuses, such as `1.x`, `abc` or `1..`: `float` raises `ValueError`.

The model returns `None` on all of them except the last, and a failed worker makes the whole
run `None`. The model reads Python values with the fixed-point decoder, not with `float`. So
it records a number for a three-byte value such as `1.x` where Python raises. It also refuses
one- and two-byte values such as `5` and `-5`, which `float` reads (see "Left out").

Temperatures are whole numbers of tenths. The decoder reads the shapes `-99.9`, `-9.9`,
`99.9` and `9.9`. Station names are byte strings.

## Model

| member | source | states |
|---|---|---|
| Bytes.FindFrom | src/rust/billion-record-challenge.rs:133 | the position found is at or after the start, and it holds the byte searched for unless it is the end |
| Bytes.FindFromFirst | src/rust/billion-record-challenge.rs:133 | no occurrence of the byte lies before the position found, so it is the first one |
| Temperature.ParseTemperatureAsWritten | src/c++/billion-record-challenge.cpp:77-99 | the decoder as written yields a value exactly when the input has at least 3 bytes; shorter input indexes out of range |
| Temperature.ParseTemperature | src/rust/billion-record-challenge.rs:108-130 | the corrected decoder also yields a value exactly when the input has at least 3 bytes |
| Temperature.ParseMatchesDecimal | src/c++/billion-record-challenge.cpp:77-99 | on every well-formed value (optional `-`, one or two digits, `.`, one digit) the decoder equals the general decimal reading in tenths, which lies in [-999, 999] |
| Temperature.Render | src/c++/billion-record-challenge.cpp:80-96 | the canonical text of every value in [-999, 999] tenths has one of the four shapes the decoder's branches name |
| Temperature.ParseRender | src/rust/billion-record-challenge.rs:108-130 | round trip: every value in [-999, 999] tenths, rendered and decoded, is itself |
| Temperature.RenderValue | src/c++/billion-record-challenge.cpp:77-99 | the decimal reading of the rendered text of every value in [-999, 999] tenths is that value |
| Temperature.AsWrittenDropsTenths | src/c++/billion-record-challenge.cpp:88-91 | the decoder as written agrees with the corrected one on every input except unsigned 4-byte values, where it is lower by exactly the tenths digit |
| Temperature.DecodeExamples | src/rust/billion-record-challenge.rs:110-128 | `12.3` reads as 120 tenths as written and 123 when corrected; `-99.9`, `-9.9`, `5.5` and `0.0` read as their comments say |
| Statistics.Combine | src/c++/billion-record-challenge.cpp:119-122 | the combined record sums the sums and counts, and its min/max are the smaller/larger of the two and equal one of them |
| Statistics.SingleValid | src/c++/billion-record-challenge.cpp:20-24 | the record of one reading has count 1 and min <= mean <= max |
| Statistics.CombineValid | src/c++/billion-record-challenge.cpp:119-122 | combining two records whose min and max bracket their mean gives such a record |
| Statistics.CombineCommutative | src/rust/billion-record-challenge.rs:199-202 | combining is independent of the order of the two records |
| Statistics.CombineAssociative | src/rust/billion-record-challenge.rs:199-202 | combining is independent of grouping |
| Statistics.EmptyIsIdentity | src/c++/billion-record-challenge.cpp:14-17 | the default record (INT64_MAX, INT64_MIN, 0, 0) is an identity of combining for records whose bounds fit in 64 bits |
| Registries.ParseLine | src/python/billion-record-challenge.py:53-55 | the two parts of `partition(b";")` together are no longer than the line |
| Registries.ParseLineParts | src/python/billion-record-challenge.py:54 | with a `;`, name + `;` + value is the line and the name has no `;`; without one, the name is the line and the value is empty |
| Registries.ParseLineRoundTrip | src/python/billion-record-challenge.py:54 | a line built from a name without `;`, a `;` and a value splits back into that name and that value |
| Registries.Absorbed | src/c++/billion-record-challenge.cpp:114-126 | folding a shard in: the keys are the union; a station new to the registry takes the shard's record, a station in both is combined, every other station is unchanged |
| Registries.Observe | src/python/billion-record-challenge.py:58-72 | recording a reading: a new station gets (t, t, t, 1), a known one gets min/max lowered/raised, t added and the count incremented; no other station changes |
| Registries.ApplyLine | src/rust/billion-record-challenge.rs:132-147 | with either decoder, a successful line never removes a station |
| Registries.ApplyLineSucceeds | src/rust/billion-record-challenge.rs:133-136 | with either decoder, a line is recorded if and only if it has a `;` and at least 3 bytes after the first one, and then its station gets the decoded reading (for C++ this holds of values without a NUL byte, see "Left out") |
| Registries.ApplyWellFormedLine | src/c++/billion-record-challenge.cpp:140-153 | with the corrected decoder, a line `name;value` with a well-formed value records the value's decimal reading for that name |
| Registries.AbsorbedIdentity | src/python/billion-record-challenge.py:76-86 | merging into or from an empty registry changes nothing |
| Registries.AbsorbedCommutative | src/rust/billion-record-challenge.rs:191-207 | merging two registries does not depend on which comes first |
| Registries.AbsorbedAssociative | src/rust/billion-record-challenge.rs:191-207 | merging three registries does not depend on grouping |
| Registries.AbsorbedValid | src/c++/billion-record-challenge.cpp:119-122 | merging keeps every record's min <= mean <= max |
| Registries.ApplyLineValid | src/python/billion-record-challenge.py:60-72 | recording a line keeps every record's min <= mean <= max |
| Registries.MergedConcat | src/python/billion-record-challenge.py:75-88 | gathering a concatenation of shard lists is merging the two gathers |
| Registries.Merged | src/python/billion-record-challenge.py:75-88 | `gather` as a definition: the shards absorbed one after another into the empty registry; MergedKeys, MergedTotals, MergedBounds and MergedAttained give its contents |
| Registries.MergedPermutation | src/rust/billion-record-challenge.rs:191-207 | every rearrangement of the same shards (equal multisets) gathers to the same registry |
| Registries.MergedKeys | src/c++/billion-record-challenge.cpp:112-129 | a station is in the merged registry if and only if some shard holds it |
| Registries.MergedTotals | src/c++/billion-record-challenge.cpp:121-122 | per station, the merged sum and count are the totals over the shards |
| Registries.MergedBounds | src/c++/billion-record-challenge.cpp:119-120 | per station, the merged min is at most, and the merged max at least, every shard's |
| Registries.MergedAttained | src/python/billion-record-challenge.py:81-82 | per station, the merged min and max are each some shard's |
| Registries.Registry.constructor | src/rust/billion-record-challenge.rs:180 | a fresh registry is empty |
| Registries.Registry.Record | src/python/billion-record-challenge.py:60-72 | the in-place insert-or-update leaves the registry equal to `Observe` of the old one |
| Registries.Registry.ProcessLine | src/rust/billion-record-challenge.rs:132-147 | with decoder `d`, on success the registry becomes `ApplyLine` of the old one; on the lines the source fails on, it reports failure and changes nothing |
| Registries.Registry.Absorb | src/rust/billion-record-challenge.rs:194-204 | the inner merge loop, in any visiting order of the shard's entries, leaves the registry equal to `Absorbed(old, shard)` |
| Registries.Gather | src/c++/billion-record-challenge.cpp:112-129 | gathering the shards into a fresh registry yields `Merged(shards)` |
| Chunks.PastNext | src/c++/billion-record-challenge.cpp:172-182 | the index returned is after the start (unless the start is the end) and within the file |
| Chunks.PastNextStops | src/c++/billion-record-challenge.cpp:175-180 | the index is just past the first target byte at or after the start, or the end of the file when there is none |
| Chunks.PastNextUnique | src/python/billion-record-challenge.py:112-113 | that index is the only one with these properties |
| Chunks.LineContent | src/c++/billion-record-challenge.cpp:139 | the line handed over is no longer than the raw line |
| Chunks.LineContentStrips | src/c++/billion-record-challenge.cpp:139 | `getline` removes a terminating `\n` and nothing else |
| Chunks.LineContentAsWritten | src/rust/billion-record-challenge.rs:184 | `line[..line.len() - 1]`: the raw line less its last byte, whether or not that byte is `\n` (a prefix one byte shorter) |
| Chunks.LineContentAgrees | src/rust/billion-record-challenge.rs:184 | dropping the last byte agrees with stripping `\n` if and only if the raw line ends with `\n` |
| Chunks.LinesConcat | src/python/billion-record-challenge.py:97 | the lines `readline` returns, concatenated, give back the bytes |
| Chunks.LinesShape | src/python/billion-record-challenge.py:97 | every line is non-empty, all but the last end with `\n`, and none holds a `\n` elsewhere |
| Chunks.LinesSplit | src/rust/billion-record-challenge.rs:220-232 | cutting the bytes at a line boundary cuts their lines there |
| Chunks.LinesAppend | src/python/billion-record-challenge.py:97 | the lines of bytes that follow whole lines (ending in `\n`) are those lines and then their own |
| Chunks.Fold | src/c++/billion-record-challenge.cpp:138-157 | the scan as a definition: each line, in order, stripped and decoded as the reader says and recorded with `ApplyLine`, stopping at the first line that fails; FoldRecords, FoldAttained and FoldValid give its outcome |
| Chunks.Aggregate | src/python/billion-record-challenge.py:96-98 | the scan of bytes: `Fold` over the lines `readline` returns; AggregateRecords and AggregateSplit give its outcome |
| Chunks.AggregateSplit | src/c++/billion-record-challenge.cpp:131-160 | a scan may be cut at any line boundary and resumed from the registry reached |
| Chunks.AggregateFrom | src/python/billion-record-challenge.py:75-88 | scanning from a non-empty registry equals scanning from an empty one and merging the result in |
| Chunks.FoldValid | src/c++/billion-record-challenge.cpp:144-153 | a successful scan keeps every record's min <= mean <= max |
| Chunks.FoldRecords | src/python/billion-record-challenge.py:58-72 | after a successful scan from the empty registry, a station is present if and only if some line names it; its count is the number of lines naming it, and its sum the sum of their readings |
| Chunks.FoldAttained | src/c++/billion-record-challenge.cpp:144-153 | after a successful scan from the empty registry, every station's minimum and maximum are each the reading of some line naming it |
| Chunks.AggregateRecords | src/c++/billion-record-challenge.cpp:138-157 | a successful scan of bytes holds exactly the stations its lines name, with the count of their lines, the sum of their readings, and a minimum and maximum read on such lines |
| Chunks.SeekTo | src/c++/billion-record-challenge.cpp:172-182 | `seek_to` returns just past the first `\n` at or after the offset, or the end of the file |
| Chunks.ProcessChunk | src/c++/billion-record-challenge.cpp:131-160 | for every reader, including `CPP` and `RUST` as written, `process_chunk(offset, size)` yields the scan of exactly `[offset, offset+size)` when that range ends on a line boundary; otherwise the counter wraps as the C++ `size_t` does, misses 0, and the scan runs to the end of the file; an offset past the end reads nothing |
| Chunks.ScanEnd | src/rust/billion-record-challenge.rs:182-187 | the place the scan stops is at or after the start, within the file, and on a line boundary |
| Chunks.CounterBeforeStop | src/rust/billion-record-challenge.rs:183 | while `bytes_remains` is not 0 the scan has not reached the end of its range |
| Chunks.CounterAtExit | src/rust/billion-record-challenge.rs:183-185 | when the loop exits, the scan is at the end of the aligned range, or else at the end of the file |
| Chunks.WrappingSub | src/c++/billion-record-challenge.cpp:155-156 | unsigned 64-bit subtraction: the result is below 2^64 and is `a - b`, or `a - b + 2^64` when that is negative |
| Chunks.CounterStep | src/c++/billion-record-challenge.cpp:155-156 | subtracting a line's length keeps `bytes_remains` equal to the size minus the bytes consumed, modulo 2^64 |
| Chunks.UnterminatedLastLine | src/rust/billion-record-challenge.rs:184 | the file `B;1.5` without a final `\n` fails in the Rust scan as written (it decodes `1.`), while the C++ scan records 15 tenths for `B` |
| Chunks.ReadersAgree | src/rust/billion-record-challenge.rs:183-186 | on every file whose last line ends with `\n`, the Rust scan as written equals the C++ scan |
| Partitioning.CeilDiv | src/c++/billion-record-challenge.cpp:189 | `(S + n - 1) / n` is the least base with `n * base >= S` |
| Partitioning.FloorDiv | src/python/billion-record-challenge.py:106 | `S // n` is the base with `n * base <= S < n * (base + 1)` |
| Partitioning.Partition | src/c++/billion-record-challenge.cpp:193-203 | the boundary loop produces `n` chunks: the first starts at 0, each starts where the previous ended, and each ends just past the first `\n` at or after `min(S, start + base)`, or at `S` |
| Partitioning.Cuts | src/c++/billion-record-challenge.cpp:193-203 | the chunks the boundary loop produces, as a definition: the first starts at 0, each starts where the previous ended and ends just past the first `\n` at or after `min(S, start + base)`; CutsTiles, CutsTile and CutsReach give its consequences |
| Partitioning.Reach | src/c++/billion-record-challenge.cpp:193-203 | where the boundary loop stands after `k` turns, always within the file |
| Partitioning.CutsTiles | src/rust/billion-record-challenge.rs:220-243 | the first `k` chunks are contiguous and line-aligned and reach at least `min(S, k * (base + 1))` |
| Partitioning.CutsTile | src/python/billion-record-challenge.py:110-117 | when `n * (base + 1) > S`, the `n` chunks tile the whole file on line boundaries |
| Partitioning.TilesIndex | src/rust/billion-record-challenge.rs:221-232 | every chunk of a tiling lies inside the file and ends on a line boundary |
| Partitioning.CutsReach | src/python/billion-record-challenge.py:109-117 | chunk `i` of the boundary loop runs from where the loop stands after `i` turns to where it stands after `i + 1` |
| Partitioning.ReachStep | src/c++/billion-record-challenge.cpp:195-202 | a turn of the boundary loop from inside the file moves strictly forward, and a turn from the end of the file stays there |
| Partitioning.ReachMonotone | src/rust/billion-record-challenge.rs:220-243 | the boundary loop never moves back |
| Partitioning.EmptyChunk | src/python/billion-record-challenge.py:110-117 | a chunk is empty if and only if it starts at `S`; then the loop reaches `S` within `n - 1` turns, and then the last chunk is `[S, S)` |
| Partitioning.CeilCovers | src/c++/billion-record-challenge.cpp:189 | the C++/Rust base satisfies `n * (base + 1) > S` |
| Partitioning.FloorCovers | src/python/billion-record-challenge.py:106 | the Python base satisfies `n * (base + 1) > S` |
| Measurements.JoinedSome | src/c++/billion-record-challenge.cpp:205-209 | when every worker succeeds, waiting for them and merging is `gather` of their registries |
| Measurements.JoinedNone | src/rust/billion-record-challenge.rs:235-245 | one failed worker makes the whole run fail |
| Measurements.AggregateAppend | src/c++/billion-record-challenge.cpp:193-203 | scanning bytes that a line boundary splits in two equals scanning each half and merging the two registries |
| Measurements.TilesAggregate | src/c++/billion-record-challenge.cpp:184-210 | scanning the chunks of a tiling of a file prefix and merging in chunk order equals one scan of that prefix |
| Measurements.TiledAggregate | src/c++/billion-record-challenge.cpp:184-210 | headline: scanning the chunks of a line-aligned tiling separately and merging equals one sequential scan of the whole file |
| Measurements.JoinedReordered | src/rust/billion-record-challenge.rs:239-240 | merging the workers' outcomes in any completion order equals merging them in chunk order |
| Measurements.ScansIndex | src/c++/billion-record-challenge.cpp:198-200 | the outcomes are in chunk order: outcome `k` is the scan of chunk `k` |
| Measurements.RunWorkers | src/c++/billion-record-challenge.cpp:198-200 | one `process_chunk` per chunk of a tiling, for any reader: worker `i` yields the scan of exactly chunk `i` |
| Measurements.ChunkScan | src/c++/billion-record-challenge.cpp:198-200 | for each chunk of a tiling, `process_chunk(start, end - start)` stops exactly at the chunk's end, so it reads exactly the chunk |
| Measurements.Collect | src/rust/billion-record-challenge.rs:247-248 | collecting the outcomes in any order and merging yields the chunk-order merge |
| Measurements.ProcessMeasurements | src/rust/billion-record-challenge.rs:209-249 | for every reader (`CPP`, `RUST`), every `n >= 1` and every completion order the result equals one sequential scan of the whole file with that reader; with `n = 0` it fails |
| MappedChunks.MmapOffset | src/python/billion-record-challenge.py:92 | the map offset is a multiple of the granularity at or below the chunk start and within one granularity of it, and equals the start if and only if the start is a multiple |
| MappedChunks.MappedChunkAsWritten | src/python/billion-record-challenge.py:91-100 | the Python worker as written, as a definition: map from the granularity boundary below the start with length `end - offset`, seek to the start, read the rest of the map; MappedChunkAsWrittenFails gives when it fails |
| MappedChunks.MappedChunk | src/python/billion-record-challenge.py:91-100 | the corrected worker: an empty chunk gives the empty registry, any other chunk is read as written; MappedChunkScans states it reads exactly its chunk |
| MappedChunks.Mmap | src/python/billion-record-challenge.py:95 | a successful map is the slice of the file of the requested length from the offset (to the end of the file for length 0); it succeeds if and only if the offset is a multiple of the granularity and, for length 0, below the file size, otherwise the map ends within the file |
| MappedChunks.MappedChunkScans | src/python/billion-record-challenge.py:91-100 | the corrected worker scans exactly the bytes of its chunk |
| MappedChunks.MappedChunkAsWrittenFails | src/python/billion-record-challenge.py:92-95 | the worker as written agrees with the corrected one on every non-empty chunk; on the empty chunk at the end of the file it fails if and only if the file size is a multiple of the granularity |
| MappedChunks.OneLineTwoWorkers | src/python/billion-record-challenge.py:110-117 | a one-line file whose size is a multiple of the granularity, split between 2 workers, gives chunks `[0, S)` and `[S, S)`, and the worker as written fails on the second |
| MappedChunks.ReadLines | src/python/billion-record-challenge.py:96-98 | the `readline` loop from a position yields the scan of the rest of the map |
| MappedChunks.ProcessChunkMapped | src/python/billion-record-challenge.py:91-100 | the Python worker, reading an empty chunk as empty, yields the scan of exactly `[start, end)` |
| MappedChunks.ProcessChunkMappedAsWritten | src/python/billion-record-challenge.py:91-100 | the Python worker as written reads exactly `[start, end)`, except on an empty chunk starting at a multiple of the granularity: there it reads from `start` to the end of the file, and fails when `start` is the file size |
| MappedChunks.WorkerAsWritten | src/python/billion-record-challenge.py:91-100 | what that worker returns on a chunk of the boundary loop: failure on the chunk at `S` when `S` is a multiple of the granularity, else the scan of the chunk; WorkerStep ties the method to it |
| MappedChunks.WorkersAsWritten | src/python/billion-record-challenge.py:119-120 | the `starmap` result: one outcome per chunk, in chunk order |
| MappedChunks.WorkerStep | src/python/billion-record-challenge.py:91-100 | on a chunk of the boundary loop, that worker yields the scan of its chunk, or fails on the empty chunk at `S` when `S` is a multiple of the granularity |
| MappedChunks.WorkersIndex | src/python/billion-record-challenge.py:119-120 | `starmap` keeps the chunk order: outcome `k` is that of worker `k` |
| MappedChunks.WorkerScans | src/python/billion-record-challenge.py:91-117 | unless the loop reaches `S` within `n - 1` turns and `S` is a multiple of the granularity, every worker as written scans exactly its chunk |
| MappedChunks.AsWrittenOutcome | src/python/billion-record-challenge.py:119-122 | merging the workers as written fails exactly when the loop reaches `S` within `n - 1` turns and `S` is a multiple of the granularity, and otherwise equals one scan of the whole file |
| MappedChunks.ProcessMeasurementsMapped | src/python/billion-record-challenge.py:103-122 | with the empty-chunk Finding corrected, for every `n >= 1` and every non-empty file the result equals one sequential scan of the whole file; `n = 0` and an empty file fail |
| MappedChunks.ProcessMeasurementsMappedAsWritten | src/python/billion-record-challenge.py:103-122 | the Python program as written equals one sequential scan of the whole file, except that it fails when the loop reaches `S` within `n - 1` turns and `S` is a multiple of the granularity; `n = 0` and an empty file fail |
| Fnv.FeedConcat | src/rust/billion-record-challenge.rs:85-92 | feeding two pieces in turn equals feeding their concatenation |
| Fnv.HashShort | src/c++/billion-record-challenge.cpp:64-71 | the empty input hashes to the offset basis, and one byte to one xor-multiply step from it |
| Fnv.HashVectors | src/c++/billion-record-challenge.cpp:64-71 | the published FNV-1a vectors: the empty input hashes to `0xcbf29ce484222325`, and `"a"` to `0xaf63dc4c8601ec8c` |
| Fnv.Fnv1aHash | src/c++/billion-record-challenge.cpp:64-71 | the loop computes the FNV-1a hash of the name |
| Fnv.FnvHasher.constructor | src/rust/billion-record-challenge.rs:74-78 | a fresh hasher holds the offset basis `0xcbf29ce484222325` |
| Fnv.FnvHasher.Write | src/rust/billion-record-challenge.rs:85-92 | `write` feeds every byte, in order, to the state |
| Fnv.FnvHasher.Finish | src/rust/billion-record-challenge.rs:81-83 | `finish` reports the state unchanged |
| Fnv.HashInPieces | src/rust/billion-record-challenge.rs:85-92 | two writes to a fresh hasher give the FNV-1a hash of the concatenation, as the C++ loop computes it |
| Report.BelowIrreflexive | src/python/billion-record-challenge.py:128 | no name is below itself |
| Report.BelowTransitive | src/python/billion-record-challenge.py:128 | the byte order is transitive |
| Report.BelowTotal | src/python/billion-record-challenge.py:128 | any two different names are ordered one way |
| Report.AscendingUnique | src/python/billion-record-challenge.py:128 | two ascending listings of the same names are identical, so the registry alone determines the order of the report |
| Report.SortedStations | src/c++/billion-record-challenge.cpp:215-220 | sorting lists every station of the registry exactly once, in strictly ascending byte order |
| Report.Entries | src/python/billion-record-challenge.py:126-129 | there is one entry per listed name, in listing order, each `name=` followed by its formatted record |
| Report.SuffixedJoin | src/c++/billion-record-challenge.cpp:221-225 | entries each followed by `", "` equal the `", "` join of the entries plus one trailing `", "` |
| Report.Trimmed | src/c++/billion-record-challenge.cpp:228 | cutting two bytes off fails exactly on fewer than two bytes, and otherwise leaves the text less its last two bytes |
| Report.Listing | src/python/billion-record-challenge.py:126-130 | the Python text: `{`, the `", "` join of the entries, `}` |
| Report.ListingAsWritten | src/c++/billion-record-challenge.cpp:221-230 | the C++/Rust text: every entry followed by `", "`, the last two bytes cut off, braced; ListingAsWrittenAgrees relates it to `Listing` |
| Report.ListingAsWrittenAgrees | src/c++/billion-record-challenge.cpp:221-230 | the C++/Rust text equals the Python text whenever there is a station; on an empty registry it fails, where Python prints `{}` |
| Report.PrintStatistic | src/python/billion-record-challenge.py:125-130 | the names are sorted ascending, each station appears once, the text is the braced `", "` join of the entries, and an empty registry prints `{}` |
| Report.PrintStatisticAsWritten | src/c++/billion-record-challenge.cpp:212-231 | the append-then-trim text equals the Python text on every non-empty registry, and fails on an empty one |

## Left out

- Threads, `Pool.starmap` and the mutex are not modelled. Each worker is a call over the same immutable bytes. The Rust completion order is the permutation parameter `order` of `ProcessMeasurements` and `Collect`.
- File I/O is not modelled: opening, `seekg`, `BufReader`, buffer sizes and file metadata. The file is a byte sequence given as a parameter.
- Command-line parsing, `hardware_concurrency` / `available_parallelism` / `cpu_count`, timing and `time_past_since` are out of scope: they do not touch the aggregate.
- Floating point is not modelled. This covers Python's `float(value)`, the `* 0.1` scaling, the `{:.1f}` formatting of min/mean/max, and Python's float sums (`record.sum += temperature` when recording, `record.sum += stats.sum` when merging). Float rounding makes those sums depend on how the file is chunked and on the merge order, so for Python, "one sequential scan" (`TiledAggregate`, `ProcessMeasurementsMapped`) holds of the sums only in exact arithmetic. The Python program is modelled with the reader `CORRECTED`: the corrected fixed-point decoder, which agrees with `float` on every well-formed value (`ParseMatchesDecimal`). `Report` takes the record formatter as a function parameter.
- MappedChunks.ProcessMeasurementsMapped: the values are read with the fixed-point decoder, not Python's `float`, and the two differ in both directions. `float` accepts values the decoder refuses or misreads: one- and two-byte values such as `5` and `-5`, `1e2`, `+1.5`, and surrounding whitespace. On those lines the model's scan fails or differs where Python reads a number. `float` also refuses values of three or more bytes that are not numbers, such as `1.x`, `abc` or `1..`. On those, Python raises `ValueError` and the run dies, while the model's scan records a number (`Digit` of a non-digit byte is just its distance from `'0'`).
- MappedChunks.ProcessMeasurementsMappedAsWritten: the same two-way difference from `float` as ProcessMeasurementsMapped. It decodes values that `float` refuses and refuses values that `float` reads; its empty-last-chunk failure condition is exact.
- Registries.ApplyLine: C++ and Rust subtract `'0'` from bytes that need not be digits. In Rust that is a `u8` underflow panic in debug builds. In C++ the bytes are (signed, on the usual targets) `char`s, so a byte `b >= 0x80` gives `b - 256 - 48`. The model computes `b - 48` as an integer for every byte. C++ also passes the value to `parse_temperature` as a C string (cpp:142), so its length is measured up to the first NUL byte and the value ends there. The model decodes every byte after the `;`. On a value holding a NUL byte, such as `1.5` followed by NUL, C++ decodes `1.5` (15 tenths), while the model decodes four bytes through the unsigned four-byte branch. The results for `CPP` (`ProcessChunk`, `ProcessMeasurements`) are therefore those of the C++ program on files whose values hold no NUL byte.
- Statistics.Combine: does not model the 32-bit `i32` sum of the Rust `Stats`, which can overflow on large files; sums and counts are unbounded integers.
- Partitioning.Partition: does not model the 64-bit wrap of `start + base`. It happens on files near 2^64 bytes, and also in ordinary C++ runs: once `seek_to` has returned `2^64 - 1` at the end of the file, the next turn starts at that value and `start + base` wraps. The Chunks.SeekTo line below gives the outcome, which the model matches. `ProcessChunk` does model the 64-bit wrap of `bytes_remains`.
- Chunks.SeekTo: in C++, `seek_to` returns `tellg()` after reading fails at the end of the file. A failed stream reports `-1`, so `end` becomes `2^64 - 1`. The model returns the file size instead. The chunk whose end becomes `2^64 - 1` calls `process_chunk(start, 2^64 - 1 - start)`; its counter cannot reach 0 before the file ends, so it reads from `start` to the end of the file, as the model's chunk `[start, S)` does. A chunk that starts at `2^64 - 1` lies past the file and reads nothing, which is also the model's outcome for the chunk `[S, S)`.
- Chunks.ProcessChunk: on an unterminated last line, C++ subtracts one byte more from `bytes_remains` (`line.size()` plus 1) than the model does. The file has ended at that point, so the outcome does not change.
- Chunks.ProcessChunk: for `RUST`, the model wraps `bytes_remains` as a release build does. Rust's `-=` on `u64` is checked in a debug build, which panics on the first line that crosses the end of a range not ending on a line boundary. The boundary loop never produces such a range (`Measurements.ChunkScan`: the counter reaches 0 exactly at every chunk's end), so `ProcessMeasurements` is the same in both builds.
- In Python's `gather`, a station new to the merged registry shares its `Stats` object with the worker's registry, and later merges mutate it. The model merges values, and no worker registry is read after the merge.
- Registries are modelled as maps, so hashing does not affect their contents. The FNV-1a hasher is modelled and proved against its definition, but not tied to the map.
- Rust's `Hash for str` writes an extra `0xff` byte after a name. Its hash of a name is therefore `Hash(name + [0xff])`, not the C++ hash. The model does not connect these.
- FNV-1a is not claimed to be injective: two names may share a hash, which the hash maps resolve and the model's maps do not need.
- Rust reads station names with `from_utf8_unchecked` and Python decodes them with `station.decode()` when printing. Both are treated as byte strings; invalid UTF-8 handling is not modelled.
- Output trimming: a Rust release build wraps `result.len() - 2` on an empty registry and `truncate` then does nothing. The model reports the debug-build panic and the C++ exception, as `None`.

## Findings

| source | as written | input that shows it | evidently intended | confidence | as-written member | corrected member |
|---|---|---|---|---|---|---|
| src/c++/billion-record-challenge.cpp:88-91, src/rust/billion-record-challenge.rs:120-123 | the unsigned four-byte branch (`"99.9"`) returns `100*d0 + 10*d1` and never adds the tenths digit | `Paris;12.3` records 120 tenths (12.0) instead of 123 | `100*d0 + 10*d1 + d3`, like the other three branches and the decimal reading | high (not executed) | Temperature.ParseTemperatureAsWritten, Temperature.AsWrittenDropsTenths, Temperature.DecodeExamples | Temperature.ParseTemperature, Temperature.ParseMatchesDecimal, Temperature.ParseRender |
| src/rust/billion-record-challenge.rs:184 | `&line[..line.len() - 1]` drops the last byte even when the last line has no `\n` | a file ending in `B;1.5` without a newline: the value `1.` is too short and `parse_temperature` indexes out of range (panic) | strip the `\n` only when present, as C++ `getline` and Python do | high (not executed) | Chunks.LineContentAsWritten, Chunks.UnterminatedLastLine | Chunks.LineContent, Chunks.LineContentAgrees, Chunks.ReadersAgree |
| src/python/billion-record-challenge.py:92-95 | an empty chunk at the end of the file gets `length = end_byte - offset = 0`; `mmap` reads length 0 as "to the end" and refuses an offset at the file size (`ValueError`) | a one-line file whose size is a multiple of `ALLOCATIONGRANULARITY`, with 2 workers: chunks `[0, S)` and `[S, S)`; the second worker raises | an empty chunk yields an empty registry | medium (not executed) | MappedChunks.MappedChunkAsWritten, MappedChunks.MappedChunkAsWrittenFails, MappedChunks.OneLineTwoWorkers, MappedChunks.ProcessMeasurementsMappedAsWritten | MappedChunks.MappedChunk, MappedChunks.MappedChunkScans, MappedChunks.ProcessChunkMapped, MappedChunks.ProcessMeasurementsMapped |
| src/c++/billion-record-challenge.cpp:228, src/rust/billion-record-challenge.rs:165 | the trailing `", "` is cut with `size() - 2` / `len() - 2` in unsigned arithmetic, even when nothing was appended | an empty measurement file: no station, `resize(2^64 - 2)` throws `std::length_error` in C++ (a Rust debug build panics) | print `{}` as the Python program does | medium (not executed) | Report.PrintStatisticAsWritten, Report.ListingAsWrittenAgrees | Report.PrintStatistic |
