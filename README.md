# 1BRC aggregation core, modelled in Dafny

The program reads a file of `name;temperature` lines, for example `Hamburg;12.0`.
It maps the file into memory as one byte view. `split_input` cuts the view into
one line-aligned segment per worker. Each worker scans its segment line by line
with a `Reader` and keeps a hash map from city name to a `Stats` record: the
minimum, the maximum, the sum and the count of the temperatures, all in tenths
of a degree. Then `merge_results` folds the per-worker maps into one.
Merging is independent of the order of the maps (`Merger.MergeAllPermutation`).

The model follows `src/main.cpp` one module per part:

- `Bytes` (bytes.dfy): bytes as `char` below 256, `string_view::find` with its `npos`, and signed `char` promotion.
- `LineScanner` (reader.dfy): `Reader` as a class with a `pos` field that `Getline` advances. `Lines` is the sequence of newline-terminated lines it produces.
- `Temperature` (temperature.dfy): `get_temperature`, character arithmetic and the truncation to `int16_t` included.
- `Statistics` (stats.dfy): `Stats`, `update`, `merge` and the default record.
- `Aggregation` (aggregation.dfy): the per-segment scan of `process_segment`, as a loop over a `Reader`, specified by `Aggregate`.
- `Merger` (merger.dfy): `merge_results` as nested loops, specified by `MergeAll`.
- `Segmenter` (segmenter.dfy): `split_input` as written, `SplitInput`. Also a corrected, line-aligned split, `SplitAligned`.
- `Pipeline` (pipeline.dfy): the fan-out of `process_all`, with the sequential worker loop `RunWorkers`.
- `Hashing` (hash.dfy): `StringHash::hash`, 32-bit FNV-1a over `bv32`.

The central theorem is `Pipeline.SplitThenMerge`. Cut the view into any number
of aligned segments, aggregate each one, and merge the results in order: the
result is the map of a single scan over the whole view.
`Pipeline.SplitInputThenMerge` proves the same for the program's own split, on
the inputs where that split stays in bounds and the view ends with a newline.

`split_input` is meant to partition the view into line-aligned segments,
the last one ending at the end of the view. As written it falls short in two
ways. It reads outside the view when the view's size is 0 or not a multiple of
the worker count. It also ends a segment at offset 0 when no newline follows
the tentative end. `SplitInput` keeps the wrap to 0. Its precondition excludes
the out-of-bounds reads, and `ReadsInBoundsIff` says exactly when they happen.
Every start and end it computes is still a cut point, so no line is split: what
goes wrong is the order and the coverage of the cuts. The results are proved
about the corrected `SplitAligned`, and about `SplitInput` on the views where it
stays in bounds and ends with a newline (see "## Findings").

## Model

| member | source | states |
|---|---|---|
| Bytes.SignedValue | src/main.cpp:275-277 | a byte read as signed `char` lies in [-128, 128) and is the byte's value or that value less 256: the one value of that range congruent to the byte modulo 256 |
| Bytes.Find | src/main.cpp:148 | a found index is at or after the start position and holds the byte sought |
| Bytes.FindResult | src/main.cpp:148 | the index found is the first occurrence; `npos` means no occurrence from the start position on |
| LineScanner.LinesHaveNoNewline | src/main.cpp:146-155 | no line contains a newline, and there are no lines at all exactly when the text has no newline |
| LineScanner.LinesAppend | src/main.cpp:146-155 | the lines of two texts cut after a newline are the lines of the first followed by the lines of the second |
| LineScanner.Reader.constructor | src/main.cpp:142-144 | the reader holds the view and starts at position 0 |
| LineScanner.Reader.Getline | src/main.cpp:146-155 | succeeds exactly when a newline remains; on success returns the bytes up to that newline and moves past it, leaving the later lines still to come; on failure changes neither the position nor the line, and no line was left |
| Temperature.ToInt16 | src/main.cpp:266 | the conversion to `int16_t` keeps values in range, and agrees with its argument modulo 2^16 |
| Temperature.ParseWellShaped | src/main.cpp:266-278 | on `-?d.d` and `-?dd.d` every index read is in bounds, and the result is the value in tenths, in [-999, 999] |
| Temperature.EncodeRoundTrip | src/main.cpp:266-278 | every value in [-999, 999] tenths, written in that shape, parses back to itself |
| Temperature.ParseExamples | src/main.cpp:266-278 | "-3.5" parses to -35 and "12.0" to 120 |
| Statistics.UpdateBrackets | src/main.cpp:166-172 | after `update(t)` the minimum and maximum bracket `t` and the old bounds, each is the old bound or `t`, the sum grows by `t` and the count by one |
| Statistics.UpdateIsMergeSingle | src/main.cpp:166-180 | `update(t)` is `merge` with the record of `t` alone |
| Statistics.MergeCommutative | src/main.cpp:174-180 | `merge` does not depend on the order of its two records |
| Statistics.MergeAssociative | src/main.cpp:174-180 | `merge` does not depend on how three records are grouped |
| Statistics.DefaultIsIdentity | src/main.cpp:198-201 | the default record (`INT16_MAX`, `INT16_MIN`, 0, 0) is the identity of `merge` on both sides |
| Statistics.SummarizeFields | src/main.cpp:163-202 | updating a default record with a run of temperatures counts and sums them; once non-empty, min and max are members of the run and bracket all of it |
| Statistics.SummarizeAppend | src/main.cpp:166-180 | merging the records of two runs gives the record of the two runs in sequence |
| Aggregation.SplitAtSeparator | src/main.cpp:321-323 | on a line with a `;`, the city is the part before the first `;`, and line = city + ";" + value |
| Aggregation.NoSeparator | src/main.cpp:321-323 | on a line without `;`, `find` gives `npos`, so both the city and the value text are the whole line |
| Aggregation.TempOfRecord | src/main.cpp:321-323 | the line `name;value`, with a name free of `;` and a well-shaped value, yields that name and that value in tenths |
| Aggregation.AggregateKeys | src/main.cpp:325-328 | a name is in the map exactly when some line has it as its city |
| Aggregation.AggregateRecord | src/main.cpp:325-329 | the record of a name is the fold of that name's temperatures, in order, into a default record |
| Aggregation.AggregateAt | src/main.cpp:317-331 | a name is in the map exactly when some line has it as its city, and its record summarizes that city's temperatures, in order |
| Aggregation.AggregateEntry | src/main.cpp:317-331 | a present name's count and sum are those of its temperatures, which are not empty, and its min and max are among them and bracket all of them |
| Aggregation.AggregateSnoc | src/main.cpp:325-329 | one more line finds or inserts a default entry for its city and updates it with its temperature |
| Aggregation.ProcessSegment | src/main.cpp:317-331 | the map built by reading the segment line by line equals the aggregate of the segment's lines |
| Merger.MergeMapsAt | src/main.cpp:285-287 | after folding one map in, a name is present when either map had it, and its record is the merge of its two records (default where missing) |
| Merger.MergeMapsEntries | src/main.cpp:285-287 | a name in only one map keeps that map's record; a name in both gets the merge of the two |
| Merger.MergeMapsIdentity | src/main.cpp:283-287 | folding an empty map in, or folding into an empty map, changes nothing |
| Merger.MergeMapsCommutative | src/main.cpp:281-290 | folding `b` into `a` and folding `a` into `b` give the same map |
| Merger.MergeMapsAssociative | src/main.cpp:281-290 | the grouping of folds does not change the result |
| Merger.MergeAllSnoc | src/main.cpp:284-288 | merging one more result folds it into the merge of the others |
| Merger.MergeAllAt | src/main.cpp:281-290 | the merged map has exactly the names of all results, each with the in-order merge of its records |
| Merger.AllNamesAt | src/main.cpp:281-290 | a name is among all the names exactly when some result holds it |
| Merger.MergeOneMore | src/main.cpp:285-287 | one `merged[city].merge(stats)` step folds one more entry of the current map in |
| Merger.MergeEntriesAppend | src/main.cpp:284-288 | the merged record of a name over a concatenation of results is the merge of its merged records over the two parts |
| Merger.MergeEntriesPermutation | src/main.cpp:284-288 | the merged record of a name is the same for any order of the results |
| Merger.AllNamesPermutation | src/main.cpp:284-288 | the set of names is the same for any order of the results |
| Merger.MergeAllPermutation | src/main.cpp:281-290 | merging the per-segment maps in any order, as a permutation of the list, gives the same map |
| Merger.MergeResults | src/main.cpp:281-290 | the nested loops, in any iteration order of the maps, compute the in-order merge of all results |
| Segmenter.Substr | src/main.cpp:259 | `substr(pos, count)` is a prefix of the bytes from `pos` on, at most `count` long, and shorter than `count` only when it reaches the end of the view |
| Segmenter.StartAt | src/main.cpp:247-253 | a segment's adjusted start lies within the view and is a cut point (0, the end of the view, or just past a newline) |
| Segmenter.EndAt | src/main.cpp:248-257 | a segment's adjusted end lies within the view, the `npos + 1` wrap to 0 included, and is a cut point |
| Segmenter.SplitInput | src/main.cpp:241-263 | when every read is in bounds, the loop returns `chunks` segments, segment `i` being the as-written `i`th cut |
| Segmenter.CutsOfRound | src/main.cpp:246-257 | one round of the loop computes the program's start and end of segment `i`, each a cut point of the view |
| Segmenter.SegmentsCover | src/main.cpp:244 | `chunks` rounded-up chunk sizes cover the view and overshoot it by less than `chunks` bytes |
| Segmenter.ReadsInBoundsIff | src/main.cpp:251-257 | the reads `data[start - 1]` and `data[end - 1]` stay in bounds for every `i` exactly when the view is non-empty and its size is a multiple of `chunks` |
| Segmenter.OutOfBoundsExample | src/main.cpp:244-257 | with 10 bytes and 3 chunks the chunk size is 4 and the last round reads `data[11]` |
| Segmenter.Align | src/main.cpp:250-257 | aligning a position gives a cut point (the view's start, its end, or just after a newline) at or after it |
| Segmenter.AlignIsFirst | src/main.cpp:250-257 | no cut point lies between a position and its alignment |
| Segmenter.AlignMonotone | src/main.cpp:250-257 | alignment preserves order |
| Segmenter.Boundary | src/main.cpp:244-257 | every corrected boundary is a cut point within the view |
| Segmenter.BoundaryMonotone | src/main.cpp:246-260 | corrected boundaries never decrease, so no two segments overlap |
| Segmenter.BoundaryEnds | src/main.cpp:243-260 | the first segment starts at 0 and the last ends at the end of the view |
| Segmenter.SplitAligned | src/main.cpp:241-263 | the corrected loop returns `chunks` segments, segment `i` running from boundary `i` to boundary `i + 1` |
| Segmenter.FirstCutIsAlign | src/main.cpp:250-257 | a cut point at or after `p`, with no cut point between `p` and it, is the alignment of `p` |
| Segmenter.NextLineStart | src/main.cpp:250-257 | clamping the position to the view and then scanning forward byte by byte until the position follows a newline or reaches the end computes the alignment of the position |
| Segmenter.AdjustIsAlign | src/main.cpp:251-256 | on a view ending with a newline, the program's `find('\n', p) + 1` adjustment is the alignment of `p` |
| Segmenter.SubstrUpTo | src/main.cpp:259 | `substr(a, b - a)` with unsigned subtraction is the bytes from `a` to `b` when `a <= b` |
| Segmenter.StartIsBoundary | src/main.cpp:247-253 | on an in-bounds view ending with a newline, the program's start is the corrected boundary `i` |
| Segmenter.EndIsBoundary | src/main.cpp:248-257 | on such a view, the program's end is the corrected boundary `i + 1` |
| Segmenter.SplitInputIsAligned | src/main.cpp:241-263 | on such a view, each as-written segment equals the corrected one |
| Segmenter.UnterminatedTailExample | src/main.cpp:255-259 | on "x;1.0\ny" with one chunk the reads are in bounds, yet the program's only segment is empty, while the corrected one is the whole view |
| Segmenter.WorkerCountExample | src/main.cpp:246-259 | on "x;1.0\nyy" the reads are in bounds for one and for two chunks; with one chunk the only segment is empty, with two the segments are "x;1.0\n" and "yy" |
| Pipeline.AggregateAppendAt | src/main.cpp:317-331 | a name is in the aggregate of two runs of lines exactly when it is in either run's map, with the merge of its two records |
| Pipeline.AggregateAppend | src/main.cpp:317-331 | aggregating two runs of lines equals folding the second run's map into the first's |
| Pipeline.LinesAtCut | src/main.cpp:146-155 | cutting a text at a cut point splits its lines into those before and those after |
| Pipeline.SegmentsAt | src/main.cpp:243-260 | the first `j` corrected segments are segments 0 to `j - 1` |
| Pipeline.SegmentsTile | src/main.cpp:241-263 | the first `j` corrected segments, concatenated, are exactly the view up to boundary `j`: no gap, no overlap |
| Pipeline.SegmentsRebuildView | src/main.cpp:241-263 | all the corrected segments, concatenated, are the whole view |
| Pipeline.SegmentShape | src/main.cpp:250-257 | on a view ending with a newline, every non-empty segment ends with a newline, and every inner boundary follows one |
| Pipeline.SegmentLinesIn | src/main.cpp:241-263 | every line of a corrected segment is a line of the view |
| Pipeline.ResultsAt | src/main.cpp:335-341 | result slot `i` is the aggregate of segment `i` |
| Pipeline.ResultsByIndex | src/main.cpp:335-341 | a sequence holding the aggregate of segment `i` in slot `i`, for every `i`, is the sequence of worker results |
| Pipeline.MergeOfPrefix | src/main.cpp:334-344 | merging the results of the first `j` segments gives the aggregate of the view up to boundary `j` |
| Pipeline.SplitThenMerge | src/main.cpp:334-344 | split, per-segment aggregation and merge give the aggregate of the whole view, for every worker count |
| Pipeline.ResultIndependentOfChunks | src/main.cpp:314-315 | with the corrected split, the final map does not depend on the number of workers |
| Pipeline.SplitInputThenMerge | src/main.cpp:315-346 | with the program's own split, on a non-empty view that ends with a newline and whose size is a multiple of `chunks`, the final map is the aggregate of the whole view |
| Pipeline.SplitInputIsSegments | src/main.cpp:241-263 | on a non-empty, in-bounds view that ends with a newline, the program's segments are the aligned segments, in order |
| Pipeline.SplitInputRebuildsView | src/main.cpp:241-263 | on the same views, the program's segments concatenated in order give back the whole view |
| Pipeline.UnterminatedTailLosesLines | src/main.cpp:255-259 | on "x;1.0\ny" with one chunk the view has the record `x`, but the program's segment has no line at all |
| Pipeline.WorkerCountChangesResult | src/main.cpp:314-346 | with the program's own split the final map depends on the worker count: on "x;1.0\nyy" one worker yields the empty map and two workers yield a map holding `x` |
| Pipeline.RunWorkers | src/main.cpp:335-342 | the workers fill the result slots with the aggregate of each segment, by index |
| Pipeline.ProcessAll | src/main.cpp:334-344 | `process_all` returns the in-order merge of the per-segment aggregates |
| Pipeline.ProcessFile | src/main.cpp:310-346 | with the corrected split, the split, the workers and the merge compute the aggregate of the whole view |
| Pipeline.ProcessFileAsWritten | src/main.cpp:310-346 | with the program's own split, on a non-empty view whose size is a multiple of `chunks` and whose last line is terminated, the split, the workers and the merge compute the aggregate of the whole view |
| Hashing.Hash | src/main.cpp:53-64 | the loop returns the 32-bit FNV-1a state of the name; the value fits in 32 bits |
| Hashing.Fnv1aSnoc | src/main.cpp:55-62 | the empty name hashes to the offset basis, and each further character is one xor-multiply round with the widened character |
| Hashing.HashFromAppend | src/main.cpp:58-62 | hashing a concatenation resumes from the state after its first part |
| Hashing.AsciiIsStandard | src/main.cpp:53-64 | on names whose bytes are all below 0x80, the hash is standard FNV-1a |
| Hashing.HighByteDiffers | src/main.cpp:60 | a byte from 0x80 up is sign-extended: the name 0xE9 hashes to 0xEBF38B44, where standard FNV-1a gives 0x6C0B6C44 |
| Hashing.VectorA | src/main.cpp:53-64 | "a" hashes to the published FNV-1a value 0xE40C292C |
| Hashing.VectorFoobar | src/main.cpp:53-64 | "foobar" hashes to the published FNV-1a value 0xBF9CF968 |

## Left out

- `MappedFile` and the descriptor wrapper (src/main.cpp:68-136): `mmap` and file I/O. The view is a parameter, `data`.
- `number_of_threads` (src/main.cpp:232-238): it reads an environment variable and the hardware concurrency. The worker count is the parameter `chunks`, and `chunks >= 1` is required, since with 0 the chunk-size division is undefined.
- Threads: the `jthread`s of `process_all` run one after another in `RunWorkers`. Each worker writes only its own slot, so the order does not change the result.
- `Stats::min`, `max` and `avg`, the `std::formatter` and `dump_results` (src/main.cpp:182-195, 205-218, 293-307): floating-point division, formatting, the sorted `std::map` and output.
- `make_map` and `reserve` (src/main.cpp:224-229): capacity only. A map is a Dafny `map`.
- `main` and argument handling: process-level I/O.
- `StringHash` inside `unordered_map`: the buckets and the heterogeneous lookup are not modelled. The map is a mathematical map, and its iteration order in `merge_results` is an arbitrary choice (`:|`).
- `Statistics.Stats.Update`: `sum_` (`int64_t`) and `count_` (`int32_t`) are unbounded integers, so their overflow is not modelled.
- `Statistics.Stats.Merge`: the same unbounded sum and count.
- `Segmenter.SegmentSize`: the `size_t` overflow of `data.size() + chunks - 1` is not modelled. `SplitInputIsAligned` requires a view shorter than 2^64.
- `Hashing.Widen`: its agreement with `static_cast<unsigned>` on a signed `char` is stated bit by bit. It is established only for the bytes in the hash lemmas, not proved as an integer identity for every byte.
- `Aggregation.ProcessSegment`: it requires every line to have a value that satisfies `Readable`. The program reads `value[0]`..`value[3]` without bounds checks, and on other lines that is undefined behaviour.
- `Temperature.GetTemperature`: it is defined only where its reads are in bounds. Its result on shapes other than `-?d.d` and `-?dd.d` follows the code's arithmetic and carries no contract.
- `Pipeline.ProcessFile`: it runs the corrected split `SplitAligned`, not the program's `split_input`. The program's own pipeline is `ProcessFileAsWritten`, which is proved only on views that end with a newline. On other views its result can differ from the aggregate and depend on the worker count (`WorkerCountChangesResult`).
- `Pipeline.ResultIndependentOfChunks`: it is stated for the corrected split. For the program's split it holds only on the views of `ProcessFileAsWritten`, through `SplitInputThenMerge`.
- `Segmenter.SplitInput`: it requires the view to be non-empty with a size that is a multiple of `chunks`, because otherwise the program reads outside the view. That case is a finding, not a modelled path.

## Findings

| source | as written | input that shows it | evidently intended | confidence | as-written member | corrected member |
|---|---|---|---|---|---|---|
| src/main.cpp:244-257 | the tentative end `(i + 1) * size`, rounded up, can pass the view's end, and `data[end - 1]` and `data[start - 1]` are read unchecked (for an empty view `data[-1]` is read) | a 10-byte view with 3 chunks: size 4, and the last round reads `data[11]` | each end clamped to the view's end, so that segments only partition the view | not executed; high | Segmenter.SplitInput, Segmenter.ReadsInBoundsIff, Segmenter.OutOfBoundsExample | Segmenter.SplitAligned, Pipeline.SplitThenMerge |
| src/main.cpp:256-259 | when no newline follows the tentative end, `find` returns `npos` and `npos + 1` wraps to 0, so the first segment becomes `substr(0, 0)` and is empty. Offset 0 is still a cut point (`Segmenter.StartAt`, `Segmenter.EndAt`), so no line is split: whole lines go missing instead | "x;1.0\ny" with one chunk: the segment is empty, and the record `x` is lost. "x;1.0\nyy" is read in bounds with one and with two chunks, yet one worker yields no record and two yield `x`, so the result depends on the worker count | the segment running to the view's end, so the lines before an unterminated tail are still counted | not executed; medium | Segmenter.UnterminatedTailExample, Pipeline.UnterminatedTailLosesLines, Segmenter.WorkerCountExample, Pipeline.WorkerCountChangesResult | Segmenter.SplitAligned, Pipeline.SplitThenMerge |
