# inversion_finder, modelled in Dafny

inversion_finder looks for inversions in a pangenome graph. A path of the graph is a list of
oriented segment IDs: `5` is segment 5 read forwards, `-5` the same segment read backwards. Every
query path is compared with a reference path. The stretches of the reference that the query
traverses in the opposite orientation are found by local alignment of the reference against the
query's reverse complement. Each such stretch is then reported as an interval of reference bases,
and the intervals of all queries are collated into one table of 0/1 calls.

This project models the core of the tool and proves what its code promises.

- `lib.dfy` (module `Lib`): `amax` and `argmax` of the crate root, including `argmax`'s
  tie rule (the last maximal index wins).
- `common.dfy` (module `Common`): things both aligners share.
  - The error type and the `Alignment` record.
  - Run collapsing during the traceback, written `Dedup`.
  - Subsequences.
  - The walk back through traceback codes: 0 starts the alignment, 1 steps diagonally, 2 up and
    3 left.
- `align.dfy` (module `Align`): the high-memory aligner and `align_paths`.
  - `create_matrices`, `align_paths_subproblem` and `traceback` are imperative code over two
    `array2` matrices.
  - They are proved against the recurrence, stated as functions `Score` and `Code`.
  - `align_paths` is the outer loop over path1. It cuts subproblems bounded by conflicting or
    already-used segments and calls one of the two aligners.
- `lowmem.dfy` (module `Lowmem`): the banded low-memory aligner.
  - It keeps two score rows in `array`s that are swapped after each row, and a sparse traceback
    `map` in which a missing cell means code 0.
  - It is proved against its own recurrence, which scores by segment lengths.
  - It fails with `SegmentNotFound` exactly when a path segment has no length entry.
- `gfa.dfy` (module `Gfa`): two functions.
  - `parse_gfa_path`. Its regular expression `(\d+)([+-])` is modelled as a leftmost-match
    search, and the round trip `parse(format(path)) == path` is proved.
  - `lookup_base_positions`, proved equal to a closed-form definition of each segment's interval.
- `alignment_interface.dfy` (module `AlignmentInterface`): two functions.
  - `align_all_queries`: query selection, including PanSN prefix exclusion, alignment, and
    conversion to base intervals.
  - `print_collated_inversions`, modelled as a method that returns the table rows instead of
    printing them.
- `lowmem_test.dfy` and `align_test.dfy` (modules `LowmemTest` and `AlignTest`): the two
  aligner unit tests, restated as lemmas.
  - Row by row, the lemmas compute the recurrence on the test input.
  - Each test then calls the aligner, and the aligner's contract fixes the expected result.
- `align_paths_test.dfy` (module `AlignPathsTest`): the `align_paths` unit test, restated as
  three methods, one per path pair.
  - Lemmas compute each pair's conflicting and common IDs, the slices at each anchor, and
    the one best cell of each subproblem.
  - They then follow the loop specification index by index. Each method calls `align_paths`,
    and its contract fixes the expected alignments.

What the contracts say, in short:
- Both aligners return the two path slices between the start and the end of a best-scoring
  local alignment, with runs collapsed.
  - The end is a cell with the largest score. For the low-memory aligner it is the first such
    cell in row-major order.
  - The start is where the traceback codes lead back from the end.
- Every score entry equals the sum of the cell scores along its traceback.
- The low-memory aligner fails exactly when a length is missing, and reports the segment the
  code reports.
- `align_paths` returns exactly the alignments of its loop specification: one per anchor met
  from left to right, each the aligner's result on the anchor's slices. They are placed in the
  two paths and pairwise share no segment ID. It fails only when the low-memory aligner does.
- `align_all_queries` aligns exactly the selected queries, in order. Without a missing path or
  length it cannot fail.
- The collated table is ordered by start, has one row per distinct long-enough interval, and
  calls 1 exactly for the queries that reported the interval.

## Model

| member | source | states |
|---|---|---|
| Lib.Amax | src/lib.rs:13-15 | the result is an element of the list and no element exceeds it |
| Lib.Argmax | src/lib.rs:24-30 | the index is in range and holds the maximum; every later element is strictly smaller, so of equal maxima the last wins |
| Lib.ArgmaxOfFour | src/lib.rs:13-30 | on four candidates amax is the largest of them; argmax picks index 3 whenever it ties for the maximum, then 2, then 1, and picks 0 only when it is strictly larger than the other three |
| Lib.BestAndChoice | src/lib.rs:13-30 | on four candidates amax and argmax agree with the closed forms `Best` and `Choice`, and the chosen candidate holds the best value |
| Lib.AmaxExample | src/lib.rs:11 | amax of [2, 5, 3] is 5 |
| Lib.ArgmaxExample | src/lib.rs:22 | argmax of [2, 5, 3] is 1 |
| Common.Dedup | src/align.rs:121-126 | collapsing runs never lengthens a list, keeps its first element and leaves no two equal neighbours |
| Common.DedupElements | src/align.rs:121-126 | collapsing runs keeps exactly the same set of elements |
| Common.DedupLast | src/align.rs:121-126 | collapsing runs keeps the last element |
| Common.DedupIdentity | src/align.rs:121-126 | a list without equal neighbours is left unchanged |
| Common.DedupIdempotent | src/align.rs:121-126 | collapsing twice is collapsing once |
| Common.DedupCons | src/align.rs:121-126 | prepending an element adds it unless the collapsed list already starts with it |
| Common.PushDedup | src/align.rs:121-126 | the traceback's push-if-different on the reversed list is prepending to the collapsed slice |
| Common.PushDedupAgain | src/lowmem.rs:215-220 | when the walk stays on a row or column, that segment is already the last one pushed, so it is not pushed twice |
| Common.CollectStep | src/align.rs:119-126 | one traceback step turns the collapsed slice from `from` to the end into the collapsed slice from `i` to the end |
| Common.Collect | src/lowmem.rs:213-220 | after the push at row `i`, the reversed list is the collapsed slice from `i` to the end row |
| Common.DedupSubsequence | src/align.rs:139-141 | a collapsed list is a subsequence of the original |
| Common.DedupOfSlice | src/align.rs:139-141 | the collapsed slice is a subsequence of the whole path and has no equal neighbours |
| Common.SubsequenceElements | src/align.rs:203-208 | every element of a subsequence occurs in the sequence |
| Common.FirstUnknown | src/lowmem.rs:115-125 | the first segment without a length entry: it has none and every earlier segment has one |
| Common.FirstUnknownAt | src/lowmem.rs:115-125 | a row whose segment has no length, after rows that all had one, is the first unknown segment |
| Lowmem.CodeShape | src/lowmem.rs:57-150 | every code steps inside the matrix; first-row codes are 0 or 3 and first-column codes 0 or 2; an out-of-band interior cell has code 0 and the restart score |
| Lowmem.DiagonalsInBand | src/lowmem.rs:107-113 | the main diagonal and the diagonal shifted by the length difference are never cut off by the band |
| Lowmem.FirstRowCell | src/lowmem.rs:47-59 | amax and argmax of [0, -1, -1, left], plus the path2 segment's length (negated on a mismatch), give the first-row score and code |
| Lowmem.FirstColumnCell | src/lowmem.rs:117-128 | amax and argmax of [0, -1, above, -1], plus the path1 segment's length (negated on a mismatch), give the first-column score and code |
| Lowmem.InteriorCell | src/lowmem.rs:152-169 | amax and argmax of the four length-weighted candidates give an in-band interior cell's score and code |
| Lowmem.RestartCell | src/lowmem.rs:145-150 | an out-of-band cell scores len_i on a match and -len_i - len_j otherwise, and has code 0 |
| Lowmem.InBandCell | src/lowmem.rs:152-169 | the candidate list built from the neighbours' scores (match or mismatch form) has the cell's score as amax and its code as argmax |
| Lowmem.Origin | src/lowmem.rs:212-232 | the walk back from a cell ends at or above and left of it, on a code-0 cell |
| Lowmem.AlignmentToShape | src/lowmem.rs:201-242 | the alignment to an end cell starts at or before its end row, has non-empty sides, and each side is a run-free subsequence of its path |
| Lowmem.SparseOrigin | src/lowmem.rs:222-231 | the walk through the sparse map ends at or above and left of its start, on a cell missing from the map |
| Lowmem.SparseOriginIsOrigin | src/lowmem.rs:222-231 | when the map holds exactly the nonzero codes, its walk ends where the recurrence's walk ends |
| Lowmem.MaxAndArgmax | src/lowmem.rs:7-17 | the maximum of the row and the FIRST index that holds it: every element is at most the maximum and every earlier one strictly less |
| Lowmem.InitializeMatricesLowmem | src/lowmem.rs:21-82 | fails iff path1's first segment or a path2 segment has no length, naming the segment the code looks up first; otherwise: the first row's scores, a zeroed second row, a map of exactly the first row's nonzero codes, and the first best cell of the row |
| Lowmem.ZeroRow | src/lowmem.rs:68-73 | a fresh row of the given length, all 0 |
| Lowmem.FillFirstRowCell | src/lowmem.rs:46-63 | one first-row cell is written with its score, and its code is added to the map iff nonzero |
| Lowmem.FirstRowCodesExtend | src/lowmem.rs:59-62 | inserting the code only when it is nonzero keeps the map equal to the nonzero first-row codes |
| Lowmem.FirstRowCellValues | src/lowmem.rs:47-59 | the score and argmax code of a first-row cell, from its left neighbour |
| Lowmem.FirstRowAgrees | src/lowmem.rs:32-63 | the first row as initialization computes it is row 0 of the recurrence, and its map holds row 0's nonzero codes |
| Lowmem.FirstRowScoreIsScore | src/lowmem.rs:32-58 | the initialization's first-row score equals the recurrence's score |
| Lowmem.FirstRowDone | src/lowmem.rs:65-105 | what initialization hands over is the state after row 0: scores, map and first best cell |
| Lowmem.FirstBestOfFirstRow | src/lowmem.rs:65-66 | the first maximum of row 0 is the first best cell of the matrix so far |
| Lowmem.FirstBestStep | src/lowmem.rs:182-186 | replacing the best cell only on a strictly larger row maximum keeps the first best cell in row-major order |
| Lowmem.AlignPathsSubproblemLowmem | src/lowmem.rs:84-199 | fails iff some segment of either path lacks a length, naming the segment the code reports (unsigned in row 0, signed in later rows); otherwise the alignment ends at the first best cell of the whole matrix and is the collapsed slices back to that cell's origin |
| Lowmem.FillRowsLowmem | src/lowmem.rs:115-191 | fails iff a path1 segment lacks a length, naming the first such (with its sign); otherwise the map holds every nonzero code and the best cell is the first best of all rows |
| Lowmem.RowLowmem | src/lowmem.rs:115-191 | one row step preserves the row invariant: the fresh row holds that row's scores, the map every code before the next row, and the best cell is the first best so far |
| Lowmem.FillRowLowmem | src/lowmem.rs:116-180 | the current row receives the row's recurrence scores, and the map every nonzero code up to its end |
| Lowmem.SparseRowDone | src/lowmem.rs:137-180 | a map complete to the end of row i is complete up to the start of row i + 1 |
| Lowmem.FillCellLowmem | src/lowmem.rs:137-179 | one cell receives its score, and its code is added to the map iff nonzero |
| Lowmem.CellLowmem | src/lowmem.rs:145-169 | the value computed for an interior cell, in or out of band, is its recurrence score and code |
| Lowmem.SparseExtend | src/lowmem.rs:169-178 | inserting a code only when nonzero keeps the map equal to the nonzero codes so far |
| Lowmem.TraceFromBest | src/lowmem.rs:192 | tracing back from the best cell through the complete map yields the alignment to that cell |
| Lowmem.SparseStepBack | src/lowmem.rs:222-231 | a missing key stops the walk; otherwise the stored code moves to the neighbour it names |
| Lowmem.TraceStep | src/lowmem.rs:213-231 | one traceback iteration extends both collected lists to the current cell, keeps the walk's origin, and stops exactly on a missing key |
| Lowmem.TracebackLowmem | src/lowmem.rs:201-242 | the record holds the collapsed slices from the map walk's origin to the end cell, with the origin row as start and the end row as end index |
| Align.CodeShape | src/align.rs:37-60 | every code steps inside the matrix; first-column codes are 0 or 2 and first-row codes 0 or 3 |
| Align.Origin | src/align.rs:128-137 | the walk back from a cell ends at or above and left of it, on a code-0 cell |
| Align.ScoreAlongTrace | src/align.rs:86-137 | every matrix entry equals the sum of the cell scores along the traceback it reports |
| Align.ChosenNeighbour | src/align.rs:44-102 | a cell with code 1, 2 or 3 scores what the named neighbour scores plus its own cell score |
| Align.Recurrence | src/align.rs:88-102 | an interior score is max(0, diagonal, above, left) plus the cell score; the code prefers left, then above, then diagonal, and is 0 only when restarting is strictly best |
| Align.FirstColumnCell | src/align.rs:38-46 | amax and argmax of [0, -1, above, -1], plus the cell score, give the first-column entry and code |
| Align.FirstRowCell | src/align.rs:51-59 | amax and argmax of [0, -1, -1, left], plus the cell score, give the first-row entry and code |
| Align.InteriorCell | src/align.rs:88-102 | amax and argmax of [0, diagonal, above, left], plus the cell score, give the interior entry and code |
| Align.CreateMatrices | src/align.rs:21-63 | fresh matrices of the paths' dimensions whose first row and column hold the recurrence's scores and codes, and whose interior is 0 |
| Align.FillFirstColumn | src/align.rs:37-47 | the first column receives its scores and codes, and nothing right of it changes |
| Align.FillFirstColumnCell | src/align.rs:38-46 | one first-column cell is written, and no other cell changes |
| Align.FirstColumnValues | src/align.rs:38-46 | the first-column score and code from the cell above |
| Align.FillFirstRow | src/align.rs:50-60 | the first row receives its scores and codes, and no row below it changes |
| Align.FirstRowValues | src/align.rs:51-59 | the first-row score and code from the cell to the left |
| Align.CreateMatricesExample | src/align.rs:225-240 | the test's first row and column are 100, 99, 98 / 99, 98, 97, with codes 0, 3, 3 / 2, 2, 2 |
| Align.TraceOrigin | src/align.rs:128-137 | the walk through the code matrix ends at or above and left of its start, on a 0 entry |
| Align.MaxCell | src/align.rs:114 | a cell whose score no other cell exceeds |
| Align.Traceback | src/align.rs:108-142 | the end is a maximal cell, the start is where the codes lead back from it, and the result is the two collapsed slices between them |
| Align.TraceStep | src/align.rs:119-137 | one traceback iteration extends both collected lists to the current cell, keeps the origin, and stops exactly on code 0 |
| Align.StepBack | src/align.rs:128-137 | code 0 stops the walk; otherwise the walk moves to the neighbour the code names |
| Align.TraceOriginIsOrigin | src/align.rs:128-137 | on a matrix of the recurrence's codes, the matrix walk ends where the recurrence's walk ends |
| Align.AlignPathsSubproblem | src/align.rs:78-106 | the alignment ends at a cell of maximal recurrence score and starts at that cell's origin; the result is the collapsed slices between them |
| Align.FillInterior | src/align.rs:86-104 | after the double loop, every entry of both matrices is the recurrence's score and code |
| Align.TraceFilled | src/align.rs:105 | the traceback of filled matrices is the alignment of the recurrence |
| Align.BestOfFilled | src/align.rs:114 | a maximal entry of the filled matrix is a maximal recurrence score |
| Align.FillInteriorRow | src/align.rs:87-103 | one interior row is filled, and the rows before it and the first column stay filled |
| Align.FillInteriorCell | src/align.rs:88-102 | one interior cell is filled, and the filled prefix grows by one |
| Align.CellValues | src/align.rs:88-101 | the interior score and code from the three neighbours |
| Align.ReverseComplement | src/align.rs:152 | same length; element k is the negated element k from the end |
| Align.ReverseComplementTwice | src/align.rs:152-211 | reverse-complementing twice gives the path back |
| Align.ReverseComplementElements | src/align.rs:152-155 | x occurs in the reverse complement iff -x occurs in the path; the unsigned segment IDs are the same |
| Align.ConflictingSegments | src/align.rs:157-158 | every ID that both paths traverse in the same orientation is conflicting |
| Align.CommonSegments | src/align.rs:161-163 | the common IDs exclude the conflicting ones and include every ID traversed in opposite orientations that is not conflicting |
| Align.CommonOccursReversed | src/align.rs:179 | a common segment of path1 occurs in the reversed path2, so the position lookup cannot fail |
| Align.IndexOf | src/align.rs:179 | the first position holding the value |
| Align.RunEnd | src/align.rs:170-176 | the first position at or after the start whose ID is conflicting or used, or the path's end; every position before it is neither |
| Align.ExtendSlice | src/align.rs:170-186 | the scan's end is the `RunEnd` of its start: it moves past exactly the segments that are neither conflicting nor used, and stops on the first one that is |
| Align.MarkUsed | src/align.rs:203-208 | the used set gains exactly the unsigned IDs of the aligned segments |
| Align.HighmemCase | src/align.rs:193 | the high-memory aligner's result lies in the two slices |
| Align.LowmemCase | src/align.rs:195-200 | the low-memory aligner's result lies in the two slices, and its error is passed on |
| Align.AlignSubproblem | src/align.rs:190-201 | slices shorter than the high-memory bound get the high-memory aligner's result (a maximal end, its origin, the collapsed slices between), which cannot fail; any other get the low-memory aligner's result with the drop; errors are SegmentNotFound |
| Align.SliceBounds | src/align.rs:170-187 | for an anchor, the path1 slice runs from it and the reversed-path2 slice from the anchor's first occurrence there, each to the `RunEnd` of conflicting and used IDs; both slices hold the anchor |
| Align.UsedByCovers | src/align.rs:203-208 | every alignment's IDs are in the used set |
| Align.AppendDisjoint | src/align.rs:203-212 | an alignment avoiding the used IDs keeps the list pairwise disjoint and grows the used set by its IDs |
| Align.RunAvoids | src/align.rs:170-187 | an alignment inside a slice of non-conflicting, unused segments has no such ID and is a subsequence of the path |
| Align.MatchedSlices | src/align.rs:177-187 | slices of paths whose matched segments have lengths keep that property |
| Align.AlignAt | src/align.rs:169-201 | cuts the anchor's `SliceBounds`, and returns exactly the chosen aligner's result on those slices; it lies in them, avoids used and conflicting IDs, and fails only on a missing length |
| Align.SubsequenceReverseComplement | src/align.rs:211 | reverse-complementing both lists keeps one a subsequence of the other |
| Align.MapBack | src/align.rs:209-212 | reverse-complementing the path2 side of an alignment against the reversed path2 makes it a subsequence of path2, with the same IDs |
| Align.AppendPlaced | src/align.rs:203-212 | appending a placed alignment that avoids the used IDs keeps the outer loop's invariant |
| Align.AlignPaths | src/align.rs:144-217 | the alignments are exactly those of the loop specification `Aligned`: scanning path1 left to right, one per anchor (a common ID not used by the earlier alignments), each the aligner's result on that anchor's slices with its path2 side mapped back; a failure is the aligner's error at the first anchor where it fails. They are pairwise disjoint in segment IDs and each is a subsequence of path1 paired with a subsequence of path2; the call fails only with SegmentNotFound, and never when every segment has a length |
| Align.AlignNext | src/align.rs:169-213 | one aligning iteration: its result is the aligner's result at the anchor, mapped back, and it keeps the outer loop's invariant with the new alignment appended |
| Align.AlignedPush | src/align.rs:168-213 | pushing the mapped-back aligner result at an anchor extends the loop specification by one index |
| Gfa.Split | src/gfa.rs:28 | at least one field, and no field contains the separator |
| Gfa.JoinSplit | src/gfa.rs:28 | joining the fields of a split gives the string back |
| Gfa.SplitJoin | src/gfa.rs:28 | splitting joined separator-free fields gives the fields back |
| Gfa.DigitRun | src/gfa.rs:26 | the longest run of ASCII digits starting at a position |
| Gfa.FirstMatchFrom | src/gfa.rs:26-29 | the leftmost position at which digits followed by a sign begin, or none at all |
| Gfa.Captures | src/gfa.rs:26-32 | a match captures a non-empty digit string and a sign character |
| Gfa.ParseGfaPath | src/gfa.rs:25-37 | succeeds iff every comma-separated field matches; then one ID per field, whose magnitude is the field's digits and whose sign follows the field's orientation |
| Gfa.ParseField | src/gfa.rs:29-34 | a field parses iff it contains a match, into the signed value of its captures |
| Gfa.DigitChar | src/gfa.rs:31 | the digit character of a value below 10 |
| Gfa.Decimal | src/gfa.rs:31 | the decimal rendering of a number is a non-empty digit string |
| Gfa.DecimalValueOfDecimal | src/gfa.rs:31 | parsing a number's decimal rendering gives the number back |
| Gfa.CapturesOfFormat | src/gfa.rs:26-32 | the field written for a segment captures its decimal ID and its orientation sign |
| Gfa.FormatPathFields | src/gfa.rs:28-32 | a written path splits into one field per segment, each capturing that segment |
| Gfa.ParseFormattedPath | src/gfa.rs:25-37 | parsing a written path yields exactly that path |
| Gfa.FormatExample | src/gfa.rs:23 | the documentation path [-1, 2, -3, 235] is written "1-,2+,3-,235+" |
| Gfa.UnorientedFieldExample | src/gfa.rs:133-137 | "1-,2+,3-,235" has a field without a sign, so it does not parse |
| Gfa.LastIndexBefore | src/gfa.rs:115-127 | the last position before t holding the segment, or none when no earlier position holds it |
| Gfa.IntervalStep | src/gfa.rs:121-127 | one more path position overwrites a segment's interval iff it holds that segment |
| Gfa.SentinelPositions | src/gfa.rs:110-113 | the map holds exactly the unsigned requested IDs, each with the sentinel (-1, -1) |
| Gfa.LookupBasePositions | src/gfa.rs:103-130 | the map is the closed-form one: every requested ID maps to the interval of its last occurrence on the path, or to (-1, -1) if it does not occur |
| Gfa.PositionStep | src/gfa.rs:116-127 | one loop iteration preserves the lookup invariant one position further |
| Gfa.PositionsComplete | src/gfa.rs:129 | after the whole path, the loop's map is the closed-form map |
| Gfa.BasePositionsKeys | src/gfa.rs:110-121 | the keys are exactly the unsigned requested IDs |
| Gfa.IntervalOfSegment | src/gfa.rs:115-127 | an absent segment gets (-1, -1); a present one starts one base after all segments before its last occurrence and spans its length |
| Gfa.PrefixLengthMonotone | src/gfa.rs:127 | with positive lengths, the running position grows by at least each passed segment's length |
| Gfa.IntervalsOrdered | src/gfa.rs:115-127 | with positive lengths, a segment whose last occurrence comes earlier has an interval entirely before the other's |
| Gfa.LookupExample | src/gfa.rs:94-101 | in the documentation example segment 1 covers bases 1-100 and segment 7 bases 601-700 |
| Gfa.LookupExampleFor | src/gfa.rs:98-101 | the same example for any length table giving 100 to segments 1-7 |
| AlignmentInterface.AssemblyPrefix | src/alignment_interface.rs:48 | the text before the first '#': a prefix of the name without '#', the whole name when it has none, and followed by '#' otherwise |
| AlignmentInterface.AssemblyPrefixIsFirstField | src/alignment_interface.rs:48 | the prefix is the first field of splitting the name at '#' |
| AlignmentInterface.SelectedQueries | src/alignment_interface.rs:44-49 | a name is selected iff it is in the name list, is not the reference and is not excluded by name or by assembly prefix |
| AlignmentInterface.IsExcluded | src/alignment_interface.rs:46-48 | true iff some excluded entry equals the name or its assembly prefix |
| AlignmentInterface.SelectedQueriesSnoc | src/alignment_interface.rs:44-54 | one more name appends it to the selection iff it is selected |
| AlignmentInterface.Inversions | src/alignment_interface.rs:64-77 | one inversion per alignment, each carrying the query's key |
| AlignmentInterface.InversionsOnPath | src/alignment_interface.rs:64-77 | each inversion starts one base after everything before the last occurrence of the alignment's first reference segment, and ends at the last base of the last occurrence of its last segment; neither lookup hits the sentinel |
| AlignmentInterface.CollectInversions | src/alignment_interface.rs:64-77 | the two loops, with one lookup of all first and last segments, yield the inversions of the alignments |
| AlignmentInterface.InversionsAsWritten | src/alignment_interface.rs:66-75 | the driver as written yields one inversion per alignment; which positions it reports is shown by `AsWrittenReportsRows` |
| AlignmentInterface.AsWrittenReportsRows | src/alignment_interface.rs:66-75 | on a concrete input the rows, read as IDs, give (-1, 100) where the inverted stretch is bases 101-300 |
| AlignmentInterface.AllInversions | src/alignment_interface.rs:38-77 | every inversion carries the key of one of the aligned queries |
| AlignmentInterface.AllInversionsSnoc | src/alignment_interface.rs:73-77 | one more query appends its inversions |
| AlignmentInterface.QueryAlignmentsSnoc | src/alignment_interface.rs:54-62 | one more aligned query keeps every query's alignments disjoint and placed |
| AlignmentInterface.AlignQuery | src/alignment_interface.rs:55-77 | a query's alignments are exactly what `align_paths` returns (`Align.AlignPathsResult`), disjoint and placed in both paths, and its inversions are theirs; a failure is `align_paths`'s failure, only SegmentNotFound, never when the query's lengths are all known |
| AlignmentInterface.AlignAllQueries | src/alignment_interface.rs:29-81 | a missing reference fails with PathNotFound; on success the aligned keys are the selected names in order, each with exactly the alignments `align_paths` returns for it, and the inversions are theirs in order; any other failure comes from the first name where the loop stops: every earlier name is handled as in a successful run, and this name is selected and either has no path (PathNotFound with its name) or makes `align_paths` fail with that error; with every selected path present and fully known it succeeds |
| AlignmentInterface.AlignNextQuery | src/alignment_interface.rs:44-78 | one iteration of the query loop keeps its invariant one name further: the aligned keys are the selected names so far, each with exactly its `align_paths` alignments, and the inversions are theirs; a failure comes from this name: it is selected and either has no path (PathNotFound with this name) or makes `align_paths` fail with that error; a name that is unselected, or present with all lengths known, cannot fail |
| AlignmentInterface.KeysAtMembers | src/alignment_interface.rs:90-96 | a key is collated under an interval iff that key reported that interval |
| AlignmentInterface.CollatedSnoc | src/alignment_interface.rs:92-95 | one more inversion appends its key under its interval, or inserts a new entry |
| AlignmentInterface.CollateInversions | src/alignment_interface.rs:90-96 | the loop builds the collation map of all inversions |
| AlignmentInterface.MapKeys | src/alignment_interface.rs:100 | the keys of the map, each once |
| AlignmentInterface.InsertByStartPermutes | src/alignment_interface.rs:101 | insertion adds exactly the one element |
| AlignmentInterface.InsertByStartSorted | src/alignment_interface.rs:101 | insertion into a list sorted by start keeps it sorted, and distinct if the element is new |
| AlignmentInterface.SortByStartSorts | src/alignment_interface.rs:101 | the sort yields a permutation sorted by start, distinct if the input was |
| AlignmentInterface.LongEnough | src/alignment_interface.rs:102-103 | exactly the intervals at least the minimum length long, in order, keeping sortedness and distinctness |
| AlignmentInterface.LongEnoughSnoc | src/alignment_interface.rs:102-103 | one more key is kept iff it is long enough |
| AlignmentInterface.Calls | src/alignment_interface.rs:110-117 | one call per query, 1 exactly when the query is among the interval's paths |
| AlignmentInterface.RowOf | src/alignment_interface.rs:104-117 | the row of an interval calls 1 exactly for the queries that reported it |
| AlignmentInterface.BuildRows | src/alignment_interface.rs:102-130 | one row per long-enough key, in key order, each with its calls |
| AlignmentInterface.PrintCollatedInversions | src/alignment_interface.rs:83-132 | rows ordered by start, no interval twice, exactly the reported intervals at least the minimum long, and every row's calls are 1 exactly for the queries that reported it |
| LowmemTest.FirstBestUnique | src/lowmem.rs:182-186 | the first best cell of a matrix is unique |
| LowmemTest.TestRow0 | src/lowmem.rs:249-264 | row 0 of the test scores -200, 100, 90, -10 |
| LowmemTest.TestRow1 | src/lowmem.rs:249-264 | row 1 scores -10, 90, 80, -20 |
| LowmemTest.TestRow2 | src/lowmem.rs:249-264 | row 2 scores -10, 80, 70, -30 |
| LowmemTest.TestRow3 | src/lowmem.rs:249-264 | row 3 scores -100, -20, -30, 170 |
| LowmemTest.TestRow4 | src/lowmem.rs:249-264 | row 4 scores 100, 0, -10, 70 |
| LowmemTest.TestBest | src/lowmem.rs:270-271 | cell (3, 3) is the first best cell of the test matrix |
| LowmemTest.TestTrace | src/lowmem.rs:268-271 | the alignment to (3, 3) is [2, 3, 4, -5] / [2, 7, -5] with rows 0 to 3 |
| LowmemTest.TestAlignSubproblemLowmem | src/lowmem.rs:248-272 | the low-memory aligner returns the test's expected alignment record |
| AlignTest.TestRow0 | src/align.rs:243-249 | row 0 of the test scores -1, 100, 99, 98 |
| AlignTest.TestRow1 | src/align.rs:243-249 | row 1 scores -1, 99, 99, 98 |
| AlignTest.TestRow2 | src/align.rs:243-249 | row 2 scores -1, 98, 98, 98 |
| AlignTest.TestRow3 | src/align.rs:243-249 | row 3 scores -1, 97, 97, 198 |
| AlignTest.TestRow4 | src/align.rs:243-249 | row 4 scores 100, 99, 98, 197 |
| AlignTest.TestBest | src/align.rs:250-253 | (3, 3) is the unique maximal cell and its origin is (0, 1) |
| AlignTest.TestAlignment | src/align.rs:252-253 | any maximal end and its origin give [2, 3, 4, -5] / [2, 7, -5] |
| AlignTest.TestSlices | src/align.rs:252-253 | the collapsed test slices are the expected lists; both aligner tests use the same paths |
| AlignTest.TestAlignSubproblem | src/align.rs:243-254 | the high-memory aligner returns the test's expected pair |
| AlignPathsTest.PairFixed | src/align.rs:274 | the only high-memory alignment of [2, 3] against itself, and of [5, 6] against itself, is the whole slices |
| AlignPathsTest.LongFixed | src/align.rs:267 | the only high-memory alignment of [2, 3, 4, 5] against [2, 7, 5] is the whole slices |
| AlignPathsTest.TallFixed | src/align.rs:281 | [2, 3, 4, 5, 6] against [2, 3] has the one high-memory alignment [2, 3] / [2, 3] |
| AlignPathsTest.WideFixed | src/align.rs:281 | [5, 6] against [5, 6, -8] has the one high-memory alignment [5, 6] / [5, 6] |
| AlignPathsTest.FirstSets | src/align.rs:258-259 | on the first pair, 1 and 6 are conflicting and 2 and 5 common |
| AlignPathsTest.FirstBounds | src/align.rs:258-259 | the first pair's only anchor, 2 at index 1, cuts [2, 3, 4, 5] from path1 and [2, 7, 5] from the reversed path2 |
| AlignPathsTest.FirstCase | src/align.rs:265-268 | every run of the loop specification over the first pair yields exactly [2, 3, 4, 5] / [-5, -7, -2] |
| AlignPathsTest.SecondSets | src/align.rs:270-271 | on the second pair, 1, 4 and 7 are conflicting and 2, 3, 5 and 6 common |
| AlignPathsTest.SecondLastBounds | src/align.rs:270-271 | with 2 and 3 used, the anchor 5 at index 4 cuts [5, 6] from both paths |
| AlignPathsTest.SecondCase | src/align.rs:272-275 | every run of the loop specification over the second pair yields exactly [2, 3] / [-3, -2] then [5, 6] / [-6, -5] |
| AlignPathsTest.ThirdSets | src/align.rs:277-278 | on the third pair, only 1 and 7 are conflicting, and 2, 3, 5 and 6 common |
| AlignPathsTest.ThirdLastBounds | src/align.rs:277-278 | with 2 and 3 used, the anchor 5 at index 4 cuts [5, 6] from path1 and [5, 6, -8] from the reversed path2 |
| AlignPathsTest.ThirdCase | src/align.rs:279-282 | every run of the loop specification over the third pair yields the same two alignments as the second |
| AlignPathsTest.TestAlignPathsFirst | src/align.rs:258-268 | `align_paths` on the first pair, with length 100 for IDs 0-9, returns [([2, 3, 4, 5], [-5, -7, -2])] |
| AlignPathsTest.TestAlignPathsSecond | src/align.rs:270-275 | `align_paths` on the second pair returns [([2, 3], [-3, -2]), ([5, 6], [-6, -5])] |
| AlignPathsTest.TestAlignPathsThird | src/align.rs:277-282 | `align_paths` on the third pair returns the same two alignments |

## Notes on the source

The core files do not agree with each other on types. The model settles each disagreement
as follows:

- `align_paths` returns a plain list of pairs. However, its low-memory branch calls
  `align_paths_subproblem_lowmem`, which returns `Result<Alignment, _>`. `align_all_queries`
  applies `?` to the result of `align_paths` and reads `path1_start_index` from its
  elements.
  - `Align.AlignPaths` returns `Result` of pairs, passing the low-memory error on.
  - The driver is modelled twice: once as written (see Findings), and once with the lookup
    `main.rs` performs, by the first and last segment of the reference side.
- `align_all_queries` passes a sixth argument, `max_path_length`, that `align_paths` does not
  take. The option is kept in `AlignmentOptions` and ignored.
- `align_all_queries` applies `?` to `lookup_base_positions`, which returns a plain map. The
  model reads that as a call that cannot fail.
- The sign of the missing segment in the low-memory error follows the code, which disagrees
  with itself. Row 0 reports the segment ID without its sign (src/lowmem.rs:35-54). Later rows
  report the signed path1 segment (src/lowmem.rs:120-136). `Lowmem.MissingSegment` states both
  cases.

## Left out

- Reading a GFA file (`read_gfa`), the command line, logging and the printing itself: I/O.
  `PrintCollatedInversions` returns the rows that would be printed. The header line (the query
  keys, tab-separated) is not modelled. `ref_path_key` appears only in printed text, so it is
  not a parameter. The `ok_or` on the map lookup cannot fail, because every key comes from that
  same map, so the model has no error path there.
- The regex crate: `(\d+)([+-])` is modelled directly as a leftmost search (`FirstMatchFrom`,
  `Captures`). Only ASCII digits are modelled, not Unicode `\d`.
- 32-bit integers: scores, positions, `try_into` and `parse::<i32>` are modelled on
  unbounded integers. The `expect("i32 overflow")` panics and the wrap-around of sums are not
  modelled.
- Hash-map and hash-set iteration order: the collation map's keys are taken in an unspecified
  order (`MapKeys`), and only the sorted result is specified.
- `sort_by_key` is modelled as an insertion sort on `seq` (`SortByStart`), with sortedness and
  permutation proved. It compares starts only. Intervals with the same start but different ends
  therefore keep the arbitrary order in which the hash map yields them, and the model leaves that
  order unspecified too.
- Align.MaxCell: promises only a maximal cell. `ndarray`'s `argmax` choice among equal
  maxima is not modelled, so `Align.AlignPathsSubproblem` promises a maximal end, not a
  particular one.
- Align.AlignPaths: requires every segment matched across path1 and the reversed path2 to
  have a length. This stands for the `unwrap` panic of the high-memory aligner. It is
  required for every subproblem, even one routed to the low-memory aligner, which would report
  the error instead.
- Align.CreateMatrices, Align.MaxCell, Align.Traceback, Align.AlignPathsSubproblem: require
  non-empty paths. The source reads `path1[0]` (src/align.rs:30) and unwraps the `argmax` of the
  score matrix (src/align.rs:114), so it would panic on an empty slice. `align_paths` never passes
  one: its slices always hold the anchor cell.
- Lowmem.AlignPathsSubproblemLowmem: requires non-empty paths. The source indexes both paths'
  first segments and would panic on an empty path. `align_paths` never passes one.
- Gfa.LookupBasePositions: requires every path segment to have a length. The source panics
  otherwise.
- AlignmentInterface.AlignAllQueries: requires every segment of the reference path to have a
  length, which is stronger than the source needs. The base-position lookup that panics on a
  missing length (src/gfa.rs:117-120) runs only after a selected query has been found and
  aligned (src/alignment_interface.rs:51-71). With a reference segment lacking a length, the
  source therefore still returns `Ok` when no name is selected, `Err(PathNotFound)` when the
  first selected name has no path, and the aligner's error when that query's alignment fails.
  The model leaves those inputs out instead of tracking whether the lookup is reached.
- Gfa.ParseGfaPath: a field without a match, where the source panics on `unwrap`, gives
  `None` for the whole path.
- Lowmem.TracebackLowmem: requires every stored code to be 1-3 and to step inside the matrix.
  The source panics on any other value. `Lowmem.SparseOriginIsOrigin` shows that the
  aligner's own map always meets this.
- Align.Traceback: requires the codes to step inside the matrix, for the same reason.
  `Align.TraceOriginIsOrigin` shows that the filled matrix meets this.

## Findings

| source | as written | input that shows it | evidently intended | confidence | as-written member | corrected member |
|---|---|---|---|---|---|---|
| src/alignment_interface.rs:66-75 | the start and end ROW of the alignment record (an index into the path1 slice) is looked up as a segment ID | reference [1, 2, 3, 4], query [1, -3, -2, 4], all lengths 100: the alignment is [2, 3] / [-3, -2] with rows 0 and 1, and the driver reports (-1, 100) | look up the first and last aligned reference segment, as src/main.rs:49-60 does; the model also takes the segment's absolute value there, which `main.rs` omits. This reports bases 101-300 | not executed; medium, because the source's types do not agree with each other | AlignmentInterface.InversionsAsWritten, AlignmentInterface.AsWrittenReportsRows | AlignmentInterface.Inversions, AlignmentInterface.InversionsOnPath |
