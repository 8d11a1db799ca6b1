/** The low-memory aligner: the same kind of local alignment as the high-memory one, but
    scored by segment lengths (a match earns the segment's length, a mismatch loses the
    lengths involved), kept to a band around the diagonal, with only two score rows alive at
    a time and a sparse traceback map in which a missing cell means code 0. */
module Lowmem {
  import opened Common
  import opened Lib

  // ---------------------------------------------------------------------------------------
  // The recurrence, as functions of one subproblem

  /** One subproblem: the two paths, the length table and the band width `drop`. */
  datatype Problem = Problem(path1: seq<int>, path2: seq<int>, lengths: map<int, int>, drop: nat)

  /** Both paths are non-empty, the first n segments of path1 and every segment of path2
      have a length entry: what scoring the first n rows needs. */
  predicate Known(pr: Problem, n: nat)
  {
    && 0 < |pr.path1| && 0 < |pr.path2| && n <= |pr.path1|
    && (forall k :: 0 <= k < n ==> Abs(pr.path1[k]) in pr.lengths)
    && LengthsKnown(pr.path2, pr.lengths)
  }

  function Len1(pr: Problem, i: nat): int
    requires i < |pr.path1| && Known(pr, i + 1)
  {
    pr.lengths[Abs(pr.path1[i])]
  }

  function Len2(pr: Problem, j: nat): int
    requires j < |pr.path2| && Known(pr, 0)
  {
    pr.lengths[Abs(pr.path2[j])]
  }

  /** How far below and how far right of the main diagonal a cell may lie and still be
      computed from its neighbours: the longer path's side gets the length difference extra. */
  function Bands(pr: Problem): (nat, nat)
  {
    if |pr.path1| > |pr.path2| then (pr.drop + |pr.path1| - |pr.path2|, pr.drop)
    else (pr.drop, pr.drop + |pr.path2| - |pr.path1|)
  }

  predicate OutOfBand(pr: Problem, i: nat, j: nat)
  {
    (i > j && i - j > Bands(pr).0) || (j > i && j - i > Bands(pr).1)
  }

  /** The score of an alignment that starts at (i, j): the segment's length on a match, minus
      both lengths on a mismatch. The corner and every out-of-band cell get it. */
  function Restart(pr: Problem, i: nat, j: nat): int
    requires i < |pr.path1| && j < |pr.path2| && Known(pr, i + 1)
  {
    if pr.path1[i] == pr.path2[j] then Len1(pr, i) else -Len1(pr, i) - Len2(pr, j)
  }

  /** An interior in-band cell's four candidates [restart, diagonal, above, left], from its
      neighbours' scores: a match adds the path1 segment's length to each, a mismatch
      subtracts the lengths of the segments the step consumes. */
  function InteriorCandidates(pr: Problem, i: nat, j: nat, diag: int, above: int, left: int): (c: seq<int>)
    requires i < |pr.path1| && j < |pr.path2| && Known(pr, i + 1)
    ensures |c| == 4
  {
    var lenI := Len1(pr, i);
    var lenJ := Len2(pr, j);
    if pr.path1[i] == pr.path2[j] then [lenI, diag + lenI, above + lenI, left + lenI]
    else [-lenI - lenJ, diag - lenI - lenJ, above - lenI, left - lenJ]
  }

  /** The score of a first-row cell right of the corner and of a first-column cell below it
      is the best of [0, -1, neighbour, -1] (in the neighbour's slot) plus plus or minus the
      segment's length. */
  function EdgeScore(pr: Problem, i: nat, j: nat): int
    requires i < |pr.path1| && j < |pr.path2| && Known(pr, i + 1)
  {
    if i == 0 then (if pr.path2[j] == pr.path1[0] then Len2(pr, j) else -Len2(pr, j))
    else (if pr.path1[i] == pr.path2[0] then Len1(pr, i) else -Len1(pr, i))
  }

  /** Cells that start an alignment unconditionally: the corner and the out-of-band cells. */
  predicate Restarts(pr: Problem, i: nat, j: nat)
  {
    (i == 0 && j == 0) || (i > 0 && j > 0 && OutOfBand(pr, i, j))
  }

  /** The candidates of every other cell. */
  function Candidates(pr: Problem, i: nat, j: nat): (c: seq<int>)
    requires i < |pr.path1| && j < |pr.path2| && Known(pr, i + 1) && !Restarts(pr, i, j)
    ensures |c| == 4
    decreases i + j, 0
  {
    if i == 0 then [0, -1, -1, Score(pr, 0, j - 1)]
    else if j == 0 then [0, -1, Score(pr, i - 1, 0), -1]
    else InteriorCandidates(pr, i, j, Score(pr, i - 1, j - 1), Score(pr, i - 1, j), Score(pr, i, j - 1))
  }

  /** The score of cell (i, j). */
  function Score(pr: Problem, i: nat, j: nat): int
    requires i < |pr.path1| && j < |pr.path2| && Known(pr, i + 1)
    decreases i + j, 1
  {
    if Restarts(pr, i, j) then Restart(pr, i, j)
    else if i == 0 || j == 0 then Best(Candidates(pr, i, j)) + EdgeScore(pr, i, j)
    else Best(Candidates(pr, i, j))
  }

  /** The traceback code of cell (i, j); 0 is what the sparse map leaves out. */
  function Code(pr: Problem, i: nat, j: nat): int
    requires i < |pr.path1| && j < |pr.path2| && Known(pr, i + 1)
  {
    if Restarts(pr, i, j) then 0 else Choice(Candidates(pr, i, j))
  }

  /** Codes are 0-3 and step inside the matrix: the first row holds only 0 or 3 and the first
      column only 0 or 2. An out-of-band cell has code 0. */
  lemma CodeShape(pr: Problem, i: nat, j: nat)
    requires i < |pr.path1| && j < |pr.path2| && Known(pr, i + 1)
    ensures ValidCode(Code(pr, i, j), i, j)
    ensures i == 0 ==> Code(pr, i, j) in {0, 3}
    ensures j == 0 ==> Code(pr, i, j) in {0, 2}
    ensures i > 0 && j > 0 && OutOfBand(pr, i, j) ==> Code(pr, i, j) == 0 && Score(pr, i, j) == Restart(pr, i, j)
  {
  }

  /** Neither the main diagonal nor the diagonal through the far corner ever leaves the band. */
  lemma DiagonalsInBand(pr: Problem, k: nat)
    ensures !OutOfBand(pr, k, k)
    ensures |pr.path1| >= |pr.path2| ==> !OutOfBand(pr, k + |pr.path1| - |pr.path2|, k)
    ensures |pr.path2| >= |pr.path1| ==> !OutOfBand(pr, k, k + |pr.path2| - |pr.path1|)
  {
  }

  /** What one step of the fill writes, given the neighbours it reads. */
  lemma FirstRowCell(pr: Problem, j: nat, left: int)
    requires 0 < j < |pr.path2| && Known(pr, 1)
    requires left == Score(pr, 0, j - 1)
    ensures Amax([0, -1, -1, left]) + EdgeScore(pr, 0, j) == Score(pr, 0, j)
    ensures Argmax([0, -1, -1, left]) == Code(pr, 0, j)
  {
    assert [0, -1, -1, left] == Candidates(pr, 0, j);
    BestAndChoice([0, -1, -1, left]);
  }

  lemma FirstColumnCell(pr: Problem, i: nat, above: int)
    requires 0 < i < |pr.path1| && Known(pr, i + 1)
    requires above == Score(pr, i - 1, 0)
    ensures Amax([0, -1, above, -1]) + EdgeScore(pr, i, 0) == Score(pr, i, 0)
    ensures Argmax([0, -1, above, -1]) == Code(pr, i, 0)
  {
    assert [0, -1, above, -1] == Candidates(pr, i, 0);
    BestAndChoice([0, -1, above, -1]);
  }

  lemma InteriorCell(pr: Problem, i: nat, j: nat, diag: int, above: int, left: int)
    requires 0 < i < |pr.path1| && 0 < j < |pr.path2| && Known(pr, i + 1) && !OutOfBand(pr, i, j)
    requires diag == Score(pr, i - 1, j - 1) && above == Score(pr, i - 1, j) && left == Score(pr, i, j - 1)
    ensures Amax(InteriorCandidates(pr, i, j, diag, above, left)) == Score(pr, i, j)
    ensures Argmax(InteriorCandidates(pr, i, j, diag, above, left)) == Code(pr, i, j)
  {
    BestAndChoice(InteriorCandidates(pr, i, j, diag, above, left));
  }

  /** Where the walk back from (i, j) along the codes ends. */
  function Origin(pr: Problem, i: nat, j: nat): (o: (nat, nat))
    requires i < |pr.path1| && j < |pr.path2| && Known(pr, i + 1)
    ensures o.0 <= i && o.1 <= j && Code(pr, o.0, o.1) == 0
    decreases i + j
  {
    CodeShape(pr, i, j);
    var c := Code(pr, i, j);
    if c == 0 then (i, j) else Origin(pr, Step(i, j, c).0, Step(i, j, c).1)
  }

  /** The alignment that ends at cell `end`: the slices of both paths between the cell the
      codes lead back to and `end`, with runs of equal neighbours collapsed, and the first and
      last path1 rows. */
  function AlignmentTo(pr: Problem, end: (nat, nat)): Alignment
    requires end.0 < |pr.path1| && end.1 < |pr.path2| && Known(pr, end.0 + 1)
  {
    AlignmentBetween(pr.path1, pr.path2, Origin(pr, end.0, end.1), end)
  }

  /** The alignment of the slices between cells `o` and `end`. */
  function AlignmentBetween(p1: seq<int>, p2: seq<int>, o: (nat, nat), end: (nat, nat)): Alignment
    requires o.0 <= end.0 < |p1| && o.1 <= end.1 < |p2|
  {
    Alignment(Dedup(p1[o.0..end.0 + 1]), Dedup(p2[o.1..end.1 + 1]), o.0, end.0)
  }

  /** What the record of traceback_lowmem satisfies: the walk starts no later than the best
      row, and both segment lists are non-empty in-order subsequences of the paths with no two
      equal neighbours. */
  lemma AlignmentToShape(pr: Problem, end: (nat, nat))
    requires end.0 < |pr.path1| && end.1 < |pr.path2| && Known(pr, end.0 + 1)
    ensures var a := AlignmentTo(pr, end);
      && a.path1StartIndex <= a.path1EndIndex == end.0
      && a.alignmentPath1 != [] && a.alignmentPath2 != []
      && IsSubsequence(a.alignmentPath1, pr.path1) && NoAdjacentDuplicates(a.alignmentPath1)
      && IsSubsequence(a.alignmentPath2, pr.path2) && NoAdjacentDuplicates(a.alignmentPath2)
  {
    var o := Origin(pr, end.0, end.1);
    DedupOfSlice(pr.path1, o.0, end.0 + 1);
    DedupOfSlice(pr.path2, o.1, end.1 + 1);
  }

  // ---------------------------------------------------------------------------------------
  // The sparse traceback map and the running maximum

  /** A missing key of the traceback map stands for code 0. */
  function Lookup(tb: map<(int, int), int>, i: int, j: int): int
  {
    if (i, j) in tb then tb[(i, j)] else 0
  }

  /** Cell (a, b) comes before cell (i, j) in row-major order. */
  predicate Before(a: int, b: int, i: int, j: int)
  {
    a < i || (a == i && b < j)
  }

  /** The map holds the nonzero codes of exactly the cells before (i, j), and nothing else. */
  ghost predicate SparseCodes(pr: Problem, tb: map<(int, int), int>, i: nat, j: nat)
    requires Known(pr, i) && (j > 0 ==> i < |pr.path1| && Abs(pr.path1[i]) in pr.lengths)
  {
    && (forall c :: c in tb ==> 0 <= c.0 && 0 <= c.1 < |pr.path2| && Before(c.0, c.1, i, j) && tb[c] != 0)
    && (forall a, b :: 0 <= a && 0 <= b < |pr.path2| && Before(a, b, i, j) ==> Lookup(tb, a, b) == Code(pr, a, b))
  }

  /** (i, j) holds a largest score among the cells of rows before n, and every cell before it
      in row-major order scores strictly less. */
  ghost predicate IsFirstBest(pr: Problem, n: nat, c: (nat, nat))
    requires Known(pr, n)
  {
    && c.0 < n && c.1 < |pr.path2|
    && (forall a, b :: 0 <= a < n && 0 <= b < |pr.path2| ==> Score(pr, a, b) <= Score(pr, c.0, c.1))
    && (forall a, b :: 0 <= a < n && 0 <= b < |pr.path2| && Before(a, b, c.0, c.1) ==> Score(pr, a, b) < Score(pr, c.0, c.1))
  }

  /** Every stored code is 1-3 and steps inside the matrix. */
  ghost predicate WellFormedSparse(tb: map<(int, int), int>, rows: nat, cols: nat)
  {
    forall c :: c in tb ==> 0 <= c.0 < rows && 0 <= c.1 < cols && tb[c] != 0 && ValidCode(tb[c], c.0, c.1)
  }

  /** Where the walk back over the map from (i, j) stops. */
  function SparseOrigin(tb: map<(int, int), int>, rows: nat, cols: nat, i: nat, j: nat): (o: (nat, nat))
    requires WellFormedSparse(tb, rows, cols) && i < rows && j < cols
    ensures o.0 <= i && o.1 <= j && (o.0, o.1) !in tb
    decreases i + j
  {
    if (i, j) !in tb then (i, j)
    else
      var (i', j') := Step(i, j, tb[(i, j)]);
      SparseOrigin(tb, rows, cols, i', j')
  }

  /** A full map of the recurrence's codes is well formed and its walk ends where Origin does. */
  lemma {:induction false} SparseOriginIsOrigin(pr: Problem, tb: map<(int, int), int>, i: nat, j: nat)
    requires Known(pr, |pr.path1|) && SparseCodes(pr, tb, |pr.path1|, 0)
    requires i < |pr.path1| && j < |pr.path2|
    ensures WellFormedSparse(tb, |pr.path1|, |pr.path2|)
    ensures SparseOrigin(tb, |pr.path1|, |pr.path2|, i, j) == Origin(pr, i, j)
    decreases i + j
  {
    forall c | c in tb
      ensures 0 <= c.0 < |pr.path1| && ValidCode(tb[c], c.0, c.1)
    {
      CodeShape(pr, c.0, c.1);
      assert Lookup(tb, c.0, c.1) == tb[c];
    }
    CodeShape(pr, i, j);
    assert Lookup(tb, i, j) == Code(pr, i, j);
    if (i, j) in tb {
      var (i', j') := Step(i, j, tb[(i, j)]);
      SparseOriginIsOrigin(pr, tb, i', j');
    }
  }

  // ---------------------------------------------------------------------------------------
  // max_and_argmax

  /** The largest element and the FIRST index holding it: a later element replaces the
      running maximum only when it is strictly larger. */
  method MaxAndArgmax(a: seq<int>) returns (m: int, k: nat)
    requires |a| > 0
    ensures k < |a| && a[k] == m && m == Amax(a)
    ensures forall i :: 0 <= i < |a| ==> a[i] <= m
    ensures forall i :: 0 <= i < k ==> a[i] < m
  {
    m, k := a[0], 0;
    for i := 0 to |a|
      invariant k < |a| && a[k] == m && k <= i
      invariant forall i' :: 0 <= i' < i ==> a[i'] <= m
      invariant forall i' :: 0 <= i' < k ==> a[i'] < m
    {
      if a[i] > m {
        m, k := a[i], i;
      }
    }
  }

  // ---------------------------------------------------------------------------------------
  // initialize_matrices_lowmem

  /** What initialize_matrices_lowmem hands over: the first row's scores, a second row to
      write into, the first row's traceback entries, and the first row's best cell. */
  datatype Init = Init(
    previous: array<int>,
    current: array<int>,
    traceback: map<(int, int), int>,
    maxScore: int,
    argmax: (nat, nat))

  /** The segment initialize_matrices_lowmem reports when a length is missing: the corner's
      path1 segment first, then (on a mismatching corner) path2's first segment, then the
      first unknown segment along path2; all with the orientation dropped. */
  function InitMissing(p1: seq<int>, p2: seq<int>, lengths: map<int, int>): int
    requires |p1| > 0 && !(Abs(p1[0]) in lengths && LengthsKnown(p2, lengths))
  {
    if Abs(p1[0]) !in lengths then Abs(p1[0]) else Abs(p2[FirstUnknown(p2, lengths)])
  }

  /** Fills the first row into `previous`, records its nonzero codes and its first best cell,
      and zeroes `current`. Fails on the first segment whose length it needs and cannot find. */
  method InitializeMatricesLowmem(p1: seq<int>, p2: seq<int>, lengths: map<int, int>)
    returns (r: Result<Init, InversionError>)
    requires |p1| > 0 && |p2| > 0
    ensures r.Failure? <==> !(Abs(p1[0]) in lengths && LengthsKnown(p2, lengths))
    ensures r.Failure? ==> r.error == SegmentNotFound(InitMissing(p1, p2, lengths))
    ensures r.Success? ==>
      var init := r.value;
      && fresh(init.previous) && fresh(init.current) && init.previous != init.current
      && init.previous.Length == init.current.Length == |p2|
      && (forall b :: 0 <= b < |p2| ==> init.previous[b] == FirstRowScore(p1, p2, lengths, b))
      && (forall b :: 0 <= b < |p2| ==> init.current[b] == 0)
      && FirstRowCodes(p1, p2, lengths, init.traceback, |p2|)
      && init.argmax.0 == 0 && init.argmax.1 < |p2| && init.maxScore == init.previous[init.argmax.1]
      && (forall b :: 0 <= b < |p2| ==> init.previous[b] <= init.maxScore)
      && (forall b :: 0 <= b < init.argmax.1 ==> init.previous[b] < init.maxScore)
  {
    var previous := new int[|p2|];
    var tb: map<(int, int), int> := map[];

    // the corner
    if Abs(p1[0]) !in lengths {
      return Failure(SegmentNotFound(Abs(p1[0])));
    }
    if p1[0] == p2[0] {
      previous[0] := lengths[Abs(p1[0])];
    } else {
      if Abs(p2[0]) !in lengths {
        return Failure(SegmentNotFound(Abs(p2[0])));
      }
      previous[0] := -1 * (lengths[Abs(p1[0])] + lengths[Abs(p2[0])]);
    }

    // the rest of the first row
    for j := 1 to |p2|
      invariant forall b :: 0 <= b < j ==> Abs(p2[b]) in lengths
      invariant forall b :: 0 <= b < j ==> previous[b] == FirstRowScore(p1, p2, lengths, b)
      invariant FirstRowCodes(p1, p2, lengths, tb, j)
    {
      if Abs(p2[j]) !in lengths {
        return Failure(SegmentNotFound(Abs(p2[j])));
      }
      tb := FillFirstRowCell(p1, p2, lengths, previous, tb, j);
    }

    var maxScore, argmaxJ := MaxAndArgmax(previous[..]);
    var current := ZeroRow(|p2|);
    r := Success(Init(previous, current, tb, maxScore, (0, argmaxJ)));
  }

  /** The second row, all zeros; it is written before it is read. */
  method ZeroRow(n: nat) returns (row: array<int>)
    ensures fresh(row) && row.Length == n
    ensures forall b :: 0 <= b < n ==> row[b] == 0
  {
    row := new int[n];
    for j := 0 to n
      invariant forall b :: 0 <= b < j ==> row[b] == 0
    {
      row[j] := 0;
    }
  }

  /** The first row's scores and codes, needing path2's lengths only up to column j. */
  function FirstRowScore(p1: seq<int>, p2: seq<int>, lengths: map<int, int>, j: nat): int
    requires 0 < |p1| && j < |p2| && Abs(p1[0]) in lengths
    requires forall b :: 0 <= b <= j ==> Abs(p2[b]) in lengths
  {
    var lenJ := lengths[Abs(p2[j])];
    if j == 0 then
      (if p1[0] == p2[0] then lengths[Abs(p1[0])] else -1 * (lengths[Abs(p1[0])] + lenJ))
    else Best([0, -1, -1, FirstRowScore(p1, p2, lengths, j - 1)]) + (if p2[j] == p1[0] then lenJ else -1 * lenJ)
  }

  function FirstRowCode(p1: seq<int>, p2: seq<int>, lengths: map<int, int>, j: nat): int
    requires 0 < |p1| && 0 < j < |p2| && Abs(p1[0]) in lengths
    requires forall b :: 0 <= b < j ==> Abs(p2[b]) in lengths
  {
    Choice([0, -1, -1, FirstRowScore(p1, p2, lengths, j - 1)])
  }

  /** The map holds the first row's nonzero codes left of column j, and nothing else. */
  ghost predicate FirstRowCodes(p1: seq<int>, p2: seq<int>, lengths: map<int, int>, tb: map<(int, int), int>, j: nat)
    requires 0 < |p1| && j <= |p2| && Abs(p1[0]) in lengths
    requires forall b :: 0 <= b < j ==> Abs(p2[b]) in lengths
  {
    && (forall c :: c in tb ==> c.0 == 0 && 0 < c.1 < j && tb[c] != 0)
    && (forall b :: 0 < b < j ==> Lookup(tb, 0, b) == FirstRowCode(p1, p2, lengths, b))
  }

  /** One step of the first-row loop. */
  method FillFirstRowCell(p1: seq<int>, p2: seq<int>, lengths: map<int, int>, previous: array<int>, tb: map<(int, int), int>, j: nat)
    returns (tb': map<(int, int), int>)
    requires 0 < |p1| && 0 < j < |p2| == previous.Length && Abs(p1[0]) in lengths
    requires forall b :: 0 <= b <= j ==> Abs(p2[b]) in lengths
    requires forall b :: 0 <= b < j ==> previous[b] == FirstRowScore(p1, p2, lengths, b)
    requires FirstRowCodes(p1, p2, lengths, tb, j)
    modifies previous
    ensures forall b :: 0 <= b <= j ==> previous[b] == FirstRowScore(p1, p2, lengths, b)
    ensures FirstRowCodes(p1, p2, lengths, tb', j + 1)
  {
    var score, code := FirstRowCellValues(p1, p2, lengths, j, previous[j - 1]);
    previous[j] := score;
    tb' := tb;
    if code != 0 {
      tb' := tb[(0, j) := code];
    }
    FirstRowCodesExtend(p1, p2, lengths, tb, j, code);
  }

  /** Recording first-row cell j's code, when it is not 0, extends the map by that cell. */
  lemma FirstRowCodesExtend(p1: seq<int>, p2: seq<int>, lengths: map<int, int>, tb: map<(int, int), int>, j: nat, code: int)
    requires 0 < |p1| && 0 < j < |p2| && Abs(p1[0]) in lengths
    requires forall b :: 0 <= b <= j ==> Abs(p2[b]) in lengths
    requires FirstRowCodes(p1, p2, lengths, tb, j)
    requires code == FirstRowCode(p1, p2, lengths, j)
    ensures FirstRowCodes(p1, p2, lengths, if code != 0 then tb[(0, j) := code] else tb, j + 1)
  {
    var tb' := if code != 0 then tb[(0, j) := code] else tb;
    assert Lookup(tb', 0, j) == code;
    forall b | 0 < b < j
      ensures Lookup(tb', 0, b) == FirstRowCode(p1, p2, lengths, b)
    {
      assert Lookup(tb', 0, b) == Lookup(tb, 0, b);
    }
  }

  /** The score and the code of first-row cell j, from the score on its left: the best of
      [0, -1, -1, left] plus or minus the segment's length, and the index argmax picks. */
  method FirstRowCellValues(p1: seq<int>, p2: seq<int>, lengths: map<int, int>, j: nat, left: int)
    returns (score: int, code: int)
    requires 0 < |p1| && 0 < j < |p2| && Abs(p1[0]) in lengths
    requires forall b :: 0 <= b <= j ==> Abs(p2[b]) in lengths
    requires left == FirstRowScore(p1, p2, lengths, j - 1)
    ensures score == FirstRowScore(p1, p2, lengths, j)
    ensures code == Choice([0, -1, -1, left])
  {
    var thisCellScore := if p2[j] == p1[0] then lengths[Abs(p2[j])] else -1 * lengths[Abs(p2[j])];
    var possibleScores := [0, -1, -1, left];
    BestAndChoice(possibleScores);
    score := Amax(possibleScores) + thisCellScore;
    code := Argmax(possibleScores);
  }

  /** Once every length the first row needs is known, the first-row facts are the
      recurrence's, whatever the band width. */
  lemma FirstRowAgrees(pr: Problem, previous: seq<int>, tb: map<(int, int), int>)
    requires Known(pr, 1) && |previous| == |pr.path2|
    requires forall b :: 0 <= b < |pr.path2| ==> previous[b] == FirstRowScore(pr.path1, pr.path2, pr.lengths, b)
    requires FirstRowCodes(pr.path1, pr.path2, pr.lengths, tb, |pr.path2|)
    ensures forall b :: 0 <= b < |pr.path2| ==> previous[b] == Score(pr, 0, b)
    ensures SparseCodes(pr, tb, 0, |pr.path2|)
  {
    forall b | 0 <= b < |pr.path2|
      ensures FirstRowScore(pr.path1, pr.path2, pr.lengths, b) == Score(pr, 0, b) && Lookup(tb, 0, b) == Code(pr, 0, b)
    {
      FirstRowScoreIsScore(pr, b);
      if b > 0 {
        FirstRowScoreIsScore(pr, b - 1);
        FirstRowCell(pr, b, Score(pr, 0, b - 1));
      }
    }
  }

  lemma {:induction false} FirstRowScoreIsScore(pr: Problem, j: nat)
    requires Known(pr, 1) && j < |pr.path2|
    ensures FirstRowScore(pr.path1, pr.path2, pr.lengths, j) == Score(pr, 0, j)
  {
    if j > 0 {
      FirstRowScoreIsScore(pr, j - 1);
      FirstRowCell(pr, j, Score(pr, 0, j - 1));
    }
  }

  // ---------------------------------------------------------------------------------------
  // align_paths_subproblem_lowmem

  /** The segment align_paths_subproblem_lowmem reports when a length is missing: whatever
      the first row fails on, otherwise the first path1 segment without a length, which a
      later row reports WITH its orientation. */
  function MissingSegment(p1: seq<int>, p2: seq<int>, lengths: map<int, int>): int
    requires |p1| > 0 && !(LengthsKnown(p1, lengths) && LengthsKnown(p2, lengths))
  {
    if !(Abs(p1[0]) in lengths && LengthsKnown(p2, lengths)) then InitMissing(p1, p2, lengths)
    else p1[FirstUnknown(p1, lengths)]
  }

  /** The banded two-row dynamic program followed by the sparse traceback. It fails iff some
      segment of either path has no length entry. Otherwise the alignment ends at the first
      cell in row-major order that holds the largest score, starts where the codes lead back
      from there, and consists of the two slices in between with runs collapsed. */
  method AlignPathsSubproblemLowmem(p1: seq<int>, p2: seq<int>, lengths: map<int, int>, drop: nat)
    returns (r: Result<Alignment, InversionError>, ghost end: (nat, nat))
    requires |p1| > 0 && |p2| > 0
    ensures r.Failure? <==> !(LengthsKnown(p1, lengths) && LengthsKnown(p2, lengths))
    ensures r.Failure? ==> r.error == SegmentNotFound(MissingSegment(p1, p2, lengths))
    ensures r.Success? ==>
      var pr := Problem(p1, p2, lengths, drop);
      && Known(pr, |p1|) && IsFirstBest(pr, |p1|, end)
      && r.value == AlignmentTo(pr, end)
  {
    ghost var pr := Problem(p1, p2, lengths, drop);
    var init := InitializeMatricesLowmem(p1, p2, lengths);
    if init.Failure? {
      return Failure(init.error), (0, 0);
    }
    FirstRowDone(pr, init.value.previous[..], init.value.traceback, init.value.maxScore, init.value.argmax);

    var maxRowDrop, maxColDrop;
    if |p1| > |p2| {
      maxRowDrop, maxColDrop := drop + |p1| - |p2|, drop;
    } else {
      maxRowDrop, maxColDrop := drop, drop + |p2| - |p1|;
    }

    var rows := FillRowsLowmem(pr, p1, p2, lengths, init.value, maxRowDrop, maxColDrop);
    if rows.Failure? {
      return Failure(rows.error), (0, 0);
    }
    var (traceback, argmaxScore) := rows.value;
    var alignment := TraceFromBest(pr, p1, p2, argmaxScore, traceback);
    return Success(alignment), argmaxScore;
  }

  /** The traceback call at the end of align_paths_subproblem_lowmem, over a complete map. */
  method TraceFromBest(ghost pr: Problem, p1: seq<int>, p2: seq<int>, argmaxScore: (nat, nat), traceback: map<(int, int), int>)
    returns (alignment: Alignment)
    requires pr.path1 == p1 && pr.path2 == p2 && Known(pr, |p1|) && SparseCodes(pr, traceback, |p1|, 0)
    requires argmaxScore.0 < |p1| && argmaxScore.1 < |p2|
    ensures alignment == AlignmentTo(pr, argmaxScore)
  {
    SparseOriginIsOrigin(pr, traceback, argmaxScore.0, argmaxScore.1);
    alignment := TracebackLowmem(p1, p2, argmaxScore, traceback);
  }

  /** What holds after the first i rows: `previous` holds the scores of row i - 1, the map
      every nonzero code of the rows before i, and the running maximum the first best cell of
      those rows. */
  ghost predicate RowsDone(pr: Problem, previous: seq<int>, tb: map<(int, int), int>, i: nat,
                           maxScore: int, argmax: (nat, nat))
  {
    && 0 < i && Known(pr, i) && |previous| == |pr.path2|
    && (forall b :: 0 <= b < |previous| ==> previous[b] == Score(pr, i - 1, b))
    && SparseCodes(pr, tb, i, 0)
    && IsFirstBest(pr, i, argmax) && maxScore == Score(pr, argmax.0, argmax.1)
  }

  /** The main loop over the rows below the first: it fails at the first row whose path1
      segment has no length entry, and otherwise ends with every nonzero code in the map and
      the first best cell of the whole matrix. */
  method FillRowsLowmem(ghost pr: Problem, p1: seq<int>, p2: seq<int>, lengths: map<int, int>,
                        init: Init, maxRowDrop: nat, maxColDrop: nat)
    returns (r: Result<(map<(int, int), int>, (nat, nat)), InversionError>)
    requires pr.path1 == p1 && pr.path2 == p2 && pr.lengths == lengths && (maxRowDrop, maxColDrop) == Bands(pr)
    requires init.previous != init.current && init.previous.Length == init.current.Length
    requires RowsDone(pr, init.previous[..], init.traceback, 1, init.maxScore, init.argmax)
    modifies init.previous, init.current
    ensures r.Failure? <==> !LengthsKnown(p1, lengths)
    ensures r.Failure? ==> r.error == SegmentNotFound(p1[FirstUnknown(p1, lengths)])
    ensures r.Success? ==> Known(pr, |p1|) && SparseCodes(pr, r.value.0, |p1|, 0) && IsFirstBest(pr, |p1|, r.value.1)
  {
    var previous: array<int>, current: array<int> := init.previous, init.current;
    var traceback, maxScore := init.traceback, init.maxScore;
    var argmaxScore: (nat, nat) := init.argmax;
    for i := 1 to |p1|
      invariant {previous, current} == {init.previous, init.current} && previous != current
      invariant previous.Length == current.Length
      invariant RowsDone(pr, previous[..], traceback, i, maxScore, argmaxScore)
    {
      // the first-column lookup is the one of this row that can fail; the later lookups of
      // the same segment, and those of path2's segments, which the first row already made,
      // cannot
      if Abs(p1[i]) !in lengths {
        FirstUnknownAt(p1, lengths, i);
        return Failure(SegmentNotFound(p1[i]));
      }
      traceback, maxScore, argmaxScore :=
        RowLowmem(pr, p1, p2, lengths, previous, current, traceback, i, maxRowDrop, maxColDrop, maxScore, argmaxScore);
      // switch rows
      previous, current := current, previous;
    }
    r := Success((traceback, argmaxScore));
  }

  /** One pass of the main loop, for a row whose path1 segment has a length entry: fill the
      row, then move the running maximum to the row's first best cell if that one scores
      strictly more. */
  method RowLowmem(ghost pr: Problem, p1: seq<int>, p2: seq<int>, lengths: map<int, int>,
                   previous: array<int>, current: array<int>, tb: map<(int, int), int>, i: nat,
                   maxRowDrop: nat, maxColDrop: nat, maxScore: int, argmax: (nat, nat))
    returns (tb': map<(int, int), int>, maxScore': int, argmax': (nat, nat))
    requires pr.path1 == p1 && pr.path2 == p2 && pr.lengths == lengths && (maxRowDrop, maxColDrop) == Bands(pr)
    requires i < |p1| && Abs(p1[i]) in lengths
    requires previous != current && previous.Length == current.Length
    requires RowsDone(pr, previous[..], tb, i, maxScore, argmax)
    modifies current
    ensures RowsDone(pr, current[..], tb', i + 1, maxScore', argmax')
  {
    assert Known(pr, i + 1);
    tb' := FillRowLowmem(pr, p1, p2, lengths, previous, current, tb, i, maxRowDrop, maxColDrop);
    var rowMax, rowArgmax := MaxAndArgmax(current[..]);
    FirstBestStep(pr, i, argmax, current[..], rowMax, rowArgmax);
    maxScore', argmax' := maxScore, argmax;
    if rowMax > maxScore {
      maxScore', argmax' := rowMax, (i, rowArgmax);
    }
  }

  /** The first row's first best cell is the first best cell of the first row. */
  /** What initialize_matrices_lowmem leaves behind is the state after the first row. */
  lemma FirstRowDone(pr: Problem, previous: seq<int>, tb: map<(int, int), int>, maxScore: int, argmax: (nat, nat))
    requires Known(pr, 1) && |previous| == |pr.path2|
    requires forall b :: 0 <= b < |pr.path2| ==> previous[b] == FirstRowScore(pr.path1, pr.path2, pr.lengths, b)
    requires FirstRowCodes(pr.path1, pr.path2, pr.lengths, tb, |pr.path2|)
    requires argmax.0 == 0 && argmax.1 < |pr.path2| && maxScore == previous[argmax.1]
    requires forall b :: 0 <= b < |pr.path2| ==> previous[b] <= maxScore
    requires forall b :: 0 <= b < argmax.1 ==> previous[b] < maxScore
    ensures RowsDone(pr, previous, tb, 1, maxScore, argmax)
  {
    FirstRowAgrees(pr, previous, tb);
    FirstBestOfFirstRow(pr, previous, maxScore, argmax);
    SparseRowDone(pr, tb, 0);
  }

  lemma FirstBestOfFirstRow(pr: Problem, row: seq<int>, maxScore: int, argmax: (nat, nat))
    requires Known(pr, 1) && |row| == |pr.path2|
    requires forall b :: 0 <= b < |pr.path2| ==> row[b] == Score(pr, 0, b)
    requires argmax.0 == 0 && argmax.1 < |pr.path2| && maxScore == row[argmax.1]
    requires forall b :: 0 <= b < |pr.path2| ==> row[b] <= maxScore
    requires forall b :: 0 <= b < argmax.1 ==> row[b] < maxScore
    ensures IsFirstBest(pr, 1, argmax) && maxScore == Score(pr, argmax.0, argmax.1)
  {
  }

  /** After row i, the first best cell moves to row i's first best cell iff that one scores
      strictly more. */
  lemma FirstBestStep(pr: Problem, i: nat, argmax: (nat, nat), row: seq<int>, rowMax: int, rowArgmax: nat)
    requires 0 < i < |pr.path1| && Known(pr, i + 1) && IsFirstBest(pr, i, argmax)
    requires |row| == |pr.path2| && forall b :: 0 <= b < |row| ==> row[b] == Score(pr, i, b)
    requires rowArgmax < |row| && row[rowArgmax] == rowMax
    requires forall b :: 0 <= b < |row| ==> row[b] <= rowMax
    requires forall b :: 0 <= b < rowArgmax ==> row[b] < rowMax
    ensures IsFirstBest(pr, i + 1, if rowMax > Score(pr, argmax.0, argmax.1) then (i, rowArgmax) else argmax)
  {
  }

  /** One row of the main loop: its first-column cell, then the cells to its right, each
      either restarted (out of the band) or computed from its neighbours. */
  method FillRowLowmem(ghost pr: Problem, p1: seq<int>, p2: seq<int>, lengths: map<int, int>,
                       previous: array<int>, current: array<int>, tb: map<(int, int), int>,
                       i: nat, maxRowDrop: nat, maxColDrop: nat)
    returns (tb': map<(int, int), int>)
    requires pr.path1 == p1 && pr.path2 == p2 && pr.lengths == lengths && (maxRowDrop, maxColDrop) == Bands(pr)
    requires 0 < i < |p1| && Known(pr, i + 1)
    requires previous != current && previous.Length == current.Length == |p2|
    requires forall b :: 0 <= b < |p2| ==> previous[b] == Score(pr, i - 1, b)
    requires SparseCodes(pr, tb, i, 0)
    modifies current
    ensures forall b :: 0 <= b < |p2| ==> current[b] == Score(pr, i, b)
    ensures SparseCodes(pr, tb', i + 1, 0)
  {
    // the first column of this row
    var thisCellScore := if p1[i] == p2[0] then lengths[Abs(p1[i])] else -1 * lengths[Abs(p1[i])];
    var possibleScores := [0, -1, previous[0], -1];
    FirstColumnCell(pr, i, previous[0]);
    current[0] := Amax(possibleScores) + thisCellScore;
    var tracebackValue := Argmax(possibleScores);
    tb' := tb;
    if tracebackValue != 0 {
      tb' := tb'[(i, 0) := tracebackValue];
    }
    SparseExtend(pr, tb, i, 0, tracebackValue);

    // the rest of this row
    var lenI := lengths[Abs(p1[i])];
    for j := 1 to |p2|
      invariant forall b :: 0 <= b < j ==> current[b] == Score(pr, i, b)
      invariant SparseCodes(pr, tb', i, j)
    {
      tb' := FillCellLowmem(pr, p1, p2, lengths, previous, current, tb', i, j, lenI, maxRowDrop, maxColDrop);
    }
    SparseRowDone(pr, tb', i);
  }

  /** A map complete up to the end of row i is complete for the rows before i + 1. */
  lemma SparseRowDone(pr: Problem, tb: map<(int, int), int>, i: nat)
    requires i < |pr.path1| && Known(pr, i + 1) && SparseCodes(pr, tb, i, |pr.path2|)
    ensures SparseCodes(pr, tb, i + 1, 0)
  {
    forall a, b | 0 <= a && 0 <= b < |pr.path2| && Before(a, b, i + 1, 0)
      ensures Lookup(tb, a, b) == Code(pr, a, b)
    {
      assert Before(a, b, i, |pr.path2|);
    }
  }

  /** One cell right of the first column, as the inner loop computes it. */
  method FillCellLowmem(ghost pr: Problem, p1: seq<int>, p2: seq<int>, lengths: map<int, int>,
                        previous: array<int>, current: array<int>, tb: map<(int, int), int>,
                        i: nat, j: nat, lenI: int, maxRowDrop: nat, maxColDrop: nat)
    returns (tb': map<(int, int), int>)
    requires pr.path1 == p1 && pr.path2 == p2 && pr.lengths == lengths && (maxRowDrop, maxColDrop) == Bands(pr)
    requires 0 < i < |p1| && 0 < j < |p2| && Known(pr, i + 1) && lenI == Len1(pr, i)
    requires previous != current && previous.Length == current.Length == |p2|
    requires forall b :: 0 <= b < |p2| ==> previous[b] == Score(pr, i - 1, b)
    requires forall b :: 0 <= b < j ==> current[b] == Score(pr, i, b)
    requires SparseCodes(pr, tb, i, j)
    modifies current
    ensures forall b :: 0 <= b <= j ==> current[b] == Score(pr, i, b)
    ensures SparseCodes(pr, tb', i, j + 1)
  {
    var lenJ := lengths[Abs(p2[j])];
    var score, code := CellLowmem(pr, p1, p2, i, j, lenI, lenJ, maxRowDrop, maxColDrop,
                                  previous[j - 1], previous[j], current[j - 1]);
    current[j] := score;
    tb' := tb;
    if code != 0 {
      tb' := tb[(i, j) := code];
    }
    SparseExtend(pr, tb, i, j, code);
  }

  /** The score and the code of a cell right of the first column, from the scores of its
      diagonal, upper and left neighbours: out of the band it restarts with code 0, inside it
      takes the best of its four candidates. */
  method CellLowmem(ghost pr: Problem, p1: seq<int>, p2: seq<int>, i: nat, j: nat, lenI: int, lenJ: int,
                    maxRowDrop: nat, maxColDrop: nat, diag: int, above: int, left: int)
    returns (score: int, code: int)
    requires pr.path1 == p1 && pr.path2 == p2 && (maxRowDrop, maxColDrop) == Bands(pr)
    requires 0 < i < |p1| && 0 < j < |p2| && Known(pr, i + 1) && lenI == Len1(pr, i) && lenJ == Len2(pr, j)
    requires diag == Score(pr, i - 1, j - 1) && above == Score(pr, i - 1, j) && left == Score(pr, i, j - 1)
    ensures score == Score(pr, i, j) && code == Code(pr, i, j)
  {
    if (i > j && i - j > maxRowDrop) || (j > i && j - i > maxColDrop) {
      RestartCell(pr, i, j, lenI, lenJ);
      score := if p1[i] == p2[j] then lenI else -lenI - lenJ;
      code := 0;
    } else {
      var possibleScores := if p1[i] == p2[j] then
          [lenI, diag + lenI, above + lenI, left + lenI]
        else
          [-lenI - lenJ, diag - lenI - lenJ, above - lenI, left - lenJ];
      InBandCell(pr, i, j, lenI, lenJ, diag, above, left);
      score := Amax(possibleScores);
      code := Argmax(possibleScores);
    }
  }

  /** An out-of-band cell restarts, with code 0. */
  lemma RestartCell(pr: Problem, i: nat, j: nat, lenI: int, lenJ: int)
    requires 0 < i < |pr.path1| && 0 < j < |pr.path2| && Known(pr, i + 1) && OutOfBand(pr, i, j)
    requires lenI == Len1(pr, i) && lenJ == Len2(pr, j)
    ensures Score(pr, i, j) == (if pr.path1[i] == pr.path2[j] then lenI else -lenI - lenJ)
    ensures Code(pr, i, j) == 0
  {
    CodeShape(pr, i, j);
  }

  /** An in-band cell takes the best of its four candidates, and argmax picks its code. */
  lemma InBandCell(pr: Problem, i: nat, j: nat, lenI: int, lenJ: int, diag: int, above: int, left: int)
    requires 0 < i < |pr.path1| && 0 < j < |pr.path2| && Known(pr, i + 1) && !OutOfBand(pr, i, j)
    requires lenI == Len1(pr, i) && lenJ == Len2(pr, j)
    requires diag == Score(pr, i - 1, j - 1) && above == Score(pr, i - 1, j) && left == Score(pr, i, j - 1)
    ensures var c := if pr.path1[i] == pr.path2[j] then [lenI, diag + lenI, above + lenI, left + lenI]
                     else [-lenI - lenJ, diag - lenI - lenJ, above - lenI, left - lenJ];
      Amax(c) == Score(pr, i, j) && Argmax(c) == Code(pr, i, j)
  {
    var c := InteriorCandidates(pr, i, j, diag, above, left);
    if pr.path1[i] == pr.path2[j] {
      assert c == [lenI, diag + lenI, above + lenI, left + lenI];
    } else {
      assert c == [-lenI - lenJ, diag - lenI - lenJ, above - lenI, left - lenJ];
    }
    InteriorCell(pr, i, j, diag, above, left);
  }

  /** Recording cell (i, j)'s code, when it is not 0, extends the map by that cell. */
  lemma SparseExtend(pr: Problem, tb: map<(int, int), int>, i: nat, j: nat, code: int)
    requires i < |pr.path1| && j < |pr.path2| && Known(pr, i + 1)
    requires SparseCodes(pr, tb, i, j) && code == Code(pr, i, j)
    ensures SparseCodes(pr, if code != 0 then tb[(i, j) := code] else tb, i, j + 1)
  {
    var tb' := if code != 0 then tb[(i, j) := code] else tb;
    forall a, b | 0 <= a && 0 <= b < |pr.path2| && Before(a, b, i, j + 1)
      ensures Lookup(tb', a, b) == Code(pr, a, b)
    {
      if (a, b) != (i, j) {
        assert Before(a, b, i, j);
        assert Lookup(tb', a, b) == Lookup(tb, a, b);
      }
    }
  }

  // ---------------------------------------------------------------------------------------
  // traceback_lowmem

  /** The match on the map entry: a missing key stops the walk, 1-3 step. */
  method SparseStepBack(tb: map<(int, int), int>, ghost rows: nat, ghost cols: nat, i: nat, j: nat)
    returns (i': nat, j': nat, stop: bool)
    requires i < rows && j < cols && WellFormedSparse(tb, rows, cols)
    ensures stop <==> (i, j) !in tb
    ensures stop ==> (i', j') == (i, j)
    ensures !stop ==> (i', j') == Step(i, j, tb[(i, j)])
  {
    i', j', stop := i, j, false;
    if (i, j) in tb {
      var code := tb[(i, j)];
      if code == 1 {
        i', j' := i - 1, j - 1;
      } else if code == 2 {
        i' := i - 1;
      } else if code == 3 {
        j' := j - 1;
      } else {
        // the panic arm: no other code is ever stored
        assert false;
      }
    } else {
      stop := true;
    }
  }

  /** One turn of the traceback loop: collect the segments of cell (i, j), then follow its
      map entry, or stop when it has none. */
  method TraceStep(p1: seq<int>, p2: seq<int>, e: (nat, nat), tb: map<(int, int), int>,
                   rev1: seq<int>, rev2: seq<int>, ghost from1: nat, ghost from2: nat, i: nat, j: nat)
    returns (rev1': seq<int>, rev2': seq<int>, i': nat, j': nat, stop: bool)
    requires WellFormedSparse(tb, |p1|, |p2|)
    requires Collected(p1, rev1, from1, i, e.0) && Collected(p2, rev2, from2, j, e.1)
    ensures Collected(p1, rev1', i, i', e.0) && Collected(p2, rev2', j, j', e.1)
    ensures SparseOrigin(tb, |p1|, |p2|, i', j') == SparseOrigin(tb, |p1|, |p2|, i, j)
    ensures stop <==> (i, j) !in tb
    ensures stop ==> (i', j') == (i, j)
    ensures !stop ==> i' + j' < i + j
  {
    rev1' := Collect(rev1, p1, from1, i, e.0);
    rev2' := Collect(rev2, p2, from2, j, e.1);
    i', j', stop := SparseStepBack(tb, |p1|, |p2|, i, j);
  }

  /** `traceback_lowmem`: from the best cell, follow the map back to a cell without an entry,
      collecting segments as the high-memory traceback does. The record holds the two
      collapsed slices and the first and last path1 rows of the walk. */
  method TracebackLowmem(p1: seq<int>, p2: seq<int>, argmaxScore: (nat, nat), tb: map<(int, int), int>)
    returns (alignment: Alignment)
    requires argmaxScore.0 < |p1| && argmaxScore.1 < |p2| && WellFormedSparse(tb, |p1|, |p2|)
    ensures alignment == AlignmentBetween(p1, p2, SparseOrigin(tb, |p1|, |p2|, argmaxScore.0, argmaxScore.1), argmaxScore)
  {
    ghost var o := SparseOrigin(tb, |p1|, |p2|, argmaxScore.0, argmaxScore.1);
    var (i, j) := argmaxScore;
    var path1EndIndex := i;
    var alignmentEndReached := false;
    var rev1: seq<int> := [];
    var rev2: seq<int> := [];
    ghost var from1: nat := i + 1;
    ghost var from2: nat := j + 1;
    while !alignmentEndReached
      invariant Collected(p1, rev1, from1, i, argmaxScore.0) && Collected(p2, rev2, from2, j, argmaxScore.1)
      invariant SparseOrigin(tb, |p1|, |p2|, i, j) == o
      invariant alignmentEndReached ==> (i, j) !in tb && from1 == i && from2 == j
      decreases i + j + (if alignmentEndReached then 0 else 1)
    {
      ghost var (i0, j0) := (i, j);
      rev1, rev2, i, j, alignmentEndReached := TraceStep(p1, p2, argmaxScore, tb, rev1, rev2, from1, from2, i, j);
      from1, from2 := i0, j0;
    }
    var path1StartIndex := i;
    alignment := Alignment(Reverse(rev1), Reverse(rev2), path1StartIndex, path1EndIndex);
  }
}
