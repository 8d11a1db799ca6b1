/** The high-memory aligner: a full score matrix and a full traceback matrix over two signed
    segment paths, filled by a local-alignment recurrence, then a walk back from a best cell.
    Codes in the traceback matrix: 0 the alignment starts here, 1 it comes from the diagonal,
    2 from the cell above, 3 from the cell on the left. */
module Align {
  import opened Common
  import opened Lib
  import Lowmem

  // ---------------------------------------------------------------------------------------
  // The recurrence, as functions of the two paths

  /** The length table has an entry for every segment the two paths share in the same
      orientation; those are the only lengths this aligner looks up. */
  predicate MatchedLengthsKnown(p1: seq<int>, p2: seq<int>, lengths: map<int, int>)
  {
    forall i, j :: 0 <= i < |p1| && 0 <= j < |p2| && p1[i] == p2[j] ==> Abs(p1[i]) in lengths
  }

  /** A matching cell scores the segment's length, a mismatch -1. */
  function CellScore(p1: seq<int>, p2: seq<int>, lengths: map<int, int>, i: nat, j: nat): int
    requires i < |p1| && j < |p2| && MatchedLengthsKnown(p1, p2, lengths)
  {
    if p1[i] == p2[j] then lengths[Abs(p1[i])] else -1
  }

  /** The four candidates [restart, diagonal, above, left] of a cell other than the corner;
      off the matrix a neighbour counts -1. */
  function Candidates(p1: seq<int>, p2: seq<int>, lengths: map<int, int>, i: nat, j: nat): (c: seq<int>)
    requires i < |p1| && j < |p2| && (i > 0 || j > 0) && MatchedLengthsKnown(p1, p2, lengths)
    ensures |c| == 4 && c[0] == 0
    decreases i + j, 0
  {
    if j == 0 then [0, -1, Score(p1, p2, lengths, i - 1, 0), -1]
    else if i == 0 then [0, -1, -1, Score(p1, p2, lengths, 0, j - 1)]
    else [0, Score(p1, p2, lengths, i - 1, j - 1), Score(p1, p2, lengths, i - 1, j), Score(p1, p2, lengths, i, j - 1)]
  }

  /** The score matrix entry at (i, j): the best candidate plus the cell's own score. */
  function Score(p1: seq<int>, p2: seq<int>, lengths: map<int, int>, i: nat, j: nat): int
    requires i < |p1| && j < |p2| && MatchedLengthsKnown(p1, p2, lengths)
    decreases i + j, 1
  {
    if i == 0 && j == 0 then CellScore(p1, p2, lengths, 0, 0)
    else Best(Candidates(p1, p2, lengths, i, j)) + CellScore(p1, p2, lengths, i, j)
  }

  /** The traceback matrix entry at (i, j): the index `argmax` picks among the candidates. */
  function Code(p1: seq<int>, p2: seq<int>, lengths: map<int, int>, i: nat, j: nat): int
    requires i < |p1| && j < |p2| && MatchedLengthsKnown(p1, p2, lengths)
  {
    if i == 0 && j == 0 then 0 else Choice(Candidates(p1, p2, lengths, i, j))
  }

  /** On the first column only 0 or 2 can win and on the first row only 0 or 3, so every
      step a code asks for stays in the matrix. */
  lemma CodeShape(p1: seq<int>, p2: seq<int>, lengths: map<int, int>, i: nat, j: nat)
    requires i < |p1| && j < |p2| && MatchedLengthsKnown(p1, p2, lengths)
    ensures ValidCode(Code(p1, p2, lengths, i, j), i, j)
    ensures j == 0 ==> Code(p1, p2, lengths, i, j) in {0, 2}
    ensures i == 0 ==> Code(p1, p2, lengths, i, j) in {0, 3}
  {
  }

  /** Where the walk back from (i, j) ends: the first code-0 cell it reaches. */
  function Origin(p1: seq<int>, p2: seq<int>, lengths: map<int, int>, i: nat, j: nat): (o: (nat, nat))
    requires i < |p1| && j < |p2| && MatchedLengthsKnown(p1, p2, lengths)
    ensures o.0 <= i && o.1 <= j
    ensures Code(p1, p2, lengths, o.0, o.1) == 0
    decreases i + j
  {
    CodeShape(p1, p2, lengths, i, j);
    var c := Code(p1, p2, lengths, i, j);
    if c == 0 then (i, j)
    else
      var (i', j') := Step(i, j, c);
      Origin(p1, p2, lengths, i', j')
  }

  /** The sum of the cell scores along the walk back from (i, j): the score of the alignment
      that ends at (i, j). */
  function TraceScore(p1: seq<int>, p2: seq<int>, lengths: map<int, int>, i: nat, j: nat): int
    requires i < |p1| && j < |p2| && MatchedLengthsKnown(p1, p2, lengths)
    decreases i + j
  {
    CodeShape(p1, p2, lengths, i, j);
    var c := Code(p1, p2, lengths, i, j);
    if c == 0 then CellScore(p1, p2, lengths, i, j)
    else CellScore(p1, p2, lengths, i, j) + TraceScore(p1, p2, lengths, Step(i, j, c).0, Step(i, j, c).1)
  }

  /** Every matrix entry is the score of the alignment its traceback reports, and no
      candidate of the recurrence beats it. */
  lemma {:induction false} ScoreAlongTrace(p1: seq<int>, p2: seq<int>, lengths: map<int, int>, i: nat, j: nat)
    requires i < |p1| && j < |p2| && MatchedLengthsKnown(p1, p2, lengths)
    ensures Score(p1, p2, lengths, i, j) == TraceScore(p1, p2, lengths, i, j)
    decreases i + j
  {
    ChosenNeighbour(p1, p2, lengths, i, j);
    var c := Code(p1, p2, lengths, i, j);
    if c != 0 {
      ScoreAlongTrace(p1, p2, lengths, Step(i, j, c).0, Step(i, j, c).1);
    }
  }

  /** A cell whose code is not 0 scores what the neighbour that code names scores, plus its
      own cell score. */
  lemma ChosenNeighbour(p1: seq<int>, p2: seq<int>, lengths: map<int, int>, i: nat, j: nat)
    requires i < |p1| && j < |p2| && MatchedLengthsKnown(p1, p2, lengths)
    ensures ValidCode(Code(p1, p2, lengths, i, j), i, j)
    ensures Code(p1, p2, lengths, i, j) == 1 ==>
      Score(p1, p2, lengths, i, j) == Score(p1, p2, lengths, i - 1, j - 1) + CellScore(p1, p2, lengths, i, j)
    ensures Code(p1, p2, lengths, i, j) == 2 ==>
      Score(p1, p2, lengths, i, j) == Score(p1, p2, lengths, i - 1, j) + CellScore(p1, p2, lengths, i, j)
    ensures Code(p1, p2, lengths, i, j) == 3 ==>
      Score(p1, p2, lengths, i, j) == Score(p1, p2, lengths, i, j - 1) + CellScore(p1, p2, lengths, i, j)
  {
    CodeShape(p1, p2, lengths, i, j);
    if i > 0 || j > 0 {
      var c := Candidates(p1, p2, lengths, i, j);
      BestAndChoice(c);
    }
  }

  /** The recurrence: the entry is the best of restart, diagonal, above and left plus the
      cell's own score, and ties go to left, then above, then diagonal, then restart. */
  lemma Recurrence(p1: seq<int>, p2: seq<int>, lengths: map<int, int>, i: nat, j: nat)
    requires 0 < i < |p1| && 0 < j < |p2| && MatchedLengthsKnown(p1, p2, lengths)
    ensures var d := Score(p1, p2, lengths, i - 1, j - 1);
      var u := Score(p1, p2, lengths, i - 1, j);
      var l := Score(p1, p2, lengths, i, j - 1);
      && Score(p1, p2, lengths, i, j) == Max(Max(0, d), Max(u, l)) + CellScore(p1, p2, lengths, i, j)
      && Code(p1, p2, lengths, i, j) ==
           if l >= 0 && l >= d && l >= u then 3
           else if u >= 0 && u >= d then 2
           else if d >= 0 then 1
           else 0
  {
    var d := Score(p1, p2, lengths, i - 1, j - 1);
    var u := Score(p1, p2, lengths, i - 1, j);
    var l := Score(p1, p2, lengths, i, j - 1);
    assert Candidates(p1, p2, lengths, i, j) == [0, d, u, l];
  }

  /** What one step of a fill loop writes, given the neighbours it reads: a cell of the first
      column, of the first row, and of the interior. */
  lemma FirstColumnCell(p1: seq<int>, p2: seq<int>, lengths: map<int, int>, i: nat, above: int)
    requires 0 < i < |p1| && 0 < |p2| && MatchedLengthsKnown(p1, p2, lengths)
    requires above == Score(p1, p2, lengths, i - 1, 0)
    ensures Amax([0, -1, above, -1]) + CellScore(p1, p2, lengths, i, 0) == Score(p1, p2, lengths, i, 0)
    ensures Argmax([0, -1, above, -1]) == Code(p1, p2, lengths, i, 0)
  {
    assert [0, -1, above, -1] == Candidates(p1, p2, lengths, i, 0);
    BestAndChoice([0, -1, above, -1]);
  }

  lemma FirstRowCell(p1: seq<int>, p2: seq<int>, lengths: map<int, int>, j: nat, left: int)
    requires 0 < |p1| && 0 < j < |p2| && MatchedLengthsKnown(p1, p2, lengths)
    requires left == Score(p1, p2, lengths, 0, j - 1)
    ensures Amax([0, -1, -1, left]) + CellScore(p1, p2, lengths, 0, j) == Score(p1, p2, lengths, 0, j)
    ensures Argmax([0, -1, -1, left]) == Code(p1, p2, lengths, 0, j)
  {
    assert [0, -1, -1, left] == Candidates(p1, p2, lengths, 0, j);
    BestAndChoice([0, -1, -1, left]);
  }

  lemma InteriorCell(p1: seq<int>, p2: seq<int>, lengths: map<int, int>, i: nat, j: nat, diag: int, above: int, left: int)
    requires 0 < i < |p1| && 0 < j < |p2| && MatchedLengthsKnown(p1, p2, lengths)
    requires diag == Score(p1, p2, lengths, i - 1, j - 1)
    requires above == Score(p1, p2, lengths, i - 1, j) && left == Score(p1, p2, lengths, i, j - 1)
    ensures Amax([0, diag, above, left]) + CellScore(p1, p2, lengths, i, j) == Score(p1, p2, lengths, i, j)
    ensures Argmax([0, diag, above, left]) == Code(p1, p2, lengths, i, j)
  {
    assert [0, diag, above, left] == Candidates(p1, p2, lengths, i, j);
    BestAndChoice([0, diag, above, left]);
  }

  // ---------------------------------------------------------------------------------------
  // create_matrices

  /** Two |p1| x |p2| matrices, with the corner, the first column and the first row filled
      by the recurrence and every interior cell still 0. */
  method CreateMatrices(p1: seq<int>, p2: seq<int>, lengths: map<int, int>)
    returns (score: array2<int>, tb: array2<int>)
    requires |p1| > 0 && |p2| > 0 && MatchedLengthsKnown(p1, p2, lengths)
    ensures fresh(score) && fresh(tb) && score != tb
    ensures score.Length0 == tb.Length0 == |p1| && score.Length1 == tb.Length1 == |p2|
    ensures forall a :: 0 <= a < |p1| ==>
      score[a, 0] == Score(p1, p2, lengths, a, 0) && tb[a, 0] == Code(p1, p2, lengths, a, 0)
    ensures forall b :: 0 <= b < |p2| ==>
      score[0, b] == Score(p1, p2, lengths, 0, b) && tb[0, b] == Code(p1, p2, lengths, 0, b)
    ensures forall a, b :: 1 <= a < |p1| && 1 <= b < |p2| ==> score[a, b] == 0 && tb[a, b] == 0
  {
    score := new int[|p1|, |p2|]((_, _) => 0);
    tb := new int[|p1|, |p2|]((_, _) => 0);

    // the corner
    score[0, 0] := if p1[0] == p2[0] then lengths[Abs(p1[0])] else -1;

    FillFirstColumn(p1, p2, lengths, score, tb);
    FillFirstRow(p1, p2, lengths, score, tb);
  }

  /** The first loop of create_matrices: the first column below the corner. */
  method FillFirstColumn(p1: seq<int>, p2: seq<int>, lengths: map<int, int>, score: array2<int>, tb: array2<int>)
    requires |p1| > 0 && |p2| > 0 && MatchedLengthsKnown(p1, p2, lengths)
    requires score.Length0 == tb.Length0 == |p1| && score.Length1 == tb.Length1 == |p2| && score != tb
    requires score[0, 0] == Score(p1, p2, lengths, 0, 0) && tb[0, 0] == 0
    modifies score, tb
    ensures ColumnPrefixFilled(p1, p2, lengths, score, tb, |p1|)
    ensures forall a, b :: 0 <= a < |p1| && 1 <= b < |p2| ==> score[a, b] == old(score[a, b]) && tb[a, b] == old(tb[a, b])
  {
    for i := 1 to |p1|
      invariant ColumnPrefixFilled(p1, p2, lengths, score, tb, i)
      invariant forall a, b :: 0 <= a < |p1| && 1 <= b < |p2| ==> score[a, b] == old(score[a, b]) && tb[a, b] == old(tb[a, b])
    {
      FillFirstColumnCell(p1, p2, lengths, score, tb, i);
    }
  }

  /** The first column holds the recurrence's scores and codes above row i. */
  predicate ColumnPrefixFilled(p1: seq<int>, p2: seq<int>, lengths: map<int, int>, score: array2<int>, tb: array2<int>, i: nat)
    reads score, tb
    requires score.Length0 == tb.Length0 == |p1| && score.Length1 == tb.Length1 == |p2| > 0 && i <= |p1|
    requires MatchedLengthsKnown(p1, p2, lengths)
  {
    && (forall a :: 0 <= a < i ==> score[a, 0] == Score(p1, p2, lengths, a, 0))
    && (forall a :: 0 <= a < i ==> tb[a, 0] == Code(p1, p2, lengths, a, 0))
  }

  /** The body of the first loop: cell (i, 0) from the cell above. */
  method FillFirstColumnCell(p1: seq<int>, p2: seq<int>, lengths: map<int, int>, score: array2<int>, tb: array2<int>, i: nat)
    requires 0 < i < |p1| && |p2| > 0 && MatchedLengthsKnown(p1, p2, lengths)
    requires score.Length0 == tb.Length0 == |p1| && score.Length1 == tb.Length1 == |p2| && score != tb
    requires ColumnPrefixFilled(p1, p2, lengths, score, tb, i)
    modifies score, tb
    ensures ColumnPrefixFilled(p1, p2, lengths, score, tb, i + 1)
    ensures forall a, b :: 0 <= a < |p1| && 0 <= b < |p2| && (a, b) != (i, 0) ==>
      score[a, b] == old(score[a, b]) && tb[a, b] == old(tb[a, b])
  {
    var s, c := FirstColumnValues(p1, p2, lengths, i, score[i - 1, 0]);
    score[i, 0] := s;
    tb[i, 0] := c;
  }

  /** What the first loop writes at (i, 0), from the score above: the best of
      [0, -1, above, -1] plus the cell's own score, and the index argmax picks. */
  method FirstColumnValues(p1: seq<int>, p2: seq<int>, lengths: map<int, int>, i: nat, above: int)
    returns (s: int, c: int)
    requires 0 < i < |p1| && |p2| > 0 && MatchedLengthsKnown(p1, p2, lengths)
    requires above == Score(p1, p2, lengths, i - 1, 0)
    ensures s == Score(p1, p2, lengths, i, 0) && c == Code(p1, p2, lengths, i, 0)
  {
    var thisCellScore := if p1[i] == p2[0] then lengths[Abs(p1[i])] else -1;
    var possibleScores := [0, -1, above, -1];
    FirstColumnCell(p1, p2, lengths, i, above);
    s := Amax(possibleScores) + thisCellScore;
    c := Argmax(possibleScores);
  }

  /** The second loop of create_matrices: the first row right of the corner. */
  method FillFirstRow(p1: seq<int>, p2: seq<int>, lengths: map<int, int>, score: array2<int>, tb: array2<int>)
    requires |p1| > 0 && |p2| > 0 && MatchedLengthsKnown(p1, p2, lengths)
    requires score.Length0 == tb.Length0 == |p1| && score.Length1 == tb.Length1 == |p2| && score != tb
    requires score[0, 0] == Score(p1, p2, lengths, 0, 0) && tb[0, 0] == 0
    modifies score, tb
    ensures forall b :: 0 <= b < |p2| ==>
      score[0, b] == Score(p1, p2, lengths, 0, b) && tb[0, b] == Code(p1, p2, lengths, 0, b)
    ensures forall a, b :: 1 <= a < |p1| && 0 <= b < |p2| ==> score[a, b] == old(score[a, b]) && tb[a, b] == old(tb[a, b])
  {
    for j := 1 to |p2|
      invariant forall b :: 0 <= b < j ==>
        score[0, b] == Score(p1, p2, lengths, 0, b) && tb[0, b] == Code(p1, p2, lengths, 0, b)
      invariant forall a, b :: 1 <= a < |p1| && 0 <= b < |p2| ==> score[a, b] == old(score[a, b]) && tb[a, b] == old(tb[a, b])
    {
      var s, c := FirstRowValues(p1, p2, lengths, j, score[0, j - 1]);
      score[0, j] := s;
      tb[0, j] := c;
    }
  }

  /** What the second loop writes at (0, j), from the score on the left: the best of
      [0, -1, -1, left] plus the cell's own score, and the index argmax picks. */
  method FirstRowValues(p1: seq<int>, p2: seq<int>, lengths: map<int, int>, j: nat, left: int)
    returns (s: int, c: int)
    requires 0 < |p1| && 0 < j < |p2| && MatchedLengthsKnown(p1, p2, lengths)
    requires left == Score(p1, p2, lengths, 0, j - 1)
    ensures s == Score(p1, p2, lengths, 0, j) && c == Code(p1, p2, lengths, 0, j)
  {
    var thisCellScore := if p2[j] == p1[0] then lengths[Abs(p2[j])] else -1;
    var possibleScores := [0, -1, -1, left];
    FirstRowCell(p1, p2, lengths, j, left);
    s := Amax(possibleScores) + thisCellScore;
    c := Argmax(possibleScores);
  }

  /** The matrices of the create_matrices test: [2, 3, 4, -5] against [2, 7, -5]. */
  lemma CreateMatricesExample()
    ensures var p1 := [2, 3, 4, -5];
      var p2 := [2, 7, -5];
      var lengths := map[2 := 100, 3 := 100, 4 := 100, 5 := 100, 7 := 100];
      && MatchedLengthsKnown(p1, p2, lengths)
      && Score(p1, p2, lengths, 0, 0) == 100 && Score(p1, p2, lengths, 0, 1) == 99 && Score(p1, p2, lengths, 0, 2) == 98
      && Score(p1, p2, lengths, 1, 0) == 99 && Score(p1, p2, lengths, 2, 0) == 98 && Score(p1, p2, lengths, 3, 0) == 97
      && Code(p1, p2, lengths, 0, 0) == 0 && Code(p1, p2, lengths, 0, 1) == 3 && Code(p1, p2, lengths, 0, 2) == 3
      && Code(p1, p2, lengths, 1, 0) == 2 && Code(p1, p2, lengths, 2, 0) == 2 && Code(p1, p2, lengths, 3, 0) == 2
  {
    var p1 := [2, 3, 4, -5];
    var p2 := [2, 7, -5];
    var lengths := map[2 := 100, 3 := 100, 4 := 100, 5 := 100, 7 := 100];
    assert MatchedLengthsKnown(p1, p2, lengths) by {
      assert forall i :: 0 <= i < |p1| ==> Abs(p1[i]) in lengths;
    }
    assert Score(p1, p2, lengths, 0, 0) == 100;
    assert Score(p1, p2, lengths, 0, 1) == 99;
    assert Score(p1, p2, lengths, 1, 0) == 99;
    assert Score(p1, p2, lengths, 2, 0) == 98;
  }

  // ---------------------------------------------------------------------------------------
  // traceback

  /** Every stored code is 0-3 and its step stays in the matrix. */
  predicate CodesWellPlaced(tb: array2<int>)
    reads tb
  {
    forall a, b :: 0 <= a < tb.Length0 && 0 <= b < tb.Length1 ==> ValidCode(tb[a, b], a, b)
  }

  /** Where the walk back over the stored codes from (i, j) stops. */
  function TraceOrigin(tb: array2<int>, i: nat, j: nat): (o: (nat, nat))
    reads tb
    requires i < tb.Length0 && j < tb.Length1 && CodesWellPlaced(tb)
    ensures o.0 <= i && o.1 <= j && tb[o.0, o.1] == 0
    decreases i + j
  {
    if tb[i, j] == 0 then (i, j)
    else
      var (i', j') := Step(i, j, tb[i, j]);
      TraceOrigin(tb, i', j')
  }

  /** `score_matrix.argmax()`: some cell holding the largest score. Which one of several
      equal maxima the library returns is unspecified, so only maximality is promised. */
  method MaxCell(score: array2<int>) returns (i: nat, j: nat)
    requires score.Length0 > 0 && score.Length1 > 0
    ensures i < score.Length0 && j < score.Length1
    ensures forall a, b :: 0 <= a < score.Length0 && 0 <= b < score.Length1 ==> score[a, b] <= score[i, j]
  {
    i, j := 0, 0;
    for a := 0 to score.Length0
      invariant i < score.Length0 && j < score.Length1
      invariant forall a', b :: 0 <= a' < a && 0 <= b < score.Length1 ==> score[a', b] <= score[i, j]
    {
      for b := 0 to score.Length1
        invariant i < score.Length0 && j < score.Length1
        invariant forall a', b' :: 0 <= a' < score.Length0 && 0 <= b' < score.Length1 && (a' < a || (a' == a && b' < b)) ==>
          score[a', b'] <= score[i, j]
      {
        if score[a, b] > score[i, j] {
          i, j := a, b;
        }
      }
    }
  }

  /** `traceback`: from a best cell, follow the codes back to a code-0 cell, collecting each
      path's segment at every visited cell unless it repeats the last one collected; the
      outputs come out in forward order. They are the two slices the walk spans, with runs of
      equal neighbours collapsed. */
  method Traceback(p1: seq<int>, p2: seq<int>, score: array2<int>, tb: array2<int>)
    returns (a1: seq<int>, a2: seq<int>, ghost start: (nat, nat), ghost end: (nat, nat))
    requires score.Length0 == tb.Length0 == |p1| > 0 && score.Length1 == tb.Length1 == |p2| > 0
    requires CodesWellPlaced(tb)
    ensures end.0 < |p1| && end.1 < |p2|
    ensures forall a, b :: 0 <= a < |p1| && 0 <= b < |p2| ==> score[a, b] <= score[end.0, end.1]
    ensures start == TraceOrigin(tb, end.0, end.1)
    ensures a1 == Dedup(p1[start.0..end.0 + 1]) && a2 == Dedup(p2[start.1..end.1 + 1])
  {
    var i: nat, j: nat := MaxCell(score);
    end := (i, j);
    var alignmentEndReached := false;
    var rev1: seq<int> := [];
    var rev2: seq<int> := [];
    ghost var from1: nat := i + 1;
    ghost var from2: nat := j + 1;
    while !alignmentEndReached
      invariant Collected(p1, rev1, from1, i, end.0) && Collected(p2, rev2, from2, j, end.1)
      invariant TraceOrigin(tb, i, j) == TraceOrigin(tb, end.0, end.1)
      invariant alignmentEndReached ==> tb[i, j] == 0 && from1 == i && from2 == j
      decreases i + j + (if alignmentEndReached then 0 else 1)
    {
      ghost var (i0, j0) := (i, j);
      rev1, rev2, i, j, alignmentEndReached := TraceStep(p1, p2, end, tb, rev1, rev2, from1, from2, i, j);
      from1, from2 := i0, j0;
    }
    start := (i, j);
    a1 := Reverse(rev1);
    a2 := Reverse(rev2);
  }

  /** One turn of the traceback loop: collect the segments of cell (i, j), then follow its
      code, or stop at a 0. */
  method TraceStep(p1: seq<int>, p2: seq<int>, ghost e: (nat, nat), tb: array2<int>,
                   rev1: seq<int>, rev2: seq<int>, ghost from1: nat, ghost from2: nat, i: nat, j: nat)
    returns (rev1': seq<int>, rev2': seq<int>, i': nat, j': nat, stop: bool)
    requires tb.Length0 == |p1| && tb.Length1 == |p2| && CodesWellPlaced(tb)
    requires Collected(p1, rev1, from1, i, e.0) && Collected(p2, rev2, from2, j, e.1)
    ensures Collected(p1, rev1', i, i', e.0) && Collected(p2, rev2', j, j', e.1)
    ensures TraceOrigin(tb, i', j') == TraceOrigin(tb, i, j)
    ensures stop <==> tb[i, j] == 0
    ensures stop ==> (i', j') == (i, j)
    ensures !stop ==> i' + j' < i + j
  {
    rev1' := Collect(rev1, p1, from1, i, e.0);
    rev2' := Collect(rev2, p2, from2, j, e.1);
    i', j', stop := StepBack(tb, i, j);
  }

  /** The match on the stored code: stop at a 0, otherwise move to the cell it names. */
  method StepBack(tb: array2<int>, i: nat, j: nat) returns (i': nat, j': nat, stop: bool)
    requires i < tb.Length0 && j < tb.Length1 && CodesWellPlaced(tb)
    ensures stop <==> tb[i, j] == 0
    ensures stop ==> (i', j') == (i, j)
    ensures !stop ==> (i', j') == Step(i, j, tb[i, j])
    ensures (i' == i || i' + 1 == i) && (j' == j || j' + 1 == j) && (!stop ==> i' + j' < i + j)
  {
    var code := tb[i, j];
    i', j', stop := i, j, false;
    if code == 0 {
      stop := true;
    } else if code == 1 {
      i', j' := i - 1, j - 1;
    } else if code == 2 {
      i' := i - 1;
    } else {
      j' := j - 1;
    }
  }

  /** Over a matrix that holds the codes of the recurrence, the walk stops where Origin says. */
  lemma {:induction false} TraceOriginIsOrigin(p1: seq<int>, p2: seq<int>, lengths: map<int, int>, tb: array2<int>, i: nat, j: nat)
    requires MatchedLengthsKnown(p1, p2, lengths)
    requires tb.Length0 == |p1| && tb.Length1 == |p2| && i < |p1| && j < |p2|
    requires forall a, b :: 0 <= a < |p1| && 0 <= b < |p2| ==> tb[a, b] == Code(p1, p2, lengths, a, b)
    ensures CodesWellPlaced(tb)
    ensures TraceOrigin(tb, i, j) == Origin(p1, p2, lengths, i, j)
    decreases i + j
  {
    if tb[i, j] != 0 {
      var (i', j') := Step(i, j, tb[i, j]);
      TraceOriginIsOrigin(p1, p2, lengths, tb, i', j');
    }
  }

  // ---------------------------------------------------------------------------------------
  // align_paths_subproblem

  /** The rows before i hold the recurrence's scores and codes. */
  predicate RowsFilled(p1: seq<int>, p2: seq<int>, lengths: map<int, int>, score: array2<int>, tb: array2<int>, i: nat)
    reads score, tb
    requires score.Length0 == tb.Length0 == |p1| && score.Length1 == tb.Length1 == |p2| && i <= |p1|
    requires MatchedLengthsKnown(p1, p2, lengths)
  {
    && (forall a, b :: 0 <= a < i && 0 <= b < |p2| ==> score[a, b] == Score(p1, p2, lengths, a, b))
    && (forall a, b :: 0 <= a < i && 0 <= b < |p2| ==> tb[a, b] == Code(p1, p2, lengths, a, b))
  }

  /** The first column holds the recurrence's scores and codes. */
  predicate ColumnFilled(p1: seq<int>, p2: seq<int>, lengths: map<int, int>, score: array2<int>, tb: array2<int>)
    reads score, tb
    requires score.Length0 == tb.Length0 == |p1| && score.Length1 == tb.Length1 == |p2| > 0
    requires MatchedLengthsKnown(p1, p2, lengths)
  {
    && (forall a :: 0 <= a < |p1| ==> score[a, 0] == Score(p1, p2, lengths, a, 0))
    && (forall a :: 0 <= a < |p1| ==> tb[a, 0] == Code(p1, p2, lengths, a, 0))
  }

  /** `align_paths_subproblem`: fill the interior row by row, then trace back. The alignment
      ends at a best-scoring cell, starts where that cell's walk back stops, and consists of
      the two slices between those cells with runs of equal neighbours collapsed. */
  method AlignPathsSubproblem(p1: seq<int>, p2: seq<int>, lengths: map<int, int>)
    returns (a1: seq<int>, a2: seq<int>, ghost start: (nat, nat), ghost end: (nat, nat))
    requires |p1| > 0 && |p2| > 0 && MatchedLengthsKnown(p1, p2, lengths)
    ensures end.0 < |p1| && end.1 < |p2|
    ensures forall a, b :: 0 <= a < |p1| && 0 <= b < |p2| ==>
      Score(p1, p2, lengths, a, b) <= Score(p1, p2, lengths, end.0, end.1)
    ensures start == Origin(p1, p2, lengths, end.0, end.1)
    ensures a1 == Dedup(p1[start.0..end.0 + 1]) && a2 == Dedup(p2[start.1..end.1 + 1])
  {
    var score, tb := CreateMatrices(p1, p2, lengths);
    FillInterior(p1, p2, lengths, score, tb);
    a1, a2, start, end := TraceFilled(p1, p2, lengths, score, tb);
  }

  /** The outer loop of align_paths_subproblem: row by row below the first, every cell right
      of the first column; afterwards both matrices hold the whole recurrence. */
  method FillInterior(p1: seq<int>, p2: seq<int>, lengths: map<int, int>, score: array2<int>, tb: array2<int>)
    requires |p1| > 0 && |p2| > 0 && MatchedLengthsKnown(p1, p2, lengths)
    requires score.Length0 == tb.Length0 == |p1| && score.Length1 == tb.Length1 == |p2| && score != tb
    requires RowsFilled(p1, p2, lengths, score, tb, 1) && ColumnFilled(p1, p2, lengths, score, tb)
    modifies score, tb
    ensures forall a, b :: 0 <= a < |p1| && 0 <= b < |p2| ==> score[a, b] == Score(p1, p2, lengths, a, b)
    ensures forall a, b :: 0 <= a < |p1| && 0 <= b < |p2| ==> tb[a, b] == Code(p1, p2, lengths, a, b)
  {
    for i := 1 to |p1|
      invariant RowsFilled(p1, p2, lengths, score, tb, i)
      invariant ColumnFilled(p1, p2, lengths, score, tb)
    {
      FillInteriorRow(p1, p2, lengths, score, tb, i);
    }
  }

  /** The traceback call at the end of align_paths_subproblem, over filled matrices. */
  method TraceFilled(p1: seq<int>, p2: seq<int>, lengths: map<int, int>, score: array2<int>, tb: array2<int>)
    returns (a1: seq<int>, a2: seq<int>, ghost start: (nat, nat), ghost end: (nat, nat))
    requires |p1| > 0 && |p2| > 0 && MatchedLengthsKnown(p1, p2, lengths)
    requires score.Length0 == tb.Length0 == |p1| && score.Length1 == tb.Length1 == |p2|
    requires forall a, b :: 0 <= a < |p1| && 0 <= b < |p2| ==> score[a, b] == Score(p1, p2, lengths, a, b)
    requires forall a, b :: 0 <= a < |p1| && 0 <= b < |p2| ==> tb[a, b] == Code(p1, p2, lengths, a, b)
    ensures end.0 < |p1| && end.1 < |p2|
    ensures forall a, b :: 0 <= a < |p1| && 0 <= b < |p2| ==>
      Score(p1, p2, lengths, a, b) <= Score(p1, p2, lengths, end.0, end.1)
    ensures start == Origin(p1, p2, lengths, end.0, end.1)
    ensures a1 == Dedup(p1[start.0..end.0 + 1]) && a2 == Dedup(p2[start.1..end.1 + 1])
  {
    TraceOriginIsOrigin(p1, p2, lengths, tb, 0, 0);
    a1, a2, start, end := Traceback(p1, p2, score, tb);
    TraceOriginIsOrigin(p1, p2, lengths, tb, end.0, end.1);
    BestOfFilled(p1, p2, lengths, score, end);
  }

  /** A best entry of a matrix that holds the recurrence's scores is a best cell. */
  lemma BestOfFilled(p1: seq<int>, p2: seq<int>, lengths: map<int, int>, score: array2<int>, end: (nat, nat))
    requires MatchedLengthsKnown(p1, p2, lengths) && score.Length0 == |p1| && score.Length1 == |p2|
    requires end.0 < |p1| && end.1 < |p2|
    requires forall a, b :: 0 <= a < |p1| && 0 <= b < |p2| ==> score[a, b] == Score(p1, p2, lengths, a, b)
    requires forall a, b :: 0 <= a < |p1| && 0 <= b < |p2| ==> score[a, b] <= score[end.0, end.1]
    ensures forall a, b :: 0 <= a < |p1| && 0 <= b < |p2| ==>
      Score(p1, p2, lengths, a, b) <= Score(p1, p2, lengths, end.0, end.1)
  {
  }

  /** One pass of the inner loop of align_paths_subproblem: row i right of the first column. */
  method FillInteriorRow(p1: seq<int>, p2: seq<int>, lengths: map<int, int>, score: array2<int>, tb: array2<int>, i: nat)
    requires 0 < i < |p1| && |p2| > 0 && MatchedLengthsKnown(p1, p2, lengths)
    requires score.Length0 == tb.Length0 == |p1| && score.Length1 == tb.Length1 == |p2| && score != tb
    requires RowsFilled(p1, p2, lengths, score, tb, i) && ColumnFilled(p1, p2, lengths, score, tb)
    modifies score, tb
    ensures RowsFilled(p1, p2, lengths, score, tb, i + 1) && ColumnFilled(p1, p2, lengths, score, tb)
  {
    for j := 1 to |p2|
      invariant RowsFilled(p1, p2, lengths, score, tb, i) && ColumnFilled(p1, p2, lengths, score, tb)
      invariant RowPrefixFilled(p1, p2, lengths, score, tb, i, j)
    {
      FillInteriorCell(p1, p2, lengths, score, tb, i, j);
    }
  }

  /** Row i holds the recurrence's scores and codes left of column j. */
  predicate RowPrefixFilled(p1: seq<int>, p2: seq<int>, lengths: map<int, int>, score: array2<int>, tb: array2<int>, i: nat, j: nat)
    reads score, tb
    requires score.Length0 == tb.Length0 == |p1| && score.Length1 == tb.Length1 == |p2| && i < |p1| && j <= |p2|
    requires MatchedLengthsKnown(p1, p2, lengths)
  {
    && (forall b :: 0 <= b < j ==> score[i, b] == Score(p1, p2, lengths, i, b))
    && (forall b :: 0 <= b < j ==> tb[i, b] == Code(p1, p2, lengths, i, b))
  }

  /** The body of the inner loop: cell (i, j) from its three neighbours. */
  method FillInteriorCell(p1: seq<int>, p2: seq<int>, lengths: map<int, int>, score: array2<int>, tb: array2<int>, i: nat, j: nat)
    requires 0 < i < |p1| && 0 < j < |p2| && MatchedLengthsKnown(p1, p2, lengths)
    requires score.Length0 == tb.Length0 == |p1| && score.Length1 == tb.Length1 == |p2| && score != tb
    requires RowsFilled(p1, p2, lengths, score, tb, i) && ColumnFilled(p1, p2, lengths, score, tb)
    requires RowPrefixFilled(p1, p2, lengths, score, tb, i, j)
    modifies score, tb
    ensures RowsFilled(p1, p2, lengths, score, tb, i) && ColumnFilled(p1, p2, lengths, score, tb)
    ensures RowPrefixFilled(p1, p2, lengths, score, tb, i, j + 1)
  {
    var s, c := CellValues(p1, p2, lengths, i, j, score[i - 1, j - 1], score[i - 1, j], score[i, j - 1]);
    score[i, j] := s;
    tb[i, j] := c;
  }

  /** What the inner loop writes at (i, j), from the scores of the diagonal, upper and left
      neighbours: the best of [0, diagonal, above, left] plus the cell's own score, and the
      index argmax picks among them. */
  method CellValues(p1: seq<int>, p2: seq<int>, lengths: map<int, int>, i: nat, j: nat, diag: int, above: int, left: int)
    returns (s: int, c: int)
    requires 0 < i < |p1| && 0 < j < |p2| && MatchedLengthsKnown(p1, p2, lengths)
    requires diag == Score(p1, p2, lengths, i - 1, j - 1)
    requires above == Score(p1, p2, lengths, i - 1, j) && left == Score(p1, p2, lengths, i, j - 1)
    ensures s == Score(p1, p2, lengths, i, j) && c == Code(p1, p2, lengths, i, j)
  {
    var thisCellScore := if p1[i] == p2[j] then lengths[Abs(p1[i])] else -1;
    var possibleScores := [
      0,
      diag,   // from the diagonal
      above,  // from above
      left    // from the left
    ];
    InteriorCell(p1, p2, lengths, i, j, diag, above, left);
    s := Amax(possibleScores) + thisCellScore;
    c := Argmax(possibleScores);
  }

  // ---------------------------------------------------------------------------------------
  // align_paths

  /** The reverse complement of a path: the same segments walked backwards, each in the
      opposite orientation. */
  function ReverseComplement(p: seq<int>): (r: seq<int>)
    ensures |r| == |p|
    ensures forall k :: 0 <= k < |p| ==> r[k] == -p[|p| - 1 - k]
  {
    seq(|p|, k requires 0 <= k < |p| => -p[|p| - 1 - k])
  }

  /** Reverse-complementing twice gives the path back. */
  lemma ReverseComplementTwice(p: seq<int>)
    ensures ReverseComplement(ReverseComplement(p)) == p
  {
  }

  /** The reverse complement of a path with its first step taken off, then that step. */
  lemma ReverseComplementCons(p: seq<int>)
    requires p != []
    ensures ReverseComplement(p) == ReverseComplement(p[1..]) + [-p[0]]
  {
    var r := ReverseComplement(p);
    var rest := ReverseComplement(p[1..]);
    forall k | 0 <= k < |p|
      ensures r[k] == (rest + [-p[0]])[k]
    {
      if k < |p| - 1 {
        assert rest[k] == -p[1..][|p| - 2 - k];
      }
    }
  }

  /** Appending the same step to both sides keeps a subsequence. */
  lemma {:induction false} SubsequenceSnoc(a: seq<int>, b: seq<int>, x: int)
    requires IsSubsequence(a, b)
    ensures IsSubsequence(a + [x], b + [x])
    decreases |b|
  {
    if a == [] {
      assert IsSubsequence([x], [x]) by {
        assert [x][1..] == [];
      }
      SubsequenceExtend([x], [x], b, []);
      assert b + [x] + [] == b + [x] && a + [x] == [x];
    } else {
      assert (b + [x])[1..] == b[1..] + [x];
      if a[0] == b[0] {
        SubsequenceSnoc(a[1..], b[1..], x);
        assert (a + [x])[1..] == a[1..] + [x];
      } else {
        SubsequenceSnoc(a, b[1..], x);
      }
    }
  }

  /** Reverse-complementing both sides keeps a subsequence: read backwards and flipped, the
      segments of `a` still occur in that order in `b`. */
  lemma {:induction false} SubsequenceReverseComplement(a: seq<int>, b: seq<int>)
    requires IsSubsequence(a, b)
    ensures IsSubsequence(ReverseComplement(a), ReverseComplement(b))
    decreases |b|
  {
    if a != [] {
      ReverseComplementCons(b);
      if a[0] == b[0] {
        SubsequenceReverseComplement(a[1..], b[1..]);
        ReverseComplementCons(a);
        SubsequenceSnoc(ReverseComplement(a[1..]), ReverseComplement(b[1..]), -b[0]);
      } else {
        SubsequenceReverseComplement(a, b[1..]);
        SubsequenceExtend(ReverseComplement(a), ReverseComplement(b[1..]), [], [-b[0]]);
        assert [] + ReverseComplement(b[1..]) + [-b[0]] == ReverseComplement(b);
      }
    }
  }

  /** A segment occurs in the reverse complement exactly when its opposite occurs in the path,
      so both carry the same segment IDs. */
  lemma ReverseComplementElements(p: seq<int>)
    ensures forall x :: x in ReverseComplement(p) <==> -x in p
    ensures Segments(ReverseComplement(p)) == Segments(p)
  {
    var r := ReverseComplement(p);
    forall x | x in r
      ensures -x in p
    {
      var k :| 0 <= k < |r| && r[k] == x;
      assert p[|p| - 1 - k] == -x;
    }
    forall x | -x in p
      ensures x in r
    {
      var k :| 0 <= k < |p| && p[k] == -x;
      assert r[|p| - 1 - k] == x;
    }
    forall n | n in Segments(p)
      ensures n in Segments(r)
    {
      var x :| x in p && Abs(x) == n;
      assert -x in r && Abs(-x) == n;
    }
  }

  /** Segments the two paths traverse in the same orientation somewhere. */
  function ConflictingSegments(p1: seq<int>, p2: seq<int>): (s: set<int>)
    ensures forall x :: x in p1 && x in p2 ==> Abs(x) in s
  {
    set x | x in p1 && x in p2 :: Abs(x)
  }

  /** Segments traversed in opposite orientations by the two paths and never in the same one:
      the anchors of possible inversions. */
  function CommonSegments(p1: seq<int>, p2: seq<int>): (s: set<int>)
    ensures s !! ConflictingSegments(p1, p2)
    ensures forall x :: x in p1 && x in ReverseComplement(p2) && Abs(x) !in ConflictingSegments(p1, p2) ==> Abs(x) in s
  {
    var rev := ReverseComplement(p2);
    (set x | x in p1 && x in rev :: Abs(x)) - ConflictingSegments(p1, p2)
  }

  /** A path1 segment whose ID is common occurs, in that very orientation, in the reverse
      complement of path2, so the search for it in align_paths always succeeds. */
  lemma CommonOccursReversed(p1: seq<int>, p2: seq<int>, i: nat)
    requires i < |p1| && Abs(p1[i]) in CommonSegments(p1, p2)
    ensures p1[i] in ReverseComplement(p2)
  {
    var rev := ReverseComplement(p2);
    ReverseComplementElements(p2);
    var x :| x in p1 && x in rev && Abs(x) == Abs(p1[i]);
  }

  /** `iter().position(...)`: the first index holding `x`. */
  function IndexOf(s: seq<int>, x: int): (k: nat)
    requires x in s
    ensures k < |s| && s[k] == x
    ensures forall m :: 0 <= m < k ==> s[m] != x
  {
    if s[0] == x then 0 else 1 + IndexOf(s[1..], x)
  }

  /** The end of the run of `p` from `start` over segments outside `avoid`: the first index
      from `start` on whose segment is in `avoid`, or the length of `p`. */
  function RunEnd(p: seq<int>, start: nat, avoid: set<int>): (k: nat)
    requires start <= |p|
    ensures start <= k <= |p|
    ensures forall m :: start <= m < k ==> Abs(p[m]) !in avoid
    ensures k < |p| ==> Abs(p[k]) in avoid
    decreases |p| - start
  {
    if start == |p| || Abs(p[start]) in avoid then start else RunEnd(p, start + 1, avoid)
  }

  /** The inner `while` of align_paths: from `start`, advance over segments that are neither
      conflicting nor used. The run it stops at is maximal. */
  method ExtendSlice(p: seq<int>, start: nat, conflicting: set<int>, used: set<int>) returns (k: nat)
    requires start <= |p|
    ensures k == RunEnd(p, start, conflicting + used)
    ensures start <= k <= |p|
    ensures forall m :: start <= m < k ==> Abs(p[m]) !in conflicting && Abs(p[m]) !in used
    ensures k < |p| ==> Abs(p[k]) in conflicting || Abs(p[k]) in used
  {
    k := start;
    while k < |p| && Abs(p[k]) !in conflicting && Abs(p[k]) !in used
      invariant start <= k <= |p|
      invariant RunEnd(p, k, conflicting + used) == RunEnd(p, start, conflicting + used)
      invariant forall m :: start <= m < k ==> Abs(p[m]) !in conflicting && Abs(p[m]) !in used
    {
      k := k + 1;
    }
  }

  /** The loops that mark the segments of an alignment as used. */
  method MarkUsed(used: set<int>, s: seq<int>) returns (used': set<int>)
    ensures used' == used + Segments(s)
  {
    used' := used;
    for k := 0 to |s|
      invariant used' == used + Segments(s[..k])
    {
      assert s[..k + 1] == s[..k] + [s[k]];
      used' := used' + {Abs(s[k])};
    }
    assert s[..|s|] == s;
  }

  /** What the high-memory aligner returns for two slices: the collapsed slices between a
      best-scoring cell and the cell its walk back stops at. */
  ghost predicate HighmemAlignment(sub1: seq<int>, sub2: seq<int>, lengths: map<int, int>,
                                   pair: (seq<int>, seq<int>), end: (nat, nat))
    requires |sub1| > 0 && |sub2| > 0 && MatchedLengthsKnown(sub1, sub2, lengths)
  {
    && end.0 < |sub1| && end.1 < |sub2|
    && (forall a, b :: 0 <= a < |sub1| && 0 <= b < |sub2| ==>
          Score(sub1, sub2, lengths, a, b) <= Score(sub1, sub2, lengths, end.0, end.1))
    && var start := Origin(sub1, sub2, lengths, end.0, end.1);
       pair == (Dedup(sub1[start.0..end.0 + 1]), Dedup(sub2[start.1..end.1 + 1]))
  }

  /** What the low-memory aligner returns for two slices: the error for the first segment it
      cannot look up, or the two segment lists of the alignment ending at the first best cell. */
  ghost predicate LowmemAlignment(sub1: seq<int>, sub2: seq<int>, lengths: map<int, int>, drop: nat,
                                  r: Result<(seq<int>, seq<int>), InversionError>, end: (nat, nat))
    requires |sub1| > 0 && |sub2| > 0
  {
    && (r.Failure? <==> !(LengthsKnown(sub1, lengths) && LengthsKnown(sub2, lengths)))
    && (r.Failure? ==> r.error == SegmentNotFound(Lowmem.MissingSegment(sub1, sub2, lengths)))
    && (r.Success? ==>
          var pr := Lowmem.Problem(sub1, sub2, lengths, drop);
          && Lowmem.Known(pr, |sub1|) && Lowmem.IsFirstBest(pr, |sub1|, end)
          && var a := Lowmem.AlignmentTo(pr, end);
          r.value == (a.alignmentPath1, a.alignmentPath2))
  }

  /** What the aligner choice of align_paths returns for two slices, `end` being the end cell
      the aligner settles on: the high-memory alignment when both slices are shorter than
      `maxHighmemLength`, the low-memory result or error otherwise. */
  ghost predicate SubproblemResult(sub1: seq<int>, sub2: seq<int>, lengths: map<int, int>,
                                   maxHighmemLength: nat, maxLowmemDrop: nat,
                                   r: Result<(seq<int>, seq<int>), InversionError>, end: (nat, nat))
  {
    && |sub1| > 0 && |sub2| > 0
    && if |sub1| < maxHighmemLength && |sub2| < maxHighmemLength then
         r.Success? && MatchedLengthsKnown(sub1, sub2, lengths) && HighmemAlignment(sub1, sub2, lengths, r.value, end)
       else LowmemAlignment(sub1, sub2, lengths, maxLowmemDrop, r, end)
  }

  /** Both segment lists of an alignment are non-empty in-order subsequences of the slices. */
  predicate WithinSlices(pair: (seq<int>, seq<int>), sub1: seq<int>, sub2: seq<int>)
  {
    pair.0 != [] && IsSubsequence(pair.0, sub1) && pair.1 != [] && IsSubsequence(pair.1, sub2)
  }

  /** The high-memory branch of the aligner choice. */
  method HighmemCase(sub1: seq<int>, sub2: seq<int>, lengths: map<int, int>)
    returns (pair: (seq<int>, seq<int>), ghost end: (nat, nat))
    requires |sub1| > 0 && |sub2| > 0 && MatchedLengthsKnown(sub1, sub2, lengths)
    ensures HighmemAlignment(sub1, sub2, lengths, pair, end)
    ensures WithinSlices(pair, sub1, sub2)
  {
    var a1, a2;
    ghost var start;
    a1, a2, start, end := AlignPathsSubproblem(sub1, sub2, lengths);
    DedupOfSlice(sub1, start.0, end.0 + 1);
    DedupOfSlice(sub2, start.1, end.1 + 1);
    pair := (a1, a2);
  }

  /** The low-memory branch of the aligner choice: the record's two segment lists. */
  method LowmemCase(sub1: seq<int>, sub2: seq<int>, lengths: map<int, int>, drop: nat)
    returns (r: Result<(seq<int>, seq<int>), InversionError>, ghost end: (nat, nat))
    requires |sub1| > 0 && |sub2| > 0
    ensures LowmemAlignment(sub1, sub2, lengths, drop, r, end)
    ensures r.Success? ==> WithinSlices(r.value, sub1, sub2)
  {
    var res;
    res, end := Lowmem.AlignPathsSubproblemLowmem(sub1, sub2, lengths, drop);
    if res.Failure? {
      r := Failure(res.error);
    } else {
      Lowmem.AlignmentToShape(Lowmem.Problem(sub1, sub2, lengths, drop), end);
      r := Success((res.value.alignmentPath1, res.value.alignmentPath2));
    }
  }

  /** The aligner choice of align_paths: the high-memory aligner when both slices are shorter
      than `maxHighmemLength`, the banded low-memory one (whose errors are passed on) otherwise. */
  method AlignSubproblem(sub1: seq<int>, sub2: seq<int>, lengths: map<int, int>, maxHighmemLength: nat, maxLowmemDrop: nat)
    returns (r: Result<(seq<int>, seq<int>), InversionError>, ghost end: (nat, nat))
    requires |sub1| > 0 && |sub2| > 0 && MatchedLengthsKnown(sub1, sub2, lengths)
    ensures SubproblemResult(sub1, sub2, lengths, maxHighmemLength, maxLowmemDrop, r, end)
    ensures |sub1| < maxHighmemLength && |sub2| < maxHighmemLength ==> r.Success?
    ensures r.Success? ==> WithinSlices(r.value, sub1, sub2)
    ensures r.Failure? ==> r.error.SegmentNotFound?
  {
    if |sub1| < maxHighmemLength && |sub2| < maxHighmemLength {
      var pair;
      pair, end := HighmemCase(sub1, sub2, lengths);
      r := Success(pair);
    } else {
      r, end := LowmemCase(sub1, sub2, lengths, maxLowmemDrop);
    }
  }

  /** The segment IDs of one returned alignment. */
  function PairSegments(pair: (seq<int>, seq<int>)): set<int>
  {
    Segments(pair.0) + Segments(pair.1)
  }

  /** The contents of `used_segments` after the alignments `al` have been marked. */
  function UsedBy(al: seq<(seq<int>, seq<int>)>): (s: set<int>)
  {
    if al == [] then {} else UsedBy(al[..|al| - 1]) + PairSegments(al[|al| - 1])
  }

  lemma {:induction false} UsedByCovers(al: seq<(seq<int>, seq<int>)>)
    ensures forall k :: 0 <= k < |al| ==> PairSegments(al[k]) <= UsedBy(al)
  {
    if al != [] {
      UsedByCovers(al[..|al| - 1]);
    }
  }

  /** No segment ID occurs in two different alignments. */
  predicate PairwiseDisjoint(al: seq<(seq<int>, seq<int>)>)
  {
    forall k, l :: 0 <= k < l < |al| ==> PairSegments(al[k]) !! PairSegments(al[l])
  }

  /** An alignment using no segment already used can be appended without overlap. */
  lemma AppendDisjoint(al: seq<(seq<int>, seq<int>)>, pair: (seq<int>, seq<int>))
    requires PairwiseDisjoint(al) && PairSegments(pair) !! UsedBy(al)
    ensures PairwiseDisjoint(al + [pair])
    ensures UsedBy(al + [pair]) == UsedBy(al) + PairSegments(pair)
  {
    UsedByCovers(al);
    assert (al + [pair])[..|al|] == al;
  }

  /** A subsequence of a run of `p` whose IDs all avoid `s` avoids `s` too. */
  lemma RunAvoids(p: seq<int>, lo: nat, hi: nat, s: set<int>, a: seq<int>)
    requires lo <= hi <= |p| && IsSubsequence(a, p[lo..hi])
    requires forall m :: lo <= m < hi ==> Abs(p[m]) !in s
    ensures Segments(a) !! s
    ensures IsSubsequence(a, p)
  {
    SliceSplit(p, lo, hi);
    SubsequenceElements(a, p[lo..hi]);
    SubsequenceExtend(a, p[lo..hi], p[..lo], p[hi..]);
  }

  /** Slices keep the length table's coverage of matching segments. */
  lemma MatchedSlices(p1: seq<int>, p2: seq<int>, lengths: map<int, int>, lo1: nat, hi1: nat, lo2: nat, hi2: nat)
    requires lo1 <= hi1 <= |p1| && lo2 <= hi2 <= |p2| && MatchedLengthsKnown(p1, p2, lengths)
    ensures MatchedLengthsKnown(p1[lo1..hi1], p2[lo2..hi2], lengths)
  {
    forall a, b | 0 <= a < hi1 - lo1 && 0 <= b < hi2 - lo2 && p1[lo1..hi1][a] == p2[lo2..hi2][b]
      ensures Abs(p1[lo1..hi1][a]) in lengths
    {
      assert p1[lo1 + a] == p2[lo2 + b];
    }
  }

  /** Whether the outer loop of align_paths aligns at path1[i], given the IDs used so far:
      its segment is common to the two paths and not used yet. */
  predicate IsAnchor(path1: seq<int>, path2: seq<int>, used: set<int>, i: nat)
    requires i < |path1|
  {
    Abs(path1[i]) in CommonSegments(path1, path2) && Abs(path1[i]) !in used
  }

  /** Where align_paths cuts the two slices for the anchor path1[i]: path1 from i, and the
      reverse complement of path2 from the first occurrence of path1[i], each up to the first
      conflicting or used segment. Both slices hold the anchor. */
  function SliceBounds(path1: seq<int>, path2: seq<int>, used: set<int>, i: nat): (b: (nat, nat, nat))
    requires i < |path1| && IsAnchor(path1, path2, used, i)
    ensures i < b.0 <= |path1| && b.1 < b.2 <= |path2|
    ensures ReverseComplement(path2)[b.1] == path1[i]
  {
    var rev := ReverseComplement(path2);
    var avoid := ConflictingSegments(path1, path2) + used;
    CommonOccursReversed(path1, path2, i);
    var j := IndexOf(rev, path1[i]);
    (RunEnd(path1, i, avoid), j, RunEnd(rev, j, avoid))
  }

  /** The aligner's result `r`, ending at `end`, on the two slices align_paths cuts for the
      anchor path1[i]. */
  ghost predicate AnchorResult(path1: seq<int>, path2: seq<int>, lengths: map<int, int>,
                               maxHighmemLength: nat, maxLowmemDrop: nat, used: set<int>, i: nat,
                               r: Result<(seq<int>, seq<int>), InversionError>, end: (nat, nat))
    requires i < |path1| && IsAnchor(path1, path2, used, i)
  {
    var b := SliceBounds(path1, path2, used, i);
    SubproblemResult(path1[i..b.0], ReverseComplement(path2)[b.1..b.2], lengths,
                     maxHighmemLength, maxLowmemDrop, r, end)
  }

  /** One turn of the outer loop of align_paths that finds path1[i] common and unused: the run
      of path1 from i and the run of the reverse complement from the first occurrence of
      path1[i], both stopping before a conflicting or used segment, aligned by the chosen
      aligner. The result lies in those runs, so it avoids every used and conflicting ID. */
  method AlignAt(path1: seq<int>, path2: seq<int>, rev: seq<int>, lengths: map<int, int>,
                 conflicting: set<int>, used: set<int>, i: nat, maxHighmemLength: nat, maxLowmemDrop: nat)
    returns (r: Result<(seq<int>, seq<int>), InversionError>, k1: nat, j: nat, k2: nat, ghost end: (nat, nat))
    requires rev == ReverseComplement(path2) && conflicting == ConflictingSegments(path1, path2)
    requires i < |path1| && IsAnchor(path1, path2, used, i)
    requires MatchedLengthsKnown(path1, rev, lengths)
    ensures (k1, j, k2) == SliceBounds(path1, path2, used, i)
    ensures AnchorResult(path1, path2, lengths, maxHighmemLength, maxLowmemDrop, used, i, r, end)
    ensures i < k1 <= |path1| && j < k2 <= |rev| && rev[j] == path1[i]
    ensures forall m :: 0 <= m < j ==> rev[m] != path1[i]
    ensures forall m :: i <= m < k1 ==> Abs(path1[m]) !in conflicting && Abs(path1[m]) !in used
    ensures k1 < |path1| ==> Abs(path1[k1]) in conflicting || Abs(path1[k1]) in used
    ensures forall m :: j <= m < k2 ==> Abs(rev[m]) !in conflicting && Abs(rev[m]) !in used
    ensures k2 < |rev| ==> Abs(rev[k2]) in conflicting || Abs(rev[k2]) in used
    ensures r.Success? ==> WithinSlices(r.value, path1[i..k1], rev[j..k2])
    ensures r.Success? ==>
      && IsSubsequence(r.value.0, path1) && IsSubsequence(r.value.1, rev)
      && PairSegments(r.value) !! (used + conflicting)
    ensures LengthsKnown(path1, lengths) && LengthsKnown(rev, lengths) ==> r.Success?
    ensures r.Failure? ==> r.error.SegmentNotFound?
  {
    k1 := ExtendSlice(path1, i, conflicting, used);
    CommonOccursReversed(path1, path2, i);
    j := IndexOf(rev, path1[i]);
    k2 := ExtendSlice(rev, j, conflicting, used);
    assert i < k1 by {
      assert Abs(path1[i]) !in conflicting;
    }
    assert j < k2 by {
      assert Abs(rev[j]) == Abs(path1[i]) && Abs(path1[i]) !in conflicting;
    }
    var sub1 := path1[i..k1];
    var sub2 := rev[j..k2];
    MatchedSlices(path1, rev, lengths, i, k1, j, k2);
    r, end := AlignSubproblem(sub1, sub2, lengths, maxHighmemLength, maxLowmemDrop);
    if r.Success? {
      RunAvoids(path1, i, k1, used + conflicting, r.value.0);
      RunAvoids(rev, j, k2, used + conflicting, r.value.1);
    }
    if LengthsKnown(path1, lengths) && LengthsKnown(rev, lengths) {
      SliceKnown(path1, lengths, i, k1);
      SliceKnown(rev, lengths, j, k2);
    }
  }

  /** A slice needs no length the whole path does not. */
  lemma SliceKnown(p: seq<int>, lengths: map<int, int>, lo: nat, hi: nat)
    requires lo <= hi <= |p| && LengthsKnown(p, lengths)
    ensures LengthsKnown(p[lo..hi], lengths)
  {
    forall k | 0 <= k < hi - lo
      ensures Abs(p[lo..hi][k]) in lengths
    {
      assert p[lo..hi][k] == p[lo + k];
    }
  }

  /** The reverse complement needs the same lengths as the path. */
  lemma ReverseComplementKnown(p: seq<int>, lengths: map<int, int>)
    requires LengthsKnown(p, lengths)
    ensures LengthsKnown(ReverseComplement(p), lengths)
  {
    var r := ReverseComplement(p);
    forall k | 0 <= k < |r|
      ensures Abs(r[k]) in lengths
    {
      assert Abs(r[k]) == Abs(p[|p| - 1 - k]);
    }
  }

  /** What align_paths promises of each alignment it returns: a non-empty in-order
      subsequence of path1, a non-empty in-order subsequence of path2 in path2's own
      orientation, and no conflicting segment in either. */
  predicate Placed(pair: (seq<int>, seq<int>), path1: seq<int>, path2: seq<int>)
  {
    && pair.0 != [] && IsSubsequence(pair.0, path1)
    && pair.1 != [] && IsSubsequence(pair.1, path2)
    && PairSegments(pair) !! ConflictingSegments(path1, path2)
  }

  /** An alignment as align_paths returns it, with its path2 side turned back to the
      orientation of the reverse complement the aligner worked on. */
  function Unorient(pair: (seq<int>, seq<int>)): (seq<int>, seq<int>)
  {
    (pair.0, ReverseComplement(pair.1))
  }

  /** Mapping the second list of an alignment found against the reverse complement back to
      path2's orientation keeps its IDs, and makes it a subsequence of path2. */
  lemma MapBack(path1: seq<int>, path2: seq<int>, conflicting: set<int>, used: set<int>, a1: seq<int>, a2: seq<int>)
    requires conflicting == ConflictingSegments(path1, path2)
    requires a1 != [] && IsSubsequence(a1, path1) && a2 != [] && IsSubsequence(a2, ReverseComplement(path2))
    requires PairSegments((a1, a2)) !! (used + conflicting)
    ensures Placed((a1, ReverseComplement(a2)), path1, path2)
    ensures PairSegments((a1, ReverseComplement(a2))) == PairSegments((a1, a2))
    ensures PairSegments((a1, ReverseComplement(a2))) !! used
  {
    ReverseComplementElements(a2);
    SubsequenceReverseComplement(a2, ReverseComplement(path2));
    ReverseComplementTwice(path2);
  }

  /** The state of the outer loop of align_paths: the used set is what the alignments so far
      consist of, they share no ID, and each is placed in the two paths. */
  ghost predicate Progress(al: seq<(seq<int>, seq<int>)>, used: set<int>, path1: seq<int>, path2: seq<int>)
  {
    && used == UsedBy(al) && PairwiseDisjoint(al)
    && forall k :: 0 <= k < |al| ==> Placed(al[k], path1, path2)
  }

  /** A placed alignment that avoids the used set keeps the loop state once appended. */
  lemma AppendPlaced(al: seq<(seq<int>, seq<int>)>, used: set<int>, path1: seq<int>, path2: seq<int>,
                     pair: (seq<int>, seq<int>))
    requires Progress(al, used, path1, path2) && Placed(pair, path1, path2) && PairSegments(pair) !! used
    ensures Progress(al + [pair], used + PairSegments(pair), path1, path2)
  {
    AppendDisjoint(al, pair);
    forall k | 0 <= k < |al + [pair]|
      ensures Placed((al + [pair])[k], path1, path2)
    {
      if k < |al| {
        assert (al + [pair])[k] == al[k];
      }
    }
  }

  /** The outer loop of align_paths over path1[..n]: `al` are the alignments it has pushed,
      in order, and `ends` the end cells the aligners settled on. It aligns at an index exactly
      when the index is an anchor for the IDs the earlier alignments use, and then pushes the
      aligner's result on that anchor's slices, its path2 side reverse-complemented. */
  ghost predicate Aligned(path1: seq<int>, path2: seq<int>, lengths: map<int, int>,
                          maxHighmemLength: nat, maxLowmemDrop: nat, n: nat,
                          al: seq<(seq<int>, seq<int>)>, ends: seq<(nat, nat)>)
    requires n <= |path1|
    decreases n
  {
    if n == 0 then al == [] && ends == []
    else
      || (&& !IsAnchor(path1, path2, UsedBy(al), n - 1)
          && Aligned(path1, path2, lengths, maxHighmemLength, maxLowmemDrop, n - 1, al, ends))
      || (&& al != [] && ends != []
          && IsAnchor(path1, path2, UsedBy(al[..|al| - 1]), n - 1)
          && Aligned(path1, path2, lengths, maxHighmemLength, maxLowmemDrop, n - 1, al[..|al| - 1], ends[..|ends| - 1])
          && AnchorResult(path1, path2, lengths, maxHighmemLength, maxLowmemDrop, UsedBy(al[..|al| - 1]), n - 1,
                          Success(Unorient(al[|al| - 1])), ends[|ends| - 1]))
  }

  /** The alignments align_paths returns when it succeeds: those of the whole outer loop. */
  ghost predicate AlignPathsResult(path1: seq<int>, path2: seq<int>, lengths: map<int, int>,
                                   maxHighmemLength: nat, maxLowmemDrop: nat, al: seq<(seq<int>, seq<int>)>)
  {
    exists ends :: Aligned(path1, path2, lengths, maxHighmemLength, maxLowmemDrop, |path1|, al, ends)
  }

  /** align_paths fails with `e`: after the alignments `al` of path1[..n], the aligner fails on
      the slices of the anchor path1[n]. */
  ghost predicate AlignPathsFailure(path1: seq<int>, path2: seq<int>, lengths: map<int, int>,
                                    maxHighmemLength: nat, maxLowmemDrop: nat, e: InversionError)
  {
    exists n: nat, al, ends, end ::
      && n < |path1|
      && Aligned(path1, path2, lengths, maxHighmemLength, maxLowmemDrop, n, al, ends)
      && IsAnchor(path1, path2, UsedBy(al), n)
      && AnchorResult(path1, path2, lengths, maxHighmemLength, maxLowmemDrop, UsedBy(al), n, Failure(e), end)
  }

  /** `align_paths`: one alignment per common, still unused path1 segment met from left to
      right, which is the aligner's result on that segment's slices. The returned alignments
      never share a segment ID, and an error of the low-memory aligner (a segment without a
      length) ends the whole call. */
  method AlignPaths(path1: seq<int>, path2: seq<int>, lengths: map<int, int>, maxHighmemLength: nat, maxLowmemDrop: nat)
    returns (r: Result<seq<(seq<int>, seq<int>)>, InversionError>)
    requires MatchedLengthsKnown(path1, ReverseComplement(path2), lengths)
    ensures r.Success? ==> AlignPathsResult(path1, path2, lengths, maxHighmemLength, maxLowmemDrop, r.value)
    ensures r.Failure? ==> AlignPathsFailure(path1, path2, lengths, maxHighmemLength, maxLowmemDrop, r.error)
    ensures r.Success? ==> PairwiseDisjoint(r.value)
    ensures r.Success? ==> forall k :: 0 <= k < |r.value| ==> Placed(r.value[k], path1, path2)
    ensures LengthsKnown(path1, lengths) && LengthsKnown(path2, lengths) ==> r.Success?
    ensures r.Failure? ==> r.error.SegmentNotFound?
  {
    var path2Rev := ReverseComplement(path2);
    var conflictingSegments := ConflictingSegments(path1, path2);
    var commonSegments := CommonSegments(path1, path2);
    var usedSegments: set<int> := {};
    var alignments: seq<(seq<int>, seq<int>)> := [];
    ReverseComplementElements(path2);
    ghost var known := LengthsKnown(path1, lengths) && LengthsKnown(path2, lengths);
    if known {
      ReverseComplementKnown(path2, lengths);
    }

    ghost var ends: seq<(nat, nat)> := [];
    for i := 0 to |path1|
      invariant Progress(alignments, usedSegments, path1, path2)
      invariant Aligned(path1, path2, lengths, maxHighmemLength, maxLowmemDrop, i, alignments, ends)
    {
      if Abs(path1[i]) in commonSegments && Abs(path1[i]) !in usedSegments {
        var res, used', end := AlignNext(path1, path2, path2Rev, lengths, conflictingSegments, usedSegments,
                                         alignments, i, maxHighmemLength, maxLowmemDrop);
        if res.Failure? {
          return Failure(res.error);
        }
        AlignedPush(path1, path2, lengths, maxHighmemLength, maxLowmemDrop, i, alignments, ends, res.value, end);
        alignments := alignments + [res.value];
        ends := ends + [end];
        usedSegments := used';
      }
    }
    return Success(alignments);
  }

  /** Pushing the aligner's result at an anchor extends the outer loop by one index. */
  lemma AlignedPush(path1: seq<int>, path2: seq<int>, lengths: map<int, int>,
                    maxHighmemLength: nat, maxLowmemDrop: nat, i: nat,
                    al: seq<(seq<int>, seq<int>)>, ends: seq<(nat, nat)>, pair: (seq<int>, seq<int>), end: (nat, nat))
    requires i < |path1| && Aligned(path1, path2, lengths, maxHighmemLength, maxLowmemDrop, i, al, ends)
    requires IsAnchor(path1, path2, UsedBy(al), i)
    requires AnchorResult(path1, path2, lengths, maxHighmemLength, maxLowmemDrop, UsedBy(al), i, Success(Unorient(pair)), end)
    ensures Aligned(path1, path2, lengths, maxHighmemLength, maxLowmemDrop, i + 1, al + [pair], ends + [end])
  {
    assert (al + [pair])[..|al|] == al;
    assert (ends + [end])[..|ends|] == ends;
  }

  /** One iteration of the outer loop of align_paths that aligns: the alignment at path1[i],
      with its path2 side mapped back to path2's orientation, and the used set grown by its
      segment IDs. */
  method AlignNext(path1: seq<int>, path2: seq<int>, rev: seq<int>, lengths: map<int, int>,
                   conflicting: set<int>, used: set<int>, ghost alignments: seq<(seq<int>, seq<int>)>,
                   i: nat, maxHighmemLength: nat, maxLowmemDrop: nat)
    returns (r: Result<(seq<int>, seq<int>), InversionError>, used': set<int>, ghost end: (nat, nat))
    requires rev == ReverseComplement(path2) && conflicting == ConflictingSegments(path1, path2)
    requires i < |path1| && IsAnchor(path1, path2, used, i)
    requires MatchedLengthsKnown(path1, rev, lengths)
    requires Progress(alignments, used, path1, path2)
    ensures AnchorResult(path1, path2, lengths, maxHighmemLength, maxLowmemDrop, used, i,
                         if r.Success? then Success(Unorient(r.value)) else r, end)
    ensures r.Success? ==> Progress(alignments + [r.value], used', path1, path2)
    ensures LengthsKnown(path1, lengths) && LengthsKnown(rev, lengths) ==> r.Success?
    ensures r.Failure? ==> r.error.SegmentNotFound?
  {
    var res, k1, j, k2;
    res, k1, j, k2, end := AlignAt(path1, path2, rev, lengths, conflicting, used, i, maxHighmemLength, maxLowmemDrop);
    if res.Failure? {
      return Failure(res.error), used, end;
    }
    var (alignmentPath1, alignmentPath2) := res.value;
    var pair := (alignmentPath1, ReverseComplement(alignmentPath2));
    ReverseComplementTwice(alignmentPath2);
    MapBack(path1, path2, conflicting, used, alignmentPath1, alignmentPath2);
    AppendPlaced(alignments, used, path1, path2, pair);
    used' := MarkUsed(used, alignmentPath1);
    used' := MarkUsed(used', alignmentPath2);
    r := Success(pair);
  }
}
