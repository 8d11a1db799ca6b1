/** The unit test of align_paths: its three path pairs, the anchors the outer loop meets on
    each, the unique best cell of every subproblem, and calls of align_paths whose contract
    then fixes the alignments returned. */
module AlignPathsTest {
  import opened Common
  import opened Align

  /** The test's length table: 100 for the IDs 0 to 9. */
  function HundredEach(): map<int, int>
  {
    map[0 := 100, 1 := 100, 2 := 100, 3 := 100, 4 := 100, 5 := 100, 6 := 100, 7 := 100, 8 := 100, 9 := 100]
  }

  /** What the test needs of its length table: length 100 for every ID its paths use. */
  predicate Hundreds(lengths: map<int, int>)
  {
    forall s :: 1 <= s <= 8 ==> s in lengths && lengths[s] == 100
  }

  lemma HundredEachShape()
    ensures Hundreds(HundredEach())
  {
  }

  // ---------------------------------------------------------------------------------------
  // The outer loop, one index at a time

  /** Before the loop nothing is aligned. */
  lemma AlignedNone(path1: seq<int>, path2: seq<int>, lengths: map<int, int>, maxHighmemLength: nat, maxLowmemDrop: nat)
    ensures forall al, ends :: Aligned(path1, path2, lengths, maxHighmemLength, maxLowmemDrop, 0, al, ends) ==> al == []
  {
  }

  /** An index that is no anchor adds nothing. */
  lemma AlignedSkip(path1: seq<int>, path2: seq<int>, lengths: map<int, int>, maxHighmemLength: nat, maxLowmemDrop: nat,
                    m: nat, n: nat, x: seq<(seq<int>, seq<int>)>)
    requires n == m + 1 && n <= |path1|
    requires forall al, ends :: Aligned(path1, path2, lengths, maxHighmemLength, maxLowmemDrop, m, al, ends) ==> al == x
    requires !IsAnchor(path1, path2, UsedBy(x), m)
    ensures forall al, ends :: Aligned(path1, path2, lengths, maxHighmemLength, maxLowmemDrop, n, al, ends) ==> al == x
  {
    forall al: seq<(seq<int>, seq<int>)>, ends: seq<(nat, nat)> |
      Aligned(path1, path2, lengths, maxHighmemLength, maxLowmemDrop, n, al, ends)
      ensures al == x
    {
      SkipOne(path1, path2, lengths, maxHighmemLength, maxLowmemDrop, m, n, x, al, ends);
    }
  }

  lemma SkipOne(path1: seq<int>, path2: seq<int>, lengths: map<int, int>, maxHighmemLength: nat, maxLowmemDrop: nat,
                m: nat, n: nat, x: seq<(seq<int>, seq<int>)>, al: seq<(seq<int>, seq<int>)>, ends: seq<(nat, nat)>)
    requires n == m + 1 && n <= |path1|
    requires forall al, ends :: Aligned(path1, path2, lengths, maxHighmemLength, maxLowmemDrop, m, al, ends) ==> al == x
    requires !IsAnchor(path1, path2, UsedBy(x), m)
    requires Aligned(path1, path2, lengths, maxHighmemLength, maxLowmemDrop, n, al, ends)
    ensures al == x
  {
    LoopStep(path1, path2, lengths, maxHighmemLength, maxLowmemDrop, m, n, al, ends);
  }

  /** An index whose ID is already used is no anchor. */
  lemma NotAnchorUsed(path1: seq<int>, path2: seq<int>, used: set<int>, i: nat)
    requires i < |path1| && Abs(path1[i]) in used
    ensures !IsAnchor(path1, path2, used, i)
  {
  }

  /** An index whose ID is not common is no anchor. */
  lemma NotAnchorUncommon(path1: seq<int>, path2: seq<int>, used: set<int>, i: nat)
    requires i < |path1| && Abs(path1[i]) !in CommonSegments(path1, path2)
    ensures !IsAnchor(path1, path2, used, i)
  {
  }

  /** One step of the outer loop, read backwards: either nothing was pushed at path1[m], or
      the last alignment was, on top of the alignments up to m. */
  lemma LoopStep(path1: seq<int>, path2: seq<int>, lengths: map<int, int>, maxHighmemLength: nat, maxLowmemDrop: nat,
                 m: nat, n: nat, al: seq<(seq<int>, seq<int>)>, ends: seq<(nat, nat)>)
    requires n == m + 1 && n <= |path1|
    requires Aligned(path1, path2, lengths, maxHighmemLength, maxLowmemDrop, n, al, ends)
    ensures || (!IsAnchor(path1, path2, UsedBy(al), m) && Aligned(path1, path2, lengths, maxHighmemLength, maxLowmemDrop, m, al, ends))
            || (&& al != [] && ends != []
                && IsAnchor(path1, path2, UsedBy(al[..|al| - 1]), m)
                && Aligned(path1, path2, lengths, maxHighmemLength, maxLowmemDrop, m, al[..|al| - 1], ends[..|ends| - 1])
                && AnchorResult(path1, path2, lengths, maxHighmemLength, maxLowmemDrop, UsedBy(al[..|al| - 1]), m,
                                Success(Unorient(al[|al| - 1])), ends[|ends| - 1]))
  {
    assert n - 1 == m;
  }

  /** An anchor whose aligner result is fixed adds that alignment, its path2 side mapped back. */
  lemma AlignedTake(path1: seq<int>, path2: seq<int>, lengths: map<int, int>, maxHighmemLength: nat, maxLowmemDrop: nat,
                    m: nat, n: nat, x: seq<(seq<int>, seq<int>)>, pair: (seq<int>, seq<int>))
    requires n == m + 1 && n <= |path1|
    requires forall al, ends :: Aligned(path1, path2, lengths, maxHighmemLength, maxLowmemDrop, m, al, ends) ==> al == x
    requires IsAnchor(path1, path2, UsedBy(x), m)
    requires forall q, end ::
      AnchorResult(path1, path2, lengths, maxHighmemLength, maxLowmemDrop, UsedBy(x), m, Success(q), end) ==>
      q == Unorient(pair)
    ensures forall al, ends :: Aligned(path1, path2, lengths, maxHighmemLength, maxLowmemDrop, n, al, ends) ==> al == x + [pair]
  {
    forall al: seq<(seq<int>, seq<int>)>, ends: seq<(nat, nat)> |
      Aligned(path1, path2, lengths, maxHighmemLength, maxLowmemDrop, n, al, ends)
      ensures al == x + [pair]
    {
      TakeOne(path1, path2, lengths, maxHighmemLength, maxLowmemDrop, m, n, x, pair, al, ends);
    }
  }

  lemma TakeOne(path1: seq<int>, path2: seq<int>, lengths: map<int, int>, maxHighmemLength: nat, maxLowmemDrop: nat,
                m: nat, n: nat, x: seq<(seq<int>, seq<int>)>, pair: (seq<int>, seq<int>),
                al: seq<(seq<int>, seq<int>)>, ends: seq<(nat, nat)>)
    requires n == m + 1 && n <= |path1|
    requires forall al, ends :: Aligned(path1, path2, lengths, maxHighmemLength, maxLowmemDrop, m, al, ends) ==> al == x
    requires IsAnchor(path1, path2, UsedBy(x), m)
    requires forall q, end ::
      AnchorResult(path1, path2, lengths, maxHighmemLength, maxLowmemDrop, UsedBy(x), m, Success(q), end) ==>
      q == Unorient(pair)
    requires Aligned(path1, path2, lengths, maxHighmemLength, maxLowmemDrop, n, al, ends)
    ensures al == x + [pair]
  {
    AnchorStays(path1, path2, lengths, maxHighmemLength, maxLowmemDrop, m, x, al, ends);
    LoopStep(path1, path2, lengths, maxHighmemLength, maxLowmemDrop, m, n, al, ends);
    var init, last := al[..|al| - 1], al[|al| - 1];
    assert init == x;
    assert Unorient(last) == Unorient(pair);
    UnorientInjective(last, pair);
    assert al == init + [last];
  }

  /** An anchor after the alignments x is still one after any alignments that reach m. */
  lemma AnchorStays(path1: seq<int>, path2: seq<int>, lengths: map<int, int>, maxHighmemLength: nat, maxLowmemDrop: nat,
                    m: nat, x: seq<(seq<int>, seq<int>)>, al: seq<(seq<int>, seq<int>)>, ends: seq<(nat, nat)>)
    requires m < |path1|
    requires forall al, ends :: Aligned(path1, path2, lengths, maxHighmemLength, maxLowmemDrop, m, al, ends) ==> al == x
    requires IsAnchor(path1, path2, UsedBy(x), m)
    ensures Aligned(path1, path2, lengths, maxHighmemLength, maxLowmemDrop, m, al, ends) ==> IsAnchor(path1, path2, UsedBy(al), m)
  {
  }

  lemma UnorientInjective(a: (seq<int>, seq<int>), b: (seq<int>, seq<int>))
    requires Unorient(a) == Unorient(b)
    ensures a == b
  {
    ReverseComplementTwice(a.1);
    ReverseComplementTwice(b.1);
  }

  /** With one best cell, every alignment the high-memory aligner may return is fixed. */
  lemma HighmemFixed(sub1: seq<int>, sub2: seq<int>, lengths: map<int, int>, best: (nat, nat),
                     pair: (seq<int>, seq<int>), end: (nat, nat))
    requires |sub1| > 0 && |sub2| > 0 && MatchedLengthsKnown(sub1, sub2, lengths)
    requires best.0 < |sub1| && best.1 < |sub2|
    requires forall a, b :: 0 <= a < |sub1| && 0 <= b < |sub2| && (a, b) != best ==>
      Score(sub1, sub2, lengths, a, b) < Score(sub1, sub2, lengths, best.0, best.1)
    requires HighmemAlignment(sub1, sub2, lengths, pair, end)
    ensures end == best
  {
  }

  // ---------------------------------------------------------------------------------------
  // The four subproblems

  /** [2, 3] against itself: the best cell is (1, 1), reached diagonally from (0, 0). */
  lemma PairBest(sub: seq<int>, lengths: map<int, int>)
    requires (sub == [2, 3] || sub == [5, 6]) && Hundreds(lengths)
    ensures MatchedLengthsKnown(sub, sub, lengths)
    ensures forall a, b :: 0 <= a < 2 && 0 <= b < 2 && (a, b) != (1, 1) ==>
      Score(sub, sub, lengths, a, b) < Score(sub, sub, lengths, 1, 1)
    ensures Origin(sub, sub, lengths, 1, 1) == (0, 0)
  {
    assert Score(sub, sub, lengths, 0, 0) == 100;
    assert Score(sub, sub, lengths, 0, 1) == 99;
    assert Score(sub, sub, lengths, 1, 0) == 99;
    assert Score(sub, sub, lengths, 1, 1) == 200;
    assert Code(sub, sub, lengths, 1, 1) == 1;
  }

  lemma LongRows(sub1: seq<int>, sub2: seq<int>, lengths: map<int, int>)
    requires sub1 == [2, 3, 4, 5] && sub2 == [2, 7, 5] && Hundreds(lengths)
    ensures MatchedLengthsKnown(sub1, sub2, lengths)
    ensures Score(sub1, sub2, lengths, 0, 0) == 100 && Score(sub1, sub2, lengths, 0, 1) == 99 && Score(sub1, sub2, lengths, 0, 2) == 98
    ensures Score(sub1, sub2, lengths, 1, 0) == 99 && Score(sub1, sub2, lengths, 1, 1) == 99 && Score(sub1, sub2, lengths, 1, 2) == 98
  {
    assert Score(sub1, sub2, lengths, 0, 0) == 100;
    assert Score(sub1, sub2, lengths, 0, 1) == 99;
    assert Score(sub1, sub2, lengths, 0, 2) == 98;
    assert Score(sub1, sub2, lengths, 1, 0) == 99;
    assert Score(sub1, sub2, lengths, 1, 1) == 99;
    assert Score(sub1, sub2, lengths, 1, 2) == 98;
  }

  /** [2, 3, 4, 5] against [2, 7, 5]: the best cell is (3, 2) with 198, traced back to (0, 0). */
  lemma LongBest(sub1: seq<int>, sub2: seq<int>, lengths: map<int, int>)
    requires sub1 == [2, 3, 4, 5] && sub2 == [2, 7, 5] && Hundreds(lengths)
    ensures MatchedLengthsKnown(sub1, sub2, lengths)
    ensures forall a, b :: 0 <= a < 4 && 0 <= b < 3 && (a, b) != (3, 2) ==>
      Score(sub1, sub2, lengths, a, b) < Score(sub1, sub2, lengths, 3, 2)
    ensures Origin(sub1, sub2, lengths, 3, 2) == (0, 0)
  {
    LongRows(sub1, sub2, lengths);
    assert Score(sub1, sub2, lengths, 2, 0) == 98;
    assert Score(sub1, sub2, lengths, 2, 1) == 98;
    assert Score(sub1, sub2, lengths, 2, 2) == 98;
    assert Score(sub1, sub2, lengths, 3, 0) == 97;
    assert Score(sub1, sub2, lengths, 3, 1) == 97;
    assert Score(sub1, sub2, lengths, 3, 2) == 198;
    assert Code(sub1, sub2, lengths, 3, 2) == 2;
    assert Code(sub1, sub2, lengths, 2, 2) == 1;
    assert Code(sub1, sub2, lengths, 1, 1) == 1;
    assert Origin(sub1, sub2, lengths, 1, 1) == (0, 0);
    assert Origin(sub1, sub2, lengths, 2, 2) == (0, 0);
  }

  /** [2, 3, 4, 5, 6] against [2, 3]: the best cell is (1, 1) with 200, from (0, 0). */
  lemma TallBest(sub1: seq<int>, sub2: seq<int>, lengths: map<int, int>)
    requires sub1 == [2, 3, 4, 5, 6] && sub2 == [2, 3] && Hundreds(lengths)
    ensures MatchedLengthsKnown(sub1, sub2, lengths)
    ensures forall a, b :: 0 <= a < 5 && 0 <= b < 2 && (a, b) != (1, 1) ==>
      Score(sub1, sub2, lengths, a, b) < Score(sub1, sub2, lengths, 1, 1)
    ensures Origin(sub1, sub2, lengths, 1, 1) == (0, 0)
  {
    assert Score(sub1, sub2, lengths, 0, 0) == 100;
    assert Score(sub1, sub2, lengths, 0, 1) == 99;
    assert Score(sub1, sub2, lengths, 1, 0) == 99;
    assert Score(sub1, sub2, lengths, 1, 1) == 200;
    assert Score(sub1, sub2, lengths, 2, 0) == 98;
    assert Score(sub1, sub2, lengths, 2, 1) == 199;
    assert Score(sub1, sub2, lengths, 3, 0) == 97;
    assert Score(sub1, sub2, lengths, 3, 1) == 198;
    assert Score(sub1, sub2, lengths, 4, 0) == 96;
    assert Score(sub1, sub2, lengths, 4, 1) == 197;
    assert Code(sub1, sub2, lengths, 1, 1) == 1;
  }

  /** [5, 6] against [5, 6, -8]: the best cell is (1, 1) with 200, from (0, 0). */
  lemma WideBest(sub1: seq<int>, sub2: seq<int>, lengths: map<int, int>)
    requires sub1 == [5, 6] && sub2 == [5, 6, -8] && Hundreds(lengths)
    ensures MatchedLengthsKnown(sub1, sub2, lengths)
    ensures forall a, b :: 0 <= a < 2 && 0 <= b < 3 && (a, b) != (1, 1) ==>
      Score(sub1, sub2, lengths, a, b) < Score(sub1, sub2, lengths, 1, 1)
    ensures Origin(sub1, sub2, lengths, 1, 1) == (0, 0)
  {
    assert Score(sub1, sub2, lengths, 0, 0) == 100;
    assert Score(sub1, sub2, lengths, 0, 1) == 99;
    assert Score(sub1, sub2, lengths, 0, 2) == 98;
    assert Score(sub1, sub2, lengths, 1, 0) == 99;
    assert Score(sub1, sub2, lengths, 1, 1) == 200;
    assert Score(sub1, sub2, lengths, 1, 2) == 199;
    assert Code(sub1, sub2, lengths, 1, 1) == 1;
  }
  /** Every high-memory alignment of [2, 3] or [5, 6] against itself is the slice itself. */
  lemma PairFixed(sub: seq<int>, lengths: map<int, int>)
    requires (sub == [2, 3] || sub == [5, 6]) && Hundreds(lengths)
    ensures MatchedLengthsKnown(sub, sub, lengths)
    ensures forall pair, end :: HighmemAlignment(sub, sub, lengths, pair, end) ==> pair == (sub, sub)
  {
    PairBest(sub, lengths);
    assert sub[0..2] == sub;
    DedupIdentity(sub);
    forall pair, end | HighmemAlignment(sub, sub, lengths, pair, end)
      ensures pair == (sub, sub)
    {
      HighmemFixed(sub, sub, lengths, (1, 1), pair, end);
    }
  }

  /** Every high-memory alignment of [2, 3, 4, 5] against [2, 7, 5] takes both slices whole. */
  lemma LongFixed(sub1: seq<int>, sub2: seq<int>, lengths: map<int, int>)
    requires sub1 == [2, 3, 4, 5] && sub2 == [2, 7, 5] && Hundreds(lengths)
    ensures MatchedLengthsKnown(sub1, sub2, lengths)
    ensures forall pair, end :: HighmemAlignment(sub1, sub2, lengths, pair, end) ==> pair == (sub1, sub2)
  {
    LongBest(sub1, sub2, lengths);
    assert sub1[0..4] == sub1 && sub2[0..3] == sub2;
    DedupIdentity(sub1);
    DedupIdentity(sub2);
    forall pair, end | HighmemAlignment(sub1, sub2, lengths, pair, end)
      ensures pair == (sub1, sub2)
    {
      HighmemFixed(sub1, sub2, lengths, (3, 2), pair, end);
    }
  }

  /** Every high-memory alignment of [2, 3, 4, 5, 6] against [2, 3] is [2, 3] twice. */
  lemma TallFixed(sub1: seq<int>, sub2: seq<int>, lengths: map<int, int>)
    requires sub1 == [2, 3, 4, 5, 6] && sub2 == [2, 3] && Hundreds(lengths)
    ensures MatchedLengthsKnown(sub1, sub2, lengths)
    ensures forall pair, end :: HighmemAlignment(sub1, sub2, lengths, pair, end) ==> pair == (sub2, sub2)
  {
    TallBest(sub1, sub2, lengths);
    assert sub1[0..2] == sub2 && sub2[0..2] == sub2;
    DedupIdentity(sub2);
    forall pair, end | HighmemAlignment(sub1, sub2, lengths, pair, end)
      ensures pair == (sub2, sub2)
    {
      HighmemFixed(sub1, sub2, lengths, (1, 1), pair, end);
    }
  }

  /** Every high-memory alignment of [5, 6] against [5, 6, -8] is [5, 6] twice. */
  lemma WideFixed(sub1: seq<int>, sub2: seq<int>, lengths: map<int, int>)
    requires sub1 == [5, 6] && sub2 == [5, 6, -8] && Hundreds(lengths)
    ensures MatchedLengthsKnown(sub1, sub2, lengths)
    ensures forall pair, end :: HighmemAlignment(sub1, sub2, lengths, pair, end) ==> pair == (sub1, sub1)
  {
    WideBest(sub1, sub2, lengths);
    assert sub1[0..2] == sub1 && sub2[0..2] == sub1;
    DedupIdentity(sub1);
    forall pair, end | HighmemAlignment(sub1, sub2, lengths, pair, end)
      ensures pair == (sub1, sub1)
    {
      HighmemFixed(sub1, sub2, lengths, (1, 1), pair, end);
    }
  }

  /** At an anchor whose slices go to the high-memory aligner and have one alignment, the
      aligner's result is that alignment. */
  lemma AnchorFixed(path1: seq<int>, path2: seq<int>, lengths: map<int, int>, maxHighmemLength: nat, maxLowmemDrop: nat,
                    used: set<int>, i: nat, b: (nat, nat, nat), sub1: seq<int>, sub2: seq<int>, x: (seq<int>, seq<int>))
    requires i < |path1| && IsAnchor(path1, path2, used, i) && SliceBounds(path1, path2, used, i) == b
    requires sub1 == path1[i..b.0] && sub2 == ReverseComplement(path2)[b.1..b.2]
    requires |sub1| < maxHighmemLength && |sub2| < maxHighmemLength && MatchedLengthsKnown(sub1, sub2, lengths)
    requires forall pair, end :: HighmemAlignment(sub1, sub2, lengths, pair, end) ==> pair == x
    ensures forall q, end :: AnchorResult(path1, path2, lengths, maxHighmemLength, maxLowmemDrop, used, i, Success(q), end) ==>
      q == x
  {
  }

  /** The common IDs are those met reversed, less the conflicting ones. */
  lemma CommonIs(p1: seq<int>, p2: seq<int>, reversed: set<int>, conflicting: set<int>, common: set<int>)
    requires (set x | x in p1 && x in ReverseComplement(p2) :: Abs(x)) == reversed
    requires ConflictingSegments(p1, p2) == conflicting
    requires reversed - conflicting == common
    ensures CommonSegments(p1, p2) == common
  {
  }

  /** The set differences behind the three pairs' common IDs. */
  lemma Differences()
    ensures {2, 5} - {1, 6} == {2, 5}
    ensures {2, 3, 5, 6} - {1, 4, 7} == {2, 3, 5, 6}
    ensures {2, 3, 5, 6} - {1, 7} == {2, 3, 5, 6}
  {
  }

  /** Two steps have the IDs of both. */
  lemma TwoSegments(x: int, y: int)
    ensures Segments([x, y]) == {Abs(x), Abs(y)}
  {
    assert x in [x, y] && y in [x, y];
  }

  // ---------------------------------------------------------------------------------------
  // align_paths([1, 2, 3, 4, 5, 6], [1, -5, -7, -2, 6])

  /** 1 and 6 occur in the same orientation in both paths, 2 and 5 only reversed. */
  lemma FirstSets(p1: seq<int>, p2: seq<int>)
    requires p1 == [1, 2, 3, 4, 5, 6] && p2 == [1, -5, -7, -2, 6]
    ensures ReverseComplement(p2) == [-6, 2, 7, 5, -1]
    ensures ConflictingSegments(p1, p2) == {1, 6}
    ensures CommonSegments(p1, p2) == {2, 5}
  {
    var rev := ReverseComplement(p2);
    assert rev == [-6, 2, 7, 5, -1];
    FirstConflicting(p1, p2);
    FirstReversed(p1, rev);
    Differences();
    CommonIs(p1, p2, {2, 5}, {1, 6}, {2, 5});
  }

  lemma FirstConflicting(p1: seq<int>, p2: seq<int>)
    requires p1 == [1, 2, 3, 4, 5, 6] && p2 == [1, -5, -7, -2, 6]
    ensures ConflictingSegments(p1, p2) == {1, 6}
  {
    assert 1 in p1 && 1 in p2 && 6 in p1 && 6 in p2;
  }

  lemma FirstReversed(p1: seq<int>, rev: seq<int>)
    requires p1 == [1, 2, 3, 4, 5, 6] && rev == [-6, 2, 7, 5, -1]
    ensures (set x | x in p1 && x in rev :: Abs(x)) == {2, 5}
  {
    assert 2 in p1 && 2 in rev && 5 in p1 && 5 in rev;
  }

  /** The one anchor, 2 at index 1, cuts [2, 3, 4, 5] and [2, 7, 5]. */
  lemma FirstBounds(p1: seq<int>, p2: seq<int>)
    requires p1 == [1, 2, 3, 4, 5, 6] && p2 == [1, -5, -7, -2, 6]
    requires ReverseComplement(p2) == [-6, 2, 7, 5, -1]
    requires ConflictingSegments(p1, p2) == {1, 6} && CommonSegments(p1, p2) == {2, 5}
    ensures IsAnchor(p1, p2, UsedBy([]), 1)
    ensures SliceBounds(p1, p2, UsedBy([]), 1) == (5, 1, 4)
  {
    var rev := ReverseComplement(p2);
    var avoid: set<int> := {1, 6};
    assert UsedBy([]) == {} && ConflictingSegments(p1, p2) + {} == avoid;
    assert IndexOf(rev, 2) == 1 by {
      assert rev[0] != 2 && rev[1] == 2;
    }
    assert RunEnd(p1, 5, avoid) == 5;
    assert RunEnd(p1, 4, avoid) == 5;
    assert RunEnd(p1, 3, avoid) == 5;
    assert RunEnd(p1, 2, avoid) == 5;
    assert RunEnd(p1, 1, avoid) == 5;
    assert RunEnd(rev, 4, avoid) == 4;
    assert RunEnd(rev, 3, avoid) == 4;
    assert RunEnd(rev, 2, avoid) == 4;
    assert RunEnd(rev, 1, avoid) == 4;
  }

  /** At the anchor the aligner returns the two slices whole. */
  lemma FirstAnchor(p1: seq<int>, p2: seq<int>, lengths: map<int, int>)
    requires p1 == [1, 2, 3, 4, 5, 6] && p2 == [1, -5, -7, -2, 6] && Hundreds(lengths)
    requires ReverseComplement(p2) == [-6, 2, 7, 5, -1]
    requires 1 < |p1| && IsAnchor(p1, p2, UsedBy([]), 1) && SliceBounds(p1, p2, UsedBy([]), 1) == (5, 1, 4)
    ensures forall q, end :: AnchorResult(p1, p2, lengths, 10000, 1000, UsedBy([]), 1, Success(q), end) ==>
      q == Unorient(([2, 3, 4, 5], [-5, -7, -2]))
  {
    var pair := ([2, 3, 4, 5], [-5, -7, -2]);
    var sub1, sub2 := [2, 3, 4, 5], [2, 7, 5];
    assert p1[1..5] == sub1 && ReverseComplement(p2)[1..4] == sub2;
    assert Unorient(pair) == (sub1, sub2) by {
      assert ReverseComplement(pair.1) == sub2;
    }
    LongFixed(sub1, sub2, lengths);
    AnchorFixed(p1, p2, lengths, 10000, 1000, UsedBy([]), 1, (5, 1, 4), sub1, sub2, Unorient(pair));
  }

  /** The outer loop on the first pair pushes exactly one alignment. */
  lemma FirstCase(p1: seq<int>, p2: seq<int>, lengths: map<int, int>)
    requires p1 == [1, 2, 3, 4, 5, 6] && p2 == [1, -5, -7, -2, 6] && Hundreds(lengths)
    ensures forall al, ends :: Aligned(p1, p2, lengths, 10000, 1000, 6, al, ends) ==>
      al == [([2, 3, 4, 5], [-5, -7, -2])]
  {
    var pair := ([2, 3, 4, 5], [-5, -7, -2]);
    FirstSets(p1, p2);
    AlignedNone(p1, p2, lengths, 10000, 1000);
    AlignedSkip(p1, p2, lengths, 10000, 1000, 0, 1, []);
    FirstBounds(p1, p2);
    FirstAnchor(p1, p2, lengths);
    AlignedTake(p1, p2, lengths, 10000, 1000, 1, 2, [], pair);
    assert [] + [pair] == [pair];
    assert 5 in UsedBy([pair]) by {
      assert UsedBy([pair]) == UsedBy([]) + PairSegments(pair);
      assert 5 in pair.0;
    }
    AlignedSkip(p1, p2, lengths, 10000, 1000, 2, 3, [pair]);
    AlignedSkip(p1, p2, lengths, 10000, 1000, 3, 4, [pair]);
    AlignedSkip(p1, p2, lengths, 10000, 1000, 4, 5, [pair]);
    AlignedSkip(p1, p2, lengths, 10000, 1000, 5, 6, [pair]);
  }

  /** In both seven-segment pairs, after the first inversion the loop skips indices 2 and 3. */
  lemma MiddleSkips(p1: seq<int>, p2: seq<int>, lengths: map<int, int>)
    requires |p1| == 7
    requires !IsAnchor(p1, p2, UsedBy([([2, 3], [-3, -2])]), 2) && !IsAnchor(p1, p2, UsedBy([([2, 3], [-3, -2])]), 3)
    requires forall al, ends :: Aligned(p1, p2, lengths, 10000, 1000, 2, al, ends) ==> al == [([2, 3], [-3, -2])]
    ensures forall al, ends :: Aligned(p1, p2, lengths, 10000, 1000, 4, al, ends) ==> al == [([2, 3], [-3, -2])]
  {
    var left := ([2, 3], [-3, -2]);
    AlignedSkip(p1, p2, lengths, 10000, 1000, 2, 3, [left]);
    AlignedSkip(p1, p2, lengths, 10000, 1000, 3, 4, [left]);
  }

  /** In both seven-segment pairs, index 4 is the second anchor and yields [5, 6] twice. */
  lemma LastTake(p1: seq<int>, p2: seq<int>, lengths: map<int, int>)
    requires |p1| == 7
    requires IsAnchor(p1, p2, UsedBy([([2, 3], [-3, -2])]), 4)
    requires forall q, end :: AnchorResult(p1, p2, lengths, 10000, 1000, UsedBy([([2, 3], [-3, -2])]), 4, Success(q), end) ==>
      q == Unorient(([5, 6], [-6, -5]))
    requires forall al, ends :: Aligned(p1, p2, lengths, 10000, 1000, 4, al, ends) ==> al == [([2, 3], [-3, -2])]
    ensures forall al, ends :: Aligned(p1, p2, lengths, 10000, 1000, 5, al, ends) ==>
      al == [([2, 3], [-3, -2]), ([5, 6], [-6, -5])]
  {
    var left, right := ([2, 3], [-3, -2]), ([5, 6], [-6, -5]);
    AlignedTake(p1, p2, lengths, 10000, 1000, 4, 5, [left], right);
    assert [left] + [right] == [left, right];
  }

  // ---------------------------------------------------------------------------------------
  // align_paths([1, 2, 3, 4, 5, 6, 7], [1, -3, -2, 4, -6, -5, 7])

  /** 1, 4 and 7 occur in the same orientation in both paths, 2, 3, 5 and 6 only reversed. */
  lemma SecondSets(p1: seq<int>, p2: seq<int>)
    requires p1 == [1, 2, 3, 4, 5, 6, 7] && p2 == [1, -3, -2, 4, -6, -5, 7]
    ensures ReverseComplement(p2) == [-7, 5, 6, -4, 2, 3, -1]
    ensures ConflictingSegments(p1, p2) == {1, 4, 7}
    ensures CommonSegments(p1, p2) == {2, 3, 5, 6}
  {
    SecondReverse(p2);
    SecondConflicting(p1, p2);
    SecondCommon(p1, p2);
  }

  lemma SecondCommon(p1: seq<int>, p2: seq<int>)
    requires p1 == [1, 2, 3, 4, 5, 6, 7]
    requires ReverseComplement(p2) == [-7, 5, 6, -4, 2, 3, -1]
    requires ConflictingSegments(p1, p2) == {1, 4, 7}
    ensures CommonSegments(p1, p2) == {2, 3, 5, 6}
  {
    SharedReversed(p1, ReverseComplement(p2));
    Differences();
    CommonIs(p1, p2, {2, 3, 5, 6}, {1, 4, 7}, {2, 3, 5, 6});
  }

  lemma SecondReverse(p2: seq<int>)
    requires p2 == [1, -3, -2, 4, -6, -5, 7]
    ensures ReverseComplement(p2) == [-7, 5, 6, -4, 2, 3, -1]
  {
  }

  lemma SecondConflicting(p1: seq<int>, p2: seq<int>)
    requires p1 == [1, 2, 3, 4, 5, 6, 7] && p2 == [1, -3, -2, 4, -6, -5, 7]
    ensures ConflictingSegments(p1, p2) == {1, 4, 7}
  {
    assert 1 in p1 && 1 in p2 && 4 in p1 && 4 in p2 && 7 in p1 && 7 in p2;
  }

  /** The second and third pairs meet 2, 3, 5 and 6 reversed, whichever of 4 or 8 sits
      between them. */
  lemma SharedReversed(p1: seq<int>, rev: seq<int>)
    requires p1 == [1, 2, 3, 4, 5, 6, 7]
    requires rev == [-7, 5, 6, -4, 2, 3, -1] || rev == [-7, 5, 6, -8, 2, 3, -1]
    ensures (set x | x in p1 && x in rev :: Abs(x)) == {2, 3, 5, 6}
  {
    assert 2 in p1 && 2 in rev && 3 in p1 && 3 in rev && 5 in p1 && 5 in rev && 6 in p1 && 6 in rev;
  }

  /** The first anchor, 2 at index 1, cuts [2, 3] from both paths. */
  lemma SecondFirstBounds(p1: seq<int>, p2: seq<int>)
    requires p1 == [1, 2, 3, 4, 5, 6, 7] && p2 == [1, -3, -2, 4, -6, -5, 7]
    requires ReverseComplement(p2) == [-7, 5, 6, -4, 2, 3, -1]
    requires ConflictingSegments(p1, p2) == {1, 4, 7} && CommonSegments(p1, p2) == {2, 3, 5, 6}
    ensures IsAnchor(p1, p2, UsedBy([]), 1)
    ensures SliceBounds(p1, p2, UsedBy([]), 1) == (3, 4, 6)
  {
    var rev := ReverseComplement(p2);
    var avoid: set<int> := {1, 4, 7};
    assert UsedBy([]) == {} && ConflictingSegments(p1, p2) + {} == avoid;
    assert IndexOf(rev, 2) == 4 by {
      assert rev[0] != 2 && rev[1] != 2 && rev[2] != 2 && rev[3] != 2 && rev[4] == 2;
      assert IndexOf(rev[4..], 2) == 0;
      assert IndexOf(rev[3..], 2) == 1 by { assert rev[3..][1..] == rev[4..]; }
      assert IndexOf(rev[2..], 2) == 2 by { assert rev[2..][1..] == rev[3..]; }
      assert IndexOf(rev[1..], 2) == 3 by { assert rev[1..][1..] == rev[2..]; }
    }
    assert RunEnd(p1, 3, avoid) == 3;
    assert RunEnd(p1, 2, avoid) == 3;
    assert RunEnd(p1, 1, avoid) == 3;
    assert RunEnd(rev, 6, avoid) == 6;
    assert RunEnd(rev, 5, avoid) == 6;
    assert RunEnd(rev, 4, avoid) == 6;
  }

  /** The second anchor, 5 at index 4 with 2 and 3 used, cuts [5, 6] from both paths. */
  lemma SecondLastBounds(p1: seq<int>, p2: seq<int>, used: set<int>)
    requires p1 == [1, 2, 3, 4, 5, 6, 7] && p2 == [1, -3, -2, 4, -6, -5, 7] && used == {2, 3}
    requires ReverseComplement(p2) == [-7, 5, 6, -4, 2, 3, -1]
    requires ConflictingSegments(p1, p2) == {1, 4, 7} && CommonSegments(p1, p2) == {2, 3, 5, 6}
    ensures IsAnchor(p1, p2, used, 4)
    ensures SliceBounds(p1, p2, used, 4) == (6, 1, 3)
  {
    var rev := ReverseComplement(p2);
    var avoid: set<int> := {1, 4, 7, 2, 3};
    assert ConflictingSegments(p1, p2) + used == avoid;
    assert IndexOf(rev, 5) == 1 by {
      assert rev[0] != 5 && rev[1] == 5;
    }
    assert RunEnd(p1, 6, avoid) == 6;
    assert RunEnd(p1, 5, avoid) == 6;
    assert RunEnd(p1, 4, avoid) == 6;
    assert RunEnd(rev, 3, avoid) == 3;
    assert RunEnd(rev, 2, avoid) == 3;
    assert RunEnd(rev, 1, avoid) == 3;
  }

  /** At the first anchor the aligner returns [2, 3] twice. */
  lemma SecondFirstAnchor(p1: seq<int>, p2: seq<int>, lengths: map<int, int>)
    requires p1 == [1, 2, 3, 4, 5, 6, 7] && p2 == [1, -3, -2, 4, -6, -5, 7] && Hundreds(lengths)
    requires ReverseComplement(p2) == [-7, 5, 6, -4, 2, 3, -1]
    requires 1 < |p1| && IsAnchor(p1, p2, UsedBy([]), 1) && SliceBounds(p1, p2, UsedBy([]), 1) == (3, 4, 6)
    ensures forall q, end :: AnchorResult(p1, p2, lengths, 10000, 1000, UsedBy([]), 1, Success(q), end) ==>
      q == Unorient(([2, 3], [-3, -2]))
  {
    var left := ([2, 3], [-3, -2]);
    assert p1[1..3] == [2, 3] && ReverseComplement(p2)[4..6] == [2, 3];
    assert Unorient(left) == ([2, 3], [2, 3]) by {
      assert ReverseComplement(left.1) == [2, 3];
    }
    PairFixed([2, 3], lengths);
    AnchorFixed(p1, p2, lengths, 10000, 1000, UsedBy([]), 1, (3, 4, 6), [2, 3], [2, 3], Unorient(left));
  }

  /** At the second anchor the aligner returns [5, 6] twice. */
  lemma SecondLastAnchor(p1: seq<int>, p2: seq<int>, lengths: map<int, int>, used: set<int>)
    requires p1 == [1, 2, 3, 4, 5, 6, 7] && p2 == [1, -3, -2, 4, -6, -5, 7] && Hundreds(lengths) && used == {2, 3}
    requires ReverseComplement(p2) == [-7, 5, 6, -4, 2, 3, -1]
    requires 4 < |p1| && IsAnchor(p1, p2, used, 4) && SliceBounds(p1, p2, used, 4) == (6, 1, 3)
    ensures forall q, end :: AnchorResult(p1, p2, lengths, 10000, 1000, used, 4, Success(q), end) ==>
      q == Unorient(([5, 6], [-6, -5]))
  {
    var right := ([5, 6], [-6, -5]);
    assert p1[4..6] == [5, 6] && ReverseComplement(p2)[1..3] == [5, 6];
    assert Unorient(right) == ([5, 6], [5, 6]) by {
      assert ReverseComplement(right.1) == [5, 6];
    }
    PairFixed([5, 6], lengths);
    AnchorFixed(p1, p2, lengths, 10000, 1000, used, 4, (6, 1, 3), [5, 6], [5, 6], Unorient(right));
  }

  /** After [2, 3] and its reverse, the IDs 2 and 3 are used. */
  lemma LeftUsed(left: (seq<int>, seq<int>))
    requires left == ([2, 3], [-3, -2])
    ensures UsedBy([left]) == {2, 3}
  {
    assert UsedBy([left]) == UsedBy([]) + PairSegments(left);
    TwoSegments(2, 3);
    TwoSegments(-3, -2);
  }

  /** The outer loop on the second pair pushes [2, 3] and then [5, 6]. */
  lemma SecondCase(p1: seq<int>, p2: seq<int>, lengths: map<int, int>)
    requires p1 == [1, 2, 3, 4, 5, 6, 7] && p2 == [1, -3, -2, 4, -6, -5, 7] && Hundreds(lengths)
    ensures forall al, ends :: Aligned(p1, p2, lengths, 10000, 1000, 7, al, ends) ==>
      al == [([2, 3], [-3, -2]), ([5, 6], [-6, -5])]
  {
    var left, right := ([2, 3], [-3, -2]), ([5, 6], [-6, -5]);
    SecondSets(p1, p2);
    SecondPrefix(p1, p2, lengths);
    assert 6 in UsedBy([left, right]) by {
      assert [left, right][..1] == [left];
      assert UsedBy([left, right]) == UsedBy([left]) + PairSegments(right);
      assert 6 in right.0;
    }
    AlignedSkip(p1, p2, lengths, 10000, 1000, 5, 6, [left, right]);
    AlignedSkip(p1, p2, lengths, 10000, 1000, 6, 7, [left, right]);
  }

  /** Up to index 5 of path1 the loop has pushed both inversions. */
  lemma SecondPrefix(p1: seq<int>, p2: seq<int>, lengths: map<int, int>)
    requires p1 == [1, 2, 3, 4, 5, 6, 7] && p2 == [1, -3, -2, 4, -6, -5, 7] && Hundreds(lengths)
    requires ReverseComplement(p2) == [-7, 5, 6, -4, 2, 3, -1]
    requires ConflictingSegments(p1, p2) == {1, 4, 7} && CommonSegments(p1, p2) == {2, 3, 5, 6}
    ensures forall al, ends :: Aligned(p1, p2, lengths, 10000, 1000, 5, al, ends) ==>
      al == [([2, 3], [-3, -2]), ([5, 6], [-6, -5])]
  {
    var left := ([2, 3], [-3, -2]);
    SecondStart(p1, p2, lengths);
    LeftUsed(left);
    SecondSkips(p1, p2, UsedBy([left]));
    MiddleSkips(p1, p2, lengths);
    SecondLastBounds(p1, p2, UsedBy([left]));
    SecondLastAnchor(p1, p2, lengths, UsedBy([left]));
    LastTake(p1, p2, lengths);
  }

  /** Indices 2 and 3 are no anchors: 3 is used by then, and 4 is not common. */
  lemma SecondSkips(p1: seq<int>, p2: seq<int>, used: set<int>)
    requires p1 == [1, 2, 3, 4, 5, 6, 7] && p2 == [1, -3, -2, 4, -6, -5, 7] && used == {2, 3}
    requires ReverseComplement(p2) == [-7, 5, 6, -4, 2, 3, -1]
    requires ConflictingSegments(p1, p2) == {1, 4, 7} && CommonSegments(p1, p2) == {2, 3, 5, 6}
    ensures !IsAnchor(p1, p2, used, 2) && !IsAnchor(p1, p2, used, 3)
  {
    NotAnchorUsed(p1, p2, used, 2);
    NotAnchorUncommon(p1, p2, used, 3);
  }

  /** Up to index 2 of path1 the loop has pushed the first inversion. */
  lemma SecondStart(p1: seq<int>, p2: seq<int>, lengths: map<int, int>)
    requires p1 == [1, 2, 3, 4, 5, 6, 7] && p2 == [1, -3, -2, 4, -6, -5, 7] && Hundreds(lengths)
    requires ReverseComplement(p2) == [-7, 5, 6, -4, 2, 3, -1]
    requires ConflictingSegments(p1, p2) == {1, 4, 7} && CommonSegments(p1, p2) == {2, 3, 5, 6}
    ensures forall al, ends :: Aligned(p1, p2, lengths, 10000, 1000, 2, al, ends) ==> al == [([2, 3], [-3, -2])]
  {
    var left := ([2, 3], [-3, -2]);
    AlignedNone(p1, p2, lengths, 10000, 1000);
    AlignedSkip(p1, p2, lengths, 10000, 1000, 0, 1, []);
    SecondFirstBounds(p1, p2);
    SecondFirstAnchor(p1, p2, lengths);
    AlignedTake(p1, p2, lengths, 10000, 1000, 1, 2, [], left);
    assert [] + [left] == [left];
  }

  // ---------------------------------------------------------------------------------------
  // align_paths([1, 2, 3, 4, 5, 6, 7], [1, -3, -2, 8, -6, -5, 7])

  /** 1 and 7 occur in the same orientation in both paths, 2, 3, 5 and 6 only reversed. */
  lemma ThirdSets(p1: seq<int>, p2: seq<int>)
    requires p1 == [1, 2, 3, 4, 5, 6, 7] && p2 == [1, -3, -2, 8, -6, -5, 7]
    ensures ReverseComplement(p2) == [-7, 5, 6, -8, 2, 3, -1]
    ensures ConflictingSegments(p1, p2) == {1, 7}
    ensures CommonSegments(p1, p2) == {2, 3, 5, 6}
  {
    var rev := ReverseComplement(p2);
    assert rev == [-7, 5, 6, -8, 2, 3, -1];
    ThirdConflicting(p1, p2);
    SharedReversed(p1, rev);
    Differences();
    CommonIs(p1, p2, {2, 3, 5, 6}, {1, 7}, {2, 3, 5, 6});
  }

  lemma ThirdConflicting(p1: seq<int>, p2: seq<int>)
    requires p1 == [1, 2, 3, 4, 5, 6, 7] && p2 == [1, -3, -2, 8, -6, -5, 7]
    ensures ConflictingSegments(p1, p2) == {1, 7}
  {
    assert 1 in p1 && 1 in p2 && 7 in p1 && 7 in p2;
  }

  /** The first anchor, 2 at index 1, cuts [2, 3, 4, 5, 6] from path1 and [2, 3] from the
      reverse complement. */
  lemma ThirdFirstBounds(p1: seq<int>, p2: seq<int>)
    requires p1 == [1, 2, 3, 4, 5, 6, 7] && p2 == [1, -3, -2, 8, -6, -5, 7]
    requires ReverseComplement(p2) == [-7, 5, 6, -8, 2, 3, -1]
    requires ConflictingSegments(p1, p2) == {1, 7} && CommonSegments(p1, p2) == {2, 3, 5, 6}
    ensures IsAnchor(p1, p2, UsedBy([]), 1)
    ensures SliceBounds(p1, p2, UsedBy([]), 1) == (6, 4, 6)
  {
    var rev := ReverseComplement(p2);
    var avoid: set<int> := {1, 7};
    assert UsedBy([]) == {} && ConflictingSegments(p1, p2) + {} == avoid;
    assert IndexOf(rev, 2) == 4 by {
      assert rev[0] != 2 && rev[1] != 2 && rev[2] != 2 && rev[3] != 2 && rev[4] == 2;
      assert IndexOf(rev[4..], 2) == 0;
      assert IndexOf(rev[3..], 2) == 1 by { assert rev[3..][1..] == rev[4..]; }
      assert IndexOf(rev[2..], 2) == 2 by { assert rev[2..][1..] == rev[3..]; }
      assert IndexOf(rev[1..], 2) == 3 by { assert rev[1..][1..] == rev[2..]; }
    }
    assert RunEnd(p1, 6, avoid) == 6;
    assert RunEnd(p1, 5, avoid) == 6;
    assert RunEnd(p1, 4, avoid) == 6;
    assert RunEnd(p1, 3, avoid) == 6;
    assert RunEnd(p1, 2, avoid) == 6;
    assert RunEnd(p1, 1, avoid) == 6;
    assert RunEnd(rev, 6, avoid) == 6;
    assert RunEnd(rev, 5, avoid) == 6;
    assert RunEnd(rev, 4, avoid) == 6;
  }

  /** The second anchor, 5 at index 4 with 2 and 3 used, cuts [5, 6] from path1 and
      [5, 6, -8] from the reverse complement, which stops before the used 2. */
  lemma ThirdLastBounds(p1: seq<int>, p2: seq<int>, used: set<int>)
    requires p1 == [1, 2, 3, 4, 5, 6, 7] && p2 == [1, -3, -2, 8, -6, -5, 7] && used == {2, 3}
    requires ReverseComplement(p2) == [-7, 5, 6, -8, 2, 3, -1]
    requires ConflictingSegments(p1, p2) == {1, 7} && CommonSegments(p1, p2) == {2, 3, 5, 6}
    ensures IsAnchor(p1, p2, used, 4)
    ensures SliceBounds(p1, p2, used, 4) == (6, 1, 4)
  {
    var rev := ReverseComplement(p2);
    var avoid: set<int> := {1, 7, 2, 3};
    assert ConflictingSegments(p1, p2) + used == avoid;
    assert IndexOf(rev, 5) == 1 by {
      assert rev[0] != 5 && rev[1] == 5;
    }
    assert RunEnd(p1, 6, avoid) == 6;
    assert RunEnd(p1, 5, avoid) == 6;
    assert RunEnd(p1, 4, avoid) == 6;
    assert RunEnd(rev, 4, avoid) == 4;
    assert RunEnd(rev, 3, avoid) == 4;
    assert RunEnd(rev, 2, avoid) == 4;
    assert RunEnd(rev, 1, avoid) == 4;
  }

  /** At the first anchor the aligner returns [2, 3] twice. */
  lemma ThirdFirstAnchor(p1: seq<int>, p2: seq<int>, lengths: map<int, int>)
    requires p1 == [1, 2, 3, 4, 5, 6, 7] && p2 == [1, -3, -2, 8, -6, -5, 7] && Hundreds(lengths)
    requires ReverseComplement(p2) == [-7, 5, 6, -8, 2, 3, -1]
    requires 1 < |p1| && IsAnchor(p1, p2, UsedBy([]), 1) && SliceBounds(p1, p2, UsedBy([]), 1) == (6, 4, 6)
    ensures forall q, end :: AnchorResult(p1, p2, lengths, 10000, 1000, UsedBy([]), 1, Success(q), end) ==>
      q == Unorient(([2, 3], [-3, -2]))
  {
    var left := ([2, 3], [-3, -2]);
    assert p1[1..6] == [2, 3, 4, 5, 6] && ReverseComplement(p2)[4..6] == [2, 3];
    assert Unorient(left) == ([2, 3], [2, 3]) by {
      assert ReverseComplement(left.1) == [2, 3];
    }
    TallFixed([2, 3, 4, 5, 6], [2, 3], lengths);
    AnchorFixed(p1, p2, lengths, 10000, 1000, UsedBy([]), 1, (6, 4, 6), [2, 3, 4, 5, 6], [2, 3], Unorient(left));
  }

  /** At the second anchor the aligner returns [5, 6] twice. */
  lemma ThirdLastAnchor(p1: seq<int>, p2: seq<int>, lengths: map<int, int>, used: set<int>)
    requires p1 == [1, 2, 3, 4, 5, 6, 7] && p2 == [1, -3, -2, 8, -6, -5, 7] && Hundreds(lengths) && used == {2, 3}
    requires ReverseComplement(p2) == [-7, 5, 6, -8, 2, 3, -1]
    requires 4 < |p1| && IsAnchor(p1, p2, used, 4) && SliceBounds(p1, p2, used, 4) == (6, 1, 4)
    ensures forall q, end :: AnchorResult(p1, p2, lengths, 10000, 1000, used, 4, Success(q), end) ==>
      q == Unorient(([5, 6], [-6, -5]))
  {
    var right := ([5, 6], [-6, -5]);
    assert p1[4..6] == [5, 6] && ReverseComplement(p2)[1..4] == [5, 6, -8];
    assert Unorient(right) == ([5, 6], [5, 6]) by {
      assert ReverseComplement(right.1) == [5, 6];
    }
    WideFixed([5, 6], [5, 6, -8], lengths);
    AnchorFixed(p1, p2, lengths, 10000, 1000, used, 4, (6, 1, 4), [5, 6], [5, 6, -8], Unorient(right));
  }

  /** The outer loop on the third pair pushes [2, 3] and then [5, 6]: segment 8, absent from
      path1, does not change the alignments. */
  lemma ThirdCase(p1: seq<int>, p2: seq<int>, lengths: map<int, int>)
    requires p1 == [1, 2, 3, 4, 5, 6, 7] && p2 == [1, -3, -2, 8, -6, -5, 7] && Hundreds(lengths)
    ensures forall al, ends :: Aligned(p1, p2, lengths, 10000, 1000, 7, al, ends) ==>
      al == [([2, 3], [-3, -2]), ([5, 6], [-6, -5])]
  {
    var left, right := ([2, 3], [-3, -2]), ([5, 6], [-6, -5]);
    ThirdSets(p1, p2);
    ThirdPrefix(p1, p2, lengths);
    assert 6 in UsedBy([left, right]) by {
      assert [left, right][..1] == [left];
      assert UsedBy([left, right]) == UsedBy([left]) + PairSegments(right);
      assert 6 in right.0;
    }
    AlignedSkip(p1, p2, lengths, 10000, 1000, 5, 6, [left, right]);
    AlignedSkip(p1, p2, lengths, 10000, 1000, 6, 7, [left, right]);
  }

  /** Up to index 5 of path1 the loop has pushed both inversions. */
  lemma ThirdPrefix(p1: seq<int>, p2: seq<int>, lengths: map<int, int>)
    requires p1 == [1, 2, 3, 4, 5, 6, 7] && p2 == [1, -3, -2, 8, -6, -5, 7] && Hundreds(lengths)
    requires ReverseComplement(p2) == [-7, 5, 6, -8, 2, 3, -1]
    requires ConflictingSegments(p1, p2) == {1, 7} && CommonSegments(p1, p2) == {2, 3, 5, 6}
    ensures forall al, ends :: Aligned(p1, p2, lengths, 10000, 1000, 5, al, ends) ==>
      al == [([2, 3], [-3, -2]), ([5, 6], [-6, -5])]
  {
    var left := ([2, 3], [-3, -2]);
    ThirdStart(p1, p2, lengths);
    LeftUsed(left);
    ThirdSkips(p1, p2, UsedBy([left]));
    MiddleSkips(p1, p2, lengths);
    ThirdLastBounds(p1, p2, UsedBy([left]));
    ThirdLastAnchor(p1, p2, lengths, UsedBy([left]));
    LastTake(p1, p2, lengths);
  }

  /** Indices 2 and 3 are no anchors: 3 is used by then, and 4 is not common. */
  lemma ThirdSkips(p1: seq<int>, p2: seq<int>, used: set<int>)
    requires p1 == [1, 2, 3, 4, 5, 6, 7] && p2 == [1, -3, -2, 8, -6, -5, 7] && used == {2, 3}
    requires ReverseComplement(p2) == [-7, 5, 6, -8, 2, 3, -1]
    requires ConflictingSegments(p1, p2) == {1, 7} && CommonSegments(p1, p2) == {2, 3, 5, 6}
    ensures !IsAnchor(p1, p2, used, 2) && !IsAnchor(p1, p2, used, 3)
  {
    NotAnchorUsed(p1, p2, used, 2);
    NotAnchorUncommon(p1, p2, used, 3);
  }

  /** Up to index 2 of path1 the loop has pushed the first inversion. */
  lemma ThirdStart(p1: seq<int>, p2: seq<int>, lengths: map<int, int>)
    requires p1 == [1, 2, 3, 4, 5, 6, 7] && p2 == [1, -3, -2, 8, -6, -5, 7] && Hundreds(lengths)
    requires ReverseComplement(p2) == [-7, 5, 6, -8, 2, 3, -1]
    requires ConflictingSegments(p1, p2) == {1, 7} && CommonSegments(p1, p2) == {2, 3, 5, 6}
    ensures forall al, ends :: Aligned(p1, p2, lengths, 10000, 1000, 2, al, ends) ==> al == [([2, 3], [-3, -2])]
  {
    var left := ([2, 3], [-3, -2]);
    AlignedNone(p1, p2, lengths, 10000, 1000);
    AlignedSkip(p1, p2, lengths, 10000, 1000, 0, 1, []);
    ThirdFirstBounds(p1, p2);
    ThirdFirstAnchor(p1, p2, lengths);
    AlignedTake(p1, p2, lengths, 10000, 1000, 1, 2, [], left);
    assert [] + [left] == [left];
  }

  // ---------------------------------------------------------------------------------------
  // test_align_paths

  /** Paths over the IDs 1 to 8 need no length the test's table lacks. */
  lemma TestKnown(p1: seq<int>, p2: seq<int>, lengths: map<int, int>)
    requires Hundreds(lengths)
    requires forall k :: 0 <= k < |p1| ==> 1 <= Abs(p1[k]) <= 8
    requires forall k :: 0 <= k < |p2| ==> 1 <= Abs(p2[k]) <= 8
    ensures LengthsKnown(p1, lengths) && LengthsKnown(p2, lengths)
    ensures MatchedLengthsKnown(p1, ReverseComplement(p2), lengths)
  {
  }

  /** test_align_paths, first pair: [1, 2, 3, 4, 5, 6] against [1, -5, -7, -2, 6], with length
      100 for the IDs 0 to 9, a high-memory limit of 10000 and a drop of 1000. */
  method TestAlignPathsFirst() returns (r: Result<seq<(seq<int>, seq<int>)>, InversionError>)
    ensures r == Success([([2, 3, 4, 5], [-5, -7, -2])])
  {
    var lengths := HundredEach();
    HundredEachShape();
    var path1, path2 := [1, 2, 3, 4, 5, 6], [1, -5, -7, -2, 6];
    TestKnown(path1, path2, lengths);
    r := AlignPaths(path1, path2, lengths, 10000, 1000);
    FirstCase(path1, path2, lengths);
  }

  /** test_align_paths, second pair: two inversions with the shared segment 4 between them. */
  method TestAlignPathsSecond() returns (r: Result<seq<(seq<int>, seq<int>)>, InversionError>)
    ensures r == Success([([2, 3], [-3, -2]), ([5, 6], [-6, -5])])
  {
    var lengths := HundredEach();
    HundredEachShape();
    var path3, path4 := [1, 2, 3, 4, 5, 6, 7], [1, -3, -2, 4, -6, -5, 7];
    TestKnown(path3, path4, lengths);
    r := AlignPaths(path3, path4, lengths, 10000, 1000);
    SecondCase(path3, path4, lengths);
  }

  /** test_align_paths, third pair: the same two inversions with segment 8, on path2 only,
      between them. */
  method TestAlignPathsThird() returns (r: Result<seq<(seq<int>, seq<int>)>, InversionError>)
    ensures r == Success([([2, 3], [-3, -2]), ([5, 6], [-6, -5])])
  {
    var lengths := HundredEach();
    HundredEachShape();
    var path5, path6 := [1, 2, 3, 4, 5, 6, 7], [1, -3, -2, 8, -6, -5, 7];
    TestKnown(path5, path6, lengths);
    r := AlignPaths(path5, path6, lengths, 10000, 1000);
    ThirdCase(path5, path6, lengths);
  }
}
