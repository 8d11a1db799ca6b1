/** Types and sequence helpers shared by the aligners, the GFA reader and the query driver. */
module Common {

  datatype Option<+T> = None | Some(value: T)

  datatype Result<+R, +E> = Success(value: R) | Failure(error: E)

  /** The crate's error type: a segment with no length entry, or a path name with no path. */
  datatype InversionError = SegmentNotFound(segment: int) | PathNotFound(key: string)

  /** The record the low-memory aligner returns: the two aligned segment lists and the
      first and last row of path1 (indices into the path1 slice that was aligned). */
  datatype Alignment = Alignment(
    alignmentPath1: seq<int>,
    alignmentPath2: seq<int>,
    path1StartIndex: int,
    path1EndIndex: int)

  /** Rust's `i32::abs`, on unbounded integers: a segment ID without its orientation. */
  function Abs(x: int): (r: nat)
    ensures r == x || r == -x
  {
    if x < 0 then -x else x
  }

  /** The IDs (orientation dropped) of the segments occurring in `s`. */
  function Segments(s: seq<int>): set<int>
  {
    set x | x in s :: Abs(x)
  }

  /** Every segment of `s` has an entry in the length table. */
  predicate LengthsKnown(s: seq<int>, lengths: map<int, int>)
  {
    forall k :: 0 <= k < |s| ==> Abs(s[k]) in lengths
  }

  /** `Vec::reverse`. */
  function Reverse(s: seq<int>): (r: seq<int>)
    ensures |r| == |s|
    ensures forall k :: 0 <= k < |s| ==> r[k] == s[|s| - 1 - k]
  {
    if |s| == 0 then [] else [s[|s| - 1]] + Reverse(s[..|s| - 1])
  }

  lemma ReverseSnoc(s: seq<int>, x: int)
    ensures Reverse(s + [x]) == [x] + Reverse(s)
  {
    assert (s + [x])[..|s|] == s;
  }

  /** No two neighbouring elements are equal. */
  predicate NoAdjacentDuplicates(s: seq<int>)
  {
    forall k :: 0 <= k < |s| - 1 ==> s[k] != s[k + 1]
  }

  /** Collapses every run of equal neighbours to a single element. This is what the
      tracebacks produce by pushing a segment only when it differs from the last one pushed. */
  function Dedup(s: seq<int>): (r: seq<int>)
    ensures |r| <= |s|
    ensures s != [] ==> r != [] && r[0] == s[0]
    ensures NoAdjacentDuplicates(r)
  {
    if |s| == 0 then []
    else
      var d := Dedup(s[1..]);
      if d != [] && d[0] == s[0] then d else [s[0]] + d
  }

  /** Dedup keeps exactly the elements of its input. */
  lemma {:induction false} DedupElements(s: seq<int>)
    ensures forall x :: x in Dedup(s) <==> x in s
  {
    if |s| > 0 {
      DedupElements(s[1..]);
      assert s == [s[0]] + s[1..];
    }
  }

  /** Dedup keeps the last element of its input. */
  lemma {:induction false} DedupLast(s: seq<int>)
    requires s != []
    ensures Dedup(s)[|Dedup(s)| - 1] == s[|s| - 1]
  {
    if |s| > 1 {
      DedupLast(s[1..]);
    }
  }

  /** A sequence that has no equal neighbours is left unchanged, so Dedup is idempotent. */
  lemma {:induction false} DedupIdentity(s: seq<int>)
    requires NoAdjacentDuplicates(s)
    ensures Dedup(s) == s
  {
    if |s| > 0 {
      DedupIdentity(s[1..]);
    }
  }

  lemma DedupIdempotent(s: seq<int>)
    ensures Dedup(Dedup(s)) == Dedup(s)
  {
    DedupIdentity(Dedup(s));
  }

  /** Prepending one element to the input of Dedup, as a traceback step does. */
  lemma DedupCons(x: int, s: seq<int>)
    ensures Dedup([x] + s) == if Dedup(s) != [] && Dedup(s)[0] == x then Dedup(s) else [x] + Dedup(s)
  {
    assert ([x] + s)[1..] == s;
  }

  /** One traceback step pushes `x` onto the reversed output unless it repeats the last
      element pushed; the output in forward order then stays the Dedup of the visited slice. */
  lemma PushDedup(rev: seq<int>, s: seq<int>, x: int)
    requires Reverse(rev) == Dedup(s)
    ensures Reverse(if rev == [] || rev[|rev| - 1] != x then rev + [x] else rev) == Dedup([x] + s)
  {
    DedupCons(x, s);
    ReverseSnoc(rev, x);
  }

  /** Revisiting the element just pushed (a step that leaves the row or column unchanged)
      pushes nothing. */
  lemma PushDedupAgain(rev: seq<int>, s: seq<int>)
    requires s != [] && Reverse(rev) == Dedup(s)
    ensures rev != [] && rev[|rev| - 1] == s[0]
  {
  }

  /** A traceback visits row (or column) i of `p` after having collected the slice from
      `from` to `e`, where `from` is i when the previous step stayed in that row and i + 1
      when it arrived from the next one. Collecting p[i] unless it repeats the last element
      collected extends the forward output to the Dedup of the slice from i. */
  lemma CollectStep(rev: seq<int>, p: seq<int>, from: nat, i: nat, e: nat)
    requires i <= e < |p| && (from == i || from == i + 1)
    requires Reverse(rev) == Dedup(p[from..e + 1])
    ensures Reverse(if rev == [] || rev[|rev| - 1] != p[i] then rev + [p[i]] else rev) == Dedup(p[i..e + 1])
  {
    assert p[i..e + 1] == [p[i]] + p[i + 1..e + 1];
    if from == i {
      PushDedupAgain(rev, p[i..e + 1]);
    } else {
      PushDedup(rev, p[i + 1..e + 1], p[i]);
    }
  }

  /** The index of the first segment of `s` with no length entry, which is the one a scan
      over `s` that looks every length up fails on. */
  function FirstUnknown(s: seq<int>, lengths: map<int, int>): (k: nat)
    requires !LengthsKnown(s, lengths)
    ensures k < |s| && Abs(s[k]) !in lengths
    ensures forall k' :: 0 <= k' < k ==> Abs(s[k']) in lengths
  {
    if Abs(s[0]) !in lengths then 0
    else
      assert !LengthsKnown(s[1..], lengths) by {
        var k :| 0 <= k < |s| && Abs(s[k]) !in lengths;
        assert s[1..][k - 1] == s[k];
      }
      1 + FirstUnknown(s[1..], lengths)
  }

  /** A scan that looked up the first i segments and misses the next one fails there. */
  lemma FirstUnknownAt(s: seq<int>, lengths: map<int, int>, i: nat)
    requires i < |s| && Abs(s[i]) !in lengths
    requires forall k :: 0 <= k < i ==> Abs(s[k]) in lengths
    ensures !LengthsKnown(s, lengths) && FirstUnknown(s, lengths) == i
  {
  }

  /** `a` can be obtained from `b` by deleting elements. */
  predicate IsSubsequence(a: seq<int>, b: seq<int>)
    decreases |b|
  {
    if a == [] then true
    else if b == [] then false
    else if a[0] == b[0] then IsSubsequence(a[1..], b[1..])
    else IsSubsequence(a, b[1..])
  }

  /** Deleting elements of a longer sequence still gives a subsequence of it. */
  lemma {:induction false} SubsequenceExtend(a: seq<int>, b: seq<int>, x: seq<int>, y: seq<int>)
    requires IsSubsequence(a, b)
    ensures IsSubsequence(a, x + b + y)
    decreases |x|, |b|
  {
    if x != [] {
      assert (x + b + y)[1..] == x[1..] + b + y;
      SubsequenceExtend(a, b, x[1..], y);
      SubsequenceAgain(a, x + b + y);
    } else if a != [] {
      assert x + b + y == b + y && (b + y)[1..] == [] + b[1..] + y;
      if a[0] == b[0] {
        SubsequenceExtend(a[1..], b[1..], [], y);
      } else {
        SubsequenceExtend(a, b[1..], [], y);
      }
    }
  }

  /** Dropping the first element of a subsequence keeps it a subsequence. */
  lemma {:induction false} SubsequenceDrop(a: seq<int>, b: seq<int>)
    requires a != [] && IsSubsequence(a, b)
    ensures IsSubsequence(a[1..], b)
    decreases |b|, 1
  {
    if a[0] != b[0] {
      SubsequenceDrop(a, b[1..]);
    }
    SubsequenceAgain(a[1..], b);
  }

  /** A subsequence of the tail after one element is also a subsequence of the whole. */
  lemma {:induction false} SubsequenceAgain(a: seq<int>, b: seq<int>)
    requires b != [] && IsSubsequence(a, b[1..])
    ensures IsSubsequence(a, b)
    decreases |b|, 0
  {
    if a != [] && a[0] == b[0] {
      SubsequenceDrop(a, b[1..]);
    }
  }

  /** Collapsing runs keeps an in-order subsequence. */
  lemma {:induction false} DedupSubsequence(s: seq<int>)
    ensures IsSubsequence(Dedup(s), s)
  {
    if s != [] {
      DedupSubsequence(s[1..]);
      var d := Dedup(s[1..]);
      if d != [] && d[0] == s[0] {
        SubsequenceAgain(d, s);
      }
    }
  }

  /** The output of a traceback, the Dedup of a slice, is an in-order subsequence of the
      whole path with no two equal neighbours. */
  lemma DedupOfSlice(p: seq<int>, lo: nat, hi: nat)
    requires lo <= hi <= |p|
    ensures IsSubsequence(Dedup(p[lo..hi]), p)
    ensures NoAdjacentDuplicates(Dedup(p[lo..hi]))
  {
    SliceSplit(p, lo, hi);
    DedupSubsequence(p[lo..hi]);
    SubsequenceExtend(Dedup(p[lo..hi]), p[lo..hi], p[..lo], p[hi..]);
  }

  /** A sequence is its prefix, a middle slice and its suffix put back together. */
  lemma SliceSplit(p: seq<int>, lo: nat, hi: nat)
    requires lo <= hi <= |p|
    ensures p[..lo] + p[lo..hi] + p[hi..] == p
  {
  }

  /** Every element of a subsequence occurs in the whole. */
  lemma {:induction false} SubsequenceElements(a: seq<int>, b: seq<int>)
    requires IsSubsequence(a, b)
    ensures forall x :: x in a ==> x in b
    decreases |b|
  {
    if a != [] {
      if a[0] == b[0] {
        SubsequenceElements(a[1..], b[1..]);
        assert forall x :: x in a ==> x == a[0] || x in a[1..];
      } else {
        SubsequenceElements(a, b[1..]);
      }
    }
  }

  /** Part way through a traceback that ends at row (or column) e of `p`: the walk is at i,
      and the segments collected so far are the Dedup of the slice from `from`. */
  ghost predicate Collected(p: seq<int>, rev: seq<int>, from: nat, i: nat, e: nat)
  {
    i <= e < |p| && (from == i || from == i + 1) && Reverse(rev) == Dedup(p[from..e + 1])
  }

  /** Collecting the segment of a visited row or column: it is pushed unless it equals the
      last segment pushed. */
  method Collect(rev: seq<int>, p: seq<int>, ghost from: nat, i: nat, ghost e: nat) returns (rev': seq<int>)
    requires i <= e < |p| && (from == i || from == i + 1)
    requires Reverse(rev) == Dedup(p[from..e + 1])
    ensures Reverse(rev') == Dedup(p[i..e + 1])
  {
    CollectStep(rev, p, from, i, e);
    var segment := p[i];
    rev' := rev;
    if rev' == [] || rev'[|rev'| - 1] != segment {
      rev' := rev' + [segment];
    }
  }

  /** A traceback code `c` stored at cell (i, j): 0 ends the alignment, 1 steps to the
      diagonal, 2 to the cell above, 3 to the cell on the left. A code is well placed when
      the step it asks for stays inside the matrix. */
  predicate ValidCode(c: int, i: int, j: int)
  {
    && 0 <= c <= 3
    && (c == 1 ==> i > 0 && j > 0)
    && (c == 2 ==> i > 0)
    && (c == 3 ==> j > 0)
  }

  /** The cell a code steps to. */
  function Step(i: nat, j: nat, c: int): (nat, nat)
    requires ValidCode(c, i, j) && c != 0
  {
    if c == 1 then (i - 1, j - 1) else if c == 2 then (i - 1, j) else (i, j - 1)
  }
}
