/** Reading the segment list of a GFA 1.0 path line ("P" line, section "Path line" of the
    GFA 1.0 specification) and locating segments on a path in base coordinates. */
module Gfa {
  import opened Common

  // ---------------------------------------------------------------------------------------
  // `str::split`

  /** The fields of `s` between occurrences of `sep`, as `str::split` yields them: the empty
      string gives one empty field, and every separator starts a new (possibly empty) field. */
  function Split(s: string, sep: char): (r: seq<string>)
    ensures |r| >= 1
    ensures forall k :: 0 <= k < |r| ==> sep !in r[k]
  {
    if |s| == 0 then [""]
    else
      var rest := Split(s[1..], sep);
      if s[0] == sep then [""] + rest else [[s[0]] + rest[0]] + rest[1..]
  }

  /** The inverse of Split: the fields glued back together with the separator between them. */
  function Join(fields: seq<string>, sep: char): string
    requires |fields| >= 1
  {
    if |fields| == 1 then fields[0] else fields[0] + [sep] + Join(fields[1..], sep)
  }

  lemma {:induction false} JoinSplit(s: string, sep: char)
    ensures Join(Split(s, sep), sep) == s
  {
    if |s| > 0 {
      var rest := Split(s[1..], sep);
      JoinSplit(s[1..], sep);
      if s[0] == sep {
        assert ([""] + rest)[1..] == rest;
      } else {
        var r := [[s[0]] + rest[0]] + rest[1..];
        if |rest| == 1 {
          assert r == [[s[0]] + rest[0]];
        } else {
          assert r[1..] == rest[1..];
          assert Join(rest, sep) == rest[0] + [sep] + Join(rest[1..], sep);
        }
        assert s == [s[0]] + s[1..];
      }
    }
  }

  /** A field that holds no separator, followed by a separator and more text. */
  lemma {:induction false} SplitField(w: string, sep: char, t: string)
    requires sep !in w
    ensures Split(w + [sep] + t, sep) == [w] + Split(t, sep)
  {
    if |w| > 0 {
      assert (w + [sep] + t)[1..] == w[1..] + [sep] + t;
      SplitField(w[1..], sep, t);
      assert [w[0]] + w[1..] == w;
    } else {
      assert w + [sep] + t == [sep] + t;
      assert ([sep] + t)[1..] == t;
    }
  }

  lemma {:induction false} SplitLast(w: string, sep: char)
    requires sep !in w
    ensures Split(w, sep) == [w]
  {
    if |w| > 0 {
      SplitLast(w[1..], sep);
      assert [w[0]] + w[1..] == w;
    }
  }

  lemma {:induction false} SplitJoin(fields: seq<string>, sep: char)
    requires |fields| >= 1
    requires forall k :: 0 <= k < |fields| ==> sep !in fields[k]
    ensures Split(Join(fields, sep), sep) == fields
  {
    if |fields| == 1 {
      SplitLast(fields[0], sep);
    } else {
      SplitJoin(fields[1..], sep);
      SplitField(fields[0], sep, Join(fields[1..], sep));
      assert [fields[0]] + fields[1..] == fields;
    }
  }

  // ---------------------------------------------------------------------------------------
  // The pattern `(\d+)([+-])`, searched for (unanchored) in one field

  predicate IsDigit(c: char)
  {
    '0' <= c <= '9'
  }

  predicate IsSign(c: char)
  {
    c == '+' || c == '-'
  }

  predicate AllDigits(s: string)
  {
    forall k :: 0 <= k < |s| ==> IsDigit(s[k])
  }

  /** The length of the run of digits starting at position p. */
  function DigitRun(f: string, p: nat): (r: nat)
    requires p <= |f|
    ensures p + r <= |f|
    ensures forall k :: p <= k < p + r ==> IsDigit(f[k])
    ensures p + r < |f| ==> !IsDigit(f[p + r])
    decreases |f| - p
  {
    if p < |f| && IsDigit(f[p]) then 1 + DigitRun(f, p + 1) else 0
  }

  /** The pattern matches at p: a maximal run of digits starts there and a sign follows it.
      A shorter digit run never fits, since a digit, not a sign, would follow it. */
  predicate MatchesAt(f: string, p: nat)
  {
    && p < |f|
    && IsDigit(f[p])
    && p + DigitRun(f, p) < |f|
    && IsSign(f[p + DigitRun(f, p)])
  }

  /** The leftmost position at or after p where the pattern matches. */
  function FirstMatchFrom(f: string, p: nat): (r: Option<nat>)
    requires p <= |f|
    ensures r.Some? ==> p <= r.value && MatchesAt(f, r.value)
    ensures r.Some? ==> forall q :: p <= q < r.value ==> !MatchesAt(f, q)
    ensures r.None? ==> forall q :: p <= q < |f| ==> !MatchesAt(f, q)
    decreases |f| - p
  {
    if p == |f| then None
    else if MatchesAt(f, p) then Some(p)
    else FirstMatchFrom(f, p + 1)
  }

  /** `re.captures(segment)` for the pattern `(\d+)([+-])`: the digits and the orientation
      character of the leftmost match, or None when the field holds no match. */
  function Captures(f: string): (r: Option<(string, char)>)
    ensures r.Some? ==> |r.value.0| > 0 && AllDigits(r.value.0) && IsSign(r.value.1)
  {
    match FirstMatchFrom(f, 0)
    case None => None
    case Some(q) => Some((f[q..q + DigitRun(f, q)], f[q + DigitRun(f, q)]))
  }

  function DigitValue(c: char): nat
  {
    if IsDigit(c) then (c as int) - ('0' as int) else 0
  }

  /** The number a run of decimal digits denotes (`str::parse`). */
  function DecimalValue(s: string): nat
  {
    if |s| == 0 then 0 else DecimalValue(s[..|s| - 1]) * 10 + DigitValue(s[|s| - 1])
  }

  // ---------------------------------------------------------------------------------------
  // parse_gfa_path

  /** Every field of the path string holds a match of the pattern. */
  predicate AllFieldsMatch(fields: seq<string>)
  {
    forall k :: 0 <= k < |fields| ==> Captures(fields[k]).Some?
  }

  /** `parse_gfa_path`: one signed segment ID per comma-separated field, in order, with the
      magnitude taken from the field's digits and the sign from its orientation character.
      None stands for the panic on a field without a match (such as "235"). */
  method ParseGfaPath(pathString: string) returns (r: Option<seq<int>>)
    ensures r.Some? <==> AllFieldsMatch(Split(pathString, ','))
    ensures r.Some? ==> |r.value| == |Split(pathString, ',')|
    ensures r.Some? ==> forall k :: 0 <= k < |Split(pathString, ',')| ==>
      var caps := Captures(Split(pathString, ',')[k]).value;
      && Abs(r.value[k]) == DecimalValue(caps.0)
      && (caps.1 == '-' ==> r.value[k] <= 0)
      && (caps.1 == '+' ==> r.value[k] >= 0)
  {
    var fields := Split(pathString, ',');
    var pathList: seq<int> := [];
    for k := 0 to |fields|
      invariant |pathList| == k
      invariant forall t :: 0 <= t < k ==> ParsedField(fields[t], pathList[t])
    {
      var segment := ParseField(fields[k]);
      if segment.None? {
        return None;
      }
      pathList := pathList + [segment.value];
    }
    return Some(pathList);
  }

  /** `x` is what a field with a match parses to: the magnitude is the number its digits
      denote and the sign follows the orientation character. */
  predicate ParsedField(field: string, x: int)
  {
    && Captures(field).Some?
    && var caps := Captures(field).value;
    && Abs(x) == DecimalValue(caps.0)
    && (caps.1 == '-' ==> x <= 0)
    && (caps.1 == '+' ==> x >= 0)
  }

  /** The loop body of parse_gfa_path for one field; None when the field has no match. */
  method ParseField(field: string) returns (r: Option<int>)
    ensures r.None? <==> Captures(field).None?
    ensures r.Some? ==> ParsedField(field, r.value)
  {
    var caps := Captures(field);
    if caps.None? {
      return None;
    }
    var (digits, orientation) := caps.value;
    var magnitude: int := DecimalValue(digits);
    if orientation == '+' {
      r := Some(magnitude);
    } else {
      r := Some(-magnitude);
    }
  }

  // ---------------------------------------------------------------------------------------
  // Writing a path line, the partner of parsing it

  function DigitChar(d: nat): (c: char)
    requires d < 10
    ensures IsDigit(c) && DigitValue(c) == d
  {
    (('0' as int) + d) as char
  }

  /** The decimal digits of n, without leading zeros. */
  function Decimal(n: nat): (s: string)
    ensures |s| > 0 && AllDigits(s)
  {
    if n < 10 then [DigitChar(n)] else Decimal(n / 10) + [DigitChar(n % 10)]
  }

  lemma {:induction false} DecimalValueOfDecimal(n: nat)
    ensures DecimalValue(Decimal(n)) == n
  {
    if n >= 10 {
      DecimalValueOfDecimal(n / 10);
      var s := Decimal(n / 10) + [DigitChar(n % 10)];
      assert s[..|s| - 1] == Decimal(n / 10);
    }
  }

  /** A signed segment ID as a GFA path step: "12+" for 12, "12-" for -12. */
  function FormatSegment(x: int): string
  {
    Decimal(Abs(x)) + [if x < 0 then '-' else '+']
  }

  function FormatPath(path: seq<int>): string
    requires |path| >= 1
  {
    Join(seq(|path|, k requires 0 <= k < |path| => FormatSegment(path[k])), ',')
  }

  lemma {:induction false} DigitRunOfDigits(f: string, p: nat, q: nat)
    requires p <= q <= |f|
    requires AllDigits(f[p..q])
    requires q < |f| ==> !IsDigit(f[q])
    ensures DigitRun(f, p) == q - p
    decreases q - p
  {
    if p < q {
      assert IsDigit(f[p..q][0]);
      assert f[p + 1..q] == f[p..q][1..];
      DigitRunOfDigits(f, p + 1, q);
    }
  }

  /** The match in a formatted step is the whole step. */
  lemma CapturesOfFormat(x: int)
    ensures Captures(FormatSegment(x)) == Some((Decimal(Abs(x)), if x < 0 then '-' else '+'))
  {
    var f := FormatSegment(x);
    var d := Decimal(Abs(x));
    assert f[0..|d|] == d;
    DigitRunOfDigits(f, 0, |d|);
    assert MatchesAt(f, 0);
  }

  /** Parsing a formatted path gives the path back: the steps are the fields, and each
      field's captures give back the orientation and the magnitude of its ID. */
  lemma FormatPathFields(path: seq<int>)
    requires |path| >= 1
    ensures var fields := Split(FormatPath(path), ',');
      && |fields| == |path|
      && forall k :: 0 <= k < |path| ==>
           Captures(fields[k]) == Some((Decimal(Abs(path[k])), if path[k] < 0 then '-' else '+'))
           && DecimalValue(Captures(fields[k]).value.0) == Abs(path[k])
  {
    var steps := seq(|path|, k requires 0 <= k < |path| => FormatSegment(path[k]));
    forall k | 0 <= k < |steps|
      ensures ',' !in steps[k]
    {
      var d := Decimal(Abs(path[k]));
      assert steps[k] == d + [if path[k] < 0 then '-' else '+'];
      forall t | 0 <= t < |steps[k]|
        ensures steps[k][t] != ','
      {
        if t < |d| {
          assert steps[k][t] == d[t] && IsDigit(d[t]);
        }
      }
    }
    SplitJoin(steps, ',');
    forall k | 0 <= k < |path|
      ensures DecimalValue(Decimal(Abs(path[k]))) == Abs(path[k])
      ensures Captures(steps[k]) == Some((Decimal(Abs(path[k])), if path[k] < 0 then '-' else '+'))
    {
      DecimalValueOfDecimal(Abs(path[k]));
      CapturesOfFormat(path[k]);
    }
  }

  /** Parsing the output of FormatPath gives back the path it was written from. */
  method ParseFormattedPath(path: seq<int>) returns (r: Option<seq<int>>)
    requires |path| >= 1
    ensures r == Some(path)
  {
    FormatPathFields(path);
    r := ParseGfaPath(FormatPath(path));
    var fields := Split(FormatPath(path), ',');
    assert r.Some? && |r.value| == |path|;
    forall k | 0 <= k < |path|
      ensures r.value[k] == path[k]
    {
      var caps := Captures(fields[k]).value;
      assert caps.0 == Decimal(Abs(path[k])) && caps.1 == if path[k] < 0 then '-' else '+';
      assert Abs(r.value[k]) == Abs(path[k]);
    }
    assert r.value == path;
  }

  /** The path of the documentation example, written as a path line. */
  lemma FormatExample()
    ensures FormatPath([-1, 2, -3, 235]) == "1-,2+,3-,235+"
  {
    var good := [-1, 2, -3, 235];
    SegmentExamples();
    var steps := seq(|good|, k requires 0 <= k < |good| => FormatSegment(good[k]));
    assert steps[0] == "1-" && steps[1] == "2+" && steps[2] == "3-" && steps[3] == "235+";
    assert steps == ["1-", "2+", "3-", "235+"];
    var s3: seq<string> := ["235+"];
    var s2: seq<string> := ["3-", "235+"];
    var s1: seq<string> := ["2+", "3-", "235+"];
    assert s2[1..] == s3 && s1[1..] == s2 && steps[1..] == s1;
    assert Join(s3, ',') == "235+";
    assert Join(s2, ',') == "3-,235+";
    assert Join(s1, ',') == "2+,3-,235+";
  }

  /** The fields of the documentation example. */
  lemma SegmentExamples()
    ensures FormatSegment(-1) == "1-" && FormatSegment(2) == "2+" && FormatSegment(-3) == "3-"
    ensures FormatSegment(235) == "235+"
  {
    assert Decimal(1) == "1" && Decimal(2) == "2" && Decimal(3) == "3";
    assert Decimal(235) == "235" by {
      assert Decimal(23) == "23";
    }
  }

  /** The last field of the test path that must panic has digits but no orientation. */
  lemma UnorientedFieldExample()
    ensures Split("1-,2+,3-,235", ',')[3] == "235"
    ensures !AllFieldsMatch(Split("1-,2+,3-,235", ','))
  {
    assert "1-,2+,3-,235" == Join(["1-", "2+", "3-", "235"], ',');
    SplitJoin(["1-", "2+", "3-", "235"], ',');
    DigitRunOfDigits("235", 0, 3);
    assert !MatchesAt("235", 0);
    assert !MatchesAt("235", 1);
    DigitRunOfDigits("235", 2, 3);
    assert !MatchesAt("235", 2);
    assert Captures("235") == None;
  }

  /** The documentation example parses to its path, and the test path fails. */
  method ParseExamples()
  {
    FormatExample();
    var r := ParseFormattedPath([-1, 2, -3, 235]);
    assert r == Some([-1, 2, -3, 235]);
    UnorientedFieldExample();
    var b := ParseGfaPath("1-,2+,3-,235");
    assert b == None;
  }

  // ---------------------------------------------------------------------------------------
  // lookup_base_positions

  /** The number of bases in the first p steps of the path. */
  function PrefixLength(path: seq<int>, lengths: map<int, int>, p: nat): int
    requires p <= |path| && LengthsKnown(path, lengths)
  {
    if p == 0 then 0 else PrefixLength(path, lengths, p - 1) + lengths[Abs(path[p - 1])]
  }

  /** The last index before t at which segment `segment` (either orientation) occurs. */
  function LastIndexBefore(path: seq<int>, segment: int, t: nat): (r: Option<nat>)
    requires t <= |path|
    ensures r.Some? ==> r.value < t && Abs(path[r.value]) == segment
    ensures r.Some? ==> forall k :: r.value < k < t ==> Abs(path[k]) != segment
    ensures r.None? ==> forall k :: 0 <= k < t ==> Abs(path[k]) != segment
  {
    if t == 0 then None
    else if Abs(path[t - 1]) == segment then Some(t - 1)
    else LastIndexBefore(path, segment, t - 1)
  }

  /** The 1-based inclusive base interval of the last occurrence of `segment` among the first t
      steps, or the sentinel (-1, -1) when it does not occur there. */
  function IntervalBefore(path: seq<int>, lengths: map<int, int>, segment: int, t: nat): (int, int)
    requires t <= |path| && LengthsKnown(path, lengths)
  {
    match LastIndexBefore(path, segment, t)
    case None => (-1, -1)
    case Some(p) =>
      (PrefixLength(path, lengths, p) + 1, PrefixLength(path, lengths, p) + lengths[Abs(path[p])])
  }

  function Interval(path: seq<int>, lengths: map<int, int>, segment: int): (int, int)
    requires LengthsKnown(path, lengths)
  {
    IntervalBefore(path, lengths, segment, |path|)
  }

  /** What lookup_base_positions computes, in closed form. */
  function BasePositions(path: seq<int>, lengths: map<int, int>, segments: seq<int>): map<int, (int, int)>
    requires LengthsKnown(path, lengths)
  {
    map s | s in Segments(segments) :: Interval(path, lengths, s)
  }

  lemma SegmentsSnoc(s: seq<int>, x: int)
    ensures Segments(s + [x]) == Segments(s) + {Abs(x)}
  {
    assert forall y :: y in s + [x] <==> y in s || y == x;
  }

  /** One more step of the path: the interval moves to that step when it is the segment. */
  lemma IntervalStep(path: seq<int>, lengths: map<int, int>, segment: int, t: nat)
    requires t < |path| && LengthsKnown(path, lengths)
    ensures IntervalBefore(path, lengths, segment, t + 1) ==
      if Abs(path[t]) == segment then
        (PrefixLength(path, lengths, t) + 1, PrefixLength(path, lengths, t) + lengths[segment])
      else IntervalBefore(path, lengths, segment, t)
  {
  }

  /** The first loop of `lookup_base_positions`: every requested segment mapped to the
      sentinel (-1, -1). */
  method SentinelPositions(segments: seq<int>) returns (positions: map<int, (int, int)>)
    ensures positions.Keys == Segments(segments)
    ensures forall s :: s in positions ==> positions[s] == (-1, -1)
  {
    positions := map[];
    for t := 0 to |segments|
      invariant positions.Keys == Segments(segments[..t])
      invariant forall s :: s in positions ==> positions[s] == (-1, -1)
    {
      assert segments[..t + 1] == segments[..t] + [segments[t]];
      SegmentsSnoc(segments[..t], segments[t]);
      positions := positions[Abs(segments[t]) := (-1, -1)];
    }
    assert segments[..|segments|] == segments;
  }

  /** `lookup_base_positions`. A segment with no length entry makes the source panic; here
      that is excluded by the precondition. */
  method LookupBasePositions(path: seq<int>, lengths: map<int, int>, segments: seq<int>)
    returns (positions: map<int, (int, int)>)
    requires LengthsKnown(path, lengths)
    ensures positions == BasePositions(path, lengths, segments)
  {
    positions := SentinelPositions(segments);
    var currentPosition := 0;
    for t := 0 to |path|
      invariant PositionsAt(path, lengths, segments, positions, currentPosition, t)
    {
      positions, currentPosition := PositionStep(path, lengths, segments, positions, currentPosition, t);
    }
    PositionsComplete(path, lengths, segments, positions, currentPosition);
  }

  /** After the first t steps of the second loop: the keys are the requested segments, the
      running position is the prefix length and each key holds its interval so far. */
  ghost predicate PositionsAt(path: seq<int>, lengths: map<int, int>, segments: seq<int>,
                              positions: map<int, (int, int)>, currentPosition: int, t: nat)
  {
    && t <= |path| && LengthsKnown(path, lengths)
    && positions.Keys == Segments(segments)
    && currentPosition == PrefixLength(path, lengths, t)
    && forall s :: s in positions ==> positions[s] == IntervalBefore(path, lengths, s, t)
  }

  /** One step of the second loop: a requested segment moves to the interval of step t. */
  method PositionStep(path: seq<int>, lengths: map<int, int>, ghost segments: seq<int>,
                      positions: map<int, (int, int)>, currentPosition: int, t: nat)
    returns (positions': map<int, (int, int)>, currentPosition': int)
    requires t < |path| && PositionsAt(path, lengths, segments, positions, currentPosition, t)
    ensures PositionsAt(path, lengths, segments, positions', currentPosition', t + 1)
  {
    var segment := Abs(path[t]);
    var thisSegmentLength := lengths[segment];
    forall s | s in positions
      ensures IntervalBefore(path, lengths, s, t + 1) ==
        if segment == s then (currentPosition + 1, currentPosition + thisSegmentLength)
        else IntervalBefore(path, lengths, s, t)
    {
      IntervalStep(path, lengths, s, t);
    }
    positions' := positions;
    if segment in positions {
      positions' := positions[segment := (currentPosition + 1, currentPosition + thisSegmentLength)];
    }
    currentPosition' := currentPosition + thisSegmentLength;
  }

  /** After the whole path, the map is the closed form. */
  lemma PositionsComplete(path: seq<int>, lengths: map<int, int>, segments: seq<int>,
                          positions: map<int, (int, int)>, currentPosition: int)
    requires PositionsAt(path, lengths, segments, positions, currentPosition, |path|)
    ensures positions == BasePositions(path, lengths, segments)
  {
    var m := BasePositions(path, lengths, segments);
    assert positions.Keys == m.Keys;
    forall s | s in positions
      ensures positions[s] == m[s]
    {
    }
  }

  /** The keys are exactly the requested segments with their orientation dropped. */
  lemma BasePositionsKeys(path: seq<int>, lengths: map<int, int>, segments: seq<int>)
    requires LengthsKnown(path, lengths)
    ensures forall s :: s in BasePositions(path, lengths, segments) <==> exists x :: x in segments && s == Abs(x)
  {
  }

  /** A requested segment absent from the path keeps the sentinel; one present gets the
      interval of its last occurrence: it starts one base after everything before it and
      spans exactly its own length. */
  lemma IntervalOfSegment(path: seq<int>, lengths: map<int, int>, segment: int)
    requires LengthsKnown(path, lengths)
    ensures (forall k :: 0 <= k < |path| ==> Abs(path[k]) != segment) ==> Interval(path, lengths, segment) == (-1, -1)
    ensures forall p :: (0 <= p < |path| && Abs(path[p]) == segment
                         && (forall k :: p < k < |path| ==> Abs(path[k]) != segment)) ==>
        Interval(path, lengths, segment).0 == 1 + PrefixLength(path, lengths, p)
        && Interval(path, lengths, segment).1 - Interval(path, lengths, segment).0 + 1 == lengths[segment]
  {
  }

  lemma {:induction false} PrefixLengthMonotone(path: seq<int>, lengths: map<int, int>, p: nat, q: nat)
    requires p <= q <= |path| && LengthsKnown(path, lengths)
    requires forall s :: s in lengths ==> lengths[s] > 0
    ensures PrefixLength(path, lengths, p) + (if p < q then lengths[Abs(path[p])] else 0) <= PrefixLength(path, lengths, q)
    decreases q - p
  {
    if p < q {
      PrefixLengthMonotone(path, lengths, p + 1, q);
    }
  }

  /** With positive lengths, a segment whose last occurrence comes earlier on the path lies
      entirely before the other one. */
  lemma IntervalsOrdered(path: seq<int>, lengths: map<int, int>, a: int, b: int, p: nat, q: nat)
    requires LengthsKnown(path, lengths)
    requires forall s :: s in lengths ==> lengths[s] > 0
    requires p < q < |path|
    requires LastIndexBefore(path, a, |path|) == Some(p) && LastIndexBefore(path, b, |path|) == Some(q)
    ensures 1 <= Interval(path, lengths, a).0 <= Interval(path, lengths, a).1 < Interval(path, lengths, b).0
  {
    PrefixLengthMonotone(path, lengths, 0, p);
    PrefixLengthMonotone(path, lengths, p, q);
  }

  /** The example of the documentation comment: segment 1 covers bases 1-100 and segment 7
      bases 601-700. */
  lemma LookupExample()
    ensures var lengths := map[1 := 100, 2 := 100, 3 := 100, 4 := 100, 5 := 100, 6 := 100, 7 := 100];
      && LengthsKnown([1, -2, 3, 4, 5, -6, -7], lengths)
      && 1 in BasePositions([1, -2, 3, 4, 5, -6, -7], lengths, [1, 3, 7])
      && 7 in BasePositions([1, -2, 3, 4, 5, -6, -7], lengths, [1, 3, 7])
      && BasePositions([1, -2, 3, 4, 5, -6, -7], lengths, [1, 3, 7])[1] == (1, 100)
      && BasePositions([1, -2, 3, 4, 5, -6, -7], lengths, [1, 3, 7])[7] == (601, 700)
  {
    var lengths := map[1 := 100, 2 := 100, 3 := 100, 4 := 100, 5 := 100, 6 := 100, 7 := 100];
    assert HundredEach(lengths);
    LookupExampleFor([1, -2, 3, 4, 5, -6, -7], lengths);
  }

  /** Segments 1 to 7 are each 100 bases long. */
  predicate HundredEach(lengths: map<int, int>)
  {
    forall s :: 1 <= s <= 7 ==> s in lengths && lengths[s] == 100
  }

  lemma LookupExampleFor(path: seq<int>, lengths: map<int, int>)
    requires path == [1, -2, 3, 4, 5, -6, -7] && HundredEach(lengths)
    ensures LengthsKnown(path, lengths)
    ensures 1 in BasePositions(path, lengths, [1, 3, 7]) && 7 in BasePositions(path, lengths, [1, 3, 7])
    ensures BasePositions(path, lengths, [1, 3, 7])[1] == (1, 100)
    ensures BasePositions(path, lengths, [1, 3, 7])[7] == (601, 700)
  {
    assert LengthsKnown(path, lengths) by {
      assert forall k :: 0 <= k < |path| ==> 1 <= Abs(path[k]) <= 7;
    }
    assert Segments([1, 3, 7]) == {1, 3, 7} by {
      assert Abs(1) == 1 && Abs(3) == 3 && Abs(7) == 7;
    }
    assert LastIndexBefore(path, 1, 1) == Some(0);
    assert LastIndexBefore(path, 1, 3) == Some(0);
    assert LastIndexBefore(path, 1, 5) == Some(0);
    assert LastIndexBefore(path, 1, 7) == Some(0);
    assert LastIndexBefore(path, 7, 7) == Some(6);
    assert PrefixLength(path, lengths, 1) == 100;
    assert PrefixLength(path, lengths, 2) == 200;
    assert PrefixLength(path, lengths, 3) == 300;
    assert PrefixLength(path, lengths, 4) == 400;
    assert PrefixLength(path, lengths, 5) == 500;
    assert PrefixLength(path, lengths, 6) == 600;
  }
}
