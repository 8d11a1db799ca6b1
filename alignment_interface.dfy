/** The driver over a whole graph: every selected query path is aligned to the reference
    path, the aligned reference stretches are turned into base intervals, and the intervals
    of all queries are collated into one table of 0/1 calls. */
module AlignmentInterface {
  import opened Common
  import Gfa
  import Align

  /** One reported inversion: the query path and the 1-based first and last base of the
      inverted stretch of the reference. */
  datatype Inversion = Inversion(pathKey: string, startPosition: int, endPosition: int)

  /** The parameters of align_paths that the driver passes on. */
  datatype AlignmentOptions = AlignmentOptions(maxHighmemPathLength: nat, maxLowmemDrop: nat, maxPathLength: nat)

  // ---------------------------------------------------------------------------------------
  // Query selection

  /** The PanSN assembly part of a path name: the text before the first '#' (the whole name
      when there is none). */
  function AssemblyPrefix(key: string): (prefix: string)
    ensures '#' !in prefix
    ensures prefix <= key
    ensures '#' !in key ==> prefix == key
    ensures |prefix| < |key| ==> key[|prefix|] == '#'
  {
    if key == [] || key[0] == '#' then [] else [key[0]] + AssemblyPrefix(key[1..])
  }

  /** `split("#").nth(0)` is the assembly prefix. */
  lemma {:induction false} AssemblyPrefixIsFirstField(key: string)
    ensures Gfa.Split(key, '#')[0] == AssemblyPrefix(key)
  {
    if key != [] {
      AssemblyPrefixIsFirstField(key[1..]);
    }
  }

  /** The exclusion list names the path itself or its assembly. */
  predicate Excluded(key: string, pathsToExclude: seq<string>)
  {
    exists x :: x in pathsToExclude && (x == key || x == AssemblyPrefix(key))
  }

  /** A path is aligned when it is not the reference and is not excluded. */
  predicate Selected(key: string, refPathKey: string, pathsToExclude: seq<string>)
  {
    key != refPathKey && !Excluded(key, pathsToExclude)
  }

  /** The selected path names, in the given order. */
  function SelectedQueries(pathNames: seq<string>, refPathKey: string, pathsToExclude: seq<string>): (q: seq<string>)
    ensures forall x :: x in q <==> x in pathNames && Selected(x, refPathKey, pathsToExclude)
    ensures |q| <= |pathNames|
  {
    if pathNames == [] then []
    else
      var rest := SelectedQueries(pathNames[1..], refPathKey, pathsToExclude);
      assert forall x :: x in pathNames <==> x == pathNames[0] || x in pathNames[1..];
      if Selected(pathNames[0], refPathKey, pathsToExclude) then [pathNames[0]] + rest else rest
  }

  /** The exclusion test of the source, as its loop over the exclusion list computes it. */
  method IsExcluded(key: string, pathsToExclude: seq<string>) returns (excluded: bool)
    ensures excluded <==> Excluded(key, pathsToExclude)
  {
    var prefix := AssemblyPrefix(key);
    excluded := false;
    for t := 0 to |pathsToExclude|
      invariant excluded <==> Excluded(key, pathsToExclude[..t])
    {
      assert forall x :: x in pathsToExclude[..t + 1] <==> x in pathsToExclude[..t] || x == pathsToExclude[t];
      if pathsToExclude[t] == key || pathsToExclude[t] == prefix {
        assert pathsToExclude[t] in pathsToExclude[..t + 1];
        excluded := true;
      } else if Excluded(key, pathsToExclude[..t + 1]) {
        var x :| x in pathsToExclude[..t + 1] && (x == key || x == AssemblyPrefix(key));
        assert x in pathsToExclude[..t];
      }
    }
    assert pathsToExclude[..|pathsToExclude|] == pathsToExclude;
  }

  // ---------------------------------------------------------------------------------------
  // From alignments to base intervals

  /** The inversions reported for one query: for each alignment, the first base of the first
      aligned reference segment and the last base of the last one. */
  function Inversions(key: string, refPath: seq<int>, lengths: map<int, int>, alignments: seq<(seq<int>, seq<int>)>): (r: seq<Inversion>)
    requires LengthsKnown(refPath, lengths)
    requires forall k :: 0 <= k < |alignments| ==> alignments[k].0 != []
    ensures |r| == |alignments|
    ensures forall k :: 0 <= k < |r| ==> r[k].pathKey == key
  {
    seq(|alignments|, k requires 0 <= k < |alignments| =>
      var first := alignments[k].0[0];
      var last := alignments[k].0[|alignments[k].0| - 1];
      Inversion(key, Gfa.Interval(refPath, lengths, Abs(first)).0, Gfa.Interval(refPath, lengths, Abs(last)).1))
  }

  /** Every aligned reference segment lies on the reference path, so no reported position is
      a sentinel: the start is one base after everything before the last occurrence of the
      first aligned segment, and the end is the last base of the last occurrence of the last. */
  lemma InversionsOnPath(key: string, refPath: seq<int>, lengths: map<int, int>, alignments: seq<(seq<int>, seq<int>)>)
    requires LengthsKnown(refPath, lengths)
    requires forall k :: 0 <= k < |alignments| ==> alignments[k].0 != [] && IsSubsequence(alignments[k].0, refPath)
    ensures forall k :: 0 <= k < |alignments| ==>
      var a := alignments[k].0;
      var inv := Inversions(key, refPath, lengths, alignments)[k];
      var p := Gfa.LastIndexBefore(refPath, Abs(a[0]), |refPath|);
      var q := Gfa.LastIndexBefore(refPath, Abs(a[|a| - 1]), |refPath|);
      && p.Some? && q.Some?
      && inv.startPosition == Gfa.PrefixLength(refPath, lengths, p.value) + 1
      && inv.endPosition == Gfa.PrefixLength(refPath, lengths, q.value) + lengths[Abs(a[|a| - 1])]
  {
    forall k | 0 <= k < |alignments|
      ensures var a := alignments[k].0;
        && Gfa.LastIndexBefore(refPath, Abs(a[0]), |refPath|).Some?
        && Gfa.LastIndexBefore(refPath, Abs(a[|a| - 1]), |refPath|).Some?
    {
      var a := alignments[k].0;
      SubsequenceElements(a, refPath);
      assert a[0] in a && a[|a| - 1] in a;
      var p :| 0 <= p < |refPath| && refPath[p] == a[0];
      var q :| 0 <= q < |refPath| && refPath[q] == a[|a| - 1];
      assert Abs(refPath[p]) == Abs(a[0]) && Abs(refPath[q]) == Abs(a[|a| - 1]);
    }
  }

  /** The loops of align_all_queries that turn one query's alignments into inversions: the
      first and last aligned reference segment of every alignment are looked up together on
      the reference path, then each alignment reports the start of its first segment and the
      end of its last. */
  method CollectInversions(key: string, refPath: seq<int>, lengths: map<int, int>, alignments: seq<(seq<int>, seq<int>)>)
    returns (inversions: seq<Inversion>)
    requires LengthsKnown(refPath, lengths)
    requires forall k :: 0 <= k < |alignments| ==> alignments[k].0 != []
    ensures inversions == Inversions(key, refPath, lengths, alignments)
  {
    var segmentsToLookup: seq<int> := [];
    for t := 0 to |alignments|
      invariant forall k :: 0 <= k < t ==>
        alignments[k].0[0] in segmentsToLookup && alignments[k].0[|alignments[k].0| - 1] in segmentsToLookup
    {
      var a := alignments[t].0;
      segmentsToLookup := segmentsToLookup + [a[0], a[|a| - 1]];
    }
    var basePositions := Gfa.LookupBasePositions(refPath, lengths, segmentsToLookup);
    inversions := [];
    for t := 0 to |alignments|
      invariant |inversions| == t
      invariant forall k :: 0 <= k < t ==> inversions[k] == Inversions(key, refPath, lengths, alignments)[k]
    {
      var a := alignments[t].0;
      assert Abs(a[0]) in Segments(segmentsToLookup) && Abs(a[|a| - 1]) in Segments(segmentsToLookup);
      var startPosition := basePositions[Abs(a[0])].0;
      var endPosition := basePositions[Abs(a[|a| - 1])].1;
      inversions := inversions + [Inversion(key, startPosition, endPosition)];
    }
  }

  /** The lookups as the driver writes them: the first and last path1 ROW of the alignment
      record are used as segment IDs. */
  function InversionsAsWritten(key: string, refPath: seq<int>, lengths: map<int, int>, alignments: seq<Alignment>): (r: seq<Inversion>)
    requires LengthsKnown(refPath, lengths)
    ensures |r| == |alignments|
  {
    seq(|alignments|, k requires 0 <= k < |alignments| =>
      Inversion(key,
        Gfa.Interval(refPath, lengths, Abs(alignments[k].path1StartIndex)).0,
        Gfa.Interval(refPath, lengths, Abs(alignments[k].path1EndIndex)).1))
  }

  /** Reference [1, 2, 3, 4] against query [1, -3, -2, 4], all segments 100 bases long: the
      only subproblem is [2, 3] against [2, 3], aligned from row 0 to row 1. Read as segment
      IDs, row 0 is not on the path (the sentinel start -1) and row 1 is segment 1 (bases
      1-100), while the inverted stretch, segments 2 and 3, covers bases 101-300. */
  lemma AsWrittenReportsRows()
    ensures var lengths := map[1 := 100, 2 := 100, 3 := 100, 4 := 100];
      && LengthsKnown([1, 2, 3, 4], lengths)
      && InversionsAsWritten("q", [1, 2, 3, 4], lengths, [Alignment([2, 3], [-3, -2], 0, 1)]) == [Inversion("q", -1, 100)]
      && Inversions("q", [1, 2, 3, 4], lengths, [([2, 3], [-3, -2])]) == [Inversion("q", 101, 300)]
  {
    var lengths := map[1 := 100, 2 := 100, 3 := 100, 4 := 100];
    var path := [1, 2, 3, 4];
    assert LengthsKnown(path, lengths) by {
      assert forall k :: 0 <= k < |path| ==> 1 <= Abs(path[k]) <= 4;
    }
    assert Gfa.LastIndexBefore(path, 0, 4) == None;
    assert Gfa.LastIndexBefore(path, 1, 4) == Some(0);
    assert Gfa.LastIndexBefore(path, 2, 4) == Some(1);
    assert Gfa.LastIndexBefore(path, 3, 4) == Some(2);
    assert Gfa.PrefixLength(path, lengths, 1) == 100;
    assert Gfa.PrefixLength(path, lengths, 2) == 200;
  }

  // ---------------------------------------------------------------------------------------
  // align_all_queries

  /** The inversions of all queries, in query order. */
  function AllInversions(keys: seq<string>, refPath: seq<int>, lengths: map<int, int>,
                         byQuery: seq<seq<(seq<int>, seq<int>)>>): (r: seq<Inversion>)
    requires |keys| == |byQuery| && LengthsKnown(refPath, lengths)
    requires forall q, k :: 0 <= q < |byQuery| && 0 <= k < |byQuery[q]| ==> byQuery[q][k].0 != []
    ensures forall inv :: inv in r ==> inv.pathKey in keys
  {
    if keys == [] then []
    else
      var n := |keys| - 1;
      var rest := AllInversions(keys[..n], refPath, lengths, byQuery[..n]);
      var last := Inversions(keys[n], refPath, lengths, byQuery[n]);
      assert forall inv :: inv in last ==> inv.pathKey == keys[n];
      rest + last
  }

  /** The alignments found for each aligned query: what align_paths returns for the reference
      and that query, disjoint and placed as it promises. */
  ghost predicate QueryAlignments(keys: seq<string>, paths: map<string, seq<int>>, refPath: seq<int>,
                                  lengths: map<int, int>, options: AlignmentOptions,
                                  byQuery: seq<seq<(seq<int>, seq<int>)>>)
  {
    && |keys| == |byQuery|
    && forall q :: 0 <= q < |byQuery| ==>
         && keys[q] in paths && Align.PairwiseDisjoint(byQuery[q])
         && Align.AlignPathsResult(refPath, paths[keys[q]], lengths, options.maxHighmemPathLength,
                                   options.maxLowmemDrop, byQuery[q])
         && forall k :: 0 <= k < |byQuery[q]| ==> Align.Placed(byQuery[q][k], refPath, paths[keys[q]])
  }

  lemma SelectedQueriesSnoc(pathNames: seq<string>, x: string, refPathKey: string, pathsToExclude: seq<string>)
    ensures SelectedQueries(pathNames + [x], refPathKey, pathsToExclude) ==
      SelectedQueries(pathNames, refPathKey, pathsToExclude) + if Selected(x, refPathKey, pathsToExclude) then [x] else []
  {
    if pathNames != [] {
      assert (pathNames + [x])[1..] == pathNames[1..] + [x];
      SelectedQueriesSnoc(pathNames[1..], x, refPathKey, pathsToExclude);
    }
  }

  /** The name pathNames[t] is selected and fails with `e`: it has no path, or align_paths on the
      reference and its path fails with `e`. */
  ghost predicate FailsAt(lengths: map<int, int>, paths: map<string, seq<int>>, pathNames: seq<string>,
                          pathsToExclude: seq<string>, refPathKey: string, options: AlignmentOptions, t: nat, e: InversionError)
    requires refPathKey in paths && t < |pathNames|
  {
    && Selected(pathNames[t], refPathKey, pathsToExclude)
    && if pathNames[t] in paths
       then Align.AlignPathsFailure(paths[refPathKey], paths[pathNames[t]], lengths, options.maxHighmemPathLength,
                                    options.maxLowmemDrop, e)
       else e == PathNotFound(pathNames[t])
  }

  /** The query loop stops with `e` at the name pathNames[t], every name before it handled. */
  ghost predicate FirstFailure(lengths: map<int, int>, paths: map<string, seq<int>>, pathNames: seq<string>,
                               pathsToExclude: seq<string>, refPathKey: string, options: AlignmentOptions, e: InversionError)
    requires refPathKey in paths && LengthsKnown(paths[refPathKey], lengths)
  {
    exists t: nat, keys, inversions, byQuery ::
      && t < |pathNames|
      && QueriesDone(lengths, paths, pathNames, pathsToExclude, refPathKey, options, t, keys, inversions, byQuery)
      && FailsAt(lengths, paths, pathNames, pathsToExclude, refPathKey, options, t, e)
  }

  lemma FirstFailureAt(lengths: map<int, int>, paths: map<string, seq<int>>, pathNames: seq<string>,
                       pathsToExclude: seq<string>, refPathKey: string, options: AlignmentOptions, e: InversionError,
                       t: nat, keys: seq<string>, inversions: seq<Inversion>, byQuery: seq<seq<(seq<int>, seq<int>)>>)
    requires refPathKey in paths && LengthsKnown(paths[refPathKey], lengths) && t < |pathNames|
    requires QueriesDone(lengths, paths, pathNames, pathsToExclude, refPathKey, options, t, keys, inversions, byQuery)
    requires FailsAt(lengths, paths, pathNames, pathsToExclude, refPathKey, options, t, e)
    ensures FirstFailure(lengths, paths, pathNames, pathsToExclude, refPathKey, options, e)
  {
  }

  /** One query of align_all_queries: align it to the reference and report its inversions. */
  method AlignQuery(key: string, refPath: seq<int>, queryPath: seq<int>, lengths: map<int, int>, options: AlignmentOptions)
    returns (r: Result<seq<Inversion>, InversionError>, ghost alignments: seq<(seq<int>, seq<int>)>)
    requires LengthsKnown(refPath, lengths)
    ensures r.Success? ==>
      && Align.AlignPathsResult(refPath, queryPath, lengths, options.maxHighmemPathLength, options.maxLowmemDrop, alignments)
      && Align.PairwiseDisjoint(alignments)
      && (forall k :: 0 <= k < |alignments| ==> Align.Placed(alignments[k], refPath, queryPath))
      && r.value == Inversions(key, refPath, lengths, alignments)
    ensures r.Failure? ==>
      Align.AlignPathsFailure(refPath, queryPath, lengths, options.maxHighmemPathLength, options.maxLowmemDrop, r.error)
    ensures LengthsKnown(queryPath, lengths) ==> r.Success?
    ensures r.Failure? ==> r.error.SegmentNotFound?
  {
    var res := Align.AlignPaths(refPath, queryPath, lengths, options.maxHighmemPathLength, options.maxLowmemDrop);
    if res.Failure? {
      return Failure(res.error), [];
    }
    alignments := res.value;
    var inversions := CollectInversions(key, refPath, lengths, res.value);
    r := Success(inversions);
  }

  /** `align_all_queries`: the reference must be present; every selected query, in
      `pathNames` order, must be present and is aligned to the reference, and each of its
      alignments is reported as an inversion. The second result lists the aligned queries. */
  method AlignAllQueries(lengths: map<int, int>, paths: map<string, seq<int>>, pathNames: seq<string>,
                         pathsToExclude: seq<string>, refPathKey: string, options: AlignmentOptions)
    returns (r: Result<(seq<Inversion>, seq<string>), InversionError>, ghost byQuery: seq<seq<(seq<int>, seq<int>)>>)
    requires refPathKey in paths ==> LengthsKnown(paths[refPathKey], lengths)
    ensures refPathKey !in paths ==> r == Failure(PathNotFound(refPathKey))
    ensures r.Success? ==>
      && refPathKey in paths
      && r.value.1 == SelectedQueries(pathNames, refPathKey, pathsToExclude)
      && QueryAlignments(r.value.1, paths, paths[refPathKey], lengths, options, byQuery)
      && r.value.0 == AllInversions(r.value.1, paths[refPathKey], lengths, byQuery)
    ensures r.Failure? && refPathKey in paths ==>
      FirstFailure(lengths, paths, pathNames, pathsToExclude, refPathKey, options, r.error)
    ensures refPathKey in paths
      && (forall x :: x in pathNames && Selected(x, refPathKey, pathsToExclude) ==>
            x in paths && LengthsKnown(paths[x], lengths))
      ==> r.Success?
  {
    byQuery := [];
    if refPathKey !in paths {
      return Failure(PathNotFound(refPathKey)), byQuery;
    }
    var queryPathKeys: seq<string> := [];
    var inversions: seq<Inversion> := [];
    for t := 0 to |pathNames|
      invariant QueriesDone(lengths, paths, pathNames, pathsToExclude, refPathKey, options, t,
                            queryPathKeys, inversions, byQuery)
    {
      var step;
      ghost var done := byQuery;
      step, byQuery := AlignNextQuery(lengths, paths, pathNames, pathsToExclude, refPathKey, options, t,
                                      queryPathKeys, inversions, byQuery);
      if step.Failure? {
        FirstFailureAt(lengths, paths, pathNames, pathsToExclude, refPathKey, options, step.error,
                       t, queryPathKeys, inversions, done);
        return Failure(step.error), byQuery;
      }
      inversions, queryPathKeys := step.value.0, step.value.1;
    }
    assert pathNames[..|pathNames|] == pathNames;
    r := Success((inversions, queryPathKeys));
  }

  /** The state of the loop of align_all_queries after pathNames[..t]: the selected queries so
      far, what align_paths returned for each, and their inversions in order. */
  ghost predicate QueriesDone(lengths: map<int, int>, paths: map<string, seq<int>>, pathNames: seq<string>,
                              pathsToExclude: seq<string>, refPathKey: string, options: AlignmentOptions, t: nat,
                              keys: seq<string>, inversions: seq<Inversion>, byQuery: seq<seq<(seq<int>, seq<int>)>>)
    requires refPathKey in paths && LengthsKnown(paths[refPathKey], lengths) && t <= |pathNames|
  {
    && keys == SelectedQueries(pathNames[..t], refPathKey, pathsToExclude)
    && QueryAlignments(keys, paths, paths[refPathKey], lengths, options, byQuery)
    && inversions == AllInversions(keys, paths[refPathKey], lengths, byQuery)
  }

  /** One turn of the loop of align_all_queries: pathNames[t] is skipped when it is not
      selected, its absence is an error when it is, and otherwise its inversions are appended. */
  method AlignNextQuery(lengths: map<int, int>, paths: map<string, seq<int>>, pathNames: seq<string>,
                        pathsToExclude: seq<string>, refPathKey: string, options: AlignmentOptions, t: nat,
                        keys: seq<string>, inversions: seq<Inversion>, ghost byQuery: seq<seq<(seq<int>, seq<int>)>>)
    returns (r: Result<(seq<Inversion>, seq<string>), InversionError>, ghost byQuery': seq<seq<(seq<int>, seq<int>)>>)
    requires refPathKey in paths && LengthsKnown(paths[refPathKey], lengths) && t < |pathNames|
    requires QueriesDone(lengths, paths, pathNames, pathsToExclude, refPathKey, options, t, keys, inversions, byQuery)
    ensures r.Success? ==>
      QueriesDone(lengths, paths, pathNames, pathsToExclude, refPathKey, options, t + 1, r.value.1, r.value.0, byQuery')
    ensures r.Failure? ==> FailsAt(lengths, paths, pathNames, pathsToExclude, refPathKey, options, t, r.error)
    ensures (Selected(pathNames[t], refPathKey, pathsToExclude) ==>
               pathNames[t] in paths && LengthsKnown(paths[pathNames[t]], lengths)) ==> r.Success?
  {
    byQuery' := byQuery;
    var refPath := paths[refPathKey];
    var queryPathKey := pathNames[t];
    SelectedQueriesSnoc(pathNames[..t], queryPathKey, refPathKey, pathsToExclude);
    assert pathNames[..t + 1] == pathNames[..t] + [queryPathKey];
    var excluded := IsExcluded(queryPathKey, pathsToExclude);
    if queryPathKey == refPathKey || excluded {
      return Success((inversions, keys)), byQuery';
    }
    if queryPathKey !in paths {
      return Failure(PathNotFound(queryPathKey)), byQuery';
    }
    var result, alignments := AlignQuery(queryPathKey, refPath, paths[queryPathKey], lengths, options);
    if result.Failure? {
      return Failure(result.error), byQuery';
    }
    QueryAlignmentsSnoc(keys, paths, refPath, lengths, options, byQuery, queryPathKey, alignments);
    AllInversionsSnoc(keys, refPath, lengths, byQuery, queryPathKey, alignments);
    byQuery' := byQuery + [alignments];
    r := Success((inversions + result.value, keys + [queryPathKey]));
  }

  /** One more aligned query keeps every query's alignments disjoint and placed. */
  lemma QueryAlignmentsSnoc(keys: seq<string>, paths: map<string, seq<int>>, refPath: seq<int>,
                            lengths: map<int, int>, options: AlignmentOptions,
                            byQuery: seq<seq<(seq<int>, seq<int>)>>, key: string, alignments: seq<(seq<int>, seq<int>)>)
    requires QueryAlignments(keys, paths, refPath, lengths, options, byQuery) && key in paths
    requires Align.AlignPathsResult(refPath, paths[key], lengths, options.maxHighmemPathLength,
                                    options.maxLowmemDrop, alignments)
    requires Align.PairwiseDisjoint(alignments)
    requires forall k :: 0 <= k < |alignments| ==> Align.Placed(alignments[k], refPath, paths[key])
    ensures QueryAlignments(keys + [key], paths, refPath, lengths, options, byQuery + [alignments])
  {
    forall q | 0 <= q < |byQuery| + 1
      ensures Align.AlignPathsResult(refPath, paths[(keys + [key])[q]], lengths, options.maxHighmemPathLength,
                                     options.maxLowmemDrop, (byQuery + [alignments])[q])
      ensures (keys + [key])[q] in paths && Align.PairwiseDisjoint((byQuery + [alignments])[q])
      ensures forall k :: 0 <= k < |(byQuery + [alignments])[q]| ==>
        Align.Placed((byQuery + [alignments])[q][k], refPath, paths[(keys + [key])[q]])
    {
      if q < |byQuery| {
        assert (byQuery + [alignments])[q] == byQuery[q] && (keys + [key])[q] == keys[q];
      }
    }
  }

  /** One more query appends its inversions. */
  lemma AllInversionsSnoc(keys: seq<string>, refPath: seq<int>, lengths: map<int, int>,
                          byQuery: seq<seq<(seq<int>, seq<int>)>>, key: string, alignments: seq<(seq<int>, seq<int>)>)
    requires |keys| == |byQuery| && LengthsKnown(refPath, lengths)
    requires forall q, k :: 0 <= q < |byQuery| && 0 <= k < |byQuery[q]| ==> byQuery[q][k].0 != []
    requires forall k :: 0 <= k < |alignments| ==> alignments[k].0 != []
    ensures forall q, k :: 0 <= q < |byQuery + [alignments]| && 0 <= k < |(byQuery + [alignments])[q]| ==>
      (byQuery + [alignments])[q][k].0 != []
    ensures AllInversions(keys + [key], refPath, lengths, byQuery + [alignments]) ==
      AllInversions(keys, refPath, lengths, byQuery) + Inversions(key, refPath, lengths, alignments)
  {
    assert (keys + [key])[..|keys|] == keys;
    assert (byQuery + [alignments])[..|byQuery|] == byQuery;
  }

  // ---------------------------------------------------------------------------------------
  // print_collated_inversions, as a function returning the table rows

  /** One row of the collated table: an interval of the reference and, for every aligned
      query in order, 1 if that query reported the interval and 0 otherwise. */
  datatype Row = Row(startPosition: int, endPosition: int, calls: seq<int>)

  function Span(x: Inversion): (int, int)
  {
    (x.startPosition, x.endPosition)
  }

  /** The distinct intervals reported. */
  function Spans(inversions: seq<Inversion>): set<(int, int)>
  {
    set x | x in inversions :: Span(x)
  }

  /** The queries that reported interval `iv`, in report order (one entry per report). */
  function KeysAt(inversions: seq<Inversion>, iv: (int, int)): seq<string>
  {
    if inversions == [] then []
    else
      var n := |inversions| - 1;
      KeysAt(inversions[..n], iv) + if Span(inversions[n]) == iv then [inversions[n].pathKey] else []
  }

  /** What the collation map holds once every report is entered: each reported interval,
      mapped to the queries that reported it. */
  function Collated(inversions: seq<Inversion>): map<(int, int), seq<string>>
  {
    map iv | iv in Spans(inversions) :: KeysAt(inversions, iv)
  }

  /** The queries listed under an interval are exactly those that reported it. */
  lemma {:induction false} KeysAtMembers(inversions: seq<Inversion>, iv: (int, int), key: string)
    ensures key in KeysAt(inversions, iv) <==> Inversion(key, iv.0, iv.1) in inversions
    ensures iv !in Spans(inversions) ==> KeysAt(inversions, iv) == []
  {
    if inversions != [] {
      var n := |inversions| - 1;
      KeysAtMembers(inversions[..n], iv, key);
      assert inversions == inversions[..n] + [inversions[n]];
      assert Spans(inversions) == Spans(inversions[..n]) + {Span(inversions[n])};
    }
  }

  /** Entering one more report: `entry(...).and_modify(push).or_insert(vec![...])`. */
  lemma CollatedSnoc(inversions: seq<Inversion>, x: Inversion)
    ensures var m := Collated(inversions);
      Collated(inversions + [x]) == m[Span(x) := if Span(x) in m then m[Span(x)] + [x.pathKey] else [x.pathKey]]
  {
    var s := inversions + [x];
    var m := Collated(inversions);
    var m' := m[Span(x) := if Span(x) in m then m[Span(x)] + [x.pathKey] else [x.pathKey]];
    assert s[..|inversions|] == inversions;
    assert Spans(s) == Spans(inversions) + {Span(x)};
    forall iv | iv in m'
      ensures Collated(s)[iv] == m'[iv]
    {
      KeysAtMembers(inversions, iv, x.pathKey);
    }
    assert Collated(s) == m';
  }

  /** The first loop of print_collated_inversions. */
  method CollateInversions(inversions: seq<Inversion>) returns (collated: map<(int, int), seq<string>>)
    ensures collated == Collated(inversions)
  {
    collated := map[];
    for t := 0 to |inversions|
      invariant collated == Collated(inversions[..t])
    {
      var x := inversions[t];
      CollatedSnoc(inversions[..t], x);
      assert inversions[..t + 1] == inversions[..t] + [x];
      var iv := (x.startPosition, x.endPosition);
      if iv in collated {
        collated := collated[iv := collated[iv] + [x.pathKey]];
      } else {
        collated := collated[iv := [x.pathKey]];
      }
    }
    assert inversions[..|inversions|] == inversions;
  }

  predicate Distinct<T(==)>(s: seq<T>)
  {
    forall p, q :: 0 <= p < q < |s| ==> s[p] != s[q]
  }

  /** `keys().collect()`: the keys of the map in some order, each once. */
  method MapKeys(m: map<(int, int), seq<string>>) returns (keys: seq<(int, int)>)
    ensures Distinct(keys)
    ensures forall iv :: iv in keys <==> iv in m
  {
    keys := [];
    var remaining := m.Keys;
    while remaining != {}
      invariant remaining <= m.Keys && Distinct(keys)
      invariant forall iv :: iv in keys <==> iv in m && iv !in remaining
      decreases |remaining|
    {
      var iv :| iv in remaining;
      keys := keys + [iv];
      remaining := remaining - {iv};
    }
  }

  predicate SortedByStart(s: seq<(int, int)>)
  {
    forall p, q :: 0 <= p < q < |s| ==> s[p].0 <= s[q].0
  }

  /** Putting an interval in front of sorted ones that do not start before it. */
  lemma SortedCons(y: (int, int), t: seq<(int, int)>)
    requires SortedByStart(t) && forall z :: z in t ==> y.0 <= z.0
    ensures SortedByStart([y] + t)
  {
    forall p, q | 0 <= p < q < |[y] + t|
      ensures ([y] + t)[p].0 <= ([y] + t)[q].0
    {
      assert ([y] + t)[q] == t[q - 1];
      if p > 0 {
        assert ([y] + t)[p] == t[p - 1];
      }
    }
  }

  lemma DistinctCons<T>(y: T, t: seq<T>)
    ensures Distinct(t) && y !in t ==> Distinct([y] + t)
  {
    if Distinct(t) && y !in t {
      forall p, q | 0 <= p < q < |[y] + t|
        ensures ([y] + t)[p] != ([y] + t)[q]
      {
        assert ([y] + t)[q] == t[q - 1];
        if p > 0 {
          assert ([y] + t)[p] == t[p - 1];
        }
      }
    }
  }

  /** Dropping the first element keeps a sequence sorted and distinct. */
  lemma TailKeeps(s: seq<(int, int)>)
    requires s != []
    ensures SortedByStart(s) ==> SortedByStart(s[1..]) && forall z :: z in s[1..] ==> s[0].0 <= z.0
    ensures Distinct(s) ==> Distinct(s[1..]) && s[0] !in s[1..]
  {
  }

  /** Places `x` in front of the first interval that does not start before it. */
  function InsertByStart(x: (int, int), s: seq<(int, int)>): seq<(int, int)>
  {
    if s == [] || x.0 <= s[0].0 then [x] + s
    else [s[0]] + InsertByStart(x, s[1..])
  }

  /** Inserting adds exactly `x`: the result is a permutation of `s` with `x`. */
  lemma {:induction false} InsertByStartPermutes(x: (int, int), s: seq<(int, int)>)
    ensures multiset(InsertByStart(x, s)) == multiset(s) + multiset{x}
    ensures forall y :: y in InsertByStart(x, s) <==> y == x || y in s
  {
    if s != [] && x.0 > s[0].0 {
      InsertByStartPermutes(x, s[1..]);
      assert s == [s[0]] + s[1..];
    }
  }

  /** Inserting into sorted intervals keeps them sorted, and a new interval keeps them
      distinct. */
  lemma {:induction false} InsertByStartSorted(x: (int, int), s: seq<(int, int)>)
    requires SortedByStart(s)
    ensures SortedByStart(InsertByStart(x, s))
    ensures Distinct(s) && x !in s ==> Distinct(InsertByStart(x, s))
  {
    if s == [] || x.0 <= s[0].0 {
      SortedCons(x, s);
      DistinctCons(x, s);
    } else {
      TailKeeps(s);
      InsertByStartSorted(x, s[1..]);
      InsertByStartPermutes(x, s[1..]);
      SortedCons(s[0], InsertByStart(x, s[1..]));
      DistinctCons(s[0], InsertByStart(x, s[1..]));
    }
  }

  /** `sort_by_key(|k| k.0)`: insertion of each interval in turn. */
  function SortByStart(s: seq<(int, int)>): seq<(int, int)>
  {
    if s == [] then [] else InsertByStart(s[|s| - 1], SortByStart(s[..|s| - 1]))
  }

  /** The sort orders the intervals by start and returns the same intervals (a
      permutation); distinct intervals stay distinct. */
  lemma {:induction false} SortByStartSorts(s: seq<(int, int)>)
    ensures SortedByStart(SortByStart(s))
    ensures multiset(SortByStart(s)) == multiset(s)
    ensures forall y :: y in SortByStart(s) <==> y in s
    ensures Distinct(s) ==> Distinct(SortByStart(s))
  {
    if s != [] {
      var n := |s| - 1;
      assert s == s[..n] + [s[n]];
      PrefixKeeps(s);
      SortByStartSorts(s[..n]);
      InsertByStartPermutes(s[n], SortByStart(s[..n]));
      InsertByStartSorted(s[n], SortByStart(s[..n]));
    }
  }

  /** Dropping the last element keeps a sequence sorted and distinct. */
  lemma PrefixKeeps(keys: seq<(int, int)>)
    requires keys != []
    ensures SortedByStart(keys) ==> SortedByStart(keys[..|keys| - 1])
    ensures Distinct(keys) ==> Distinct(keys[..|keys| - 1])
    ensures SortedByStart(keys) ==> forall z :: z in keys[..|keys| - 1] ==> z.0 <= keys[|keys| - 1].0
    ensures Distinct(keys) ==> keys[|keys| - 1] !in keys[..|keys| - 1]
  {
  }

  lemma SortedSnoc(t: seq<(int, int)>, y: (int, int))
    ensures SortedByStart(t) && (forall z :: z in t ==> z.0 <= y.0) ==> SortedByStart(t + [y])
  {
    if SortedByStart(t) && forall z :: z in t ==> z.0 <= y.0 {
      forall p, q | 0 <= p < q < |t + [y]|
        ensures (t + [y])[p].0 <= (t + [y])[q].0
      {
        assert (t + [y])[p] == t[p];
      }
    }
  }

  lemma DistinctSnoc<T>(t: seq<T>, y: T)
    ensures Distinct(t) && y !in t ==> Distinct(t + [y])
  {
    if Distinct(t) && y !in t {
      forall p, q | 0 <= p < q < |t + [y]|
        ensures (t + [y])[p] != (t + [y])[q]
      {
        assert (t + [y])[p] == t[p];
      }
    }
  }

  /** The intervals of `keys`, in order, whose length reaches `minLength`: the ones the
      printing loop writes a row for. */
  function LongEnough(keys: seq<(int, int)>, minLength: int): (r: seq<(int, int)>)
    ensures forall iv :: iv in r <==> iv in keys && iv.1 - iv.0 >= minLength
    ensures SortedByStart(keys) ==> SortedByStart(r)
    ensures Distinct(keys) ==> Distinct(r)
  {
    if keys == [] then []
    else
      var n := |keys| - 1;
      var iv := keys[n];
      assert keys == keys[..n] + [iv];
      PrefixKeeps(keys);
      var r0 := LongEnough(keys[..n], minLength);
      if iv.1 - iv.0 >= minLength then
        SortedSnoc(r0, iv);
        DistinctSnoc(r0, iv);
        r0 + [iv]
      else r0
  }

  /** The calls of one row: `paths.contains(query_path_key)` for every query, in order. */
  method Calls(paths: seq<string>, queryKeys: seq<string>) returns (calls: seq<int>)
    ensures |calls| == |queryKeys|
    ensures forall q :: 0 <= q < |queryKeys| ==> calls[q] == if queryKeys[q] in paths then 1 else 0
  {
    calls := [];
    for q := 0 to |queryKeys|
      invariant |calls| == q
      invariant forall q' :: 0 <= q' < q ==> calls[q'] == if queryKeys[q'] in paths then 1 else 0
    {
      if queryKeys[q] in paths {
        calls := calls + [1];
      } else {
        calls := calls + [0];
      }
    }
  }

  /** Row `row` is the table's line for its interval: one call per query, 1 exactly when
      that query reported the interval. */
  predicate RowReports(row: Row, inversions: seq<Inversion>, queryKeys: seq<string>)
  {
    && |row.calls| == |queryKeys|
    && forall q :: 0 <= q < |queryKeys| ==>
         row.calls[q] == if Inversion(queryKeys[q], row.startPosition, row.endPosition) in inversions then 1 else 0
  }

  function RowSpan(row: Row): (int, int)
  {
    (row.startPosition, row.endPosition)
  }

  /** The rows, one per interval of `kept`, in the same order. */
  ghost predicate RowsFor(rows: seq<Row>, kept: seq<(int, int)>, inversions: seq<Inversion>, queryKeys: seq<string>)
  {
    && |rows| == |kept|
    && forall r :: 0 <= r < |rows| ==> RowSpan(rows[r]) == kept[r] && RowReports(rows[r], inversions, queryKeys)
  }

  /** The printing loop over the sorted keys: intervals shorter than `minLength` are
      skipped; every other interval gets its row of calls. The lookup of the interval in the
      collation map cannot fail, since every key came from that map. */
  method BuildRows(
    inversions: seq<Inversion>,
    collated: map<(int, int), seq<string>>,
    keys: seq<(int, int)>,
    queryKeys: seq<string>,
    minLength: int)
    returns (rows: seq<Row>)
    requires collated == Collated(inversions)
    requires forall iv :: iv in keys ==> iv in collated
    ensures RowsFor(rows, LongEnough(keys, minLength), inversions, queryKeys)
  {
    rows := [];
    for t := 0 to |keys|
      invariant RowsFor(rows, LongEnough(keys[..t], minLength), inversions, queryKeys)
    {
      var iv := keys[t];
      LongEnoughSnoc(keys, t, minLength);
      if iv.1 - iv.0 >= minLength {
        var row := RowOf(inversions, collated, iv, queryKeys);
        RowsForSnoc(rows, LongEnough(keys[..t], minLength), inversions, queryKeys, row);
        rows := rows + [row];
      }
    }
    assert keys[..|keys|] == keys;
  }

  /** Extending the keys by one keeps the filtered prefix and appends the new key exactly
      when it is long enough. */
  lemma LongEnoughSnoc(keys: seq<(int, int)>, t: nat, minLength: int)
    requires t < |keys|
    ensures LongEnough(keys[..t + 1], minLength) ==
      if keys[t].1 - keys[t].0 >= minLength then LongEnough(keys[..t], minLength) + [keys[t]]
      else LongEnough(keys[..t], minLength)
  {
    assert keys[..t + 1][..t] == keys[..t];
  }

  lemma RowsForSnoc(rows: seq<Row>, kept: seq<(int, int)>, inversions: seq<Inversion>, queryKeys: seq<string>, row: Row)
    requires RowsFor(rows, kept, inversions, queryKeys) && RowReports(row, inversions, queryKeys)
    ensures RowsFor(rows + [row], kept + [RowSpan(row)], inversions, queryKeys)
  {
    forall r | 0 <= r < |rows| + 1
      ensures RowSpan((rows + [row])[r]) == (kept + [RowSpan(row)])[r]
      ensures RowReports((rows + [row])[r], inversions, queryKeys)
    {
      if r < |rows| {
        assert (rows + [row])[r] == rows[r];
      }
    }
  }

  /** The row of one interval of the collation map. */
  method RowOf(inversions: seq<Inversion>, collated: map<(int, int), seq<string>>, iv: (int, int), queryKeys: seq<string>)
    returns (row: Row)
    requires collated == Collated(inversions) && iv in collated
    ensures RowSpan(row) == iv && RowReports(row, inversions, queryKeys)
  {
    var calls := Calls(collated[iv], queryKeys);
    forall q | 0 <= q < |queryKeys|
      ensures calls[q] == if Inversion(queryKeys[q], iv.0, iv.1) in inversions then 1 else 0
    {
      KeysAtMembers(inversions, iv, queryKeys[q]);
    }
    row := Row(iv.0, iv.1, calls);
  }

  /** print_collated_inversions, with the table returned as rows instead of printed: one
      row per distinct reported interval at least `minLength` long, ordered by start, each
      with a 1 for every query that reported it and a 0 for every other. */
  method PrintCollatedInversions(inversions: seq<Inversion>, queryKeys: seq<string>, minLength: int)
    returns (rows: seq<Row>)
    ensures forall p, q :: 0 <= p < q < |rows| ==> rows[p].startPosition <= rows[q].startPosition
    ensures forall p, q :: 0 <= p < q < |rows| ==> RowSpan(rows[p]) != RowSpan(rows[q])
    ensures forall iv :: (exists r :: 0 <= r < |rows| && RowSpan(rows[r]) == iv) <==>
      iv in Spans(inversions) && iv.1 - iv.0 >= minLength
    ensures forall r :: 0 <= r < |rows| ==> RowReports(rows[r], inversions, queryKeys)
  {
    var collated := CollateInversions(inversions);
    var keys := MapKeys(collated);
    SortByStartSorts(keys);
    keys := SortByStart(keys);
    rows := BuildRows(inversions, collated, keys, queryKeys, minLength);
    ghost var kept := LongEnough(keys, minLength);
    forall iv | iv in Spans(inversions) && iv.1 - iv.0 >= minLength
      ensures exists r :: 0 <= r < |rows| && RowSpan(rows[r]) == iv
    {
      var r :| 0 <= r < |kept| && kept[r] == iv;
      assert RowSpan(rows[r]) == iv;
    }
  }
}
