/** The fan-out of `process_file`: split the view into segments, aggregate
    every segment on its own (`process_all`, one worker per segment) and merge
    the per-segment maps (`merge_results`). The theorem of this module is that
    the result is the aggregate of the whole view, whatever the number of
    segments. */
module Pipeline {
  import opened Bytes
  import opened Statistics
  import opened LineScanner
  import opened Aggregation
  import opened Merger
  import opened Segmenter

  lemma ParsableAppend(a: seq<seq<Byte>>, b: seq<seq<Byte>>)
    requires AllParsable(a) && AllParsable(b)
    ensures AllParsable(a + b)
  {
  }

  lemma {:induction false} TempsForAppend(a: seq<seq<Byte>>, b: seq<seq<Byte>>, k: seq<Byte>)
    requires AllParsable(a) && AllParsable(b) && AllParsable(a + b)
    ensures TempsFor(a + b, k) == TempsFor(a, k) + TempsFor(b, k)
    decreases |b|
  {
    if b == [] {
      assert a + b == a;
    } else {
      var init, last := b[..|b| - 1], b[|b| - 1];
      var ab := a + init;
      assert (a + b)[..|a + b| - 1] == ab;
      assert AllParsable(init) && AllParsable(ab);
      TempsForAppend(a, init, k);
    }
  }

  /** A name is the city of a line of `a + b` exactly when it is the city of
      a line of `a` or of a line of `b`. */
  lemma CityInAppend(a: seq<seq<Byte>>, b: seq<seq<Byte>>, k: seq<Byte>)
    ensures (exists l :: l in a + b && City(l) == k)
        <==> (exists l :: l in a && City(l) == k) || (exists l :: l in b && City(l) == k)
  {
    if exists l :: l in a + b && City(l) == k {
      var l :| l in a + b && City(l) == k;
      if l !in a {
        assert l in b;
      }
    }
    if exists l :: l in a && City(l) == k {
      var l :| l in a && City(l) == k;
      assert l in a + b;
    }
    if exists l :: l in b && City(l) == k {
      var l :| l in b && City(l) == k;
      assert l in a + b;
    }
  }

  /** One name of the aggregate of two pieces: present when it is present in
      either piece's map, with the merge of its two records. */
  lemma AggregateAppendAt(a: seq<seq<Byte>>, b: seq<seq<Byte>>, k: seq<Byte>)
    requires AllParsable(a) && AllParsable(b) && AllParsable(a + b)
    ensures k in Aggregate(a + b) <==> k in MergeMaps(Aggregate(a), Aggregate(b))
    ensures EntryOrDefault(Aggregate(a + b), k) == EntryOrDefault(MergeMaps(Aggregate(a), Aggregate(b)), k)
  {
    AggregateAt(a, k);
    AggregateAt(b, k);
    AggregateAt(a + b, k);
    CityInAppend(a, b, k);
    MergeMapsAt(Aggregate(a), Aggregate(b), k);
    TempsForAppend(a, b, k);
    SummarizeAppend(TempsFor(a, k), TempsFor(b, k));
  }

  /** Aggregating the lines of two pieces one after the other is aggregating
      each piece on its own and merging the second map into the first: the
      fact that lets the segments be processed independently. */
  lemma AggregateAppend(a: seq<seq<Byte>>, b: seq<seq<Byte>>)
    requires AllParsable(a) && AllParsable(b)
    ensures AllParsable(a + b)
    ensures Aggregate(a + b) == MergeMaps(Aggregate(a), Aggregate(b))
  {
    ParsableAppend(a, b);
    var mn, merged := Aggregate(a + b), MergeMaps(Aggregate(a), Aggregate(b));
    forall k ensures (k in mn <==> k in merged) && EntryOrDefault(mn, k) == EntryOrDefault(merged, k) {
      AggregateAppendAt(a, b, k);
    }
    MapsEqualByEntries(mn, merged);
  }

  /** Cutting at a cut point splits the lines there. */
  lemma LinesAtCut(data: seq<Byte>, a: nat, b: nat)
    requires a <= b <= |data| && CutPoint(data, a)
    ensures Lines(data[..b]) == Lines(data[..a]) + Lines(data[a..b])
  {
    assert data[..b] == data[..a] + data[a..b];
    if 0 < a < |data| {
      assert data[..a][a - 1] == data[a - 1];
    } else if a == |data| {
      assert data[a..b] == [];
    }
    LinesAppend(data[..a], data[a..b]);
  }

  /** The lines of a prefix ending at a cut point are lines of the view. */
  lemma LinesOfPrefix(data: seq<Byte>, b: nat)
    requires b <= |data| && CutPoint(data, b)
    ensures forall l :: l in Lines(data[..b]) ==> l in Lines(data)
  {
    LinesAtCut(data, b, |data|);
    assert data[..|data|] == data;
  }

  /** Every segment holds only lines of the view. */
  predicate SegmentsParsable(segments: seq<seq<Byte>>)
  {
    forall i :: 0 <= i < |segments| ==> AllParsable(Lines(segments[i]))
  }

  /** The first `j` segments of the corrected split. */
  function Segments(data: seq<Byte>, chunks: nat, j: nat): (r: seq<seq<Byte>>)
    requires chunks >= 1
    ensures |r| == j
  {
    if j == 0 then [] else Segments(data, chunks, j - 1) + [Segment(data, chunks, j - 1)]
  }

  lemma {:induction false} SegmentsAt(data: seq<Byte>, chunks: nat, j: nat)
    requires chunks >= 1
    ensures |Segments(data, chunks, j)| == j
    ensures forall i :: 0 <= i < j ==> Segments(data, chunks, j)[i] == Segment(data, chunks, i)
  {
    if j > 0 {
      SegmentsAt(data, chunks, j - 1);
    }
  }

  /** The segments one after the other. */
  function Concat(segments: seq<seq<Byte>>): seq<Byte>
  {
    if segments == [] then [] else Concat(segments[..|segments| - 1]) + segments[|segments| - 1]
  }

  lemma ConcatSnoc(segments: seq<seq<Byte>>, seg: seq<Byte>)
    ensures Concat(segments + [seg]) == Concat(segments) + seg
  {
    assert (segments + [seg])[..|segments|] == segments;
  }

  /** The first `j` segments tile the view up to cut `j`: no byte is lost or
      repeated. */
  lemma {:induction false} SegmentsTile(data: seq<Byte>, chunks: nat, j: nat)
    requires chunks >= 1
    ensures Concat(Segments(data, chunks, j)) == data[..Boundary(data, chunks, j)]
  {
    if j == 0 {
      BoundaryEnds(data, chunks);
    } else {
      SegmentsTile(data, chunks, j - 1);
      ConcatSnoc(Segments(data, chunks, j - 1), Segment(data, chunks, j - 1));
      BoundaryMonotone(data, chunks, j - 1, j);
      var b, b' := Boundary(data, chunks, j - 1), Boundary(data, chunks, j);
      assert data[..b] + data[b..b'] == data[..b'];
    }
  }

  /** All the segments put the whole view back together. */
  lemma SegmentsRebuildView(data: seq<Byte>, chunks: nat)
    requires chunks >= 1
    ensures Concat(Segments(data, chunks, chunks)) == data
  {
    SegmentsTile(data, chunks, chunks);
    BoundaryEnds(data, chunks);
    assert data[..|data|] == data;
  }

  /** In a view ending with a newline, every non-empty segment ends with one,
      and every segment after the first starts right after one or at an end
      of the view: no line straddles two segments. */
  lemma SegmentShape(data: seq<Byte>, chunks: nat, i: nat)
    requires chunks >= 1 && (data == [] || data[|data| - 1] == '\n')
    ensures Segment(data, chunks, i) != [] ==> Segment(data, chunks, i)[|Segment(data, chunks, i)| - 1] == '\n'
    ensures 0 < Boundary(data, chunks, i) < |data| ==> data[Boundary(data, chunks, i) - 1] == '\n'
  {
    BoundaryMonotone(data, chunks, i, i + 1);
  }

  /** The per-segment maps `process_all` stores in `results`. */
  function Results(segments: seq<seq<Byte>>): (r: seq<StatsMap>)
    requires SegmentsParsable(segments)
    ensures |r| == |segments|
  {
    if segments == [] then []
    else
      var init := segments[..|segments| - 1];
      assert forall i :: 0 <= i < |init| ==> init[i] == segments[i];
      Results(init) + [Aggregate(Lines(segments[|segments| - 1]))]
  }

  lemma ResultsSnoc(segments: seq<seq<Byte>>, seg: seq<Byte>)
    requires SegmentsParsable(segments + [seg])
    ensures SegmentsParsable(segments) && AllParsable(Lines(seg))
    ensures Results(segments + [seg]) == Results(segments) + [Aggregate(Lines(seg))]
  {
    var all := segments + [seg];
    assert all[..|all| - 1] == segments;
    assert all[|segments|] == seg;
    forall i | 0 <= i < |segments| ensures AllParsable(Lines(segments[i])) {
      assert all[i] == segments[i];
    }
  }

  /** `results[i]` is the map of segment `i`. */
  lemma {:induction false} ResultsAt(segments: seq<seq<Byte>>, i: nat)
    requires SegmentsParsable(segments) && i < |segments|
    ensures |Results(segments)| == |segments|
    ensures Results(segments)[i] == Aggregate(Lines(segments[i]))
  {
    var init, last := segments[..|segments| - 1], segments[|segments| - 1];
    assert segments == init + [last];
    ResultsSnoc(init, last);
    if i < |init| {
      ResultsAt(init, i);
      assert init[i] == segments[i];
    } else if init != [] {
      ResultsAt(init, 0);
    }
  }

  /** Every line of a segment of the corrected split is a line of the view. */
  lemma SegmentLinesIn(data: seq<Byte>, chunks: nat, i: nat)
    requires chunks >= 1
    ensures forall l :: l in Lines(Segment(data, chunks, i)) ==> l in Lines(data)
  {
    var b, b' := Boundary(data, chunks, i), Boundary(data, chunks, i + 1);
    BoundaryMonotone(data, chunks, i, i + 1);
    LinesAtCut(data, b, b');
    LinesOfPrefix(data, b');
  }

  lemma PrefixParsable(data: seq<Byte>, chunks: nat, j: nat)
    requires chunks >= 1 && AllParsable(Lines(data))
    ensures AllParsable(Lines(data[..Boundary(data, chunks, j)]))
  {
    LinesOfPrefix(data, Boundary(data, chunks, j));
  }

  lemma SegmentParsable(data: seq<Byte>, chunks: nat, i: nat)
    requires chunks >= 1 && AllParsable(Lines(data))
    ensures AllParsable(Lines(Segment(data, chunks, i)))
  {
    SegmentLinesIn(data, chunks, i);
  }

  /** The lines up to cut `j` are those up to cut `j - 1` followed by those
      of segment `j - 1`. */
  lemma LinesSplitAtSegment(data: seq<Byte>, chunks: nat, j: nat)
    requires chunks >= 1 && j >= 1
    ensures Lines(data[..Boundary(data, chunks, j)])
            == Lines(data[..Boundary(data, chunks, j - 1)]) + Lines(Segment(data, chunks, j - 1))
  {
    BoundaryMonotone(data, chunks, j - 1, j);
    LinesAtCut(data, Boundary(data, chunks, j - 1), Boundary(data, chunks, j));
  }

  lemma MergeOfFirst(data: seq<Byte>, chunks: nat)
    requires chunks >= 1 && AllParsable(Lines(data))
    ensures SegmentsParsable(Segments(data, chunks, 1))
    ensures AllParsable(Lines(data[..Boundary(data, chunks, 1)]))
    ensures MergeAll(Results(Segments(data, chunks, 1))) == Aggregate(Lines(data[..Boundary(data, chunks, 1)]))
  {
    var seg := Segment(data, chunks, 0);
    SegmentParsable(data, chunks, 0);
    PrefixParsable(data, chunks, 1);
    assert Segments(data, chunks, 1) == [] + [seg] == [seg];
    LinesSplitAtSegment(data, chunks, 1);
    BoundaryEnds(data, chunks);
    assert data[..0] == [];
    assert Lines(data[..Boundary(data, chunks, 1)]) == Lines(seg);
  }

  lemma ParsableSnoc(segments: seq<seq<Byte>>, seg: seq<Byte>)
    requires SegmentsParsable(segments) && AllParsable(Lines(seg))
    ensures SegmentsParsable(segments + [seg])
  {
    var all := segments + [seg];
    forall i | 0 <= i < |all| ensures AllParsable(Lines(all[i])) {
      if i < |segments| {
        assert all[i] == segments[i];
      }
    }
  }

  /** One more segment: if the maps so far merge to the aggregate of the lines
      before it, then with its map merged in they give the aggregate of those
      lines followed by the segment's. */
  lemma MergeOneSegment(pre: seq<seq<Byte>>, seg: seq<Byte>, before: seq<seq<Byte>>)
    requires |pre| > 0 && SegmentsParsable(pre) && AllParsable(Lines(seg)) && AllParsable(before)
    requires MergeAll(Results(pre)) == Aggregate(before)
    ensures SegmentsParsable(pre + [seg]) && AllParsable(before + Lines(seg))
    ensures MergeAll(Results(pre + [seg])) == Aggregate(before + Lines(seg))
  {
    ParsableSnoc(pre, seg);
    ResultsSnoc(pre, seg);
    AggregateAppend(before, Lines(seg));
    MergeAllSnoc(Results(pre), Aggregate(Lines(seg)));
  }

  lemma MergeStep(data: seq<Byte>, chunks: nat, j: nat)
    requires chunks >= 1 && 2 <= j <= chunks && AllParsable(Lines(data))
    requires SegmentsParsable(Segments(data, chunks, j - 1))
    requires AllParsable(Lines(data[..Boundary(data, chunks, j - 1)]))
    requires MergeAll(Results(Segments(data, chunks, j - 1))) == Aggregate(Lines(data[..Boundary(data, chunks, j - 1)]))
    ensures SegmentsParsable(Segments(data, chunks, j))
    ensures AllParsable(Lines(data[..Boundary(data, chunks, j)]))
    ensures MergeAll(Results(Segments(data, chunks, j))) == Aggregate(Lines(data[..Boundary(data, chunks, j)]))
  {
    var pre, seg := Segments(data, chunks, j - 1), Segment(data, chunks, j - 1);
    SegmentParsable(data, chunks, j - 1);
    LinesSplitAtSegment(data, chunks, j);
    MergeOneSegment(pre, seg, Lines(data[..Boundary(data, chunks, j - 1)]));
  }

  /** Merging the maps of the first `j` segments gives the aggregate of the
      lines of the view up to cut `j`. */
  lemma {:induction false} MergeOfPrefix(data: seq<Byte>, chunks: nat, j: nat)
    requires chunks >= 1 && 1 <= j <= chunks && AllParsable(Lines(data))
    ensures SegmentsParsable(Segments(data, chunks, j))
    ensures AllParsable(Lines(data[..Boundary(data, chunks, j)]))
    ensures MergeAll(Results(Segments(data, chunks, j))) == Aggregate(Lines(data[..Boundary(data, chunks, j)]))
  {
    if j == 1 {
      MergeOfFirst(data, chunks);
    } else {
      MergeOfPrefix(data, chunks, j - 1);
      MergeStep(data, chunks, j);
    }
  }

  /** The theorem the fan-out relies on: for any number of segments, merging
      the per-segment maps gives the aggregate of every line of the view. */
  lemma SplitThenMerge(data: seq<Byte>, chunks: nat)
    requires chunks >= 1 && AllParsable(Lines(data))
    ensures SegmentsParsable(Segments(data, chunks, chunks))
    ensures MergeAll(Results(Segments(data, chunks, chunks))) == Aggregate(Lines(data))
  {
    MergeOfPrefix(data, chunks, chunks);
    BoundaryEnds(data, chunks);
    assert data[..|data|] == data;
  }

  /** In particular the number of workers does not change the result. */
  lemma ResultIndependentOfChunks(data: seq<Byte>, c1: nat, c2: nat)
    requires c1 >= 1 && c2 >= 1 && AllParsable(Lines(data))
    ensures SegmentsParsable(Segments(data, c1, c1)) && SegmentsParsable(Segments(data, c2, c2))
    ensures MergeAll(Results(Segments(data, c1, c1))) == MergeAll(Results(Segments(data, c2, c2)))
  {
    SplitThenMerge(data, c1);
    SplitThenMerge(data, c2);
  }

  /** The split as written gives the same result wherever its reads stay in
      the view and the view ends with a newline. */
  lemma SplitInputThenMerge(data: seq<Byte>, chunks: nat, segments: seq<seq<Byte>>)
    requires chunks >= 1 && ReadsInBounds(|data|, chunks)
    requires |data| > 0 && data[|data| - 1] == '\n' && |data| < SIZE_T_LIMIT
    requires AllParsable(Lines(data))
    requires |segments| == chunks
    requires forall i :: 0 <= i < chunks ==> segments[i] == SegmentAt(data, chunks, i)
    ensures SegmentsParsable(segments)
    ensures MergeAll(Results(segments)) == Aggregate(Lines(data))
  {
    SplitInputIsSegments(data, chunks, segments);
    SplitThenMerge(data, chunks);
  }

  /** On the same views, the segments of `split_input` are the aligned
      segments, in order. */
  lemma SplitInputIsSegments(data: seq<Byte>, chunks: nat, segments: seq<seq<Byte>>)
    requires chunks >= 1 && ReadsInBounds(|data|, chunks)
    requires |data| > 0 && data[|data| - 1] == '\n' && |data| < SIZE_T_LIMIT
    requires |segments| == chunks
    requires forall i :: 0 <= i < chunks ==> segments[i] == SegmentAt(data, chunks, i)
    ensures segments == Segments(data, chunks, chunks)
  {
    SegmentsAt(data, chunks, chunks);
    forall i | 0 <= i < chunks ensures segments[i] == Segments(data, chunks, chunks)[i] {
      SplitInputIsAligned(data, chunks, i);
    }
  }

  /** On the same views, the segments of `split_input`, put back together in
      order, are the view: every byte lands in exactly one segment. */
  lemma SplitInputRebuildsView(data: seq<Byte>, chunks: nat, segments: seq<seq<Byte>>)
    requires chunks >= 1 && ReadsInBounds(|data|, chunks)
    requires |data| > 0 && data[|data| - 1] == '\n' && |data| < SIZE_T_LIMIT
    requires |segments| == chunks
    requires forall i :: 0 <= i < chunks ==> segments[i] == SegmentAt(data, chunks, i)
    ensures Concat(segments) == data
  {
    SplitInputIsSegments(data, chunks, segments);
    SegmentsRebuildView(data, chunks);
  }

  /** A view with one full line and an unterminated tail, cut into one chunk
      by the split as written, yields an empty segment and so an empty result,
      where the view's aggregate holds the name `x`. */
  lemma UnterminatedTailLosesLines()
    ensures Lines("x;1.0\ny") == ["x;1.0"]
    ensures LineParsable("x;1.0")
    ensures ReadsInBounds(7, 1)
    ensures Lines(SegmentAt("x;1.0\ny", 1, 0)) == []
    ensures "x" in Aggregate(Lines("x;1.0\ny"))
  {
    UnterminatedTailExample();
    LinesOfTailExample();
    RecordOfTailExample();
  }

  lemma LinesOfTailExample()
    ensures Lines("x;1.0\ny") == ["x;1.0"]
  {
    var data: seq<Byte> := "x;1.0\ny";
    FindIs(data, '\n', 0, At(5));
    var tail := data[6..];
    assert tail == "y";
    FindIs(tail, '\n', 0, Npos);
    assert Lines(tail) == [];
    assert data[..5] == "x;1.0";
  }

  lemma RecordOfTailExample()
    ensures LineParsable("x;1.0")
    ensures "x" in Aggregate(["x;1.0"])
  {
    TempOfRecord("x", "1.0");
    assert "x" + [';'] + "1.0" == "x;1.0";
    assert AllParsable(["x;1.0"]);
    AggregateAt(["x;1.0"], "x");
    assert "x;1.0" in ["x;1.0"];
  }

  /** With the program's own split the final map depends on the number of
      workers: on "x;1.0\nyy" one worker finds no record at all, while two
      find the record `x`. */
  lemma WorkerCountChangesResult()
    ensures ReadsInBounds(8, 1) && ReadsInBounds(8, 2)
    ensures SegmentsParsable([SegmentAt("x;1.0\nyy", 1, 0)])
    ensures MergeAll(Results([SegmentAt("x;1.0\nyy", 1, 0)])) == map[]
    ensures SegmentsParsable([SegmentAt("x;1.0\nyy", 2, 0), SegmentAt("x;1.0\nyy", 2, 1)])
    ensures "x" in MergeAll(Results([SegmentAt("x;1.0\nyy", 2, 0), SegmentAt("x;1.0\nyy", 2, 1)]))
  {
    WorkerCountExample();
    OneWorkerOnTail();
    TwoWorkersOnTail();
  }

  lemma OneWorkerOnTail()
    ensures SegmentsParsable([[]])
    ensures MergeAll(Results([[]])) == map[]
  {
    LinesOfNoNewline([]);
    ResultsOfOne([]);
  }

  lemma TwoWorkersOnTail()
    ensures SegmentsParsable(["x;1.0\n", "yy"])
    ensures "x" in MergeAll(Results(["x;1.0\n", "yy"]))
  {
    LinesOfRecordLine();
    LinesOfNoNewline("yy");
    RecordOfTailExample();
    ResultsOfTwo("x;1.0\n", "yy");
    MergeMapsIdentity(Aggregate(["x;1.0"]));
  }

  lemma ResultsOfOne(seg: seq<Byte>)
    requires AllParsable(Lines(seg))
    ensures SegmentsParsable([seg])
    ensures MergeAll(Results([seg])) == Aggregate(Lines(seg))
  {
    ResultsAt([seg], 0);
  }

  lemma ResultsOfTwo(s0: seq<Byte>, s1: seq<Byte>)
    requires AllParsable(Lines(s0)) && AllParsable(Lines(s1))
    ensures SegmentsParsable([s0, s1])
    ensures MergeAll(Results([s0, s1])) == MergeMaps(Aggregate(Lines(s0)), Aggregate(Lines(s1)))
  {
    var two := [s0, s1];
    assert SegmentsParsable(two);
    ResultsAt(two, 0);
    ResultsAt(two, 1);
    assert Results(two)[..1] == [Results(two)[0]];
  }

  lemma LinesOfRecordLine()
    ensures Lines("x;1.0\n") == ["x;1.0"]
  {
    var data: seq<Byte> := "x;1.0\n";
    FindIs(data, '\n', 0, At(5));
    assert data[6..] == [];
    LinesOfNoNewline([]);
    assert data[..5] == "x;1.0";
  }

  lemma LinesOfNoNewline(s: seq<Byte>)
    requires '\n' !in s
    ensures Lines(s) == []
  {
    FindIs(s, '\n', 0, Npos);
  }

  /** A sequence holding the map of every segment at that segment's index
      is `Results`. */
  lemma ResultsByIndex(segments: seq<seq<Byte>>, rs: seq<StatsMap>)
    requires SegmentsParsable(segments) && |rs| == |segments|
    requires forall j :: 0 <= j < |rs| ==> rs[j] == Aggregate(Lines(segments[j]))
    ensures rs == Results(segments)
  {
    if segments != [] {
      ResultsAt(segments, 0);
      forall j | 0 <= j < |segments| ensures rs[j] == Results(segments)[j] {
        ResultsAt(segments, j);
      }
    }
  }

  /** The workers of `process_all`: worker `i` stores the map of segment `i`
      in `results[i]`. They write disjoint slots and are all joined before
      the merge, so running them one after the other gives the same
      `results`. */
  method RunWorkers(segments: seq<seq<Byte>>) returns (results: seq<StatsMap>)
    requires SegmentsParsable(segments)
    ensures results == Results(segments)
  {
    var slots := new StatsMap[|segments|];
    for i := 0 to |segments|
      invariant forall j :: 0 <= j < i ==> slots[j] == Aggregate(Lines(segments[j]))
    {
      slots[i] := ProcessSegment(segments[i]);
    }
    results := slots[..];
    ResultsByIndex(segments, results);
  }

  /** `process_all`: run the workers, then merge their maps. */
  method ProcessAll(segments: seq<seq<Byte>>) returns (cities: StatsMap)
    requires |segments| > 0 && SegmentsParsable(segments)
    ensures cities == MergeAll(Results(segments))
  {
    var results := RunWorkers(segments);
    ResultsAt(segments, 0);
    cities := MergeResults(results);
  }

  /** `process_file` without the file and the output: split the view, process
      the segments and merge. */
  method ProcessFile(data: seq<Byte>, chunks: nat) returns (cities: StatsMap)
    requires chunks >= 1 && AllParsable(Lines(data))
    ensures cities == Aggregate(Lines(data))
  {
    var segments := SplitAligned(data, chunks);
    SegmentsAt(data, chunks, chunks);
    assert segments == Segments(data, chunks, chunks);
    SplitThenMerge(data, chunks);
    cities := ProcessAll(segments);
  }

  /** `process_file` with the program's own split, on the views where that
      split stays in bounds and the last line is terminated. */
  method ProcessFileAsWritten(data: seq<Byte>, chunks: nat) returns (cities: StatsMap)
    requires chunks >= 1 && ReadsInBounds(|data|, chunks)
    requires |data| > 0 && data[|data| - 1] == '\n' && |data| < SIZE_T_LIMIT
    requires AllParsable(Lines(data))
    ensures cities == Aggregate(Lines(data))
  {
    var segments := SplitInput(data, chunks);
    SplitInputThenMerge(data, chunks, segments);
    cities := ProcessAll(segments);
  }
}
