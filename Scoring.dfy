/** The scoring engine of src/composables/useScoring.ts: per-line counts of
    the segments that are still in play and of the errors among them, and a
    range-filtered total with its correct and error rates.

    Counts are exact naturals. Rates are exact rationals (`real`); the
    source computes them as doubles. */
module Scoring {
  import opened Types

  // ---------------------------------------------------------------------
  // One line

  /** `segments.filter((seg) => !seg.isDeleted)`. */
  function Active(segs: seq<Segment>): (r: seq<Segment>)
    ensures |r| <= |segs|
  {
    if segs == [] then []
    else if segs[0].isDeleted then Active(segs[1..])
    else [segs[0]] + Active(segs[1..])
  }

  /** `segments.filter((seg) => seg.isError)`. */
  function ErrorsOf(segs: seq<Segment>): (r: seq<Segment>)
    ensures |r| <= |segs|
  {
    if segs == [] then []
    else if segs[0].isError then [segs[0]] + ErrorsOf(segs[1..])
    else ErrorsOf(segs[1..])
  }

  /** The counts `getLineStats` reports for a list of segments. */
  function SegmentStats(segs: seq<Segment>): (r: LineStats)
    ensures r.errorCount <= r.totalCount <= |segs|
  {
    var active := Active(segs);
    LineStats(|active|, |ErrorsOf(active)|)
  }

  /** `getLineStats(line)`: not-deleted segments, and errors among them. */
  function GetLineStats(line: TextLine): (r: LineStats)
    ensures r.errorCount <= r.totalCount <= |line.segments|
  {
    SegmentStats(line.segments)
  }

  /** The active segments are exactly the segments not marked deleted. */
  lemma {:induction false} ActiveMembers(segs: seq<Segment>)
    ensures forall s :: s in Active(segs) <==> s in segs && !s.isDeleted
  {
    if segs != [] {
      ActiveMembers(segs[1..]);
      assert forall s :: s in segs <==> s == segs[0] || s in segs[1..];
    }
  }

  /** The errors filtered out of a list are exactly its error segments. */
  lemma {:induction false} ErrorsMembers(segs: seq<Segment>)
    ensures forall s :: s in ErrorsOf(segs) <==> s in segs && s.isError
  {
    if segs != [] {
      ErrorsMembers(segs[1..]);
      assert forall s :: s in segs <==> s == segs[0] || s in segs[1..];
    }
  }

  function AddStats(a: LineStats, b: LineStats): LineStats {
    LineStats(a.totalCount + b.totalCount, a.errorCount + b.errorCount)
  }

  lemma {:induction false} ActiveAppend(a: seq<Segment>, b: seq<Segment>)
    ensures Active(a + b) == Active(a) + Active(b)
  {
    if a == [] {
      assert a + b == b;
    } else {
      assert (a + b)[1..] == a[1..] + b;
      ActiveAppend(a[1..], b);
    }
  }

  lemma {:induction false} ErrorsAppend(a: seq<Segment>, b: seq<Segment>)
    ensures ErrorsOf(a + b) == ErrorsOf(a) + ErrorsOf(b)
  {
    if a == [] {
      assert a + b == b;
    } else {
      assert (a + b)[1..] == a[1..] + b;
      ErrorsAppend(a[1..], b);
    }
  }

  /** Counting is additive: the segments of `a + b` count as those of `a`
      plus those of `b`. */
  lemma StatsAppend(a: seq<Segment>, b: seq<Segment>)
    ensures SegmentStats(a + b) == AddStats(SegmentStats(a), SegmentStats(b))
  {
    ActiveAppend(a, b);
    ErrorsAppend(Active(a), Active(b));
  }

  /** One segment counts once when it is not deleted, and as an error only
      when it is also marked as one. Together with `StatsAppend` this pins
      the counts down for every list. */
  lemma StatsOfOne(s: Segment)
    ensures SegmentStats([s]).totalCount == if s.isDeleted then 0 else 1
    ensures SegmentStats([s]).errorCount == if !s.isDeleted && s.isError then 1 else 0
  {
    assert [s][1..] == [];
  }

  /** A deleted segment contributes nothing, even when it is marked as an
      error: removing it, or flipping its error mark, leaves the counts as
      they are. */
  lemma DeletedNeverCounts(segs: seq<Segment>, i: nat, isError: bool)
    requires i < |segs| && segs[i].isDeleted
    ensures SegmentStats(segs[..i] + segs[i + 1..]) == SegmentStats(segs)
    ensures SegmentStats(segs[i := segs[i].(isError := isError)]) == SegmentStats(segs)
  {
    var flipped := segs[i := segs[i].(isError := isError)];
    assert segs == segs[..i] + [segs[i]] + segs[i + 1..];
    assert flipped == segs[..i] + [flipped[i]] + segs[i + 1..];
    StatsAppend(segs[..i] + [segs[i]], segs[i + 1..]);
    StatsAppend(segs[..i], [segs[i]]);
    StatsAppend(segs[..i] + [flipped[i]], segs[i + 1..]);
    StatsAppend(segs[..i], [flipped[i]]);
    StatsAppend(segs[..i], segs[i + 1..]);
    StatsOfOne(segs[i]);
    StatsOfOne(flipped[i]);
  }

  // ---------------------------------------------------------------------
  // The scored range

  /** `Array.prototype.slice(start, end)` on integer arguments: a negative
      argument counts from the end, both are clamped to `[0, |s|]`, and the
      result is empty when the start is not before the end. */
  function JsSlice<T>(s: seq<T>, start: int, end: int): (r: seq<T>)
    ensures |r| <= |s|
  {
    var from := ClampIndex(start, |s|);
    var to := ClampIndex(end, |s|);
    if from >= to then [] else s[from..to]
  }

  function ClampIndex(k: int, len: nat): (r: nat)
    ensures r <= len
  {
    if k < 0 then (if len + k < 0 then 0 else len + k)
    else if k > len then len
    else k
  }

  /** For non-negative bounds the slice is the run of elements from `start`
      up to, and not including, `end`, cut off at the end of the list. */
  lemma JsSliceNonNegative<T>(s: seq<T>, start: nat, end: nat)
    ensures var stop := if end < |s| then end else |s|;
      && |JsSlice(s, start, end)| == (if start < stop then stop - start else 0)
      && forall j :: 0 <= j < |JsSlice(s, start, end)| ==> JsSlice(s, start, end)[j] == s[start + j]
  {
  }

  /** The lines `getTotalStats` scores. A start that is absent or not
      positive selects every line, whatever the end; otherwise the range is
      1-based and inclusive, and an end that is absent or not positive
      means the last line. */
  function ScoredLines(lines: seq<TextLine>, startLine: Option<int>, endLine: Option<int>): (r: seq<TextLine>)
    ensures |r| <= |lines|
  {
    if startLine.Some? && startLine.value > 0 then
      var start := startLine.value - 1;
      var end := if endLine.Some? && endLine.value > 0 then endLine.value else |lines|;
      JsSlice(lines, start, end)
    else lines
  }

  lemma NoStartScoresAll(lines: seq<TextLine>, startLine: Option<int>, endLine: Option<int>)
    requires startLine.None? || startLine.value <= 0
    ensures ScoredLines(lines, startLine, endLine) == lines
  {
  }

  /** With `1 <= first`, `getTotalStats(lines, first, last)` scores the lines
      numbered `first` through `last` (1-based, both included) that exist:
      line `first + j` is the `j`-th scored line. */
  lemma {:induction false} ScoredRange(lines: seq<TextLine>, first: int, last: Option<int>)
    requires first >= 1
    ensures var stop := if last.Some? && 0 < last.value < |lines| then last.value else |lines|;
      && |ScoredLines(lines, Some(first), last)| == (if first - 1 < stop then stop - (first - 1) else 0)
      && forall j :: 0 <= j < |ScoredLines(lines, Some(first), last)| ==>
           ScoredLines(lines, Some(first), last)[j] == lines[first - 1 + j]
  {
    var end := if last.Some? && last.value > 0 then last.value else |lines|;
    JsSliceNonNegative(lines, first - 1, end);
  }

  // ---------------------------------------------------------------------
  // Totals

  /** The line counts summed over `lines`. */
  function Totals(lines: seq<TextLine>): (r: LineStats)
    ensures r.errorCount <= r.totalCount
  {
    if lines == [] then LineStats(0, 0)
    else AddStats(GetLineStats(lines[0]), Totals(lines[1..]))
  }

  lemma {:induction false} TotalsAppend(a: seq<TextLine>, b: seq<TextLine>)
    ensures Totals(a + b) == AddStats(Totals(a), Totals(b))
  {
    if a == [] {
      assert a + b == b;
    } else {
      var ab := a + b;
      assert ab[0] == a[0] && ab[1..] == a[1..] + b;
      TotalsAppend(a[1..], b);
      calc {
        Totals(ab);
        AddStats(GetLineStats(a[0]), Totals(a[1..] + b));
        AddStats(GetLineStats(a[0]), AddStats(Totals(a[1..]), Totals(b)));
        AddStats(Totals(a), Totals(b));
      }
    }
  }

  /** One more line of the prefix adds its own counts. */
  lemma TotalsStep(lines: seq<TextLine>, i: nat)
    requires i < |lines|
    ensures Totals(lines[..i + 1]) == AddStats(Totals(lines[..i]), GetLineStats(lines[i]))
  {
    TotalsAppend(lines[..i], [lines[i]]);
    assert lines[..i + 1] == lines[..i] + [lines[i]];
    assert [lines[i]][1..] == [];
  }

  /** Summing line by line counts the same as counting all the segments of
      the lines at once. */
  lemma {:induction false} TotalsAreSegmentStats(lines: seq<TextLine>)
    ensures Totals(lines) == SegmentStats(AllSegments(lines))
  {
    if lines != [] {
      TotalsAreSegmentStats(lines[1..]);
      StatsAppend(lines[0].segments, AllSegments(lines[1..]));
    }
  }

  /** The rates of `getTotalStats` for the given counts. */
  function MakeTotals(stats: LineStats): (r: TotalStatsData)
    ensures r.totalCount == stats.totalCount && r.errorCount == stats.errorCount
    ensures stats.totalCount == 0 ==> r.correctRate == 100.0 && r.errorRate == 0.0
    ensures stats.totalCount > 0 ==>
      && r.errorRate * stats.totalCount as real == 100.0 * stats.errorCount as real
      && r.correctRate + r.errorRate == 100.0
  {
    var total, errors := stats.totalCount, stats.errorCount;
    var correctRate := if total > 0 then ((total - errors) as real / total as real) * 100.0 else 100.0;
    var errorRate := if total > 0 then (errors as real / total as real) * 100.0 else 0.0;
    TotalStatsData(total, errors, correctRate, errorRate)
  }

  /** When no more errors than segments are counted, both rates are
      percentages. */
  lemma RatesArePercentages(stats: LineStats)
    requires stats.errorCount <= stats.totalCount
    ensures 0.0 <= MakeTotals(stats).correctRate <= 100.0
    ensures 0.0 <= MakeTotals(stats).errorRate <= 100.0
  {
    var r := MakeTotals(stats);
    if stats.totalCount > 0 {
      var t, e := stats.totalCount as real, stats.errorCount as real;
      assert r.errorRate * t == 100.0 * e;
      assert 0.0 <= 100.0 * e <= 100.0 * t;
    }
  }

  /** `getTotalStats`: pick the scored lines, add up their counts in a loop,
      then derive the rates. */
  method GetTotalStats(lines: seq<TextLine>, startLine: Option<int>, endLine: Option<int>)
    returns (r: TotalStatsData)
    ensures r == MakeTotals(Totals(ScoredLines(lines, startLine, endLine)))
    ensures r.errorCount <= r.totalCount
    ensures 0.0 <= r.errorRate <= 100.0 && 0.0 <= r.correctRate <= 100.0
  {
    var filteredLines := lines;
    if startLine.Some? && startLine.value > 0 {
      var start := startLine.value - 1;
      var end := if endLine.Some? && endLine.value > 0 then endLine.value else |lines|;
      filteredLines := JsSlice(lines, start, end);
    }
    var totalCount: nat, errorCount: nat := 0, 0;
    for i := 0 to |filteredLines|
      invariant LineStats(totalCount, errorCount) == Totals(filteredLines[..i])
    {
      var stats := GetLineStats(filteredLines[i]);
      TotalsStep(filteredLines, i);
      totalCount := totalCount + stats.totalCount;
      errorCount := errorCount + stats.errorCount;
    }
    assert filteredLines[..|filteredLines|] == filteredLines;
    r := MakeTotals(LineStats(totalCount, errorCount));
    RatesArePercentages(LineStats(totalCount, errorCount));
  }

  // ---------------------------------------------------------------------
  // Examples

  /** On five lines, `(2, 4)` scores lines 2 to 4, `(2, null)` lines 2 to 5,
      `(0, 3)` all five, `(4, 2)` none and `(3, 10)` lines 3 to 5. */
  lemma RangeExamples(lines: seq<TextLine>)
    requires |lines| == 5
    ensures ScoredLines(lines, Some(2), Some(4)) == lines[1..4]
    ensures ScoredLines(lines, Some(2), None) == lines[1..]
    ensures ScoredLines(lines, Some(0), Some(3)) == lines
    ensures ScoredLines(lines, Some(4), Some(2)) == []
    ensures ScoredLines(lines, Some(3), Some(10)) == lines[2..]
  {
  }

  /** A text whose segments are all deleted scores 100% correct. */
  lemma AllDeletedExample(lines: seq<TextLine>)
    requires forall s :: s in AllSegments(lines) ==> s.isDeleted
    ensures MakeTotals(Totals(lines)) == TotalStatsData(0, 0, 100.0, 0.0)
  {
    TotalsAreSegmentStats(lines);
    ActiveMembers(AllSegments(lines));
  }
}
