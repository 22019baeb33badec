/** The records shared by the segmenter, the scoring engine and the undo
    history (src/types/index.ts and the HistoryState record of
    src/composables/useHistory.ts). All of them are immutable values, so a
    snapshot that holds them is independent of any later edit by construction. */
module Types {

  /** `T | null` (and an omitted optional argument) in the source. */
  datatype Option<+T> = None | Some(value: T)

  /** One token of a line. `isDeleted` excludes it from scoring without
      removing it; `startIndex`/`endIndex` are offsets into the line's text. */
  datatype Segment = Segment(
    id: string,
    text: string,
    isError: bool,
    isDeleted: bool,
    startIndex: nat,
    endIndex: nat)

  /** One non-blank row of the input with its tokens, left to right. */
  datatype TextLine = TextLine(id: string, originalText: string, segments: seq<Segment>)

  datatype LineStats = LineStats(totalCount: nat, errorCount: nat)

  /** Rates are percentages; they are exact rationals here, not doubles. */
  datatype TotalStatsData = TotalStatsData(
    totalCount: nat,
    errorCount: nat,
    correctRate: real,
    errorRate: real)

  /** One undo snapshot: the lines and the selection at the time of the edit. */
  datatype HistoryState = HistoryState(
    lines: seq<TextLine>,
    selectedLineId: Option<string>,
    selectedSegmentId: Option<string>)

  /** The segments of all lines, line after line. */
  function AllSegments(lines: seq<TextLine>): seq<Segment> {
    if lines == [] then [] else lines[0].segments + AllSegments(lines[1..])
  }

  lemma {:induction false} AllSegmentsAppend(a: seq<TextLine>, b: seq<TextLine>)
    ensures AllSegments(a + b) == AllSegments(a) + AllSegments(b)
  {
    if a != [] {
      assert (a + b)[1..] == a[1..] + b;
      AllSegmentsAppend(a[1..], b);
    } else {
      assert a + b == b;
    }
  }

  /** Appending a line appends its segments. */
  lemma AllSegmentsSnoc(before: seq<TextLine>, line: TextLine)
    ensures |AllSegments(before + [line])| == |AllSegments(before)| + |line.segments|
  {
    AllSegmentsAppend(before, [line]);
    assert AllSegments([line]) == line.segments + AllSegments([]);
  }
}
