/** The segmenter of src/composables/useTextParser.ts: raw text is split into
    lines, blank lines are dropped, and each kept line is cut into segments by
    the platform's word segmenter. Whitespace tokens are skipped, punctuation
    tokens are marked deleted, and every line and segment gets an id from one
    of two counters.

    The word segmenter (`Intl.Segmenter` for `zh-TW` at word granularity) is
    a foreign library; it enters the model as the function-valued field
    `segmenter`, about which nothing is assumed except where a lemma says so. */
module TextParser {
  import opened Types
  import opened JsText

  /** One `{ segment, index }` record produced by the word segmenter. */
  datatype Piece = Piece(segment: string, index: nat)

  type WordSegmenter = string -> seq<Piece>

  /** `seg-N` and `line-N`. */
  function SegmentId(n: nat): string { Mint("seg-", n) }
  function LineId(n: nat): string { Mint("line-", n) }

  /** Equal counters give equal ids; stated once so that proofs need not
      unfold the decimal rendering to see it. */
  lemma SameId(prefix: string, a: nat, b: nat)
    requires a == b
    ensures Mint(prefix, a) == Mint(prefix, b)
  {
  }

  // ---------------------------------------------------------------------
  // Punctuation

  /** The full-width class `，。、；：？！「」『』（）【】《》〈〉""''…—～·`.
      As written it holds the ASCII quotes `"` and `'`, not curly ones. */
  const ChinesePunctuation: set<char> := {
    '\U{FF0C}', '\U{3002}', '\U{3001}', '\U{FF1B}', '\U{FF1A}', '\U{FF1F}',
    '\U{FF01}', '\U{300C}', '\U{300D}', '\U{300E}', '\U{300F}', '\U{FF08}',
    '\U{FF09}', '\U{3010}', '\U{3011}', '\U{300A}', '\U{300B}', '\U{3008}',
    '\U{3009}', '"', '\'', '\U{2026}', '\U{2014}', '\U{FF5E}', '\U{00B7}'
  }

  /** The ASCII class ``.,;:?!'"()[]{}<>@#$%^&*-_+=|\/`~``. */
  const EnglishPunctuation: set<char> := {
    '.', ',', ';', ':', '?', '!', '\'', '"', '(', ')', '[', ']', '{', '}',
    '<', '>', '@', '#', '$', '%', '^', '&', '*', '-', '_', '+', '=', '|',
    '\\', '/', '`', '~'
  }

  /** `/^[class]+$/.test(s)`: non-empty and every character in the class. */
  predicate OnlyFrom(s: string, chars: set<char>) {
    |s| > 0 && forall i :: 0 <= i < |s| ==> s[i] in chars
  }

  /** `isPunctuation`: the whole token is a run of one of the two classes. */
  predicate IsPunctuation(s: string) {
    OnlyFrom(s, ChinesePunctuation) || OnlyFrom(s, EnglishPunctuation)
  }

  /** Neither class holds whitespace, so a token that is marked deleted as
      punctuation is never one that `tokenizeLine` skips as blank. */
  lemma PunctuationIsNeverWhitespace(s: string)
    requires IsPunctuation(s)
    ensures !IsWhitespaceToken(s)
  {
    var c := s[0];
    if OnlyFrom(s, ChinesePunctuation) {
      assert c in ChinesePunctuation;
    } else {
      assert c in EnglishPunctuation;
    }
    assert !IsWhitespace(c);
  }

  /** A token that mixes a character only the full-width class has with one
      only the ASCII class has is not punctuation. */
  lemma MixedTokenIsNotPunctuation(s: string, i: nat, j: nat)
    requires i < |s| && j < |s|
    requires s[i] in ChinesePunctuation - EnglishPunctuation
    requires s[j] in EnglishPunctuation - ChinesePunctuation
    ensures !IsPunctuation(s)
  {
  }

  /** A token with any character outside both classes is not punctuation. */
  lemma ForeignCharIsNotPunctuation(s: string, i: nat)
    requires i < |s|
    requires s[i] !in ChinesePunctuation && s[i] !in EnglishPunctuation
    ensures !IsPunctuation(s)
  {
  }

  /** Runs of either class are punctuation; the ASCII quote is in both. */
  lemma PunctuationExamples()
    ensures IsPunctuation("\U{FF0C}\U{3002}") && IsPunctuation("...") && IsPunctuation("\"")
  {
  }

  /** A word with a trailing mark and the empty token are not. */
  lemma NotPunctuationExamples()
    ensures !IsPunctuation("abc!") && !IsPunctuation("")
  {
    ForeignCharIsNotPunctuation("abc!", 0);
  }

  // ---------------------------------------------------------------------
  // Tokenising one line

  /** The segment pushed for a kept piece, with id `seg-n`. */
  function MakeSegment(p: Piece, n: nat): Segment
  {
    Segment(SegmentId(n), p.segment, false, IsPunctuation(p.segment),
            p.index, p.index + |p.segment|)
  }

  /** Equal counters give equal segments; the callers' counters are sums
      such as `counter + 1 + (k - 1) + 1`, and this spares the proofs from
      unfolding the id's decimal rendering to match them. */
  lemma SameSegment(p: Piece, a: nat, b: nat)
    requires a == b
    ensures MakeSegment(p, a) == MakeSegment(p, b)
  {
  }

  /** The pieces that survive the whitespace test, in their order. */
  function Kept(ps: seq<Piece>): (r: seq<Piece>)
    ensures |r| <= |ps|
  {
    if ps == [] then []
    else if IsWhitespaceToken(ps[0].segment) then Kept(ps[1..])
    else [ps[0]] + Kept(ps[1..])
  }

  /** Kept pieces are pieces of the input that pass the whitespace test, and
      every piece that passes it is kept. */
  lemma {:induction false} KeptMembers(ps: seq<Piece>)
    ensures forall k :: 0 <= k < |Kept(ps)| ==> Kept(ps)[k] in ps && !IsWhitespaceToken(Kept(ps)[k].segment)
    ensures forall i :: 0 <= i < |ps| && !IsWhitespaceToken(ps[i].segment) ==> ps[i] in Kept(ps)
  {
    if ps != [] {
      var tail, r := ps[1..], Kept(ps);
      KeptMembers(tail);
      var rest := Kept(tail);
      if IsWhitespaceToken(ps[0].segment) {
        assert r == rest;
        forall k | 0 <= k < |r| ensures r[k] in ps {
          InTail(ps, r[k]);
        }
        forall i | 0 <= i < |ps| && !IsWhitespaceToken(ps[i].segment) ensures ps[i] in r {
          assert ps[i] == tail[i - 1];
        }
      } else {
        assert r == [ps[0]] + rest;
        forall k | 0 <= k < |r| ensures r[k] in ps && !IsWhitespaceToken(r[k].segment) {
          if k > 0 {
            assert r[k] == rest[k - 1];
            InTail(ps, r[k]);
          }
        }
        forall i | 0 <= i < |ps| && !IsWhitespaceToken(ps[i].segment) ensures ps[i] in r {
          if i > 0 {
            assert ps[i] == tail[i - 1];
            assert ps[i] in rest;
          }
        }
      }
    }
  }

  /** What is in the tail is in the sequence. */
  lemma InTail<T>(xs: seq<T>, x: T)
    requires xs != [] && x in xs[1..]
    ensures x in xs
  {
    var m :| 0 <= m < |xs[1..]| && xs[1..][m] == x;
    assert xs[m + 1] == x;
  }

  /** What `tokenizeLine` returns for the segmenter's pieces `ps` when the
      segment counter stands at `counter`. */
  function Tokenized(ps: seq<Piece>, counter: nat): seq<Segment> {
    if ps == [] then []
    else if IsWhitespaceToken(ps[0].segment) then Tokenized(ps[1..], counter)
    else [MakeSegment(ps[0], counter + 1)] + Tokenized(ps[1..], counter + 1)
  }

  /** `segs` are the segments minted for the pieces `kept`, one each, in
      order, numbered `counter + 1`, `counter + 2`, ... */
  ghost predicate MintedFrom(segs: seq<Segment>, kept: seq<Piece>, counter: nat) {
    && |segs| == |kept|
    && forall k :: 0 <= k < |segs| ==> segs[k] == MakeSegment(kept[k], counter + k + 1)
  }

  lemma MintedCons(p: Piece, segs: seq<Segment>, kept: seq<Piece>, counter: nat)
    requires MintedFrom(segs, kept, counter + 1)
    ensures MintedFrom([MakeSegment(p, counter + 1)] + segs, [p] + kept, counter)
  {
    var all := [MakeSegment(p, counter + 1)] + segs;
    forall k | 1 <= k < |all| ensures all[k] == MakeSegment(([p] + kept)[k], counter + k + 1) {
      assert all[k] == segs[k - 1];
      SameSegment(kept[k - 1], counter + 1 + (k - 1) + 1, counter + k + 1);
    }
  }

  /** Tokenising emits one segment per kept piece, in order, and numbers them
      `counter + 1`, `counter + 2`, ... */
  lemma {:induction false} TokenizedShape(ps: seq<Piece>, counter: nat)
    ensures MintedFrom(Tokenized(ps, counter), Kept(ps), counter)
  {
    if ps != [] {
      if IsWhitespaceToken(ps[0].segment) {
        TokenizedShape(ps[1..], counter);
      } else {
        TokenizedShape(ps[1..], counter + 1);
        MintedCons(ps[0], Tokenized(ps[1..], counter + 1), Kept(ps[1..]), counter);
      }
    }
  }

  /** A segment as `tokenizeLine` emits it for one of the pieces `ps`: not
      whitespace-only, with the piece's text and index, ending `|text|` after
      it starts, not an error, and deleted exactly when it is punctuation. */
  ghost predicate FromPiece(s: Segment, ps: seq<Piece>) {
    && !IsWhitespaceToken(s.text)
    && Piece(s.text, s.startIndex) in ps
    && s.endIndex == s.startIndex + |s.text|
    && !s.isError
    && s.isDeleted == IsPunctuation(s.text)
  }

  /** The segments carry the ids `seg-(counter + 1)`, `seg-(counter + 2)`, ... */
  ghost predicate NumberedFrom(segs: seq<Segment>, counter: nat) {
    forall j :: 0 <= j < |segs| ==> segs[j].id == SegmentId(counter + j + 1)
  }

  /** Every emitted segment comes from a piece as `FromPiece` says, and the
      ids count on from `counter`. */
  lemma TokenizedSegments(ps: seq<Piece>, counter: nat)
    ensures forall k :: 0 <= k < |Tokenized(ps, counter)| ==> FromPiece(Tokenized(ps, counter)[k], ps)
    ensures NumberedFrom(Tokenized(ps, counter), counter)
  {
    TokenizedShape(ps, counter);
    KeptMembers(ps);
  }

  /** Ids minted in one run of the counter are pairwise distinct. */
  lemma NumberedDistinct(segs: seq<Segment>, counter: nat)
    requires NumberedFrom(segs, counter)
    ensures forall k, l :: 0 <= k < l < |segs| ==> segs[k].id != segs[l].id
  {
    forall k, l | 0 <= k < l < |segs| ensures segs[k].id != segs[l].id {
      if segs[k].id == segs[l].id {
        assert Mint("seg-", counter + k + 1) == Mint("seg-", counter + l + 1);
        MintInjective("seg-", counter + k + 1, counter + l + 1);
      }
    }
  }

  lemma TokenizedIdsDistinct(ps: seq<Piece>, counter: nat)
    ensures forall k, l :: 0 <= k < l < |Tokenized(ps, counter)| ==>
      Tokenized(ps, counter)[k].id != Tokenized(ps, counter)[l].id
  {
    TokenizedSegments(ps, counter);
    NumberedDistinct(Tokenized(ps, counter), counter);
  }

  /** What a word segmenter reports for `text` in the way `Intl.Segmenter`
      does: each piece is the slice of `text` at its index, and pieces come
      left to right without overlapping. */
  ghost predicate WellFormedPieces(text: string, ps: seq<Piece>) {
    && (forall p :: p in ps ==> PieceInText(text, p))
    && Ordered(ps)
  }

  /** Each piece ends at or before the start of every later one. */
  ghost predicate Ordered(ps: seq<Piece>) {
    forall i, j :: 0 <= i < j < |ps| ==> Precedes(ps[i], ps[j])
  }

  /** The piece is the slice of `text` at its index. */
  ghost predicate PieceInText(text: string, p: Piece) {
    p.index + |p.segment| <= |text| && text[p.index .. p.index + |p.segment|] == p.segment
  }

  /** `p` ends at or before the index where `q` starts. */
  predicate Precedes(p: Piece, q: Piece) {
    p.index + |p.segment| <= q.index
  }

  lemma {:induction false} KeptOrdered(ps: seq<Piece>)
    requires Ordered(ps)
    ensures Ordered(Kept(ps))
  {
    if ps != [] {
      var tail := ps[1..];
      assert Ordered(tail) by {
        forall i, j | 0 <= i < j < |tail| ensures Precedes(tail[i], tail[j]) {
          assert tail[i] == ps[i + 1] && tail[j] == ps[j + 1];
        }
      }
      KeptOrdered(tail);
      if !IsWhitespaceToken(ps[0].segment) {
        var rest := Kept(tail);
        KeptMembers(tail);
        forall m | 0 <= m < |rest| ensures Precedes(ps[0], rest[m]) {
          var n :| 0 <= n < |tail| && tail[n] == rest[m];
          assert ps[n + 1] == rest[m];
        }
        OrderedCons(ps[0], rest);
      }
    }
  }

  /** A piece that precedes every piece of an ordered list can go in front. */
  lemma OrderedCons(p: Piece, rest: seq<Piece>)
    requires Ordered(rest)
    requires forall m :: 0 <= m < |rest| ==> Precedes(p, rest[m])
    ensures Ordered([p] + rest)
  {
    var r := [p] + rest;
    forall i, j | 0 <= i < j < |r| ensures Precedes(r[i], r[j]) {
      assert r[j] == rest[j - 1];
      if i > 0 {
        assert r[i] == rest[i - 1];
      }
    }
  }

  lemma KeptWellFormed(text: string, ps: seq<Piece>)
    requires WellFormedPieces(text, ps)
    ensures WellFormedPieces(text, Kept(ps))
  {
    KeptMembers(ps);
    KeptOrdered(ps);
  }

  /** Offsets of a line's segments: each lies inside the line and spells the
      segment's text there, and consecutive segments do not overlap. */
  ghost predicate OffsetsValid(text: string, segs: seq<Segment>) {
    && (forall k :: 0 <= k < |segs| ==> SegmentInText(text, segs[k]))
    && (forall k, l :: 0 <= k < l < |segs| ==> segs[k].endIndex <= segs[l].startIndex)
  }

  ghost predicate SegmentInText(text: string, s: Segment) {
    s.startIndex <= s.endIndex <= |text| && text[s.startIndex .. s.endIndex] == s.text
  }

  lemma TokenizedOffsets(text: string, ps: seq<Piece>, counter: nat)
    requires WellFormedPieces(text, ps)
    ensures OffsetsValid(text, Tokenized(ps, counter))
  {
    TokenizedShape(ps, counter);
    KeptWellFormed(text, ps);
    var segs, kept := Tokenized(ps, counter), Kept(ps);
    forall k | 0 <= k < |segs| ensures SegmentInText(text, segs[k]) {
      assert kept[k] in kept;
      assert PieceInText(text, kept[k]);
    }
    forall k, l | 0 <= k < l < |segs| ensures segs[k].endIndex <= segs[l].startIndex {
      assert Precedes(kept[k], kept[l]);
    }
  }

  // ---------------------------------------------------------------------
  // Parsing a whole text

  /** `line.trim() === ''`. */
  predicate IsBlank(line: string) {
    Trim(line) == []
  }

  /** The rows that are kept, in their order. */
  function NonBlank(rows: seq<string>): (r: seq<string>)
    ensures |r| <= |rows|
  {
    if rows == [] then []
    else if IsBlank(rows[0]) then NonBlank(rows[1..])
    else [rows[0]] + NonBlank(rows[1..])
  }

  /** Kept rows are non-blank rows of the input, and every non-blank row is
      kept. */
  lemma {:induction false} NonBlankMembers(rows: seq<string>)
    ensures forall k :: 0 <= k < |NonBlank(rows)| ==> NonBlank(rows)[k] in rows && !IsBlank(NonBlank(rows)[k])
    ensures forall i :: 0 <= i < |rows| && !IsBlank(rows[i]) ==> rows[i] in NonBlank(rows)
  {
    if rows != [] {
      var tail, r := rows[1..], NonBlank(rows);
      NonBlankMembers(tail);
      var rest := NonBlank(tail);
      if IsBlank(rows[0]) {
        assert r == rest;
        forall k | 0 <= k < |r| ensures r[k] in rows {
          InTail(rows, r[k]);
        }
        forall i | 0 <= i < |rows| && !IsBlank(rows[i]) ensures rows[i] in r {
          assert rows[i] == tail[i - 1];
        }
      } else {
        assert r == [rows[0]] + rest;
        forall k | 0 <= k < |r| ensures r[k] in rows && !IsBlank(r[k]) {
          if k > 0 {
            assert r[k] == rest[k - 1];
            InTail(rows, r[k]);
          }
        }
        forall i | 0 <= i < |rows| && !IsBlank(rows[i]) ensures rows[i] in r {
          if i > 0 {
            assert rows[i] == tail[i - 1];
            assert rows[i] in rest;
          }
        }
      }
    }
  }

  /** What the loop of `parseText` produces from `rows` when the line and
      segment counters stand at `lineCounter` and `segCounter`. */
  function BuildLines(segmenter: WordSegmenter, rows: seq<string>, lineCounter: nat, segCounter: nat): seq<TextLine>
  {
    if rows == [] then []
    else if IsBlank(rows[0]) then BuildLines(segmenter, rows[1..], lineCounter, segCounter)
    else
      var segs := Tokenized(segmenter(rows[0]), segCounter);
      [TextLine(LineId(lineCounter + 1), rows[0], segs)]
        + BuildLines(segmenter, rows[1..], lineCounter + 1, segCounter + |segs|)
  }

  /** What `parseText(text)` returns: counters start from zero. */
  function Parse(segmenter: WordSegmenter, text: string): seq<TextLine> {
    BuildLines(segmenter, Split(text), 0, 0)
  }

  /** `lines` hold the rows `kept`, in order, with the ids
      `line-(lineCounter + 1)`, `line-(lineCounter + 2)`, ... */
  ghost predicate LinesMatchRows(lines: seq<TextLine>, kept: seq<string>, lineCounter: nat) {
    && |lines| == |kept|
    && forall k :: 0 <= k < |lines| ==>
         lines[k].originalText == kept[k] && lines[k].id == LineId(lineCounter + k + 1)
  }

  /** Each line's segments are the tokenisation of its own text: the first
      line's numbered on from `counter`, each later line's numbered on from
      the last segment of the line above it. */
  ghost predicate EachLineTokenized(segmenter: WordSegmenter, lines: seq<TextLine>, counter: nat)
    decreases |lines|
  {
    lines != [] ==>
      && lines[0].segments == Tokenized(segmenter(lines[0].originalText), counter)
      && EachLineTokenized(segmenter, lines[1..], counter + |lines[0].segments|)
  }

  ghost predicate AllOffsetsValid(lines: seq<TextLine>) {
    forall k :: 0 <= k < |lines| ==> OffsetsValid(lines[k].originalText, lines[k].segments)
  }

  /** One line per non-blank row, in order, with the row as its text and
      consecutive line ids. */
  lemma {:induction false} BuildLinesShape(segmenter: WordSegmenter, rows: seq<string>, lineCounter: nat, segCounter: nat)
    ensures LinesMatchRows(BuildLines(segmenter, rows, lineCounter, segCounter), NonBlank(rows), lineCounter)
  {
    if rows != [] {
      var lines := BuildLines(segmenter, rows, lineCounter, segCounter);
      if IsBlank(rows[0]) {
        assert lines == BuildLines(segmenter, rows[1..], lineCounter, segCounter);
        assert NonBlank(rows) == NonBlank(rows[1..]);
        BuildLinesShape(segmenter, rows[1..], lineCounter, segCounter);
      } else {
        var segs := Tokenized(segmenter(rows[0]), segCounter);
        var rest := BuildLines(segmenter, rows[1..], lineCounter + 1, segCounter + |segs|);
        BuildLinesShape(segmenter, rows[1..], lineCounter + 1, segCounter + |segs|);
        assert lines == [TextLine(LineId(lineCounter + 1), rows[0], segs)] + rest;
        assert NonBlank(rows) == [rows[0]] + NonBlank(rows[1..]);
        LinesMatchCons(lines[0], rest, rows[0], NonBlank(rows[1..]), lineCounter);
      }
    }
  }

  /** Putting one more matching line in front keeps the match. */
  lemma LinesMatchCons(line: TextLine, rest: seq<TextLine>, row: string, kept: seq<string>, lineCounter: nat)
    requires LinesMatchRows(rest, kept, lineCounter + 1)
    requires line.originalText == row && line.id == LineId(lineCounter + 1)
    ensures LinesMatchRows([line] + rest, [row] + kept, lineCounter)
  {
    var lines := [line] + rest;
    forall k | 1 <= k < |lines|
      ensures lines[k].originalText == ([row] + kept)[k] && lines[k].id == LineId(lineCounter + k + 1)
    {
      assert lines[k] == rest[k - 1];
      SameId("line-", lineCounter + 1 + (k - 1) + 1, lineCounter + k + 1);
    }
  }

  lemma {:induction false} BuildLinesSegments(segmenter: WordSegmenter, rows: seq<string>, lineCounter: nat, segCounter: nat)
    ensures EachLineTokenized(segmenter, BuildLines(segmenter, rows, lineCounter, segCounter), segCounter)
  {
    if rows != [] {
      var lines := BuildLines(segmenter, rows, lineCounter, segCounter);
      if IsBlank(rows[0]) {
        assert lines == BuildLines(segmenter, rows[1..], lineCounter, segCounter);
        BuildLinesSegments(segmenter, rows[1..], lineCounter, segCounter);
      } else {
        var segs := Tokenized(segmenter(rows[0]), segCounter);
        var rest := BuildLines(segmenter, rows[1..], lineCounter + 1, segCounter + |segs|);
        BuildLinesSegments(segmenter, rows[1..], lineCounter + 1, segCounter + |segs|);
        assert lines == [TextLine(LineId(lineCounter + 1), rows[0], segs)] + rest;
        assert lines[1..] == rest;
      }
    }
  }

  /** Every segment of lines tokenised in this way is a non-blank piece the
      word segmenter found in the segment's own line. */
  lemma {:induction false} TokenizedLinesFromPieces(segmenter: WordSegmenter, lines: seq<TextLine>, counter: nat)
    requires EachLineTokenized(segmenter, lines, counter)
    ensures forall line, s :: line in lines && s in line.segments ==>
      FromPiece(s, segmenter(line.originalText))
    decreases |lines|
  {
    if lines != [] {
      TokenizedLinesFromPieces(segmenter, lines[1..], counter + |lines[0].segments|);
      TokenizedSegments(segmenter(lines[0].originalText), counter);
      forall line, s | line in lines && s in line.segments
        ensures FromPiece(s, segmenter(line.originalText))
      {
        if line != lines[0] {
          assert line in lines[1..];
        } else {
          var j :| 0 <= j < |line.segments| && line.segments[j] == s;
        }
      }
    }
  }

  /** Across all lines, the segment ids run on from `segCounter` in reading
      order. */
  lemma {:induction false} BuildLinesSegmentIds(segmenter: WordSegmenter, rows: seq<string>, lineCounter: nat, segCounter: nat)
    ensures NumberedFrom(AllSegments(BuildLines(segmenter, rows, lineCounter, segCounter)), segCounter)
  {
    if rows != [] {
      var lines := BuildLines(segmenter, rows, lineCounter, segCounter);
      if IsBlank(rows[0]) {
        assert lines == BuildLines(segmenter, rows[1..], lineCounter, segCounter);
        BuildLinesSegmentIds(segmenter, rows[1..], lineCounter, segCounter);
      } else {
        var segs := Tokenized(segmenter(rows[0]), segCounter);
        var rest := BuildLines(segmenter, rows[1..], lineCounter + 1, segCounter + |segs|);
        BuildLinesSegmentIds(segmenter, rows[1..], lineCounter + 1, segCounter + |segs|);
        TokenizedSegments(segmenter(rows[0]), segCounter);
        assert lines == [TextLine(LineId(lineCounter + 1), rows[0], segs)] + rest;
        assert lines[1..] == rest;
        var all := AllSegments(lines);
        assert all == segs + AllSegments(rest);
        forall j | 0 <= j < |all| ensures all[j].id == SegmentId(segCounter + j + 1) {
          if j < |segs| {
            assert all[j] == segs[j];
          } else {
            assert all[j] == AllSegments(rest)[j - |segs|];
          }
        }
      }
    }
  }

  lemma {:induction false} BuildLinesOffsets(segmenter: WordSegmenter, rows: seq<string>, lineCounter: nat, segCounter: nat)
    requires forall row :: row in rows ==> WellFormedPieces(row, segmenter(row))
    ensures AllOffsetsValid(BuildLines(segmenter, rows, lineCounter, segCounter))
  {
    if rows != [] {
      var lines := BuildLines(segmenter, rows, lineCounter, segCounter);
      assert forall row :: row in rows[1..] ==> row in rows;
      if IsBlank(rows[0]) {
        assert lines == BuildLines(segmenter, rows[1..], lineCounter, segCounter);
        BuildLinesOffsets(segmenter, rows[1..], lineCounter, segCounter);
      } else {
        var segs := Tokenized(segmenter(rows[0]), segCounter);
        var rest := BuildLines(segmenter, rows[1..], lineCounter + 1, segCounter + |segs|);
        BuildLinesOffsets(segmenter, rows[1..], lineCounter + 1, segCounter + |segs|);
        TokenizedOffsets(rows[0], segmenter(rows[0]), segCounter);
        assert lines == [TextLine(LineId(lineCounter + 1), rows[0], segs)] + rest;
        forall k | 0 <= k < |lines|
          ensures OffsetsValid(lines[k].originalText, lines[k].segments)
        {
          if k > 0 {
            assert lines[k] == rest[k - 1];
          }
        }
      }
    }
  }

  /** `parseText` emits one line per non-blank piece of `text.split('\n')`,
      in order, holding that piece verbatim, with ids `line-1 ... line-n`. */
  lemma ParseLines(segmenter: WordSegmenter, text: string)
    ensures LinesMatchRows(Parse(segmenter, text), NonBlank(Split(text)), 0)
    ensures forall k :: 0 <= k < |Parse(segmenter, text)| ==> Parse(segmenter, text)[k].id == LineId(k + 1)
  {
    var lines := Parse(segmenter, text);
    BuildLinesShape(segmenter, Split(text), 0, 0);
    forall k | 0 <= k < |lines| ensures lines[k].id == LineId(k + 1) {
      assert lines[k].id == LineId(0 + k + 1);
      SameId("line-", 0 + k + 1, k + 1);
    }
  }

  /** No kept line is blank, and no row of the input that is not blank is
      lost. */
  lemma ParseDropsBlankLines(segmenter: WordSegmenter, text: string)
    ensures forall line :: line in Parse(segmenter, text) ==>
      line.originalText in Split(text) && !AllWhitespace(line.originalText)
    ensures forall row :: row in Split(text) && !AllWhitespace(row) ==>
      exists line :: line in Parse(segmenter, text) && line.originalText == row
  {
    var lines := Parse(segmenter, text);
    var kept := NonBlank(Split(text));
    ParseLines(segmenter, text);
    NonBlankMembers(Split(text));
    forall line | line in lines
      ensures line.originalText in Split(text) && !AllWhitespace(line.originalText)
    {
      var k :| 0 <= k < |lines| && lines[k] == line;
      assert line.originalText == kept[k];
      TrimEmptyIffAllWhitespace(line.originalText);
    }
    forall row | row in Split(text) && !AllWhitespace(row)
      ensures exists line :: line in lines && line.originalText == row
    {
      var i :| 0 <= i < |Split(text)| && Split(text)[i] == row;
      TrimEmptyIffAllWhitespace(row);
      var k :| 0 <= k < |kept| && kept[k] == row;
      assert lines[k] in lines && lines[k].originalText == row;
    }
  }

  /** The segment ids of one parse are `seg-1 ... seg-m` in reading order, so
      they strictly increase and are pairwise distinct. */
  lemma ParseSegmentIds(segmenter: WordSegmenter, text: string)
    ensures NumberedFrom(AllSegments(Parse(segmenter, text)), 0)
    ensures var all := AllSegments(Parse(segmenter, text));
      forall i, j :: 0 <= i < j < |all| ==> all[i].id != all[j].id
  {
    BuildLinesSegmentIds(segmenter, Split(text), 0, 0);
    NumberedDistinct(AllSegments(Parse(segmenter, text)), 0);
  }

  /** Each parsed line holds the tokenisation of its own text, numbered after
      the segments of the lines above it, so every segment is a non-blank
      piece the word segmenter found in that line. */
  lemma ParseSegments(segmenter: WordSegmenter, text: string)
    ensures EachLineTokenized(segmenter, Parse(segmenter, text), 0)
    ensures forall line, s :: line in Parse(segmenter, text) && s in line.segments ==>
      FromPiece(s, segmenter(line.originalText))
  {
    BuildLinesSegments(segmenter, Split(text), 0, 0);
    TokenizedLinesFromPieces(segmenter, Parse(segmenter, text), 0);
  }

  /** Every segment of every parsed line is well placed in that line's text,
      whenever the word segmenter reports its pieces as `Intl.Segmenter` does. */
  lemma ParseOffsets(segmenter: WordSegmenter, text: string)
    requires forall row :: row in Split(text) ==> WellFormedPieces(row, segmenter(row))
    ensures forall line :: line in Parse(segmenter, text) ==> OffsetsValid(line.originalText, line.segments)
  {
    BuildLinesOffsets(segmenter, Split(text), 0, 0);
    var lines := Parse(segmenter, text);
    forall line | line in lines ensures OffsetsValid(line.originalText, line.segments) {
      var k :| 0 <= k < |lines| && lines[k] == line;
    }
  }

  /** `parseText("")` is empty, and `"a\n\nb"` gives exactly two lines. */
  lemma ParseExamples(segmenter: WordSegmenter)
    ensures Parse(segmenter, "") == []
    ensures |Parse(segmenter, "a\n\nb")| == 2
  {
    assert Split("") == [""];
    var rows := ["a", "", "b"];
    assert Join(rows) == "a\n\nb" by {
      assert rows[1..] == ["", "b"] && rows[1..][1..] == ["b"];
    }
    assert forall k :: 0 <= k < |rows| ==> NoNewline(rows[k]);
    SplitJoin(rows);
    assert !IsWhitespace('a') && !IsWhitespace('b');
    assert TrimStart("a") == "a" && TrimEnd("a") == "a";
    assert TrimStart("b") == "b" && TrimEnd("b") == "b";
    BuildLinesShape(segmenter, rows, 0, 0);
    assert NonBlank(rows) == ["a", "b"] by {
      assert rows[1..] == ["", "b"];
      assert rows[1..][1..] == ["b"];
      assert rows[1..][1..][1..] == [];
    }
  }

  // ---------------------------------------------------------------------
  // One iteration of each loop

  /** One iteration of the loop of `tokenizeLine` on a piece it keeps, and
      on a piece it skips. */
  lemma TokenizedKeep(ps: seq<Piece>, i: nat, counter: nat)
    requires i < |ps| && !IsWhitespaceToken(ps[i].segment)
    ensures Tokenized(ps[i..], counter)
      == [MakeSegment(ps[i], counter + 1)] + Tokenized(ps[i + 1..], counter + 1)
  {
    assert ps[i..][1..] == ps[i + 1..];
  }

  lemma TokenizedSkip(ps: seq<Piece>, i: nat, counter: nat)
    requires i < |ps| && IsWhitespaceToken(ps[i].segment)
    ensures Tokenized(ps[i..], counter) == Tokenized(ps[i + 1..], counter)
  {
    assert ps[i..][1..] == ps[i + 1..];
  }

  /** One iteration of the loop of `parseText` on a row it keeps, and on a
      row it skips. */
  lemma BuildLinesKeep(segmenter: WordSegmenter, rows: seq<string>, i: nat, lineCounter: nat, segCounter: nat)
    requires i < |rows| && !IsBlank(rows[i])
    ensures BuildLines(segmenter, rows[i..], lineCounter, segCounter)
      == [TextLine(LineId(lineCounter + 1), rows[i], Tokenized(segmenter(rows[i]), segCounter))]
         + BuildLines(segmenter, rows[i + 1..], lineCounter + 1, segCounter + |Tokenized(segmenter(rows[i]), segCounter)|)
  {
    assert rows[i..][1..] == rows[i + 1..];
  }

  lemma BuildLinesSkip(segmenter: WordSegmenter, rows: seq<string>, i: nat, lineCounter: nat, segCounter: nat)
    requires i < |rows| && IsBlank(rows[i])
    ensures BuildLines(segmenter, rows[i..], lineCounter, segCounter)
      == BuildLines(segmenter, rows[i + 1..], lineCounter, segCounter)
  {
    assert rows[i..][1..] == rows[i + 1..];
  }

  /** The bookkeeping of one kept piece in the loop of `tokenizeLine`. */
  lemma TokenizeLineStep(ps: seq<Piece>, i: nat, target: seq<Segment>, before: seq<Segment>, c: nat,
                         segment: Segment, c': nat)
    requires i < |ps| && !IsWhitespaceToken(ps[i].segment)
    requires target == before + Tokenized(ps[i..], c)
    requires segment == Segment(SegmentId(c + 1), ps[i].segment, false, IsPunctuation(ps[i].segment),
                                ps[i].index, ps[i].index + |ps[i].segment|)
    requires c' == c + 1
    ensures target == (before + [segment]) + Tokenized(ps[i + 1..], c')
  {
    TokenizedKeep(ps, i, c);
    assert segment == MakeSegment(ps[i], c + 1);
    ghost var after := Tokenized(ps[i + 1..], c');
    assert before + ([segment] + after) == (before + [segment]) + after;
  }

  /** The bookkeeping of one kept row in the loop of `parseText`: the lines
      built so far grow by one, and the segment count by that line's. */
  lemma ParseTextStep(segmenter: WordSegmenter, rows: seq<string>, i: nat, target: seq<TextLine>,
                      before: seq<TextLine>, lc: nat, sc: nat, line: TextLine, lc': nat, sc': nat)
    requires i < |rows| && !IsBlank(rows[i])
    requires target == before + BuildLines(segmenter, rows[i..], lc, sc)
    requires line == TextLine(LineId(lc + 1), rows[i], Tokenized(segmenter(rows[i]), sc))
    requires lc' == lc + 1 && sc' == sc + |line.segments|
    ensures target == (before + [line]) + BuildLines(segmenter, rows[i + 1..], lc', sc')
  {
    ghost var after := BuildLines(segmenter, rows[i + 1..], lc', sc');
    assert BuildLines(segmenter, rows[i..], lc, sc) == [line] + after by {
      BuildLinesKeep(segmenter, rows, i, lc, sc);
    }
    assert before + ([line] + after) == (before + [line]) + after;
  }

  // ---------------------------------------------------------------------
  // The module state

  /** `existingLineId || generateLineId()` keeps the given id only when it is
      a non-empty string. */
  predicate Truthy(existingLineId: Option<string>) {
    existingLineId.Some? && existingLineId.value != ""
  }

  /** The module-level counters `segmentIdCounter` and `lineIdCounter`, and
      the operations that read and advance them. */
  class Parser {
    const segmenter: WordSegmenter
    var segmentIdCounter: nat
    var lineIdCounter: nat

    constructor(segmenter: WordSegmenter)
      ensures this.segmenter == segmenter
      ensures segmentIdCounter == 0 && lineIdCounter == 0
    {
      this.segmenter := segmenter;
      segmentIdCounter := 0;
      lineIdCounter := 0;
    }

    method GenerateSegmentId() returns (id: string)
      modifies this
      ensures segmentIdCounter == old(segmentIdCounter) + 1
      ensures id == SegmentId(segmentIdCounter)
      ensures lineIdCounter == old(lineIdCounter)
    {
      segmentIdCounter := segmentIdCounter + 1;
      id := Mint("seg-", segmentIdCounter);
    }

    method GenerateLineId() returns (id: string)
      modifies this
      ensures lineIdCounter == old(lineIdCounter) + 1
      ensures id == LineId(lineIdCounter)
      ensures segmentIdCounter == old(segmentIdCounter)
    {
      lineIdCounter := lineIdCounter + 1;
      id := Mint("line-", lineIdCounter);
    }

    method ResetIdCounters()
      modifies this
      ensures segmentIdCounter == 0 && lineIdCounter == 0
    {
      segmentIdCounter := 0;
      lineIdCounter := 0;
    }

    /** `tokenizeLine`: one segment per non-whitespace piece, each minting
        the next segment id. */
    method TokenizeLine(text: string) returns (segments: seq<Segment>)
      modifies this
      ensures segments == Tokenized(segmenter(text), old(segmentIdCounter))
      ensures segmentIdCounter == old(segmentIdCounter) + |segments|
      ensures lineIdCounter == old(lineIdCounter)
    {
      var pieces := segmenter(text);
      segments := [];
      ghost var target := Tokenized(pieces, segmentIdCounter);
      assert pieces[0..] == pieces;
      for i := 0 to |pieces|
        invariant lineIdCounter == old(lineIdCounter)
        invariant segmentIdCounter == old(segmentIdCounter) + |segments|
        invariant target == segments + Tokenized(pieces[i..], segmentIdCounter)
      {
        ghost var before, c := segments, segmentIdCounter;
        var piece := pieces[i];
        if IsWhitespaceToken(piece.segment) {
          TokenizedSkip(pieces, i, c);
        } else {
          var isDeleted := IsPunctuation(piece.segment);
          var id := GenerateSegmentId();
          SameId("seg-", segmentIdCounter, c + 1);
          var segment := Segment(id, piece.segment, false, isDeleted, piece.index, piece.index + |piece.segment|);
          TokenizeLineStep(pieces, i, target, before, c, segment, segmentIdCounter);
          segments := segments + [segment];
        }
      }
      assert pieces[|pieces|..] == [];
      assert Tokenized([], segmentIdCounter) == [];
    }

    /** `parseText`: reset both counters, then build one line per non-blank
        piece of `text.split('\n')`. */
    method ParseText(text: string) returns (lines: seq<TextLine>)
      modifies this
      ensures lines == Parse(segmenter, text)
      ensures forall k :: 0 <= k < |lines| ==> lines[k].id == LineId(k + 1)
      ensures lineIdCounter == |lines|
      ensures segmentIdCounter == |AllSegments(lines)|
    {
      ResetIdCounters();
      var rows := Split(text);
      lines := [];
      ghost var target := Parse(segmenter, text);
      assert rows[0..] == rows;
      for i := 0 to |rows|
        invariant lineIdCounter == |lines|
        invariant segmentIdCounter == |AllSegments(lines)|
        invariant target == lines + BuildLines(segmenter, rows[i..], lineIdCounter, segmentIdCounter)
      {
        ghost var before, lc, sc := lines, lineIdCounter, segmentIdCounter;
        var row := rows[i];
        if IsBlank(row) {
          BuildLinesSkip(segmenter, rows, i, lc, sc);
        } else {
          var id := GenerateLineId();
          SameId("line-", lineIdCounter, lc + 1);
          var segments := TokenizeLine(row);
          var line := TextLine(id, row, segments);
          ParseTextStep(segmenter, rows, i, target, before, lc, sc, line, lineIdCounter, segmentIdCounter);
          AllSegmentsSnoc(before, line);
          lines := lines + [line];
        }
      }
      assert rows[|rows|..] == [];
      assert BuildLines(segmenter, [], lineIdCounter, segmentIdCounter) == [];
      assert lines + [] == lines;
      ParseLines(segmenter, text);
    }

    /** `reParseLine`: no reset; the caller's id is kept when it is a
        non-empty string, otherwise the next line id is minted; the segments
        are always minted afresh. */
    method ReParseLine(text: string, existingLineId: Option<string>) returns (line: TextLine)
      modifies this
      ensures line.originalText == text
      ensures line.id == if Truthy(existingLineId) then existingLineId.value
                         else LineId(old(lineIdCounter) + 1)
      ensures lineIdCounter == old(lineIdCounter) + if Truthy(existingLineId) then 0 else 1
      ensures line.segments == Tokenized(segmenter(text), old(segmentIdCounter))
      ensures segmentIdCounter == old(segmentIdCounter) + |line.segments|
    {
      var id: string;
      if Truthy(existingLineId) {
        id := existingLineId.value;
      } else {
        id := GenerateLineId();
      }
      var segments := TokenizeLine(text);
      line := TextLine(id, text, segments);
    }
  }
}
