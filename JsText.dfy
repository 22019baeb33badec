/** The JavaScript string primitives the segmenter relies on: the whitespace
    class shared by `String.prototype.trim` and the regular-expression escape
    `\s`, `trim()` itself, `split('\n')`, and the decimal rendering of a
    number inside a template literal (used for the `seg-N` / `line-N` ids).
    Strings are sequences of code points. */
module JsText {

  /** ECMAScript WhiteSpace and LineTerminator code points: the set both
      `trim()` and `\s` use (the Zs category as of Unicode 15). */
  predicate IsWhitespace(c: char) {
    c == '\t' || c == '\n' || c == '\r' || c == ' ' ||
    c == '\U{000B}' || c == '\U{000C}' || c == '\U{00A0}' || c == '\U{1680}' ||
    ('\U{2000}' <= c <= '\U{200A}') ||
    c == '\U{2028}' || c == '\U{2029}' || c == '\U{202F}' || c == '\U{205F}' ||
    c == '\U{3000}' || c == '\U{FEFF}'
  }

  predicate AllWhitespace(s: string) {
    forall i :: 0 <= i < |s| ==> IsWhitespace(s[i])
  }

  /** `/^\s+$/.test(s)`: at least one character, and only whitespace. */
  predicate IsWhitespaceToken(s: string) {
    |s| > 0 && AllWhitespace(s)
  }

  function TrimStart(s: string): string {
    if s != [] && IsWhitespace(s[0]) then TrimStart(s[1..]) else s
  }

  function TrimEnd(s: string): string {
    if s != [] && IsWhitespace(s[|s| - 1]) then TrimEnd(s[..|s| - 1]) else s
  }

  /** `s.trim()`: whitespace removed from both ends. */
  function Trim(s: string): string {
    TrimEnd(TrimStart(s))
  }

  lemma {:induction false} TrimStartFacts(s: string)
    ensures TrimStart(s) == [] <==> AllWhitespace(s)
    ensures TrimStart(s) != [] ==> !IsWhitespace(TrimStart(s)[0])
  {
    if s != [] && IsWhitespace(s[0]) {
      TrimStartFacts(s[1..]);
      if AllWhitespace(s[1..]) {
        forall i | 0 <= i < |s| ensures IsWhitespace(s[i]) {
          if i > 0 { assert s[i] == s[1..][i - 1]; }
        }
      }
    }
  }

  lemma {:induction false} TrimEndEmpty(s: string)
    ensures TrimEnd(s) == [] <==> AllWhitespace(s)
  {
    if s != [] && IsWhitespace(s[|s| - 1]) {
      var init := s[..|s| - 1];
      TrimEndEmpty(init);
      if AllWhitespace(init) {
        forall i | 0 <= i < |s| ensures IsWhitespace(s[i]) {
          if i < |s| - 1 { assert s[i] == init[i]; }
        }
      } else {
        var i :| 0 <= i < |init| && !IsWhitespace(init[i]);
        assert s[i] == init[i];
      }
    }
  }

  /** `line.trim() === ''` holds exactly for the lines made only of
      whitespace (the empty line included). */
  lemma TrimEmptyIffAllWhitespace(s: string)
    ensures Trim(s) == [] <==> AllWhitespace(s)
  {
    TrimStartFacts(s);
    TrimEndEmpty(TrimStart(s));
  }

  /** The whitespace test `tokenizeLine` applies to a token and the blank
      test `parseText` applies to a line agree: a whitespace token is exactly
      a non-empty string that `trim()` empties. */
  lemma WhitespaceTokenIffTrimmedAway(s: string)
    ensures IsWhitespaceToken(s) <==> s != [] && Trim(s) == []
  {
    TrimEmptyIffAllWhitespace(s);
  }

  /** `s.split('\n')`: the pieces between newlines, always at least one
      (`"".split('\n')` is `[""]`, a trailing newline leaves a last `""`). */
  function Split(s: string): (r: seq<string>)
    ensures |r| >= 1
  {
    if s == [] then [[]]
    else
      var rest := Split(s[1..]);
      if s[0] == '\n' then [[]] + rest
      else [[s[0]] + rest[0]] + rest[1..]
  }

  /** `pieces.join('\n')`, the inverse of `Split`. */
  function Join(pieces: seq<string>): string
    requires |pieces| >= 1
  {
    if |pieces| == 1 then pieces[0]
    else pieces[0] + "\n" + Join(pieces[1..])
  }

  predicate NoNewline(s: string) {
    forall i :: 0 <= i < |s| ==> s[i] != '\n'
  }

  lemma {:induction false} SplitPiecesHaveNoNewline(s: string)
    ensures forall k :: 0 <= k < |Split(s)| ==> NoNewline(Split(s)[k])
  {
    if s != [] {
      SplitPiecesHaveNoNewline(s[1..]);
      var rest := Split(s[1..]);
      if s[0] != '\n' {
        assert NoNewline([s[0]] + rest[0]);
        assert forall k :: 1 <= k < |Split(s)| ==> Split(s)[k] == rest[k];
      } else {
        assert forall k :: 1 <= k < |Split(s)| ==> Split(s)[k] == rest[k - 1];
      }
    }
  }

  /** Joining the pieces with `'\n'` gives the text back. */
  lemma {:induction false} JoinSplit(s: string)
    ensures Join(Split(s)) == s
  {
    if s != [] {
      JoinSplit(s[1..]);
      var rest := Split(s[1..]);
      if s[0] == '\n' {
        assert ([[]] + rest)[1..] == rest;
      } else if |rest| == 1 {
        assert [s[0]] + rest[0] == s;
      } else {
        var r := [[s[0]] + rest[0]] + rest[1..];
        assert r[1..] == rest[1..];
        assert Join(rest) == rest[0] + "\n" + Join(rest[1..]);
        assert [s[0]] + rest[0] + "\n" + Join(rest[1..]) == [s[0]] + Join(rest);
      }
    }
  }

  lemma {:induction false} SplitNoNewline(p: string, t: string)
    requires NoNewline(p)
    ensures Split(p + t) == [p + Split(t)[0]] + Split(t)[1..]
  {
    if p != [] {
      assert (p + t)[1..] == p[1..] + t;
      SplitNoNewline(p[1..], t);
      var rest := Split(p[1..] + t);
      assert (p + t)[0] == p[0] != '\n';
      assert Split(p + t) == [[p[0]] + rest[0]] + rest[1..];
      assert rest[0] == p[1..] + Split(t)[0];
      assert rest[1..] == Split(t)[1..];
      assert [p[0]] + (p[1..] + Split(t)[0]) == p + Split(t)[0];
    } else {
      assert p + t == t && p + Split(t)[0] == Split(t)[0];
      assert [Split(t)[0]] + Split(t)[1..] == Split(t);
    }
  }

  /** Splitting the join of newline-free pieces gives the pieces back. */
  lemma {:induction false} SplitJoin(pieces: seq<string>)
    requires |pieces| >= 1
    requires forall k :: 0 <= k < |pieces| ==> NoNewline(pieces[k])
    ensures Split(Join(pieces)) == pieces
  {
    if |pieces| == 1 {
      SplitNoNewline(pieces[0], []);
      assert pieces[0] + [] == pieces[0];
    } else {
      var tail := Join(pieces[1..]);
      SplitJoin(pieces[1..]);
      assert pieces[0] + "\n" + tail == pieces[0] + ("\n" + tail);
      SplitNoNewline(pieces[0], "\n" + tail);
      assert ("\n" + tail)[1..] == tail;
      assert Split("\n" + tail) == [[]] + pieces[1..];
      assert pieces[0] + [] == pieces[0];
    }
  }

  function DigitChar(d: nat): (c: char)
    requires d < 10
    ensures '0' <= c <= '9'
  {
    "0123456789"[d]
  }

  /** The decimal rendering `${n}` of a non-negative integer. */
  function NatToString(n: nat): (s: string)
    ensures 1 <= |s|
    ensures n < 10 <==> |s| == 1
  {
    if n < 10 then [DigitChar(n)] else NatToString(n / 10) + [DigitChar(n % 10)]
  }

  /** Different numbers print differently, so ids minted from different
      counter values never collide. */
  lemma {:induction false} NatToStringInjective(a: nat, b: nat)
    requires NatToString(a) == NatToString(b)
    ensures a == b
  {
    if 10 <= a && 10 <= b {
      var sa, sb := NatToString(a), NatToString(b);
      assert sa[|sa| - 1] == DigitChar(a % 10) && sb[|sb| - 1] == DigitChar(b % 10);
      assert sa[..|sa| - 1] == NatToString(a / 10);
      assert sb[..|sb| - 1] == NatToString(b / 10);
      NatToStringInjective(a / 10, b / 10);
    }
  }

  /** A fixed prefix followed by the decimal counter: `seg-N`, `line-N`. */
  function Mint(prefix: string, n: nat): string {
    prefix + NatToString(n)
  }

  lemma MintInjective(prefix: string, a: nat, b: nat)
    requires Mint(prefix, a) == Mint(prefix, b)
    ensures a == b
  {
    assert NatToString(a) == Mint(prefix, a)[|prefix|..];
    assert NatToString(b) == Mint(prefix, b)[|prefix|..];
    NatToStringInjective(a, b);
  }
}
