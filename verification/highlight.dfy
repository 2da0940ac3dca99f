/** The context formatter `highlightMatch` with its `min` and `max` helpers:
    a match wrapped in `<<` and `>>`, with up to `ContextSize` characters of
    the text on each side. Characters stand for the bytes of a Go string. */
module Highlight {
  import opened Matching

  /** Characters of context shown on each side of a match. */
  const ContextSize: int := 10

  function Min(a: int, b: int): (r: int)
    ensures r <= a && r <= b
    ensures r == a || r == b
  {
    if a < b then a else b
  }

  function Max(a: int, b: int): (r: int)
    ensures r >= a && r >= b
    ensures r == a || r == b
  {
    if a > b then a else b
  }

  /** The bounds Go checks for the slices `highlightMatch` takes: the window
      `text[startPos:endPos]` and the match `substring[relativePos :
      relativePos + patternLen]` inside it (the two remaining slices of the
      window are in range whenever the match is). */
  predicate SlicesInRange(textLen: int, pos: int, patternLen: int) {
    var startPos := Max(0, pos - ContextSize);
    var endPos := Min(textLen, pos + patternLen + ContextSize);
    var relativePos := pos - startPos;
    && 0 <= startPos <= endPos <= textLen
    && 0 <= relativePos <= relativePos + patternLen <= endPos - startPos
  }

  /** `highlightMatch` stays within its slice bounds exactly when the match
      span lies inside the text, which is what its precondition asks. */
  lemma {:induction false} SlicesInRangeExactly(textLen: nat, pos: int, patternLen: int)
    ensures SlicesInRange(textLen, pos, patternLen)
            <==> 0 <= pos && 0 <= patternLen && pos + patternLen <= textLen
  {
  }

  /** The match `text[pos..pos + patternLen]` between `<<` and `>>`, preceded
      by the `Min(pos, ContextSize)` characters before it and followed by the
      `Min(|text| - pos - patternLen, ContextSize)` characters after it. */
  function HighlightMatch(text: string, pos: int, patternLen: int): (r: string)
    requires 0 <= pos && 0 <= patternLen && pos + patternLen <= |text|
    ensures var before := Min(pos, ContextSize);
            var after := Min(|text| - (pos + patternLen), ContextSize);
            r == text[pos - before..pos] + "<<" + text[pos..pos + patternLen] + ">>"
                 + text[pos + patternLen..pos + patternLen + after]
  {
    var startPos := Max(0, pos - ContextSize);
    var endPos := Min(|text|, pos + patternLen + ContextSize);
    var substring := text[startPos..endPos];
    var relativePos := pos - startPos;
    var matchedPart := substring[relativePos..relativePos + patternLen];
    WindowBounds(|text|, pos, patternLen);
    MarkedWindow(text, startPos, pos, patternLen, endPos);
    substring[..relativePos] + "<<" + matchedPart + ">>" + substring[relativePos + patternLen..]
  }

  /** The window `highlightMatch` cuts out, in terms of the context it keeps
      on either side of the match. */
  lemma {:induction false} WindowBounds(textLen: int, pos: int, patternLen: int)
    requires 0 <= pos && 0 <= patternLen && pos + patternLen <= textLen
    ensures Max(0, pos - ContextSize) == pos - Min(pos, ContextSize)
    ensures Min(textLen, pos + patternLen + ContextSize)
            == pos + patternLen + Min(textLen - (pos + patternLen), ContextSize)
  {
  }

  /** Marking the span of length `len` at `p` inside the window `s[lo..hi]`
      by slicing the window gives the same string as slicing `s` itself. */
  lemma {:induction false} MarkedWindow(s: string, lo: int, p: int, len: int, hi: int)
    requires 0 <= lo <= p && 0 <= len && p + len <= hi <= |s|
    ensures s[lo..hi][..p - lo] + "<<" + s[lo..hi][p - lo..p - lo + len] + ">>" + s[lo..hi][p - lo + len..]
            == s[lo..p] + "<<" + s[p..p + len] + ">>" + s[p + len..hi]
  {
    assert s[lo..hi][..p - lo] == s[lo..p];
    assert s[lo..hi][p - lo..] == s[p..hi];
    assert s[lo..hi][p - lo..p - lo + len] == s[p..hi][..len] == s[p..p + len];
    assert s[lo..hi][p - lo + len..] == s[p + len..hi];
  }

  /** The five parts of a highlighted string can be read back by slicing. */
  lemma {:induction false} MarkedParts(a: string, m1: string, b: string, m2: string, c: string)
    ensures var r := a + m1 + b + m2 + c;
            && |r| == |a| + |m1| + |b| + |m2| + |c|
            && r[..|a|] == a
            && r[|a|..|a| + |m1|] == m1
            && r[|a| + |m1|..|a| + |m1| + |b|] == b
            && r[|a| + |m1| + |b|..|a| + |m1| + |b| + |m2|] == m2
            && r[|a| + |m1| + |b| + |m2|..] == c
  {
    var r := a + m1 + b + m2 + c;
    assert r == a + (m1 + (b + (m2 + c)));
  }

  /** A highlighted match reads, left to right, as the `before` characters of
      the text preceding the match, `<<`, the matched span, `>>` and the
      `after` characters following it. */
  lemma {:induction false} HighlightWindow(text: string, pos: int, patternLen: int)
    requires 0 <= pos && 0 <= patternLen && pos + patternLen <= |text|
    ensures var r := HighlightMatch(text, pos, patternLen);
            var before := Min(pos, ContextSize);
            var after := Min(|text| - (pos + patternLen), ContextSize);
            && |r| == before + patternLen + after + 4
            && r[..before] == text[pos - before..pos]
            && r[before..before + 2] == "<<"
            && r[before + 2..before + 2 + patternLen] == text[pos..pos + patternLen]
            && r[before + 2 + patternLen..before + 4 + patternLen] == ">>"
            && r[before + 4 + patternLen..] == text[pos + patternLen..pos + patternLen + after]
  {
    var before := Min(pos, ContextSize);
    var after := Min(|text| - (pos + patternLen), ContextSize);
    var head, body, tail := text[pos - before..pos], text[pos..pos + patternLen], text[pos + patternLen..pos + patternLen + after];
    var r := HighlightMatch(text, pos, patternLen);
    assert r == head + "<<" + body + ">>" + tail;
    MarkedParts(head, "<<", body, ">>", tail);
  }

  /** For every position the search reports, the formatter is defined and
      shows exactly the pattern between its markers. */
  lemma {:induction false} HighlightShowsPattern(text: string, pattern: string, pos: int)
    requires IsOccurrence(text, pattern, pos)
    ensures var r := HighlightMatch(text, pos, |pattern|);
            var before := Min(pos, ContextSize);
            && r[before..before + 2] == "<<"
            && r[before + 2..before + 2 + |pattern|] == pattern
            && r[before + 2 + |pattern|..before + 4 + |pattern|] == ">>"
  {
    HighlightWindow(text, pos, |pattern|);
  }
}
