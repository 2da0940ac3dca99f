/** The Knuth-Morris-Pratt scan of `KMPSearch`: every offset at which the
    pattern occurs in the text, overlapping occurrences included. */
module Kmp {
  import opened Borders
  import opened Matching
  import opened FailureTable

  /** Two cursors, `i` over the text and `j` over the pattern. After a full
      match and on a mismatch with `j != 0`, `j` falls back to the failure
      table's entry for `pattern[..j]`, so the scan never moves `i` backwards.
      An empty pattern matches nothing. */
  method KmpSearch<T(==)>(text: seq<T>, pattern: seq<T>) returns (positions: seq<int>)
    ensures |pattern| == 0 ==> positions == []
    ensures |text| == 0 ==> positions == []
    ensures forall q :: q in positions <==> |pattern| > 0 && IsOccurrence(text, pattern, q)
    ensures forall q :: q in positions ==> 0 <= q <= |text| - |pattern|
    ensures StrictlyIncreasing(positions)
    ensures |pattern| > 0 ==> positions == Occurrences(text, pattern)
  {
    var n := |text|;
    var m := |pattern|;

    if m == 0 {
      return [];
    }

    var lps := ComputeLps(pattern);

    positions := [];

    var i := 0;
    var j := 0;

    while i < n
      invariant 0 <= j < m && j <= i <= n
      invariant Scanned(text, pattern, positions, i, j)
      decreases 2 * n - 2 * i + j
    {
      if pattern[j] == text[i] {
        i := i + 1;
        j := j + 1;
      }
      assert Scanned(text, pattern, positions, i, j);

      if j == m {
        ResumeAfterMatch(text, pattern, lps[j - 1], i, j, positions);
        positions := positions + [i - j];
        j := lps[j - 1];
      } else if i < n && pattern[j] != text[i] {
        if j != 0 {
          FallBackOnMismatch(text, pattern, lps[j - 1], i, j, positions);
          j := lps[j - 1];
        } else {
          AdvanceOnMismatch(text, pattern, i, positions);
          i := i + 1;
        }
      }
    }

    ScanComplete(text, pattern, j, positions);
  }

  /** The scan's loop invariant: the window `text[i - j..i] == pattern[..j]`
      and `positions` holds every occurrence starting before the window. */
  ghost predicate Scanned<T>(text: seq<T>, pattern: seq<T>, positions: seq<int>, i: int, j: int) {
    Window(text, pattern, i, j) && Reported(text, pattern, positions, i - j)
  }

  /** A full match is an occurrence at `i - j`; resuming from the longest
      border `next` of the whole pattern skips no later occurrence. */
  lemma {:induction false} ResumeAfterMatch<T>(text: seq<T>, pattern: seq<T>, next: int, i: int, j: int, positions: seq<int>)
    requires j == |pattern| > 0 && IsLongestBorder(pattern, j, next)
    requires Scanned(text, pattern, positions, i, j)
    ensures Scanned(text, pattern, positions + [i - j], i, next)
  {
    WindowIsOccurrence(text, pattern, i);
    ReportOccurrence(text, pattern, positions, i - j);
    WindowBorder(text, pattern, i, j, next);
    NoOccurrenceInsideWindow(text, pattern, i, j, next);
    NoOccurrencesBetween(text, pattern, positions + [i - j], i - j + 1, i - next);
  }

  /** On a mismatch after a non-empty partial match, falling back to the
      longest border `next` of the matched prefix skips no occurrence. */
  lemma {:induction false} FallBackOnMismatch<T>(text: seq<T>, pattern: seq<T>, next: int, i: int, j: int, positions: seq<int>)
    requires 0 < j < |pattern| && IsLongestBorder(pattern, j, next)
    requires Scanned(text, pattern, positions, i, j)
    requires i < |text| && pattern[j] != text[i]
    ensures Scanned(text, pattern, positions, i, next)
  {
    WindowBorder(text, pattern, i, j, next);
    NoOccurrenceAtMismatch(text, pattern, i, j);
    SkipOffset(text, pattern, positions, i - j);
    NoOccurrenceInsideWindow(text, pattern, i, j, next);
    NoOccurrencesBetween(text, pattern, positions, i - j + 1, i - next);
  }

  /** On a mismatch with nothing matched, no occurrence starts at `i`. */
  lemma {:induction false} AdvanceOnMismatch<T>(text: seq<T>, pattern: seq<T>, i: int, positions: seq<int>)
    requires 0 <= i < |text| && 0 < |pattern| && pattern[0] != text[i]
    requires Scanned(text, pattern, positions, i, 0)
    ensures Scanned(text, pattern, positions, i + 1, 0)
  {
    NoOccurrenceAtMismatch(text, pattern, i, 0);
    SkipOffset(text, pattern, positions, i);
  }

  /** Once the text is exhausted with fewer than `|pattern|` elements matched,
      no occurrence can start at or after `|text| - j`, so everything has been
      reported. */
  lemma {:induction false} ScanComplete<T>(text: seq<T>, pattern: seq<T>, j: int, positions: seq<int>)
    requires 0 <= j < |pattern| && j <= |text|
    requires Scanned(text, pattern, positions, |text|, j)
    ensures positions == Occurrences(text, pattern)
  {
    NoOccurrencesBetween(text, pattern, positions, |text| - j, |text| + 1);
  }
}
