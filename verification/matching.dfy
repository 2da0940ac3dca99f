/** Occurrences of a pattern in a text, and the naive search that serves as the
    reference the linear-time scanner is proved against. */
module Matching {
  import opened Borders

  /** `pattern` occurs in `text` starting at offset `q`. */
  predicate IsOccurrence<T(==)>(text: seq<T>, pattern: seq<T>, q: int) {
    0 <= q && q + |pattern| <= |text| && text[q..q + |pattern|] == pattern
  }

  predicate StrictlyIncreasing(s: seq<int>) {
    forall a, b :: 0 <= a < b < |s| ==> s[a] < s[b]
  }

  /** Naive search: every start offset below `h` at which `pattern` occurs, in
      increasing order, found by trying each offset in turn. */
  function OccurrencesBefore<T(==)>(text: seq<T>, pattern: seq<T>, h: nat): seq<int>
    decreases h
  {
    if h == 0 then []
    else
      OccurrencesBefore(text, pattern, h - 1)
      + (if IsOccurrence(text, pattern, h - 1) then [h - 1] else [])
  }

  /** The naive search finds exactly the occurrences below `h`, and they are
      all below `h`. */
  lemma {:induction false} OccurrencesBeforeMembers<T>(text: seq<T>, pattern: seq<T>, h: nat)
    ensures forall q :: q in OccurrencesBefore(text, pattern, h) <==> 0 <= q < h && IsOccurrence(text, pattern, q)
    decreases h
  {
    if h > 0 {
      OccurrencesBeforeMembers(text, pattern, h - 1);
    }
  }

  /** The naive search lists its offsets in strictly increasing order. */
  lemma {:induction false} OccurrencesBeforeSorted<T>(text: seq<T>, pattern: seq<T>, h: nat)
    ensures StrictlyIncreasing(OccurrencesBefore(text, pattern, h))
    decreases h
  {
    if h > 0 {
      var earlier := OccurrencesBefore(text, pattern, h - 1);
      OccurrencesBeforeSorted(text, pattern, h - 1);
      OccurrencesBeforeMembers(text, pattern, h - 1);
      assert forall a :: 0 <= a < |earlier| ==> earlier[a] in earlier;
    }
  }

  /** Every offset at which `pattern` occurs in `text`, in increasing order. */
  function Occurrences<T(==)>(text: seq<T>, pattern: seq<T>): (r: seq<int>)
    ensures forall q :: q in r <==> IsOccurrence(text, pattern, q)
    ensures forall q :: q in r ==> 0 <= q <= |text| - |pattern|
    ensures StrictlyIncreasing(r)
  {
    OccurrencesBeforeMembers(text, pattern, |text| + 1);
    OccurrencesBeforeSorted(text, pattern, |text| + 1);
    OccurrencesBefore(text, pattern, |text| + 1)
  }

  /** `positions` is what the naive search reports below offset `h`. */
  ghost predicate Reported<T>(text: seq<T>, pattern: seq<T>, positions: seq<int>, h: int) {
    0 <= h && positions == OccurrencesBefore(text, pattern, h)
  }

  /** Offsets with no occurrence add nothing to what the naive search
      reports. */
  lemma {:induction false} NoOccurrencesBetween<T>(text: seq<T>, pattern: seq<T>, positions: seq<int>, lo: int, hi: int)
    requires Reported(text, pattern, positions, lo)
    requires lo <= hi
    requires forall q :: lo <= q < hi ==> !IsOccurrence(text, pattern, q)
    ensures Reported(text, pattern, positions, hi)
    decreases hi - lo
  {
    if lo < hi {
      NoOccurrencesBetween(text, pattern, positions, lo, hi - 1);
    }
  }

  /** An offset with no occurrence adds nothing to what the naive search
      reports. */
  lemma {:induction false} SkipOffset<T>(text: seq<T>, pattern: seq<T>, positions: seq<int>, h: int)
    requires Reported(text, pattern, positions, h)
    requires !IsOccurrence(text, pattern, h)
    ensures Reported(text, pattern, positions, h + 1)
  {
  }

  /** An occurrence at the offset `h` is the next one the naive search
      reports. */
  lemma {:induction false} ReportOccurrence<T>(text: seq<T>, pattern: seq<T>, positions: seq<int>, h: int)
    requires Reported(text, pattern, positions, h)
    requires IsOccurrence(text, pattern, h)
    ensures Reported(text, pattern, positions + [h], h + 1)
  {
  }

  /** The scanner's matched window: the `j` text elements before `i` are the
      first `j` elements of `pattern`. It is stated one element at a time from
      the right, so that a matching step extends it by definition. */
  ghost predicate Window<T>(text: seq<T>, pattern: seq<T>, i: int, j: int)
    decreases j
  {
    && 0 <= j <= i <= |text|
    && j <= |pattern|
    && (j == 0 || (text[i - 1] == pattern[j - 1] && Window(text, pattern, i - 1, j - 1)))
  }

  /** The window is the slice equality `text[i - j..i] == pattern[..j]`. */
  lemma {:induction false} WindowSlices<T>(text: seq<T>, pattern: seq<T>, i: int, j: int)
    requires 0 <= j <= i <= |text| && j <= |pattern|
    ensures Window(text, pattern, i, j) <==> text[i - j..i] == pattern[..j]
    decreases j
  {
    if j > 0 {
      WindowSlices(text, pattern, i - 1, j - 1);
      assert text[i - j..i] == text[i - j..i - 1] + [text[i - 1]];
      assert pattern[..j] == pattern[..j - 1] + [pattern[j - 1]];
    }
  }

  /** A window of the whole pattern is an occurrence at its start. */
  lemma {:induction false} WindowIsOccurrence<T>(text: seq<T>, pattern: seq<T>, i: int)
    requires Window(text, pattern, i, |pattern|)
    ensures IsOccurrence(text, pattern, i - |pattern|)
  {
    WindowSlices(text, pattern, i, |pattern|);
    assert pattern[..|pattern|] == pattern;
  }

  /** Shrinking the window to a border of the matched prefix keeps it a window. */
  lemma {:induction false} WindowBorder<T>(text: seq<T>, pattern: seq<T>, i: int, j: int, k: int)
    requires Window(text, pattern, i, j)
    requires IsBorder(pattern, j, k)
    ensures Window(text, pattern, i, k)
  {
    WindowSlices(text, pattern, i, j);
    WindowSlices(text, pattern, i, k);
    assert text[i - k..i] == text[i - j..i][j - k..];
    assert pattern[j - k..j] == pattern[..j][j - k..];
  }

  /** An occurrence starting inside the window, after its start, would make its
      overlap with the window a border of the matched prefix; so when `k` is the
      longest border, no occurrence starts strictly between `i - j` and `i - k`. */
  lemma {:induction false} NoOccurrenceInsideWindow<T>(text: seq<T>, pattern: seq<T>, i: int, j: int, k: int)
    requires Window(text, pattern, i, j)
    requires IsLongestBorder(pattern, j, k)
    ensures forall q :: i - j < q < i - k ==> !IsOccurrence(text, pattern, q)
  {
    WindowSlices(text, pattern, i, j);
    forall q | i - j < q < i - k && IsOccurrence(text, pattern, q)
      ensures false
    {
      var len := i - q;
      assert text[q..i] == text[q..q + |pattern|][..len];
      assert text[q..i] == text[i - j..i][j - len..];
      assert pattern[j - len..j] == pattern[..j][j - len..];
      assert IsBorder(pattern, j, len);
    }
  }

  /** A mismatch right after the window rules out an occurrence at its start. */
  lemma {:induction false} NoOccurrenceAtMismatch<T>(text: seq<T>, pattern: seq<T>, i: int, j: int)
    requires Window(text, pattern, i, j)
    requires i < |text| && j < |pattern| && pattern[j] != text[i]
    ensures !IsOccurrence(text, pattern, i - j)
  {
    WindowSlices(text, pattern, i, j);
  }
}
