/** The longest-proper-prefix-suffix ("failure") table of a pattern, as built
    by `computeLPSArray`. */
module FailureTable {
  import opened Borders

  /** Every entry `q` of `lps` is the length of the longest proper border of
      the prefix `pattern[..q + 1]`. */
  ghost predicate IsLpsPrefix<T>(pattern: seq<T>, lps: seq<int>) {
    && |lps| <= |pattern|
    && forall q :: 0 <= q < |lps| ==> IsLongestBorder(pattern, q + 1, lps[q])
  }

  /** `lps` is the failure table of `pattern`: one entry per pattern element. */
  ghost predicate IsLpsTable<T>(pattern: seq<T>, lps: seq<int>) {
    |lps| == |pattern| && IsLpsPrefix(pattern, lps)
  }

  /** The builder's `length` cursor at index `i`: a border of `pattern[..i]`,
      and no longer border of `pattern[..i]` extends by `pattern[i]`. */
  ghost predicate IsCandidate<T>(pattern: seq<T>, i: int, length: int) {
    && IsBorder(pattern, i, length)
    && (i < |pattern| ==>
          forall k :: length < k < i && IsBorder(pattern, i, k) ==> pattern[k] != pattern[i])
  }

  /** Builds the failure table with a `length` cursor that falls back through
      the table itself on a mismatch. The table grows by one entry each time
      `i` advances, which is the order in which the entries are written. */
  method ComputeLps<T(==)>(pattern: seq<T>) returns (lps: seq<int>)
    requires |pattern| > 0
    ensures |lps| == |pattern| && lps[0] == 0
    ensures forall q :: 0 <= q < |lps| ==> 0 <= lps[q] <= q
    ensures IsLpsTable(pattern, lps)
  {
    var m := |pattern|;
    var length := 0;
    lps := [0];
    var i := 1;
    while i < m
      invariant 1 <= i <= m
      invariant |lps| == i
      invariant IsLpsPrefix(pattern, lps)
      invariant IsCandidate(pattern, i, length)
      decreases 2 * m - 2 * i + length
    {
      if pattern[i] == pattern[length] {
        ExtendStep(pattern, lps, i, length);
        length := length + 1;
        lps := lps + [length];
        i := i + 1;
      } else {
        if length != 0 {
          FallbackStep(pattern, lps, i, length);
          length := lps[length - 1];
        } else {
          ZeroStep(pattern, lps, i);
          lps := lps + [0];
          i := i + 1;
        }
      }
    }
  }

  /** `pattern[i] == pattern[length]`: the longest border of `pattern[..i + 1]`
      is `length + 1`, and it is the next cursor. */
  lemma {:induction false} ExtendStep<T>(pattern: seq<T>, lps: seq<int>, i: int, length: int)
    requires IsLpsPrefix(pattern, lps) && |lps| == i < |pattern|
    requires IsCandidate(pattern, i, length)
    requires pattern[i] == pattern[length]
    ensures IsLpsPrefix(pattern, lps + [length + 1])
    ensures IsCandidate(pattern, i + 1, length + 1)
  {
    NextLongestBorder(pattern, i, length);
  }

  /** `pattern[i] != pattern[length]` with `length != 0`: the cursor falls
      back to the longest border of `pattern[..length]`. */
  lemma {:induction false} FallbackStep<T>(pattern: seq<T>, lps: seq<int>, i: int, length: int)
    requires IsLpsPrefix(pattern, lps) && |lps| == i < |pattern|
    requires IsCandidate(pattern, i, length)
    requires 0 < length && pattern[i] != pattern[length]
    ensures 0 <= lps[length - 1] < length
    ensures IsCandidate(pattern, i, lps[length - 1])
  {
    FallbackBorder(pattern, i, length, lps[length - 1]);
  }

  /** `pattern[i] != pattern[0]` with `length == 0`: `pattern[..i + 1]` has
      no non-empty border. */
  lemma {:induction false} ZeroStep<T>(pattern: seq<T>, lps: seq<int>, i: int)
    requires IsLpsPrefix(pattern, lps) && |lps| == i < |pattern|
    requires IsCandidate(pattern, i, 0)
    requires pattern[i] != pattern[0]
    ensures IsLpsPrefix(pattern, lps + [0])
    ensures IsCandidate(pattern, i + 1, 0)
  {
    NextLongestBorder(pattern, i, 0);
  }

  /** A pattern has exactly one failure table, so the builder's result is
      determined by the pattern alone. */
  lemma {:induction false} LpsTableUnique<T>(pattern: seq<T>, a: seq<int>, b: seq<int>)
    requires IsLpsTable(pattern, a) && IsLpsTable(pattern, b)
    ensures a == b
  {
    forall q | 0 <= q < |a|
      ensures a[q] == b[q]
    {
      LongestBorderUnique(pattern, q + 1, a[q], b[q]);
    }
  }
}
