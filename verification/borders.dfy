/** Borders of pattern prefixes: the vocabulary the failure table of the
    Knuth-Morris-Pratt search is specified in. A border of a sequence is a
    proper prefix of it that is also a suffix of it. */
module Borders {

  /** `pattern[..k]` is a proper border of the prefix `pattern[..i]`: it is
      strictly shorter than that prefix and is both a prefix and a suffix of it. */
  predicate IsBorder<T(==)>(pattern: seq<T>, i: int, k: int) {
    0 <= k < i <= |pattern| && pattern[..k] == pattern[i - k..i]
  }

  /** `k` is the length of the longest proper border of `pattern[..i]`. */
  ghost predicate IsLongestBorder<T>(pattern: seq<T>, i: int, k: int) {
    && IsBorder(pattern, i, k)
    && forall k' :: k < k' < i ==> !IsBorder(pattern, i, k')
  }

  /** The borders of `pattern[..i]` shorter than one of its borders `k` are
      exactly the borders of `pattern[..k]`. */
  lemma {:induction false} BorderOfBorder<T>(pattern: seq<T>, i: int, k: int, k': int)
    requires IsBorder(pattern, i, k)
    requires 0 <= k' < k
    ensures IsBorder(pattern, i, k') <==> IsBorder(pattern, k, k')
  {
    // Both suffixes of length k' are the same stretch of the shared border.
    assert pattern[i - k'..i] == pattern[i - k..i][k - k'..];
    assert pattern[k - k'..k] == pattern[..k][k - k'..];
  }

  /** A non-empty border of `pattern[..i + 1]` is a border of `pattern[..i]`
      extended by the element at `i`. */
  lemma {:induction false} BorderShrink<T>(pattern: seq<T>, i: int, k: int)
    requires IsBorder(pattern, i + 1, k)
    requires 0 < k
    ensures IsBorder(pattern, i, k - 1)
    ensures pattern[k - 1] == pattern[i]
  {
    assert pattern[..k - 1] == pattern[..k][..k - 1];
    assert pattern[i + 1 - k..i] == pattern[i + 1 - k..i + 1][..k - 1];
    assert pattern[k - 1] == pattern[..k][k - 1];
    assert pattern[i] == pattern[i + 1 - k..i + 1][k - 1];
  }

  /** A border of `pattern[..i]` followed by the element at `i` is a border of
      `pattern[..i + 1]`. */
  lemma {:induction false} BorderExtend<T>(pattern: seq<T>, i: int, k: int)
    requires IsBorder(pattern, i, k)
    requires i < |pattern|
    requires pattern[k] == pattern[i]
    ensures IsBorder(pattern, i + 1, k + 1)
  {
    assert pattern[..k + 1] == pattern[..k] + [pattern[k]];
    assert pattern[i - k..i + 1] == pattern[i - k..i] + [pattern[i]];
  }

  /** The step the failure-table builder takes at index `i`: when `length` is a
      border of `pattern[..i]` and no longer border extends by `pattern[i]`,
      then a matching `pattern[length]` gives the longest border `length + 1`
      of `pattern[..i + 1]`, and a mismatch at `length == 0` gives `0`. */
  lemma {:induction false} NextLongestBorder<T>(pattern: seq<T>, i: int, length: int)
    requires i < |pattern|
    requires IsBorder(pattern, i, length)
    requires forall k :: length < k < i && IsBorder(pattern, i, k) ==> pattern[k] != pattern[i]
    ensures pattern[length] == pattern[i] ==> IsLongestBorder(pattern, i + 1, length + 1)
    ensures pattern[length] != pattern[i] && length == 0 ==> IsLongestBorder(pattern, i + 1, 0)
  {
    var lo := if pattern[length] == pattern[i] then length + 1 else 0;
    if pattern[length] == pattern[i] {
      BorderExtend(pattern, i, length);
    }
    if pattern[length] == pattern[i] || length == 0 {
      var next := i + 1;
      forall k' | lo < k' < next
        ensures !IsBorder(pattern, next, k')
      {
        if IsBorder(pattern, next, k') {
          BorderShrink(pattern, i, k');
        }
      }
    }
  }

  /** The fallback step of the builder and of the scanner: from a border
      `length` of `pattern[..i]`, the longest border of `pattern[..length]` is
      again a border of `pattern[..i]`, and nothing strictly between the two
      is one. */
  lemma {:induction false} FallbackBorder<T>(pattern: seq<T>, i: int, length: int, next: int)
    requires IsBorder(pattern, i, length)
    requires IsLongestBorder(pattern, length, next)
    ensures IsBorder(pattern, i, next)
    ensures forall k :: next < k < length ==> !IsBorder(pattern, i, k)
  {
    BorderOfBorder(pattern, i, length, next);
    forall k | next < k < length
      ensures !IsBorder(pattern, i, k)
    {
      BorderOfBorder(pattern, i, length, k);
    }
  }

  /** A prefix has only one longest proper border. */
  lemma {:induction false} LongestBorderUnique<T>(pattern: seq<T>, i: int, k: int, k': int)
    requires IsLongestBorder(pattern, i, k) && IsLongestBorder(pattern, i, k')
    ensures k == k'
  {
  }
}
