# Knuth-Morris-Pratt search, modelled in Dafny

This project models the string-search core of `pkg/kmp/kmp.go`:

- `computeLPSArray`: builds the longest-proper-prefix-suffix ("failure") table of a pattern.
- `KMPSearch`: scans a text once with that table and returns every offset where the pattern occurs. Overlapping occurrences are included, and the offsets come in increasing order.
- `highlightMatch`: the context formatter. It wraps one match in `<<` and `>>`, with up to ten characters of the text on each side.
- `min` and `max`: the two helpers the formatter uses.

`FailureTable`, `Kmp` and `Highlight` follow the three Go functions. `Borders` and `Matching` hold the vocabulary they are specified in, and `SearchExamples` holds worked examples:

- `Borders` (`borders.dfy`): proper borders of pattern prefixes. This is the vocabulary the failure table is specified in.
- `FailureTable` (`failure_table.dfy`): the table builder `ComputeLps` and its step lemmas. It also defines `IsLpsTable`, the declarative description of the table.
- `Matching` (`matching.dfy`): `Occurrences` is the reference definition of the search result. It lists every offset `q` with `text[q..q + |pattern|] == pattern`, in increasing order. The module also has the facts about the scanner's window that the scan needs.
- `Kmp` (`kmp.dfy`): the scanner `KmpSearch`, proved equal to `Occurrences` for every non-empty pattern.
- `Highlight` (`highlight.dfy`): `HighlightMatch` together with `Min` and `Max`.
- `SearchExamples` (`search_examples.dfy`): the scanner on four sample inputs: an overlapping match, a single match, no match, and a match of the whole text.

Both algorithms are written as methods whose loops follow the Go loops branch for branch. They keep the same cursors (`i` and `length` in the builder, `i` and `j` in the scanner) and the same fallback through `lps[length-1]` and `lps[j-1]`. The termination measures are `2m - 2i + length` and `2n - 2i + j`. These are the arguments behind the linear running time.

## Model

| member | source | states |
|---|---|---|
| FailureTable.ComputeLps | pkg/kmp/kmp.go:9-34 | For a non-empty pattern, the table has one entry per pattern element, `lps[0] == 0` and `0 <= lps[q] <= q`. Each entry `lps[q]` is the length of the longest proper border of `pattern[..q+1]` (`IsLpsTable`). |
| FailureTable.LpsTableUnique | pkg/kmp/kmp.go:9-34 | Two tables that both meet `IsLpsTable` for the same pattern are equal. So the builder's output depends on the pattern alone. |
| FailureTable.ExtendStep | pkg/kmp/kmp.go:19-22 | When `pattern[i] == pattern[length]`, `length + 1` is the correct entry for `i`, and it is a valid cursor for `i + 1`. |
| FailureTable.FallbackStep | pkg/kmp/kmp.go:24-25 | On a mismatch with `length != 0`, `lps[length-1]` is strictly smaller than `length`, so the loop makes progress. It is still a valid cursor, because no border between the two lengths can be extended. |
| FailureTable.ZeroStep | pkg/kmp/kmp.go:26-28 | On a mismatch with `length == 0`, `pattern[..i+1]` has no non-empty border, so writing `0` is correct. |
| Borders.NextLongestBorder | pkg/kmp/kmp.go:19-29 | If `length` is the longest border of `pattern[..i]` that could still be extended, the builder's two advancing branches write the longest border of `pattern[..i+1]`. |
| Borders.FallbackBorder | pkg/kmp/kmp.go:24-25 | The longest border of a border of `pattern[..i]` is again a border of `pattern[..i]`. No border of `pattern[..i]` lies strictly between the two lengths. |
| Borders.BorderOfBorder | pkg/kmp/kmp.go:25 | The borders of `pattern[..i]` shorter than one of its borders `k` are exactly the borders of `pattern[..k]`. |
| Kmp.KmpSearch | pkg/kmp/kmp.go:36-70 | An empty pattern or an empty text gives no positions. Otherwise `q` is reported if and only if the pattern occurs at `q`, with `0 <= q <= |text| - |pattern|`. Positions are strictly increasing, and the result equals `Occurrences(text, pattern)`. |
| Kmp.ResumeAfterMatch | pkg/kmp/kmp.go:57-59 | A full match is an occurrence at `i - j`. Resuming from the longest border of the whole pattern skips no occurrence, including overlapping ones. |
| Kmp.FallBackOnMismatch | pkg/kmp/kmp.go:60-62 | On a mismatch with `j != 0`, falling back to `lps[j-1]` skips only offsets where the pattern cannot occur. |
| Kmp.AdvanceOnMismatch | pkg/kmp/kmp.go:63-64 | On a mismatch with `j == 0`, the pattern does not occur at `i`, so advancing `i` loses no occurrence. |
| Kmp.ScanComplete | pkg/kmp/kmp.go:51-69 | When the text is exhausted, the positions collected so far are all the occurrences in the text. |
| Matching.Occurrences | pkg/kmp/kmp.go:36-70 | The reference result. `q` is listed if and only if the pattern occurs at `q`, every listed `q` lies in `0..|text| - |pattern|`, and the list is strictly increasing. |
| Matching.OccurrencesBeforeMembers | pkg/kmp/kmp.go:46-69 | The offsets listed below `h` are exactly the occurrences below `h`. |
| Matching.OccurrencesBeforeSorted | pkg/kmp/kmp.go:46-69 | The offsets listed below `h` are strictly increasing. So every occurrence is listed exactly once. |
| Matching.NoOccurrencesBetween | pkg/kmp/kmp.go:59-62 | A list complete below `lo` stays complete below `hi` when nothing occurs at an offset in `lo..hi`. |
| Matching.SkipOffset | pkg/kmp/kmp.go:63-64 | A list complete below `h` stays complete below `h + 1` when the pattern does not occur at `h`. |
| Matching.ReportOccurrence | pkg/kmp/kmp.go:57-58 | Appending an occurrence at `h` to a list complete below `h` gives a list complete below `h + 1`. |
| Matching.WindowSlices | pkg/kmp/kmp.go:52-55 | The scanner's window invariant holds exactly when `text[i-j..i] == pattern[..j]`. |
| Matching.WindowIsOccurrence | pkg/kmp/kmp.go:57-58 | A window covering the whole pattern means the pattern occurs at `i - |pattern|`. |
| Matching.WindowBorder | pkg/kmp/kmp.go:59-62 | After `j` falls back to a border of `pattern[..j]`, the shorter window still matches the text. |
| Matching.NoOccurrenceInsideWindow | pkg/kmp/kmp.go:59-62 | No occurrence starts strictly between the old and the new window start when `j` falls back to the longest border. |
| Matching.NoOccurrenceAtMismatch | pkg/kmp/kmp.go:60 | A mismatch of `pattern[j]` with `text[i]` rules out an occurrence at `i - j`. |
| Highlight.Min | pkg/kmp/kmp.go:101-106 | The result is at most both arguments and is one of them. |
| Highlight.Max | pkg/kmp/kmp.go:108-113 | The result is at least both arguments and is one of them. |
| Highlight.SlicesInRangeExactly | pkg/kmp/kmp.go:87-96 | The formatter's slices are in range exactly when `0 <= pos`, `0 <= patternLen` and `pos + patternLen <= len(text)`. This is the formatter's precondition. |
| Highlight.HighlightMatch | pkg/kmp/kmp.go:87-99 | The result is the up to ten characters before the match, then `<<`, the matched span, `>>`, and the up to ten characters after it. The context is clamped to the text's ends. |
| Highlight.HighlightWindow | pkg/kmp/kmp.go:87-99 | The result is exactly four characters longer than the context plus the match. Read left to right, it is the text before the match, the markers around the matched text, and the text after the match. |
| Highlight.HighlightShowsPattern | pkg/kmp/kmp.go:87-99 | For every position where the pattern occurs, the formatter is defined and shows exactly the pattern between `<<` and `>>`. |
| SearchExamples.OverlappingOccurrences | pkg/kmp/kmp.go:36-70 | `"aa"` occurs in `"aaaa"` at `[0, 1, 2]`. |
| SearchExamples.SingleOccurrence | pkg/kmp/kmp.go:36-70 | `"world"` occurs in `"hello world"` only at `6`. |
| SearchExamples.NoOccurrence | pkg/kmp/kmp.go:36-70 | `"xyz"` does not occur in `"abc"`. |
| SearchExamples.WholeTextOccurrence | pkg/kmp/kmp.go:36-70 | `"abc"` occurs in `"abc"` only at `0`. |
| SearchExamples.SearchOverlapping | pkg/kmp/kmp.go:36-70 | The scanner returns `[0, 1, 2]` for text `"aaaa"` and pattern `"aa"`. |
| SearchExamples.SearchSingle | pkg/kmp/kmp.go:36-70 | The scanner returns `[6]` for text `"hello world"` and pattern `"world"`. |
| SearchExamples.SearchNoMatch | pkg/kmp/kmp.go:36-70 | The scanner returns `[]` for text `"abc"` and pattern `"xyz"`. |
| SearchExamples.SearchWholeText | pkg/kmp/kmp.go:36-70 | The scanner returns `[0]` for text `"abc"` and pattern `"abc"`. |

## Left out

- `main`, `displayResults` and the timing code are not modelled. They only read command-line arguments, print reports and read the clock.
- The complexity notices printed by `main` are not modelled. The loops' termination measures carry the linear bound instead.
- Go strings are byte sequences. The builder and the scanner are generic over any element type with equality. The formatter works on Dafny strings, one character per byte. Multi-byte UTF-8 characters, which Go's byte slicing can split, are not modelled.
- Go's `int` is 64 bits wide. The model uses unbounded integers. Every index stays between 0 and the length of the text or the pattern, so no overflow can occur for inputs Go can hold.
- The table is built as a sequence that grows by one entry each time `i` advances, not as a slice allocated up front. The entries written and their order are the same.
- FailureTable.ComputeLps requires a non-empty pattern. The Go code writes `lps[0]` unconditionally, so it panics on an empty pattern. So the builder is not total, and the model states that precondition. `KMPSearch` never calls the builder with an empty pattern, because it returns early.
- Highlight.HighlightMatch requires the match span to lie inside the text. Outside that span Go panics on the slice bounds. `SlicesInRangeExactly` shows that this precondition is exactly Go's own no-panic condition. `displayResults` only passes positions that `KMPSearch` reported, and `HighlightShowsPattern` covers those.
