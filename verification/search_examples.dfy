/** The search on four sample inputs: an overlapping match, a single match,
    no match and a whole-text match. Each case is first worked out on the
    declarative list of occurrences and then carried over to the scanner
    through its postcondition. */
module SearchExamples {
  import opened Matching
  import opened Kmp

  /** "aa" occurs in "aaaa" at 0, 1 and 2: overlapping occurrences all count. */
  lemma {:induction false} OverlappingOccurrences()
    ensures Occurrences("aaaa", "aa") == [0, 1, 2]
  {
    var t, p := "aaaa", "aa";
    assert IsOccurrence(t, p, 0) && IsOccurrence(t, p, 1) && IsOccurrence(t, p, 2);
    assert !IsOccurrence(t, p, 3) && !IsOccurrence(t, p, 4);
    assert OccurrencesBefore(t, p, 1) == [0];
    assert OccurrencesBefore(t, p, 2) == [0, 1];
    assert OccurrencesBefore(t, p, 3) == [0, 1, 2];
    assert OccurrencesBefore(t, p, 4) == [0, 1, 2];
  }

  /** "world" occurs in "hello world" only at 6. */
  lemma {:induction false} SingleOccurrence()
    ensures Occurrences("hello world", "world") == [6]
  {
    var t, p := "hello world", "world";
    forall q | 0 <= q < 6
      ensures !IsOccurrence(t, p, q)
    {
      assert t[q..q + 5][0] == t[q] != 'w';
    }
    assert IsOccurrence(t, p, 6);
    assert OccurrencesBefore(t, p, 1) == [];
    assert OccurrencesBefore(t, p, 2) == [];
    assert OccurrencesBefore(t, p, 3) == [];
    assert OccurrencesBefore(t, p, 4) == [];
    assert OccurrencesBefore(t, p, 5) == [];
    assert OccurrencesBefore(t, p, 6) == [];
    assert OccurrencesBefore(t, p, 7) == [6];
    assert OccurrencesBefore(t, p, 8) == [6];
    assert OccurrencesBefore(t, p, 9) == [6];
    assert OccurrencesBefore(t, p, 10) == [6];
    assert OccurrencesBefore(t, p, 11) == [6];
  }

  /** "xyz" does not occur in "abc". */
  lemma {:induction false} NoOccurrence()
    ensures Occurrences("abc", "xyz") == []
  {
    var t, p := "abc", "xyz";
    assert t[0..3][0] == 'a' != p[0];
    assert OccurrencesBefore(t, p, 1) == [];
    assert OccurrencesBefore(t, p, 2) == [];
    assert OccurrencesBefore(t, p, 3) == [];
  }

  /** A pattern equal to the whole text occurs exactly once, at 0. */
  lemma {:induction false} WholeTextOccurrence()
    ensures Occurrences("abc", "abc") == [0]
  {
    var t, p := "abc", "abc";
    assert t[0..3] == p;
    assert OccurrencesBefore(t, p, 1) == [0];
    assert OccurrencesBefore(t, p, 2) == [0];
    assert OccurrencesBefore(t, p, 3) == [0];
  }

  method SearchOverlapping() returns (positions: seq<int>)
    ensures positions == [0, 1, 2]
  {
    positions := KmpSearch("aaaa", "aa");
    OverlappingOccurrences();
  }

  method SearchSingle() returns (positions: seq<int>)
    ensures positions == [6]
  {
    positions := KmpSearch("hello world", "world");
    SingleOccurrence();
  }

  method SearchNoMatch() returns (positions: seq<int>)
    ensures positions == []
  {
    positions := KmpSearch("abc", "xyz");
    NoOccurrence();
  }

  method SearchWholeText() returns (positions: seq<int>)
    ensures positions == [0]
  {
    positions := KmpSearch("abc", "abc");
    WholeTextOccurrence();
  }
}
