/** `clean_cv` of the rule-based pipeline: drop the anonymisation marker
    and triple quotes, turn every run of line breaks into a space, collapse
    every longer whitespace run into one space, and strip the ends. */
module RuleBasedClean {
  import opened Text

  const Marker: string := "CV anonimizzato:"
  const TripleQuote: string := "\"\"\""

  function CleanCv(cv: string): string
  {
    var s1 := ReplaceAll(cv, Marker, "");
    var s2 := ReplaceAll(s1, TripleQuote, "");
    var s3 := CollapseRuns(s2, IsNewline, 1);
    var s4 := CollapseRuns(s3, IsSpace, 2);
    Strip(s4)
  }

  /** The first two steps delete the marker and then the triple quotes:
      each step removes exactly the leftmost, non-overlapping occurrences a
      left-to-right scan finds, keeping every character between them. */
  lemma CleanCvDeletions(cv: string)
    ensures exists ps :: LeftmostMatches(cv, Marker, 0, ps)
    ensures forall ps | LeftmostMatches(cv, Marker, 0, ps) :: ReplaceAll(cv, Marker, "") == Joined(cv, Marker, "", 0, ps)
    ensures var s1 := ReplaceAll(cv, Marker, "");
      && (exists qs :: LeftmostMatches(s1, TripleQuote, 0, qs))
      && forall qs | LeftmostMatches(s1, TripleQuote, 0, qs) ::
        ReplaceAll(s1, TripleQuote, "") == Joined(s1, TripleQuote, "", 0, qs)
  {
    ReplaceAllCharacterised(cv, Marker, "");
    ReplaceAllCharacterised(ReplaceAll(cv, Marker, ""), TripleQuote, "");
  }

  /** The cleaned text has no line break, no two adjacent whitespace
      characters, no whitespace at either end, and is never longer than
      the input. */
  lemma CleanCvProperties(cv: string)
    ensures var r := CleanCv(cv);
      '\n' !in r && '\r' !in r
      && NoAdjacent(r, IsSpace)
      && (r != [] ==> NonSpace(r[0]) && NonSpace(r[|r| - 1]))
      && |r| <= |cv|
  {
    var s1 := ReplaceAll(cv, Marker, "");
    var s2 := ReplaceAll(s1, TripleQuote, "");
    var s3 := CollapseRuns(s2, IsNewline, 1);
    var s4 := CollapseRuns(s3, IsSpace, 2);
    var r := Strip(s4);
    ReplaceAllShorter(cv, Marker, "");
    ReplaceAllShorter(s1, TripleQuote, "");
    CollapseRunsShorter(s2, IsNewline, 1);
    CollapseRunsShorter(s3, IsSpace, 2);
    CollapseRunsChars(s2, IsNewline, 1);
    CollapseRunsChars(s3, IsSpace, 2);
    assert !IsNewline(' ');
    assert forall c :: c in s4 ==> !IsNewline(c);
    CollapseRunsNoAdjacent(s3, IsSpace, 2);
    StripKeepsNoAdjacent(s4, IsSpace);
    StripEnds(s4);
    StripChars(s4, '\n');
    StripChars(s4, '\r');
  }
}
