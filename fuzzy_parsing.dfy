/** `clean_cv` and `clean_punctuation` of the fuzzy pipeline. The
    translation module's `clean_cv_text` is the same sequence of steps as
    this `clean_cv`. */
module FuzzyParsing {
  import opened Text

  const Marker: string := "CV anonimizzato:"
  const TripleQuote: string := "\"\"\""

  /** Newlines become spaces, the marker and triple quotes go, runs of
      spaces become one space, `" ,"` becomes `","`, and the text is
      lower-cased. */
  function CleanCv(cv: string): string
  {
    var t1 := ReplaceAll(cv, "\n", " ");
    var t2 := ReplaceAll(t1, Marker, "");
    var t3 := ReplaceAll(t2, TripleQuote, "");
    var t4 := CollapseRuns(t3, IsBlank, 1);
    var t5 := ReplaceAll(t4, " ,", ",");
    Lower(t5)
  }

  lemma BlankPairs(s: string)
    ensures NoAdjacent(s, IsBlank) <==> NoPair(s, ' ', ' ')
  {
  }

  /** The cleaned text contains no newline. */
  lemma CleanCvNoNewline(cv: string)
    ensures '\n' !in CleanCv(cv)
  {
    var t1 := ReplaceAll(cv, "\n", " ");
    var t2 := ReplaceAll(t1, Marker, "");
    var t3 := ReplaceAll(t2, TripleQuote, "");
    var t4 := CollapseRuns(t3, IsBlank, 1);
    var t5 := ReplaceAll(t4, " ,", ",");
    ReplaceCharRemoves(cv, '\n', " ");
    ReplaceAllChars(t1, Marker, "");
    ReplaceAllChars(t2, TripleQuote, "");
    CollapseRunsChars(t3, IsBlank, 1);
    ReplaceAllChars(t4, " ,", ",");
    LowerKeepsOthers(t5, '\n');
  }

  /** The cleaned text has no two consecutive spaces and no `" ,"`. */
  lemma CleanCvSpacing(cv: string)
    ensures NoPair(CleanCv(cv), ' ', ' ')
    ensures NoPair(CleanCv(cv), ' ', ',')
  {
    var t1 := ReplaceAll(cv, "\n", " ");
    var t2 := ReplaceAll(t1, Marker, "");
    var t3 := ReplaceAll(t2, TripleQuote, "");
    var t4 := CollapseRuns(t3, IsBlank, 1);
    var t5 := ReplaceAll(t4, " ,", ",");
    CollapseRunsNoAdjacent(t3, IsBlank, 1);
    BlankPairs(t4);
    ReplacePairKeepsNoPair(t4, ' ', ',');
    LowerKeepsNoPair(t5, ' ', ' ');
    LowerKeepsNoPair(t5, ' ', ',');
  }

  /** The cleaned text holds no upper-case ASCII letter and is never
      longer than the input. */
  lemma CleanCvLowerAndShorter(cv: string)
    ensures forall i | 0 <= i < |CleanCv(cv)| :: !IsUpper(CleanCv(cv)[i])
    ensures |CleanCv(cv)| <= |cv|
  {
    var t1 := ReplaceAll(cv, "\n", " ");
    var t2 := ReplaceAll(t1, Marker, "");
    var t3 := ReplaceAll(t2, TripleQuote, "");
    var t4 := CollapseRuns(t3, IsBlank, 1);
    ReplaceAllShorter(cv, "\n", " ");
    ReplaceAllShorter(t1, Marker, "");
    ReplaceAllShorter(t2, TripleQuote, "");
    CollapseRunsShorter(t3, IsBlank, 1);
    ReplaceAllShorter(t4, " ,", ",");
  }

  /** `string.punctuation`. */
  const Punctuation: string := "!\"#$%&'()*+,-./:;<=>?@[\\]^_`{|}~"

  /** `clean_punctuation(text)`: for each punctuation character present,
      delete all its occurrences. */
  method CleanPunctuation(text: string) returns (r: string)
    ensures r == Without(text, Punctuation)
  {
    r := text;
    WithoutAbsent(text, []);
    assert Punctuation[..0] == [];
    for i := 0 to |Punctuation|
      invariant r == Without(text, Punctuation[..i])
    {
      WithoutStep(text, Punctuation, i, r);
      var p := Punctuation[i];
      if p in r {
        r := ReplaceAll(r, [p], "");
      }
    }
    assert Punctuation[..|Punctuation|] == Punctuation;
  }

  /** The result contains no punctuation, keeps every other character in
      order (a filter), so it is never longer and cleaning twice is
      cleaning once. */
  lemma CleanPunctuationProperties(text: string)
    ensures forall c :: c in Without(text, Punctuation) <==> c in text && c !in Punctuation
    ensures |Without(text, Punctuation)| <= |text|
    ensures Without(Without(text, Punctuation), Punctuation) == Without(text, Punctuation)
    ensures (forall c | c in text :: c !in Punctuation) ==> Without(text, Punctuation) == text
  {
    WithoutIdempotent(text, Punctuation);
    if forall c | c in text :: c !in Punctuation {
      WithoutAbsent(text, Punctuation);
    }
  }
}
