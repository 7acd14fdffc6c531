/** The reporting helpers of the rule-based evaluation: the coloured
    snippet list printed under each finding, and the overall error rates
    `print_report` shows when no group column is asked for. */
module RuleBasedReport {
  import opened Maybe
  import opened Collections
  import opened Snippets
  import opened Groups
  import opened SkillCases

  /** The default `context_chars` of this `highlight_snippets`. */
  const DefaultContext: nat := 40

  const NoOccurrence: string := "No occurrence found."

  /** `f"{before}{RED}{match_text}{RESET}{after}"`: no ellipses here. */
  function Highlighted(text: string, s: Span, context: nat): string
    requires s.start <= s.end <= |text|
  {
    Before(text, s, context) + Red + Matched(text, s) + Reset + After(text, s, context)
  }

  /** `highlight_snippets(text, pattern, context_chars)` over the match
      spans of the pattern: one coloured snippet per match, in match
      order, or the single "No occurrence found." entry. */
  method HighlightSnippets(text: string, spans: seq<Span>, contextChars: nat) returns (r: seq<string>)
    requires ValidSpans(text, spans)
    ensures spans == [] <==> r == [NoOccurrence]
    ensures spans != [] ==>
      |r| == |spans|
      && forall k | 0 <= k < |spans| :: r[k] == Highlighted(text, spans[k], contextChars)
  {
    var snippets := [];
    for i := 0 to |spans|
      invariant |snippets| == i
      invariant forall k | 0 <= k < i :: snippets[k] == Highlighted(text, spans[k], contextChars)
    {
      var m := spans[i];
      var ss := WindowStart(m.start, contextChars);
      var se := WindowEnd(m.end, contextChars, |text|);
      var before := text[ss..m.start];
      var matchText := text[m.start..m.end];
      var after := text[m.end..se];
      var colored := Red + matchText + Reset;
      snippets := snippets + [before + colored + after];
    }
    if snippets != [] {
      r := snippets;
      HighlightedIsNotNoOccurrence(text, spans[0], contextChars);
    } else {
      r := [NoOccurrence];
    }
  }

  /** A coloured snippet always holds the escape character of `RED`,
      which "No occurrence found." does not. */
  lemma HighlightedIsNotNoOccurrence(text: string, s: Span, context: nat)
    requires s.start <= s.end <= |text|
    ensures Highlighted(text, s, context) != NoOccurrence
  {
    var b := Before(text, s, context);
    var h := Highlighted(text, s, context);
    assert h[|b|] == '\U{1B}';
    assert forall k | 0 <= k < |NoOccurrence| :: NoOccurrence[k] != '\U{1B}';
  }

  /** Each snippet is the match wrapped in `RED`…`RESET` between at most
      `context` characters of text on either side; with the two colour
      codes taken out it is one contiguous piece of the text, running
      from the window start to the window end. */
  lemma HighlightedShape(text: string, s: Span, context: nat)
    requires s.start <= s.end <= |text|
    ensures var h := Highlighted(text, s, context);
      var b, a := Before(text, s, context), After(text, s, context);
      var m := text[s.start..s.end];
      && h == b + Red + m + Reset + a
      && |b| <= context && |a| <= context
      && h[..|b|] + h[|b| + |Red|..|b| + |Red| + |m|] + h[|b| + |Red| + |m| + |Reset|..]
         == text[WindowStart(s.start, context)..WindowEnd(s.end, context, |text|)]
  {
    WindowContiguous(text, s, context);
    var h := Highlighted(text, s, context);
    var b, a := Before(text, s, context), After(text, s, context);
    var m := text[s.start..s.end];
    assert h[..|b|] == b;
    assert h[|b| + |Red|..|b| + |Red| + |m|] == m;
    assert h[|b| + |Red| + |m| + |Reset|..] == a;
  }

  /** The overall rates of `print_report` without a group column:
      `len(fp_rows) / tot` and `len(fn_rows) / tot` with `tot` the
      population height; an empty population divides by zero. */
  function OverallRates(result: CaseResult, height: nat): (r: Result<(real, real)>)
    ensures r.Err? <==> height == 0
    ensures r.Err? ==> r.error == ZeroDivisionError
    ensures r.Ok? ==>
      r.value.0 * height as real == |result.fpRows| as real
      && r.value.1 * height as real == |result.fnRows| as real
      && r.value.0 >= 0.0 && r.value.1 >= 0.0
  {
    if height == 0 then Err(ZeroDivisionError)
    else Ok((|result.fpRows| as real / height as real, |result.fnRows| as real / height as real))
  }

  /** The two branches of `print_report` agree: the per-group error
      counts of the rate tables add up to the row counts the overall rates
      divide, so each overall rate times the height is that sum. */
  lemma OverallRatesMatchGroups(result: CaseResult, population: seq<string>, fpGroups: seq<string>, fnGroups: seq<string>)
    requires |fpGroups| == |result.fpRows| && |fnGroups| == |result.fnRows|
    ensures PositiveCounts(CategoryDistribution(population))
    ensures var pop := CategoryDistribution(population);
      && SumNat(RateTable(fpGroups, pop), NumOfRow()) == |result.fpRows|
      && SumNat(RateTable(fnGroups, pop), NumOfRow()) == |result.fnRows|
  {
    RateTableSum(population, fpGroups);
    RateTableSum(population, fnGroups);
  }
}
