/** The rule-based evaluation of the parser (`evaluate_rule_based_extraction`)
    and the snippet helpers of the same file. Here the rule-based labels are
    the prediction and the parser's labels the reference, so fp and fn are
    the other way round from `compare`. */
module RuleBasedParser {
  import opened Maybe
  import opened Collections
  import opened Text
  import opened Tables
  import opened Metrics
  import opened Bags
  import opened Snippets
  import RuleBasedClean

  // ------------------------------------------------------ pure extractors

  /** `has_driver_license(text)`: the Italian licence pattern searched in
      the lower-cased text; the pattern is a parameter. */
  function HasDriverLicense(text: string, pattern: string -> bool): bool
  {
    pattern(Lower(text))
  }

  /** `extract_languages_rule_based(text)`: the languages of the table, in
      table order, whose pattern is found in the lower-cased text. */
  function ExtractLanguagesRuleBased(text: string, regexes: seq<(string, string -> bool)>): (r: seq<string>)
    ensures |r| <= |regexes|
    ensures forall l :: l in r <==> exists k | 0 <= k < |regexes| :: regexes[k].0 == l && regexes[k].1(Lower(text))
  {
    if regexes == [] then []
    else
      var n := |regexes| - 1;
      var prefix := ExtractLanguagesRuleBased(text, regexes[..n]);
      assert forall k | 0 <= k < n :: regexes[..n][k] == regexes[k];
      prefix + (if regexes[n].1(Lower(text)) then [regexes[n].0] else [])
  }

  /** The table entries whose pattern is found in the lower-cased text. */
  function Found(text: string): ((string, string -> bool)) -> bool
  {
    (e: (string, string -> bool)) => e.1(Lower(text))
  }

  function LanguageName(e: (string, string -> bool)): string
  {
    e.0
  }

  /** The comprehension keeps table order: the result is the names of the
      entries whose pattern matches, in the order of the table. */
  lemma {:induction false} ExtractLanguagesInOrder(text: string, regexes: seq<(string, string -> bool)>)
    ensures ExtractLanguagesRuleBased(text, regexes) == Column(Filter(regexes, Found(text)), LanguageName)
    decreases |regexes|
  {
    if regexes != [] {
      var n := |regexes| - 1;
      ExtractLanguagesInOrder(text, regexes[..n]);
      var kept := Filter(regexes[..n], Found(text));
      var last := if Found(text)(regexes[n]) then [regexes[n]] else [];
      assert Filter(regexes, Found(text)) == kept + last;
      assert Column(kept + last, LanguageName) == Column(kept, LanguageName) + Column(last, LanguageName);
    }
  }

  // ------------------------------------------------------------ evaluation

  /** One entry of `false_positives` or `false_negatives`; `cvText` is the
      raw `CV_text_anon`, not the cleaned text. */
  datatype Finding = Finding(id: int, gender: string, cvText: string, skill: string, reason: string)

  const FpReason: string := "Regex sees skill, parser does NOT"
  const FnReason: string := "Parser sees skill, regex does NOT"

  /** The tuple `(tp, fp, tn, fn, false_positives, false_negatives, count)`. */
  datatype Evaluation = Evaluation(tp: nat, fp: nat, tn: nat, fn: nat,
                                   falsePositives: seq<Finding>, falseNegatives: seq<Finding>, count: nat)

  /** `set(rule_based_extractor(clean_cv(CV_text_anon)))` of each candidate. */
  function RuleOf(extractor: string -> seq<string>): Candidate -> set<string>
  {
    (c: Candidate) => Elems(extractor(RuleBasedClean.CleanCv(c.cvTextAnon)))
  }

  /** `normalize_parser_skill` of every `Skill` cell of the candidate's rows
      of the skill type; no cell is skipped. */
  function ParserSkills(rows: seq<SkillRow>, id: int, skillType: string, norm: Option<string> -> string): set<string>
  {
    set r | r in rows && r.id == id && r.skillType == skillType :: norm(r.skill)
  }

  function ParserOf(rows: seq<SkillRow>, skillType: string, norm: Option<string> -> string): Candidate -> set<string>
  {
    (c: Candidate) => ParserSkills(rows, c.id, skillType, norm)
  }

  /** Every row of the candidate and skill type contributes its normalised
      cell, whatever the cell holds, and other rows contribute nothing. */
  lemma ParserSkillsExact(rows: seq<SkillRow>, id: int, skillType: string, norm: Option<string> -> string)
    ensures forall r | r in rows && r.id == id && r.skillType == skillType :: norm(r.skill) in ParserSkills(rows, id, skillType, norm)
    ensures forall s | s in ParserSkills(rows, id, skillType, norm) ::
      exists r | r in rows :: r.id == id && r.skillType == skillType && norm(r.skill) == s
    ensures (forall r | r in rows :: r.id != id || r.skillType != skillType) ==> ParserSkills(rows, id, skillType, norm) == {}
  {
  }

  /** What one candidate adds to the counters. This is the scoring of
      `compare` with the parser's labels as the reference and the rule
      labels as the prediction: matched labels are true positives,
      rule-only labels false positives, parser-only labels false negatives,
      and a candidate with no label on either side is one true negative. */
  function ConfOf(rule: Candidate -> set<string>, parser: Candidate -> set<string>): Candidate -> Conf
  {
    (c: Candidate) => LabelConf(parser(c), rule(c))
  }

  function MakeFinding(c: Candidate, s: string, reason: string): Finding
  {
    Finding(c.id, c.gender, c.cvTextAnon, s, reason)
  }

  function FindingMaker(c: Candidate, reason: string): string -> Finding
  {
    (s: string) => MakeFinding(c, s, reason)
  }

  /** The findings of candidate `c` for the labels `skills`. */
  function FindingSet(c: Candidate, skills: set<string>, reason: string): set<Finding>
  {
    Image(skills, FindingMaker(c, reason))
  }

  /** Findings of distinct labels differ: one finding per label, and a
      finding is in the set exactly when it is the finding of a label. */
  lemma FindingSetFacts(c: Candidate, skills: set<string>, reason: string)
    ensures Injective(skills, FindingMaker(c, reason))
    ensures |FindingSet(c, skills, reason)| == |skills|
    ensures forall e :: e in FindingSet(c, skills, reason) <==> e.skill in skills && e == MakeFinding(c, e.skill, reason)
  {
    assert Injective(skills, FindingMaker(c, reason));
    ImageCard(skills, FindingMaker(c, reason));
  }

  /** `unmatched_regex`: found by the rules, not by the parser. */
  function FpLabels(rule: Candidate -> set<string>, parser: Candidate -> set<string>): Candidate -> set<string>
  {
    (c: Candidate) => rule(c) - parser(c)
  }

  /** `unmatched_parser`: given by the parser, not found by the rules. */
  function FnLabels(rule: Candidate -> set<string>, parser: Candidate -> set<string>): Candidate -> set<string>
  {
    (c: Candidate) => parser(c) - rule(c)
  }

  function FindingsOf(labels: Candidate -> set<string>, reason: string): Candidate -> set<Finding>
  {
    (c: Candidate) => FindingSet(c, labels(c), reason)
  }

  /** There are exactly as many false positives as the fp counter and as
      many false negatives as the fn counter. */
  lemma {:induction false} FindingCounts(cs: seq<Candidate>, rule: Candidate -> set<string>, parser: Candidate -> set<string>)
    ensures SumCard(cs, FindingsOf(FpLabels(rule, parser), FpReason)) == SumConf(cs, ConfOf(rule, parser)).fp
    ensures SumCard(cs, FindingsOf(FnLabels(rule, parser), FnReason)) == SumConf(cs, ConfOf(rule, parser)).fn
    decreases |cs|
  {
    if cs != [] {
      var c := cs[|cs| - 1];
      FindingCounts(cs[..|cs| - 1], rule, parser);
      FindingSetFacts(c, rule(c) - parser(c), FpReason);
      FindingSetFacts(c, parser(c) - rule(c), FnReason);
    }
  }

  /** Every finding names a candidate of `cs` and one of its labels and
      carries `reason`; every label of every candidate has its finding. */
  lemma FindingsExact(cs: seq<Candidate>, labels: Candidate -> set<string>, reason: string)
    ensures forall e: Finding | e in BagOf(cs, FindingsOf(labels, reason)) ::
      e.reason == reason && exists c | c in cs :: e == MakeFinding(c, e.skill, reason) && e.skill in labels(c)
    ensures forall c, s | c in cs && s in labels(c) :: MakeFinding(c, s, reason) in BagOf(cs, FindingsOf(labels, reason))
  {
    var of := FindingsOf(labels, reason);
    BagMembers(cs, of);
    forall e: Finding | e in BagOf(cs, of)
      ensures e.reason == reason && exists c | c in cs :: e == MakeFinding(c, e.skill, reason) && e.skill in labels(c)
    {
      var c :| c in cs && e in of(c);
      FindingSetFacts(c, labels(c), reason);
    }
    forall c, s | c in cs && s in labels(c)
      ensures MakeFinding(c, s, reason) in BagOf(cs, of)
    {
      FindingSetFacts(c, labels(c), reason);
    }
  }

  /** `false_positives.extend(...)` for one candidate: the findings of
      `labels`, one per label, after those already collected. */
  method AppendFindings(acc: seq<Finding>, c: Candidate, labels: set<string>, reason: string)
    returns (out: seq<Finding>)
    ensures multiset(out) == multiset(acc) + multiset(FindingSet(c, labels, reason))
    ensures |out| == |acc| + |labels|
    ensures out[..|acc|] == acc
  {
    FindingSetFacts(c, labels, reason);
    out := AppendRows(acc, labels, FindingMaker(c, reason));
  }

  /** The loop invariant of `EvaluateRuleBasedExtraction` over `cs[..i]`. */
  predicate Collected(cs: seq<Candidate>, i: nat, rule: Candidate -> set<string>, parser: Candidate -> set<string>,
                      k: Conf, count: nat, fps: seq<Finding>, fns: seq<Finding>)
    requires i <= |cs|
  {
    && k == SumConf(cs[..i], ConfOf(rule, parser))
    && k.tn + count == i
    && multiset(fps) == BagOf(cs[..i], FindingsOf(FpLabels(rule, parser), FpReason))
    && multiset(fns) == BagOf(cs[..i], FindingsOf(FnLabels(rule, parser), FnReason))
  }

  /** One turn of the loop keeps the invariant: candidate `i`'s share is
      added to the counters and its findings to the two lists. */
  lemma EvaluateStep(cs: seq<Candidate>, i: nat, rule: Candidate -> set<string>, parser: Candidate -> set<string>,
                     k: Conf, count: nat, fps: seq<Finding>, fns: seq<Finding>,
                     k': Conf, count': nat, fps': seq<Finding>, fns': seq<Finding>)
    requires i < |cs|
    requires Collected(cs, i, rule, parser, k, count, fps, fns)
    requires var r, p := rule(cs[i]), parser(cs[i]);
      var none := r == {} && p == {};
      && k' == Conf(k.tp + |r * p|, k.fp + |r - p|, k.tn + (if none then 1 else 0), k.fn + |p - r|)
      && count' == count + (if none then 0 else 1)
      && multiset(fps') == multiset(fps) + multiset(FindingSet(cs[i], r - p, FpReason))
      && multiset(fns') == multiset(fns) + multiset(FindingSet(cs[i], p - r, FnReason))
    ensures Collected(cs, i + 1, rule, parser, k', count', fps', fns')
  {
    assert cs[..i + 1][..i] == cs[..i];
    assert parser(cs[i]) * rule(cs[i]) == rule(cs[i]) * parser(cs[i]);
  }

  /** After the last candidate the invariant is the method's contract, and
      the lists are as long as their counters. */
  lemma EvaluateDone(cs: seq<Candidate>, rule: Candidate -> set<string>, parser: Candidate -> set<string>,
                     k: Conf, count: nat, fps: seq<Finding>, fns: seq<Finding>)
    requires Collected(cs, |cs|, rule, parser, k, count, fps, fns)
    ensures k == SumConf(cs, ConfOf(rule, parser))
    ensures k.tn + count == |cs|
    ensures multiset(fps) == BagOf(cs, FindingsOf(FpLabels(rule, parser), FpReason))
    ensures multiset(fns) == BagOf(cs, FindingsOf(FnLabels(rule, parser), FnReason))
    ensures |fps| == k.fp && |fns| == k.fn
  {
    assert cs[..|cs|] == cs;
    FindingCounts(cs, rule, parser);
    BagCard(cs, FindingsOf(FpLabels(rule, parser), FpReason));
    BagCard(cs, FindingsOf(FnLabels(rule, parser), FnReason));
    assert |multiset(fps)| == |fps| && |multiset(fns)| == |fns|;
  }

  /** `evaluate_rule_based_extraction(df_cv_with_gender, df_skills,
      skill_type, rule_based_extractor, normalize_parser_skill)`. */
  method EvaluateRuleBasedExtraction(dfCv: seq<Candidate>, dfSkills: seq<SkillRow>, skillType: string,
                                     extractor: string -> seq<string>, norm: Option<string> -> string)
    returns (res: Evaluation)
    ensures var rule, parser := RuleOf(extractor), ParserOf(dfSkills, skillType, norm);
      && Conf(res.tp, res.fp, res.tn, res.fn) == SumConf(dfCv, ConfOf(rule, parser))
      && res.tn + res.count == |dfCv|
      && multiset(res.falsePositives) == BagOf(dfCv, FindingsOf(FpLabels(rule, parser), FpReason))
      && multiset(res.falseNegatives) == BagOf(dfCv, FindingsOf(FnLabels(rule, parser), FnReason))
      && |res.falsePositives| == res.fp && |res.falseNegatives| == res.fn
  {
    var rule, parser := RuleOf(extractor), ParserOf(dfSkills, skillType, norm);
    var tp: nat, fp: nat, tn: nat, fn: nat := 0, 0, 0, 0;
    var falsePositives, falseNegatives := [], [];
    var count: nat := 0;
    for i := 0 to |dfCv|
      invariant Collected(dfCv, i, rule, parser, Conf(tp, fp, tn, fn), count, falsePositives, falseNegatives)
    {
      ghost var k, count0, fps0, fns0 := Conf(tp, fp, tn, fn), count, falsePositives, falseNegatives;
      var candidate := dfCv[i];
      var ruleSkills := rule(candidate);
      var parserSkills := parser(candidate);
      tp := tp + |ruleSkills * parserSkills|;
      fp := fp + |ruleSkills - parserSkills|;
      fn := fn + |parserSkills - ruleSkills|;
      if ruleSkills == {} && parserSkills == {} {
        tn := tn + 1;
      }
      if ruleSkills != {} || parserSkills != {} {
        count := count + 1;
      }
      falsePositives := AppendFindings(falsePositives, candidate, ruleSkills - parserSkills, FpReason);
      falseNegatives := AppendFindings(falseNegatives, candidate, parserSkills - ruleSkills, FnReason);
      EvaluateStep(dfCv, i, rule, parser, k, count0, fps0, fns0,
                   Conf(tp, fp, tn, fn), count, falsePositives, falseNegatives);
    }
    EvaluateDone(dfCv, rule, parser, Conf(tp, fp, tn, fn), count, falsePositives, falseNegatives);
    res := Evaluation(tp, fp, tn, fn, falsePositives, falseNegatives, count);
  }

  /** The default `normalize_parser_skill`, `lambda x: x.lower()`, on a
      string cell. A null cell has no `lower` and raises before its value
      is used, so what this gives for it does not matter. */
  function DefaultNorm(skill: Option<string>): string
  {
    if skill.Some? then Lower(skill.value) else ""
  }

  /** Some candidate has a row of the skill type whose `Skill` cell is
      null. */
  predicate HasNullSkill(dfCv: seq<Candidate>, dfSkills: seq<SkillRow>, skillType: string)
  {
    exists c, r | c in dfCv && r in dfSkills :: r.id == c.id && r.skillType == skillType && r.skill.None?
  }

  /** `evaluate_rule_based_extraction` called without a normaliser: the
      default lower-cases every cell, and a null cell of a candidate raises
      AttributeError. The loop has no effect besides its result, so the
      failure can be decided before it runs. */
  method EvaluateWithDefaultNorm(dfCv: seq<Candidate>, dfSkills: seq<SkillRow>, skillType: string,
                                 extractor: string -> seq<string>)
    returns (res: Result<Evaluation>)
    ensures res.Err? <==> HasNullSkill(dfCv, dfSkills, skillType)
    ensures res.Err? ==> res.error == AttributeError
    ensures res.Ok? ==>
      var rule, parser, e := RuleOf(extractor), ParserOf(dfSkills, skillType, DefaultNorm), res.value;
      && Conf(e.tp, e.fp, e.tn, e.fn) == SumConf(dfCv, ConfOf(rule, parser))
      && e.tn + e.count == |dfCv|
      && multiset(e.falsePositives) == BagOf(dfCv, FindingsOf(FpLabels(rule, parser), FpReason))
      && multiset(e.falseNegatives) == BagOf(dfCv, FindingsOf(FnLabels(rule, parser), FnReason))
      && |e.falsePositives| == e.fp && |e.falseNegatives| == e.fn
  {
    if HasNullSkill(dfCv, dfSkills, skillType) {
      return Err(AttributeError);
    }
    var e := EvaluateRuleBasedExtraction(dfCv, dfSkills, skillType, extractor, DefaultNorm);
    res := Ok(e);
  }

  /** Without null cells, the default parser labels of a candidate are its
      lower-cased cells, none with an upper-case letter. */
  lemma DefaultParserSkills(dfSkills: seq<SkillRow>, id: int, skillType: string)
    requires forall r | r in dfSkills && r.id == id && r.skillType == skillType :: r.skill.Some?
    ensures ParserSkills(dfSkills, id, skillType, DefaultNorm)
      == set r | r in dfSkills && r.id == id && r.skillType == skillType && r.skill.Some? :: Lower(r.skill.value)
    ensures forall s | s in ParserSkills(dfSkills, id, skillType, DefaultNorm) :: NoUpper(s)
  {
  }

  /** Summed over the candidates, tp + fp counts the rule labels, tp + fn
      the parser labels, and there is at most one true negative per
      candidate. */
  lemma {:induction false} EvaluationTotals(cs: seq<Candidate>, rule: Candidate -> set<string>, parser: Candidate -> set<string>)
    ensures var k := SumConf(cs, ConfOf(rule, parser));
      k.tp + k.fp == SumCard(cs, rule) && k.tp + k.fn == SumCard(cs, parser) && k.tn <= |cs|
    decreases |cs|
  {
    if cs != [] {
      var c := cs[|cs| - 1];
      EvaluationTotals(cs[..|cs| - 1], rule, parser);
      LabelConfPartition(parser(c), rule(c));
    }
  }

  /** The counters do not depend on the order of the candidates. */
  lemma EvaluationOrderFree(xs: seq<Candidate>, ys: seq<Candidate>, rule: Candidate -> set<string>, parser: Candidate -> set<string>)
    requires multiset(xs) == multiset(ys)
    ensures SumConf(xs, ConfOf(rule, parser)) == SumConf(ys, ConfOf(rule, parser))
  {
    SumConfPermutation(xs, ys, ConfOf(rule, parser));
  }

  // -------------------------------------------------------------- snippets

  /** `"... {before}...{matched}...{after} ..."`. */
  function ParserSnippet(text: string, s: Span, context: nat): string
    requires s.start <= s.end <= |text|
  {
    "... " + Before(text, s, context) + "..." + Matched(text, s) + "..." + After(text, s, context) + " ..."
  }

  /** `extract_parser_snippets(text, context_chars)` over the match spans
      of the snippet pattern: one snippet per match, in match order. */
  method ExtractParserSnippets(text: string, spans: seq<Span>, contextChars: nat) returns (snippets: seq<string>)
    requires ValidSpans(text, spans)
    ensures |snippets| == |spans|
    ensures forall k | 0 <= k < |spans| :: snippets[k] == ParserSnippet(text, spans[k], contextChars)
  {
    snippets := [];
    for i := 0 to |spans|
      invariant |snippets| == i
      invariant forall k | 0 <= k < i :: snippets[k] == ParserSnippet(text, spans[k], contextChars)
    {
      var m := spans[i];
      var ss := WindowStart(m.start, contextChars);
      var se := WindowEnd(m.end, contextChars, |text|);
      var before := text[ss..m.start];
      var matched := text[m.start..m.end];
      var after := text[m.end..se];
      snippets := snippets + ["... " + before + "..." + matched + "..." + after + " ..."];
    }
  }

  const NoOccurrence: string := "No occurrence found."

  /** `"... {before}...{RED}{match}{RESET}...{after} ..."`. */
  function HighlightedSnippet(text: string, s: Span, context: nat): string
    requires s.start <= s.end <= |text|
  {
    "... " + Before(text, s, context) + "..." + Red + Matched(text, s) + Reset + "..." + After(text, s, context) + " ..."
  }

  /** `highlight_snippets(text, pattern, context_chars)`: one coloured
      snippet per match, or the single "No occurrence found." entry when
      nothing matches. */
  method HighlightSnippets(text: string, spans: seq<Span>, contextChars: nat) returns (r: seq<string>)
    requires ValidSpans(text, spans)
    ensures spans == [] <==> r == [NoOccurrence]
    ensures spans != [] ==>
      |r| == |spans|
      && forall k | 0 <= k < |spans| :: r[k] == HighlightedSnippet(text, spans[k], contextChars)
  {
    var snippets := [];
    for i := 0 to |spans|
      invariant |snippets| == i
      invariant forall k | 0 <= k < i :: snippets[k] == HighlightedSnippet(text, spans[k], contextChars)
    {
      var m := spans[i];
      var ss := WindowStart(m.start, contextChars);
      var se := WindowEnd(m.end, contextChars, |text|);
      var before := text[ss..m.start];
      var matchText := text[m.start..m.end];
      var after := text[m.end..se];
      var colored := Red + matchText + Reset;
      snippets := snippets + ["... " + before + "..." + colored + "..." + after + " ..."];
    }
    if snippets != [] {
      r := snippets;
      assert r[0][0] == '.' && NoOccurrence[0] == 'N';
    } else {
      r := [NoOccurrence];
    }
  }

  /** Each snippet opens and closes with an ellipsis and holds the match,
      coloured, between at most `context` characters of text on either
      side, taken from next to the match. */
  lemma HighlightedSnippetShape(text: string, s: Span, context: nat)
    requires s.start <= s.end <= |text|
    ensures var h := HighlightedSnippet(text, s, context);
      var b, a := Before(text, s, context), After(text, s, context);
      h == "... " + b + "..." + Red + text[s.start..s.end] + Reset + "..." + a + " ..."
      && |b| <= context && |a| <= context
      && b + text[s.start..s.end] + a == text[WindowStart(s.start, context)..WindowEnd(s.end, context, |text|)]
  {
    WindowContiguous(text, s, context);
  }
}
