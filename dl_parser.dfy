/** `evaluate_driver_license_extraction`, `compute_metrics` and
    `analyze_bias_by_gender`: the driving-licence evaluation, one boolean
    per side per candidate. */
module DriverLicenseParser {
  import opened Maybe
  import opened Collections
  import opened Tables
  import opened Metrics
  import opened Groups

  const LicenseType: string := "DRIVERSLIC"
  const FpReason: string := "Regex sees license, parser does NOT"
  const FnReason: string := "Parser sees license, regex does NOT"

  /** One entry of `false_positives` or `false_negatives`; `cvText` is the
      translated CV. */
  datatype LicenseFinding = LicenseFinding(id: int, gender: string, cvText: string, reason: string)

  /** The tuple `(tp, fp, tn, fn, false_positives, false_negatives, count)`. */
  datatype LicenseEvaluation = LicenseEvaluation(tp: nat, fp: nat, tn: nat, fn: nat,
                                                 falsePositives: seq<LicenseFinding>,
                                                 falseNegatives: seq<LicenseFinding>, count: nat)

  function IsLicenseRowOf(id: int): SkillRow -> bool
  {
    (r: SkillRow) => r.id == id && r.skillType == LicenseType
  }

  /** `df_skills.filter(CANDIDATE_ID == id & Skill_Type == "DRIVERSLIC")`. */
  function LicenseRows(rows: seq<SkillRow>, id: int): seq<SkillRow>
  {
    Filter(rows, IsLicenseRowOf(id))
  }

  /** `parser_dl` of each candidate: the filtered frame has a row. */
  function ParserOf(rows: seq<SkillRow>): Candidate -> bool
  {
    (c: Candidate) => |LicenseRows(rows, c.id)| > 0
  }

  /** The parser sees a licence exactly when the candidate has a skill row
      of type "DRIVERSLIC". */
  lemma ParserSeesLicense(rows: seq<SkillRow>, c: Candidate)
    ensures ParserOf(rows)(c) <==> exists r | r in rows :: r.id == c.id && r.skillType == LicenseType
  {
    var lr := LicenseRows(rows, c.id);
    FilterMembers(rows, IsLicenseRowOf(c.id));
    if exists r | r in rows :: r.id == c.id && r.skillType == LicenseType {
      var r :| r in rows && r.id == c.id && r.skillType == LicenseType;
      assert r in lr;
    }
    if |lr| > 0 {
      assert lr[0] in lr;
    }
  }

  /** The branch a candidate takes, as its contribution to the counters. */
  function Branch(regex: bool, parser: bool): Conf
  {
    if regex && parser then Conf(1, 0, 0, 0)
    else if regex && !parser then Conf(0, 1, 0, 0)
    else if !regex && !parser then Conf(0, 0, 1, 0)
    else Conf(0, 0, 0, 1)
  }

  /** Every candidate takes exactly one branch: tp for both, fp for the
      regex only, tn for neither, fn for the parser only. */
  lemma BranchPartition(regex: bool, parser: bool)
    ensures Branch(regex, parser).Total() == 1
    ensures Branch(regex, parser).tp == 1 <==> regex && parser
    ensures Branch(regex, parser).fp == 1 <==> regex && !parser
    ensures Branch(regex, parser).tn == 1 <==> !regex && !parser
    ensures Branch(regex, parser).fn == 1 <==> !regex && parser
  {
  }

  function ConfOf(parser: Candidate -> bool): Candidate -> Conf
  {
    (c: Candidate) => Branch(c.hasDrivingLicense, parser(c))
  }

  function MakeFinding(c: Candidate, reason: string): LicenseFinding
  {
    LicenseFinding(c.id, c.gender, c.translatedCv, reason)
  }

  /** The false positives, in candidate order. */
  function FpFindings(cs: seq<Candidate>, parser: Candidate -> bool): seq<LicenseFinding>
  {
    if cs == [] then []
    else
      var c := cs[|cs| - 1];
      FpFindings(cs[..|cs| - 1], parser) + (if c.hasDrivingLicense && !parser(c) then [MakeFinding(c, FpReason)] else [])
  }

  /** The false negatives, in candidate order. */
  function FnFindings(cs: seq<Candidate>, parser: Candidate -> bool): seq<LicenseFinding>
  {
    if cs == [] then []
    else
      var c := cs[|cs| - 1];
      FnFindings(cs[..|cs| - 1], parser) + (if !c.hasDrivingLicense && parser(c) then [MakeFinding(c, FnReason)] else [])
  }

  /** The four counters add up to the number of candidates. */
  lemma {:induction false} LicenseTotal(cs: seq<Candidate>, parser: Candidate -> bool)
    ensures SumConf(cs, ConfOf(parser)).Total() == |cs|
    decreases |cs|
  {
    if cs != [] {
      var c := cs[|cs| - 1];
      LicenseTotal(cs[..|cs| - 1], parser);
      BranchPartition(c.hasDrivingLicense, parser(c));
    }
  }

  /** There are as many false positives as fp and as many false negatives
      as fn. */
  lemma {:induction false} LicenseFindingCounts(cs: seq<Candidate>, parser: Candidate -> bool)
    ensures |FpFindings(cs, parser)| == SumConf(cs, ConfOf(parser)).fp
    ensures |FnFindings(cs, parser)| == SumConf(cs, ConfOf(parser)).fn
    decreases |cs|
  {
    if cs != [] {
      var c := cs[|cs| - 1];
      LicenseFindingCounts(cs[..|cs| - 1], parser);
      BranchPartition(c.hasDrivingLicense, parser(c));
    }
  }

  /** The parser-positive candidates are the tp and the fn ones. */
  lemma {:induction false} LicenseParserCount(cs: seq<Candidate>, parser: Candidate -> bool)
    ensures |Filter(cs, parser)| == SumConf(cs, ConfOf(parser)).tp + SumConf(cs, ConfOf(parser)).fn
    decreases |cs|
  {
    if cs != [] {
      var c := cs[|cs| - 1];
      LicenseParserCount(cs[..|cs| - 1], parser);
      BranchPartition(c.hasDrivingLicense, parser(c));
    }
  }

  /** A false positive is the finding of a candidate the regex flags and
      the parser does not, and every such candidate has one; the same for
      false negatives the other way round. */
  lemma {:induction false} LicenseFindingsExact(cs: seq<Candidate>, parser: Candidate -> bool)
    ensures forall f :: f in FpFindings(cs, parser) <==>
      exists c | c in cs :: c.hasDrivingLicense && !parser(c) && f == MakeFinding(c, FpReason)
    ensures forall f :: f in FnFindings(cs, parser) <==>
      exists c | c in cs :: !c.hasDrivingLicense && parser(c) && f == MakeFinding(c, FnReason)
    decreases |cs|
  {
    if cs != [] {
      var n := |cs| - 1;
      LicenseFindingsExact(cs[..n], parser);
      assert cs == cs[..n] + [cs[n]];
      assert forall c :: c in cs <==> c in cs[..n] || c == cs[n];
    }
  }

  /** One turn of the loop. */
  lemma LicenseStep(cs: seq<Candidate>, i: nat, parser: Candidate -> bool)
    requires i < |cs|
    ensures SumConf(cs[..i + 1], ConfOf(parser)) == SumConf(cs[..i], ConfOf(parser)).Plus(Branch(cs[i].hasDrivingLicense, parser(cs[i])))
    ensures FpFindings(cs[..i + 1], parser) == FpFindings(cs[..i], parser)
      + (if cs[i].hasDrivingLicense && !parser(cs[i]) then [MakeFinding(cs[i], FpReason)] else [])
    ensures FnFindings(cs[..i + 1], parser) == FnFindings(cs[..i], parser)
      + (if !cs[i].hasDrivingLicense && parser(cs[i]) then [MakeFinding(cs[i], FnReason)] else [])
    ensures Filter(cs[..i + 1], parser) == Filter(cs[..i], parser) + (if parser(cs[i]) then [cs[i]] else [])
  {
    assert cs[..i + 1][..i] == cs[..i];
  }

  /** `evaluate_driver_license_extraction(df_cv_with_gender, df_skills)`. */
  method EvaluateDriverLicenseExtraction(dfCv: seq<Candidate>, dfSkills: seq<SkillRow>)
    returns (res: LicenseEvaluation)
    ensures var parser := ParserOf(dfSkills);
      && Conf(res.tp, res.fp, res.tn, res.fn) == SumConf(dfCv, ConfOf(parser))
      && res.falsePositives == FpFindings(dfCv, parser)
      && res.falseNegatives == FnFindings(dfCv, parser)
      && res.count == |Filter(dfCv, parser)|
    ensures res.tp + res.fp + res.tn + res.fn == |dfCv|
    ensures |res.falsePositives| == res.fp && |res.falseNegatives| == res.fn
    ensures res.count == res.tp + res.fn
  {
    var parser := ParserOf(dfSkills);
    var tp: nat, fp: nat, tn: nat, fn: nat := 0, 0, 0, 0;
    var falsePositives, falseNegatives := [], [];
    var count: nat := 0;
    for i := 0 to |dfCv|
      invariant Conf(tp, fp, tn, fn) == SumConf(dfCv[..i], ConfOf(parser))
      invariant falsePositives == FpFindings(dfCv[..i], parser)
      invariant falseNegatives == FnFindings(dfCv[..i], parser)
      invariant count == |Filter(dfCv[..i], parser)|
    {
      var candidate := dfCv[i];
      var regexDl := candidate.hasDrivingLicense;
      var parserDl := parser(candidate);
      LicenseStep(dfCv, i, parser);
      if parserDl {
        count := count + 1;
      }
      if regexDl && parserDl {
        tp := tp + 1;
      } else if regexDl && !parserDl {
        fp := fp + 1;
        falsePositives := falsePositives + [MakeFinding(candidate, FpReason)];
      } else if !regexDl && !parserDl {
        tn := tn + 1;
      } else if !regexDl && parserDl {
        fn := fn + 1;
        falseNegatives := falseNegatives + [MakeFinding(candidate, FnReason)];
      }
    }
    assert dfCv[..|dfCv|] == dfCv;
    LicenseTotal(dfCv, parser);
    LicenseFindingCounts(dfCv, parser);
    LicenseParserCount(dfCv, parser);
    res := LicenseEvaluation(tp, fp, tn, fn, falsePositives, falseNegatives, count);
  }

  /** `analyze_bias_by_gender(df_cv_with_gender, false_positives,
      false_negatives)`: the fp and fn rate tables per candidate gender.
      An empty findings list has no `candidate_gender` column to group by. */
  function AnalyzeBiasByGender(dfCv: seq<Candidate>, fps: seq<LicenseFinding>, fns: seq<LicenseFinding>)
    : (r: Result<(seq<GroupRate>, seq<GroupRate>)>)
    ensures r.Err? <==> fps == [] || fns == []
    ensures r.Err? ==> r.error == ColumnNotFoundError("candidate_gender")
  {
    ErrorRatesByGroup(Column(dfCv, (c: Candidate) => c.gender),
                      Column(fps, (f: LicenseFinding) => f.gender),
                      Column(fns, (f: LicenseFinding) => f.gender), "candidate_gender")
  }

  /** On success, each table has one row per gender of its findings, the
      number of findings of that gender, that gender's number of
      candidates (null if no candidate has it) and their quotient. */
  lemma AnalyzeBiasByGenderRates(dfCv: seq<Candidate>, fps: seq<LicenseFinding>, fns: seq<LicenseFinding>)
    requires fps != [] && fns != []
    ensures var genders := Column(dfCv, (c: Candidate) => c.gender);
      var fpG, fnG := Column(fps, (f: LicenseFinding) => f.gender), Column(fns, (f: LicenseFinding) => f.gender);
      var r := AnalyzeBiasByGender(dfCv, fps, fns);
      r.Ok?
      && (forall i | 0 <= i < |r.value.0| :: IsRateRow(r.value.0[i], fpG, genders))
      && (forall i | 0 <= i < |r.value.1| :: IsRateRow(r.value.1[i], fnG, genders))
      && (forall g | g in fpG :: exists i | 0 <= i < |r.value.0| :: r.value.0[i].group == g)
      && (forall g | g in fnG :: exists i | 0 <= i < |r.value.1| :: r.value.1[i].group == g)
  {
    var genders := Column(dfCv, (c: Candidate) => c.gender);
    var fpG, fnG := Column(fps, (f: LicenseFinding) => f.gender), Column(fns, (f: LicenseFinding) => f.gender);
    ErrorRatesByGroupTables(genders, fpG, fnG, "candidate_gender");
    RateTableFacts(genders, fpG);
    RateTableFacts(genders, fnG);
  }
}
