/** `compare`, which scores the parser against a rule-based extractor
    taken as ground truth, and `compute_candidate_coverage`, which
    partitions the candidate ids each side flags. */
module CompareParser {
  import opened Maybe
  import opened Tables
  import opened Metrics
  import opened Bags

  /** One entry of `fp_rows` or `fn_rows`. */
  datatype Evidence = Evidence(
    id: int, gender: string, skill: string, cvText: string, cvItalian: string, reason: string)

  const FpReason: string := "Parser output contains skill not found by rule-based extractor. "
  const FnReason: string := "Rule-based extractor found skill but parser missed it."

  /** The `Result(conf, fp_rows, fn_rows)` named tuple. */
  datatype Outcome = Outcome(conf: Conf, fpRows: seq<Evidence>, fnRows: seq<Evidence>)

  /** The parser set of candidate `id`: `norm` of every string-valued
      `Skill` of the rows with that id and skill type. Non-string cells are
      skipped; nothing is dropped after normalisation. */
  function ParserSet(rows: seq<SkillRow>, id: int, skillType: string, norm: string -> string): set<string>
  {
    set r | r in rows && r.id == id && r.skillType == skillType && r.skill.Some? :: norm(r.skill.value)
  }

  /** A non-string `Skill` cell never reaches the parser set. */
  lemma ParserSetSkipsNonStrings(rows: seq<SkillRow>, id: int, skillType: string, norm: string -> string)
    ensures ParserSet(rows + [SkillRow(id, None, skillType)], id, skillType, norm)
         == ParserSet(rows, id, skillType, norm)
  {
  }

  /** A matching string row contributes its normalised skill, even when
      normalisation yields the empty string. */
  lemma ParserSetHasRow(rows: seq<SkillRow>, r: SkillRow, skillType: string, norm: string -> string)
    requires r in rows && r.skillType == skillType && r.skill.Some?
    ensures norm(r.skill.value) in ParserSet(rows, r.id, skillType, norm)
  {
  }

  /** A row of another candidate or another skill type changes nothing. */
  lemma ParserSetIgnoresOthers(rows: seq<SkillRow>, r: SkillRow, id: int, skillType: string, norm: string -> string)
    requires r.id != id || r.skillType != skillType
    ensures ParserSet(rows + [r], id, skillType, norm) == ParserSet(rows, id, skillType, norm)
  {
  }

  function CandidateConf(c: Candidate, rows: seq<SkillRow>, skillType: string,
                         extractor: string -> set<string>, norm: string -> string): Conf
  {
    LabelConf(extractor(c.cleanedCv), ParserSet(rows, c.id, skillType, norm))
  }

  /** The per-candidate contribution as a function value. */
  function ConfOf(rows: seq<SkillRow>, skillType: string,
                  extractor: string -> set<string>, norm: string -> string): Candidate -> Conf
  {
    c => CandidateConf(c, rows, skillType, extractor, norm)
  }

  function MakeRow(c: Candidate, s: string, reason: string): Evidence
  {
    Evidence(c.id, c.gender, s, c.cleanedCv, c.cvTextAnon, reason)
  }

  /** The row maker of candidate `c` for one reason. */
  function RowMaker(c: Candidate, reason: string): string -> Evidence
  {
    (s: string) => MakeRow(c, s, reason)
  }

  /** The evidence rows for the labels `skills` of candidate `c`. */
  function RowSet(c: Candidate, skills: set<string>, reason: string): set<Evidence>
  {
    Image(skills, RowMaker(c, reason))
  }

  /** Rows of distinct labels differ, so there is one row per label, and a
      row is in the set exactly when it is the row of one of the labels. */
  lemma RowSetFacts(c: Candidate, skills: set<string>, reason: string)
    ensures Injective(skills, RowMaker(c, reason))
    ensures |RowSet(c, skills, reason)| == |skills|
    ensures forall e :: e in RowSet(c, skills, reason) <==> e.skill in skills && e == MakeRow(c, e.skill, reason)
  {
    assert Injective(skills, RowMaker(c, reason));
    ImageCard(skills, RowMaker(c, reason));
  }

  /** The labels behind `fp_rows`: given by the parser, not by the extractor. */
  function FpLabels(rows: seq<SkillRow>, skillType: string,
                    extractor: string -> set<string>, norm: string -> string): Candidate -> set<string>
  {
    (c: Candidate) => ParserSet(rows, c.id, skillType, norm) - extractor(c.cleanedCv)
  }

  /** The labels behind `fn_rows`: found by the extractor, missed by the parser. */
  function FnLabels(rows: seq<SkillRow>, skillType: string,
                    extractor: string -> set<string>, norm: string -> string): Candidate -> set<string>
  {
    (c: Candidate) => extractor(c.cleanedCv) - ParserSet(rows, c.id, skillType, norm)
  }

  /** The rows a candidate adds to a list: one per label, with `reason`. */
  function RowsOf(labels: Candidate -> set<string>, reason: string): Candidate -> set<Evidence>
  {
    (c: Candidate) => RowSet(c, labels(c), reason)
  }

  /** There are exactly as many fp rows as the fp counter and as many fn
      rows as the fn counter. */
  lemma {:induction false} RowCounts(cs: seq<Candidate>, rows: seq<SkillRow>, skillType: string,
                                     extractor: string -> set<string>, norm: string -> string)
    ensures SumCard(cs, RowsOf(FpLabels(rows, skillType, extractor, norm), FpReason))
         == SumConf(cs, ConfOf(rows, skillType, extractor, norm)).fp
    ensures SumCard(cs, RowsOf(FnLabels(rows, skillType, extractor, norm), FnReason))
         == SumConf(cs, ConfOf(rows, skillType, extractor, norm)).fn
    decreases |cs|
  {
    if cs != [] {
      var c := cs[|cs| - 1];
      var truth, parser := extractor(c.cleanedCv), ParserSet(rows, c.id, skillType, norm);
      RowCounts(cs[..|cs| - 1], rows, skillType, extractor, norm);
      RowSetFacts(c, parser - truth, FpReason);
      RowSetFacts(c, truth - parser, FnReason);
    }
  }

  /** Every row of the list names a candidate of `cs` and one of its
      labels and carries `reason`; every label of every candidate has its
      row. */
  lemma EvidenceOf(cs: seq<Candidate>, labels: Candidate -> set<string>, reason: string)
    ensures forall e | e in BagOf(cs, RowsOf(labels, reason)) ::
      e.reason == reason && exists c | c in cs :: e == MakeRow(c, e.skill, reason) && e.skill in labels(c)
    ensures forall c, s | c in cs && s in labels(c) :: MakeRow(c, s, reason) in BagOf(cs, RowsOf(labels, reason))
  {
    var of := RowsOf(labels, reason);
    BagMembers(cs, of);
    forall e: Evidence | e in BagOf(cs, of)
      ensures e.reason == reason && exists c | c in cs :: e == MakeRow(c, e.skill, reason) && e.skill in labels(c)
    {
      var c :| c in cs && e in of(c);
      RowSetFacts(c, labels(c), reason);
    }
    forall c, s | c in cs && s in labels(c)
      ensures MakeRow(c, s, reason) in BagOf(cs, of)
    {
      RowSetFacts(c, labels(c), reason);
    }
  }

  /** Every fp row names a candidate and a label the parser gave that
      candidate but the extractor did not, with the fixed fp reason; every
      fn row a label the extractor found and the parser missed, with the
      fixed fn reason; and each such label has its row. */
  lemma EvidenceExact(cs: seq<Candidate>, rows: seq<SkillRow>, skillType: string,
                      extractor: string -> set<string>, norm: string -> string)
    ensures forall e | e in BagOf(cs, RowsOf(FpLabels(rows, skillType, extractor, norm), FpReason)) ::
      e.reason == FpReason
      && exists c | c in cs ::
           e == MakeRow(c, e.skill, FpReason)
           && e.skill in ParserSet(rows, c.id, skillType, norm) && e.skill !in extractor(c.cleanedCv)
    ensures forall e | e in BagOf(cs, RowsOf(FnLabels(rows, skillType, extractor, norm), FnReason)) ::
      e.reason == FnReason
      && exists c | c in cs ::
           e == MakeRow(c, e.skill, FnReason)
           && e.skill in extractor(c.cleanedCv) && e.skill !in ParserSet(rows, c.id, skillType, norm)
    ensures forall c, s | c in cs && s in ParserSet(rows, c.id, skillType, norm) && s !in extractor(c.cleanedCv) ::
      MakeRow(c, s, FpReason) in BagOf(cs, RowsOf(FpLabels(rows, skillType, extractor, norm), FpReason))
    ensures forall c, s | c in cs && s in extractor(c.cleanedCv) && s !in ParserSet(rows, c.id, skillType, norm) ::
      MakeRow(c, s, FnReason) in BagOf(cs, RowsOf(FnLabels(rows, skillType, extractor, norm), FnReason))
  {
    EvidenceOf(cs, FpLabels(rows, skillType, extractor, norm), FpReason);
    EvidenceOf(cs, FnLabels(rows, skillType, extractor, norm), FnReason);
  }

  /** One turn of the loop of `compare`: the sums over `cs[..i + 1]` are
      those over `cs[..i]` plus candidate `i`'s share. */
  lemma CompareStep(cs: seq<Candidate>, i: nat, rows: seq<SkillRow>, skillType: string,
                    extractor: string -> set<string>, norm: string -> string)
    requires i < |cs|
    ensures SumConf(cs[..i + 1], ConfOf(rows, skillType, extractor, norm))
         == SumConf(cs[..i], ConfOf(rows, skillType, extractor, norm)).Plus(
              LabelConf(extractor(cs[i].cleanedCv), ParserSet(rows, cs[i].id, skillType, norm)))
    ensures BagOf(cs[..i + 1], RowsOf(FpLabels(rows, skillType, extractor, norm), FpReason))
         == BagOf(cs[..i], RowsOf(FpLabels(rows, skillType, extractor, norm), FpReason))
            + multiset(RowSet(cs[i], ParserSet(rows, cs[i].id, skillType, norm) - extractor(cs[i].cleanedCv), FpReason))
    ensures BagOf(cs[..i + 1], RowsOf(FnLabels(rows, skillType, extractor, norm), FnReason))
         == BagOf(cs[..i], RowsOf(FnLabels(rows, skillType, extractor, norm), FnReason))
            + multiset(RowSet(cs[i], extractor(cs[i].cleanedCv) - ParserSet(rows, cs[i].id, skillType, norm), FnReason))
  {
    assert cs[..i + 1][..i] == cs[..i];
  }

  /** `compare(df_cv, df_parser, skill_type, extractor, norm)`. */
  method Compare(dfCv: seq<Candidate>, dfParser: seq<SkillRow>, skillType: string,
                 extractor: string -> set<string>, norm: string -> string) returns (res: Outcome)
    ensures res.conf == SumConf(dfCv, ConfOf(dfParser, skillType, extractor, norm))
    ensures multiset(res.fpRows) == BagOf(dfCv, RowsOf(FpLabels(dfParser, skillType, extractor, norm), FpReason))
    ensures multiset(res.fnRows) == BagOf(dfCv, RowsOf(FnLabels(dfParser, skillType, extractor, norm), FnReason))
    ensures |res.fpRows| == res.conf.fp && |res.fnRows| == res.conf.fn
  {
    var tp: nat, fp: nat, tn: nat, fn: nat := 0, 0, 0, 0;
    var fpRows, fnRows := [], [];
    for i := 0 to |dfCv|
      invariant Conf(tp, fp, tn, fn) == SumConf(dfCv[..i], ConfOf(dfParser, skillType, extractor, norm))
      invariant multiset(fpRows) == BagOf(dfCv[..i], RowsOf(FpLabels(dfParser, skillType, extractor, norm), FpReason))
      invariant multiset(fnRows) == BagOf(dfCv[..i], RowsOf(FnLabels(dfParser, skillType, extractor, norm), FnReason))
    {
      var row := dfCv[i];
      var truth := extractor(row.cleanedCv);
      var parser := ParserSet(dfParser, row.id, skillType, norm);
      tp := tp + |truth * parser|;
      fn := fn + |truth - parser|;
      fp := fp + |parser - truth|;
      if truth == {} && parser == {} {
        tn := tn + 1;
      }
      RowSetFacts(row, parser - truth, FpReason);
      RowSetFacts(row, truth - parser, FnReason);
      fpRows := AppendRows(fpRows, parser - truth, RowMaker(row, FpReason));
      fnRows := AppendRows(fnRows, truth - parser, RowMaker(row, FnReason));
      CompareStep(dfCv, i, dfParser, skillType, extractor, norm);
    }
    assert dfCv[..|dfCv|] == dfCv;
    RowCounts(dfCv, dfParser, skillType, extractor, norm);
    BagCard(dfCv, RowsOf(FpLabels(dfParser, skillType, extractor, norm), FpReason));
    BagCard(dfCv, RowsOf(FnLabels(dfParser, skillType, extractor, norm), FnReason));
    res := Outcome(Conf(tp, fp, tn, fn), fpRows, fnRows);
  }

  /** The counters of `compare` are the per-candidate contributions added
      up: they do not depend on the order of the candidates, and after any
      prefix of the loop they are at most their final values. */
  lemma CompareOrderFree(xs: seq<Candidate>, ys: seq<Candidate>, i: nat, rows: seq<SkillRow>, skillType: string,
                          extractor: string -> set<string>, norm: string -> string)
    requires multiset(xs) == multiset(ys) && i <= |xs|
    ensures SumConf(xs, ConfOf(rows, skillType, extractor, norm)) == SumConf(ys, ConfOf(rows, skillType, extractor, norm))
    ensures SumConf(xs[..i], ConfOf(rows, skillType, extractor, norm)).Below(SumConf(xs, ConfOf(rows, skillType, extractor, norm)))
  {
    SumConfPermutation(xs, ys, ConfOf(rows, skillType, extractor, norm));
    SumConfPrefix(xs, i, ConfOf(rows, skillType, extractor, norm));
  }

  /** Summed over the candidates, tp + fn counts the extractor's labels,
      tp + fp the parser's labels, and tn never exceeds the number of
      candidates. */
  lemma {:induction false} CompareTotals(cs: seq<Candidate>, rows: seq<SkillRow>, skillType: string,
                                         extractor: string -> set<string>, norm: string -> string)
    ensures var k := SumConf(cs, ConfOf(rows, skillType, extractor, norm));
      k.tn <= |cs|
      && k.tp + k.fn == SumTruth(cs, extractor)
      && k.tp + k.fp == SumParser(cs, rows, skillType, norm)
    decreases |cs|
  {
    if cs != [] {
      var c := cs[|cs| - 1];
      CompareTotals(cs[..|cs| - 1], rows, skillType, extractor, norm);
      LabelConfPartition(extractor(c.cleanedCv), ParserSet(rows, c.id, skillType, norm));
    }
  }

  /** Total number of extractor labels over the candidates. */
  function SumTruth(cs: seq<Candidate>, extractor: string -> set<string>): nat
  {
    if cs == [] then 0 else SumTruth(cs[..|cs| - 1], extractor) + |extractor(cs[|cs| - 1].cleanedCv)|
  }

  /** Total number of parser labels over the candidates. */
  function SumParser(cs: seq<Candidate>, rows: seq<SkillRow>, skillType: string, norm: string -> string): nat
  {
    if cs == [] then 0
    else SumParser(cs[..|cs| - 1], rows, skillType, norm) + |ParserSet(rows, cs[|cs| - 1].id, skillType, norm)|
  }

  // -------------------------------------------------------------- coverage

  /** The statistics dictionary of `compute_candidate_coverage`. */
  datatype Coverage = Coverage(
    regexIds: set<int>, parserIds: set<int>,
    commonIds: set<int>, onlyRegexIds: set<int>, onlyParserIds: set<int>,
    numRegexCandidates: nat, numParserUnique: nat, numParserOccurrences: nat,
    numCommonCandidates: nat, numOnlyRegexCandidates: nat, numOnlyParserCandidates: nat)

  /** `compute_candidate_coverage(df_cv, df_sk, skill_type, extractor)`,
      reading the `cleaned_cv` text column. */
  function CandidateCoverage(dfCv: seq<Candidate>, dfSk: seq<SkillRow>, skillType: string,
                             extractor: string -> set<string>): (cov: Coverage)
    ensures forall id :: id in cov.regexIds <==> exists c | c in dfCv :: c.id == id && extractor(c.cleanedCv) != {}
    ensures forall id :: id in cov.parserIds <==> exists r | r in dfSk :: r.id == id && r.skillType == skillType
    ensures cov.commonIds !! cov.onlyRegexIds && cov.commonIds !! cov.onlyParserIds
         && cov.onlyRegexIds !! cov.onlyParserIds
    ensures cov.commonIds + cov.onlyRegexIds == cov.regexIds
    ensures cov.commonIds + cov.onlyParserIds == cov.parserIds
    ensures cov.numRegexCandidates == |cov.regexIds| && cov.numParserUnique == |cov.parserIds|
    ensures cov.numCommonCandidates == |cov.commonIds| && cov.numOnlyRegexCandidates == |cov.onlyRegexIds|
         && cov.numOnlyParserCandidates == |cov.onlyParserIds|
    ensures cov.numCommonCandidates + cov.numOnlyRegexCandidates == cov.numRegexCandidates
    ensures cov.numCommonCandidates + cov.numOnlyParserCandidates == cov.numParserUnique
    ensures cov.numParserUnique <= cov.numParserOccurrences
    ensures cov.numParserOccurrences == |SkillsOfType(dfSk, skillType)|
  {
    var regexIds := set c | c in dfCv && extractor(c.cleanedCv) != {} :: c.id;
    var skill := SkillsOfType(dfSk, skillType);
    var parserIds := RowIds(skill);
    RowIdsCard(skill);
    var common := regexIds * parserIds;
    var onlyRegex := regexIds - parserIds;
    var onlyParser := parserIds - regexIds;
    assert regexIds == common + onlyRegex;
    assert parserIds == common + onlyParser;
    Coverage(regexIds, parserIds, common, onlyRegex, onlyParser,
             |regexIds|, |parserIds|, |skill|, |common|, |onlyRegex|, |onlyParser|)
  }
}
