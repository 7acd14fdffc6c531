/** `extract_skill_cases`: the tp, fp and fn rows of one skill, picked
    out of an earlier result by skill variant, and one tn row for every
    candidate none of those rows names. */
module SkillCases {
  import opened Maybe
  import opened Collections
  import opened Tables
  import opened Metrics

  const TnReason: string := "No skill found by either extractor or parser."

  /** One evidence row; `skill` is `None` on tn rows. */
  datatype CaseRow = CaseRow(id: int, gender: string, location: string, length: int,
                             skill: Option<string>, cvText: string, cvItalian: string, reason: string)

  /** The five-field `Result(conf, tp_rows, fp_rows, fn_rows, tn_rows)`. */
  datatype CaseResult = CaseResult(conf: Conf, tpRows: seq<CaseRow>, fpRows: seq<CaseRow>,
                                   fnRows: seq<CaseRow>, tnRows: seq<CaseRow>)

  /** `row["skill"] in skill_variants`; a missing skill is in no set of
      strings. */
  function IsVariant(variants: set<string>): CaseRow -> bool
  {
    (r: CaseRow) => r.skill.Some? && r.skill.value in variants
  }

  /** The candidate ids the rows name. */
  function CaseIds(rows: seq<CaseRow>): set<int>
  {
    set r | r in rows :: r.id
  }

  /** `_collect_skills(rows, skills)`: appends the rows of a skill variant,
      in order, and discards their candidate ids from `ids`. */
  method CollectSkills(rows: seq<CaseRow>, variants: set<string>, ids: set<int>)
    returns (kept: seq<CaseRow>, remaining: set<int>)
    ensures kept == Filter(rows, IsVariant(variants))
    ensures remaining == ids - CaseIds(kept)
  {
    kept, remaining := [], ids;
    for i := 0 to |rows|
      invariant kept == Filter(rows[..i], IsVariant(variants))
      invariant remaining == ids - CaseIds(kept)
    {
      assert rows[..i + 1][..i] == rows[..i];
      var row := rows[i];
      if row.skill.Some? && row.skill.value in variants {
        assert CaseIds(kept + [row]) == CaseIds(kept) + {row.id};
        kept := kept + [row];
        remaining := remaining - {row.id};
      }
    }
    assert rows[..|rows|] == rows;
  }

  /** The tn row of a candidate. */
  function TnRow(c: Candidate): CaseRow
  {
    CaseRow(c.id, c.gender, c.location, c.length, None, c.translatedCv, c.cvTextAnon, TnReason)
  }

  /** The ids no kept row names: the tn candidates. */
  function TnIds(dfCv: seq<Candidate>, tp: seq<CaseRow>, fp: seq<CaseRow>, fn: seq<CaseRow>): set<int>
  {
    CandidateIds(dfCv) - CaseIds(fp) - CaseIds(tp) - CaseIds(fn)
  }

  /** `df_cv.filter(CANDIDATE_ID == cid)[col].item()` succeeds only when
      exactly one candidate row has the id. */
  predicate UniqueRow(dfCv: seq<Candidate>, id: int)
  {
    |RowsWithId(dfCv, id)| == 1
  }

  /** The tn row is built from a candidate row with its id. */
  predicate FromCandidate(row: CaseRow, dfCv: seq<Candidate>)
  {
    exists c | c in dfCv :: c.id == row.id && row == TnRow(c)
  }

  predicate HasRowFor(rows: seq<CaseRow>, id: int)
  {
    exists k | 0 <= k < |rows| :: rows[k].id == id
  }

  /** The tn rows are one per id of `ids`, each built from the candidate
      row with that id. */
  predicate TnRowsOf(rows: seq<CaseRow>, ids: set<int>, dfCv: seq<Candidate>)
  {
    && |rows| == |ids|
    && (forall k | 0 <= k < |rows| :: rows[k].id in ids && FromCandidate(rows[k], dfCv))
    && (forall id | id in ids :: HasRowFor(rows, id))
    && (forall k, l | 0 <= k < l < |rows| :: rows[k].id != rows[l].id)
  }

  /** Adding the row of one more id keeps the tn rows one per id. */
  lemma TnRowsStep(rows: seq<CaseRow>, ids: set<int>, dfCv: seq<Candidate>, c: Candidate)
    requires TnRowsOf(rows, ids, dfCv)
    requires c in dfCv && c.id !in ids
    ensures TnRowsOf(rows + [TnRow(c)], ids + {c.id}, dfCv)
  {
    var out := rows + [TnRow(c)];
    var ids' := ids + {c.id};
    assert |ids'| == |ids| + 1;
    assert FromCandidate(TnRow(c), dfCv);
    forall k | 0 <= k < |out|
      ensures out[k].id in ids' && FromCandidate(out[k], dfCv)
    {
      if k < |rows| {
        assert out[k] == rows[k];
      }
    }
    forall id | id in ids'
      ensures HasRowFor(out, id)
    {
      if id == c.id {
        assert out[|rows|].id == id;
      } else {
        assert HasRowFor(rows, id);
        var k :| 0 <= k < |rows| && rows[k].id == id;
        assert out[k].id == id;
      }
    }
    forall k, l | 0 <= k < l < |out|
      ensures out[k].id != out[l].id
    {
      assert out[k] == rows[k];
      if l < |rows| {
        assert out[l] == rows[l];
      }
    }
  }

  /** The tn loop's invariant: the ids already visited all have a unique
      candidate row, and the rows so far are one per visited id. */
  predicate TnProgress(rows: seq<CaseRow>, ids: set<int>, remaining: set<int>, dfCv: seq<Candidate>)
  {
    && remaining <= ids
    && (forall id | id in ids - remaining :: UniqueRow(dfCv, id))
    && TnRowsOf(rows, ids - remaining, dfCv)
  }

  lemma TnProgressStep(rows: seq<CaseRow>, ids: set<int>, remaining: set<int>, dfCv: seq<Candidate>, cid: int)
    requires TnProgress(rows, ids, remaining, dfCv)
    requires cid in remaining && UniqueRow(dfCv, cid)
    ensures TnProgress(rows + [TnRow(RowsWithId(dfCv, cid)[0])], ids, remaining - {cid}, dfCv)
  {
    var c := RowsWithId(dfCv, cid)[0];
    assert c in RowsWithId(dfCv, cid);
    TnRowsStep(rows, ids - remaining, dfCv, c);
    assert ids - (remaining - {cid}) == (ids - remaining) + {cid};
  }

  /** The tn loop: `for cid in candidate_ids`, one row per remaining id,
      in whatever order the set is iterated; it fails as soon as an id's
      candidate row is not unique. */
  method CollectTnRows(dfCv: seq<Candidate>, ids: set<int>) returns (r: Result<seq<CaseRow>>)
    ensures r.Err? <==> exists id | id in ids :: !UniqueRow(dfCv, id)
    ensures r.Err? ==> r.error.ValueError?
    ensures r.Ok? ==> TnRowsOf(r.value, ids, dfCv)
  {
    var tnSkills := [];
    var remaining := ids;
    while remaining != {}
      invariant TnProgress(tnSkills, ids, remaining, dfCv)
      decreases |remaining|
    {
      var cid := Pick(remaining);
      var row := RowsWithId(dfCv, cid);
      if |row| != 1 {
        return Err(ValueError("Series.item() needs a Series of length 1"));
      }
      TnProgressStep(tnSkills, ids, remaining, dfCv, cid);
      tnSkills := tnSkills + [TnRow(row[0])];
      remaining := remaining - {cid};
    }
    assert ids - remaining == ids;
    r := Ok(tnSkills);
  }

  /** `extract_skill_cases(res_job, df_cv, skill_variants)`. */
  method ExtractSkillCases(resJob: CaseResult, dfCv: seq<Candidate>, variants: set<string>)
    returns (r: Result<CaseResult>)
    ensures var tp, fp, fn := Filter(resJob.tpRows, IsVariant(variants)), Filter(resJob.fpRows, IsVariant(variants)),
                              Filter(resJob.fnRows, IsVariant(variants));
      var ids := TnIds(dfCv, tp, fp, fn);
      && (r.Err? <==> exists id | id in ids :: !UniqueRow(dfCv, id))
      && (r.Err? ==> r.error.ValueError?)
      && (r.Ok? ==>
            r.value.tpRows == tp && r.value.fpRows == fp && r.value.fnRows == fn
            && TnRowsOf(r.value.tnRows, ids, dfCv)
            && r.value.conf == Conf(|tp|, |fp|, |r.value.tnRows|, |fn|))
  {
    var candidateIds := CandidateIds(dfCv);
    var fpSkills, ids1 := CollectSkills(resJob.fpRows, variants, candidateIds);
    var tpSkills, ids2 := CollectSkills(resJob.tpRows, variants, ids1);
    var fnSkills, ids3 := CollectSkills(resJob.fnRows, variants, ids2);
    assert ids3 == TnIds(dfCv, tpSkills, fpSkills, fnSkills);
    var tn := CollectTnRows(dfCv, ids3);
    if tn.Err? {
      return Err(tn.error);
    }
    var tnSkills := tn.value;
    r := Ok(CaseResult(Conf(|tpSkills|, |fpSkills|, |tnSkills|, |fnSkills|), tpSkills, fpSkills, fnSkills, tnSkills));
  }

  /** A kept row is of a skill variant and comes from the matching input
      list; kept rows keep their input order (they are a filter). */
  lemma KeptRows(rows: seq<CaseRow>, variants: set<string>)
    ensures forall x :: x in Filter(rows, IsVariant(variants)) <==> x in rows && x.skill.Some? && x.skill.value in variants
    ensures |Filter(rows, IsVariant(variants))| <= |rows|
  {
    FilterMembers(rows, IsVariant(variants));
  }

  /** No tn candidate is named by a kept tp, fp or fn row, and every
      candidate is either a tn candidate or named by a kept row. */
  lemma TnDisjoint(dfCv: seq<Candidate>, tp: seq<CaseRow>, fp: seq<CaseRow>, fn: seq<CaseRow>)
    ensures var ids := TnIds(dfCv, tp, fp, fn);
      forall x | x in tp + fp + fn :: x.id !in ids
    ensures forall c | c in dfCv :: c.id in TnIds(dfCv, tp, fp, fn) || c.id in CaseIds(tp + fp + fn)
  {
    forall c | c in dfCv
      ensures c.id in TnIds(dfCv, tp, fp, fn) || c.id in CaseIds(tp + fp + fn)
    {
      if c.id !in TnIds(dfCv, tp, fp, fn) {
        assert c.id in CandidateIds(dfCv);
        if c.id in CaseIds(tp) {
          var x :| x in tp && x.id == c.id;
          assert x in tp + fp + fn;
        } else if c.id in CaseIds(fp) {
          var x :| x in fp && x.id == c.id;
          assert x in tp + fp + fn;
        } else {
          var x :| x in fn && x.id == c.id;
          assert x in tp + fp + fn;
        }
      }
    }
  }
}
