/** The data frames the evaluation code reads, as sequences of records.
    Each operation reads only the columns it names. */
module Tables {
  import opened Maybe

  /** A row of the candidates table (`df_cv`, `df_cv_with_gender`). */
  datatype Candidate = Candidate(
    id: int,
    gender: string,
    ageBucket: string,
    location: string,
    length: int,
    cleanedCv: string,
    cvTextAnon: string,
    translatedCv: string,
    hasDrivingLicense: bool)

  /** A row of the parser's skills table; `skill` is `None` when the
      `Skill` cell does not hold a string. */
  datatype SkillRow = SkillRow(id: int, skill: Option<string>, skillType: string)

  /** The rows with `Skill_Type == t`, in order. */
  function SkillsOfType(rows: seq<SkillRow>, t: string): (r: seq<SkillRow>)
    ensures |r| <= |rows|
    ensures forall x :: x in r <==> x in rows && x.skillType == t
  {
    if rows == [] then []
    else
      var last := rows[|rows| - 1];
      SkillsOfType(rows[..|rows| - 1], t) + (if last.skillType == t then [last] else [])
  }

  /** The distinct `CANDIDATE_ID` values of skill rows. */
  function RowIds(rows: seq<SkillRow>): (ids: set<int>)
    ensures forall id :: id in ids <==> exists r | r in rows :: r.id == id
  {
    if rows == [] then {}
    else RowIds(rows[..|rows| - 1]) + {rows[|rows| - 1].id}
  }

  /** There are no more distinct ids than rows. */
  lemma {:induction false} RowIdsCard(rows: seq<SkillRow>)
    ensures |RowIds(rows)| <= |rows|
    decreases |rows|
  {
    if rows != [] {
      RowIdsCard(rows[..|rows| - 1]);
    }
  }

  /** The distinct `CANDIDATE_ID` values of candidate rows. */
  function CandidateIds(cs: seq<Candidate>): (ids: set<int>)
    ensures forall id :: id in ids <==> exists c | c in cs :: c.id == id
  {
    set c | c in cs :: c.id
  }

  /** The candidate rows with a given id, in order. */
  function RowsWithId(cs: seq<Candidate>, id: int): (r: seq<Candidate>)
    ensures |r| <= |cs|
    ensures forall c :: c in r <==> c in cs && c.id == id
  {
    if cs == [] then []
    else
      var last := cs[|cs| - 1];
      RowsWithId(cs[..|cs| - 1], id) + (if last.id == id then [last] else [])
  }
}
