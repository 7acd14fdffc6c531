/** The row filters of the cleaning step: dropping rows by candidate id,
    the keep rule for extracted skills and the rows it drops, and the
    restriction of the CV table to the genders and age buckets under
    study. A data frame is the sequence of its rows and a column the
    function that reads it from a row. */
module Cleaning {
  import opened Maybe
  import opened Collections
  import opened Text
  import opened Groups

  // ---------------------------------------------------------------- order

  /** The positions of `xs` whose element satisfies `p`, in increasing
      order. */
  function KeptIndices<T>(xs: seq<T>, p: T -> bool): seq<nat>
  {
    if xs == [] then []
    else
      var n := |xs| - 1;
      KeptIndices(xs[..n], p) + (if p(xs[n]) then [n] else [])
  }

  /** A filter selects the elements at the positions that pass, in their
      original order: it is an order-preserving subsequence that misses no
      element satisfying `p`. */
  lemma {:induction false} FilterOrder<T>(xs: seq<T>, p: T -> bool)
    ensures var f := Filter(xs, p); var ks := KeptIndices(xs, p);
      && |ks| == |f|
      && (forall i | 0 <= i < |ks| :: ks[i] < |xs| && f[i] == xs[ks[i]])
      && (forall i, j | 0 <= i < j < |ks| :: ks[i] < ks[j])
      && (forall k | 0 <= k < |xs| :: p(xs[k]) <==> k in ks)
    decreases |xs|
  {
    if xs != [] {
      var n := |xs| - 1;
      var front := xs[..n];
      FilterOrder(front, p);
      var f0, k0 := Filter(front, p), KeptIndices(front, p);
      forall k | 0 <= k < n ensures front[k] == xs[k] {
      }
      forall i | 0 <= i < |k0| ensures k0[i] < n {
      }
    }
  }

  // ---------------------------------------------------- candidate ids

  /** The figures `filter_out_candidate_ids` reports beside the cleaned
      rows. */
  datatype DropReport = DropReport(original: nat, remaining: nat, dropped: nat, pct: real)

  /** `df.filter(~pl.col(id_col).is_in(id_list))`. */
  function FilterOutCandidateIds<R, I(==)>(df: seq<R>, ids: seq<I>, id: R -> I): seq<R>
  {
    Filter(df, (r: R) => id(r) !in ids)
  }

  /** `original`, `remaining`, `dropped` and `pct`; with no rows the
      percentage is 0. */
  function Report<R, I(==)>(df: seq<R>, ids: seq<I>, id: R -> I): DropReport
  {
    var original := |df|;
    var remaining := |FilterOutCandidateIds(df, ids, id)|;
    FilterMembers(df, (r: R) => id(r) !in ids);
    var dropped := original - remaining;
    DropReport(original, remaining, dropped, if original > 0 then Percentage(dropped, original) else 0.0)
  }

  /** The cleaned rows are exactly the rows whose id is not listed, in
      their original order. */
  lemma FilterOutKeeps<R, I>(df: seq<R>, ids: seq<I>, id: R -> I)
    ensures forall r :: r in FilterOutCandidateIds(df, ids, id) <==> r in df && id(r) !in ids
    ensures var f := FilterOutCandidateIds(df, ids, id); var ks := KeptIndices(df, (r: R) => id(r) !in ids);
      && |ks| == |f|
      && (forall i | 0 <= i < |ks| :: ks[i] < |df| && f[i] == df[ks[i]])
      && (forall i, j | 0 <= i < j < |ks| :: ks[i] < ks[j])
      && (forall k | 0 <= k < |df| :: id(df[k]) !in ids <==> k in ks)
  {
    FilterMembers(df, (r: R) => id(r) !in ids);
    FilterOrder(df, (r: R) => id(r) !in ids);
  }

  /** The dropped count is the number of rows whose id is listed (never
      negative), dropped and remaining add up to the original count; the percentage is 0 for an
      empty frame and otherwise the dropped share, within `[0, 100]`. */
  lemma ReportFacts<R, I>(df: seq<R>, ids: seq<I>, id: R -> I)
    ensures var rep := Report(df, ids, id);
      && rep.dropped == |Filter(df, (r: R) => id(r) in ids)|
      && rep.dropped + rep.remaining == rep.original
      && (rep.original == 0 ==> rep.pct == 0.0)
      && (rep.original > 0 ==> IsShare(rep.pct, rep.dropped, rep.original))
  {
    var keep := (r: R) => id(r) !in ids;
    FilterSplit(df, keep);
    FilterCongruent(df, (x: R) => !keep(x), (r: R) => id(r) in ids);
    var rep := Report(df, ids, id);
    if |df| > 0 {
      PercentageBounds(rep.dropped, |df|);
    }
  }

  /** An empty id list keeps every row, and filtering again with the same
      list changes nothing. */
  lemma FilterOutEmptyAndTwice<R, I>(df: seq<R>, ids: seq<I>, id: R -> I)
    ensures FilterOutCandidateIds(df, [], id) == df
    ensures FilterOutCandidateIds(FilterOutCandidateIds(df, ids, id), ids, id) == FilterOutCandidateIds(df, ids, id)
  {
    FilterKeepsAll(df, (r: R) => id(r) !in []);
    FilterIdempotent(df, (r: R) => id(r) !in ids);
  }

  // ------------------------------------------------------------ skill rows

  const MinLen: int := 2
  const MaxLen: int := 100

  /** `s or ""`. */
  function OrEmpty(s: Option<string>): string
  {
    if s.None? then "" else s.value
  }

  /** `re.search(r"[A-Za-z]", s)` found a match. */
  predicate HasLetter(s: string)
  {
    exists i | 0 <= i < |s| :: IsAsciiLetter(s[i])
  }

  /** `re.search(r"X{5,}", s)`, the default placeholder pattern, found a
      match: five consecutive `X`. */
  predicate HasPlaceholderRun(s: string)
  {
    exists i | 0 <= i <= |s| - 5 :: XRunAt(s, i)
  }

  predicate XRunAt(s: string, i: int)
  {
    0 <= i && i + 5 <= |s| && s[i..i + 5] == "XXXXX"
  }

  /** The keep mask of `find_dropped_skill_rows`: a length between
      `min_len` and `max_len`, a letter, and no match of the placeholder
      pattern, all on `s or ""`. The pattern is a parameter; its default is
      `HasPlaceholderRun`. */
  predicate KeepSkill(skill: Option<string>, minLen: int, maxLen: int, placeholder: string -> bool)
  {
    var s := OrEmpty(skill);
    minLen <= |s| <= maxLen && HasLetter(s) && !placeholder(s)
  }

  /** A missing skill counts as the empty string and is never kept, whatever
      the bounds and the pattern; a kept skill is a non-empty string. */
  lemma KeepSkillFacts(skill: Option<string>, minLen: int, maxLen: int, placeholder: string -> bool)
    ensures skill.None? ==> !KeepSkill(skill, minLen, maxLen, placeholder)
    ensures KeepSkill(skill, minLen, maxLen, placeholder) ==>
      skill.Some? && skill.value != [] && minLen <= |skill.value| <= maxLen && !placeholder(skill.value)
    ensures skill.Some? && skill.value == [] ==> !KeepSkill(skill, minLen, maxLen, placeholder)
  {
  }

  /** With the default pattern, a skill made of a run of placeholders is
      dropped and an ordinary one is kept. */
  lemma DefaultPatternExamples()
    ensures !KeepSkill(Some("XXXXX"), MinLen, MaxLen, HasPlaceholderRun)
    ensures !KeepSkill(Some("aXXXXXb"), MinLen, MaxLen, HasPlaceholderRun)
    ensures KeepSkill(Some("Excel"), MinLen, MaxLen, HasPlaceholderRun)
    ensures !KeepSkill(Some("42"), MinLen, MaxLen, HasPlaceholderRun)
  {
    assert XRunAt("XXXXX", 0);
    assert XRunAt("aXXXXXb", 1) by {
      assert "aXXXXXb"[1..6] == "XXXXX";
    }
    assert IsAsciiLetter("Excel"[0]);
    assert !HasLetter("42") by {
      forall i | 0 <= i < 2 ensures !IsAsciiLetter("42"[i]) {
      }
    }
  }

  /** The key of the anti join: candidate id, skill and skill type. */
  function SkillKey<R, I>(id: R -> I, skill: R -> Option<string>, skillType: R -> string): R -> (I, Option<string>, string)
  {
    (r: R) => (id(r), skill(r), skillType(r))
  }

  function Kept<R>(skill: R -> Option<string>, minLen: int, maxLen: int, placeholder: string -> bool): R -> bool
  {
    (r: R) => KeepSkill(skill(r), minLen, maxLen, placeholder)
  }

  /** `find_dropped_skill_rows`: the rows of `df` whose key matches no row
      that passes the keep mask. */
  function FindDroppedSkillRows<R, I(==)>(df: seq<R>, id: R -> I, skill: R -> Option<string>, skillType: R -> string,
                                          minLen: int, maxLen: int, placeholder: string -> bool): seq<R>
  {
    var cleaned := Filter(df, Kept(skill, minLen, maxLen, placeholder));
    var keys := Column(cleaned, SkillKey(id, skill, skillType));
    Filter(df, (r: R) => SkillKey(id, skill, skillType)(r) !in keys)
  }

  /** Since the key holds the skill, a row matches a kept row only if it is
      kept itself: the dropped rows are exactly the rows failing the mask,
      in order, and they and the kept rows together are all the rows. */
  lemma DroppedAreFailing<R, I(!new)>(df: seq<R>, id: R -> I, skill: R -> Option<string>, skillType: R -> string,
                                      minLen: int, maxLen: int, placeholder: string -> bool)
    ensures var keep := Kept(skill, minLen, maxLen, placeholder);
      && FindDroppedSkillRows(df, id, skill, skillType, minLen, maxLen, placeholder) == Filter(df, (r: R) => !keep(r))
      && |FindDroppedSkillRows(df, id, skill, skillType, minLen, maxLen, placeholder)| + |Filter(df, keep)| == |df|
  {
    var keep := Kept(skill, minLen, maxLen, placeholder);
    var key := SkillKey(id, skill, skillType);
    var cleaned := Filter(df, keep);
    var keys := Column(cleaned, key);
    FilterMembers(df, keep);
    forall i | 0 <= i < |df| ensures (key(df[i]) !in keys) == !keep(df[i]) {
      var r := df[i];
      if keep(r) {
        assert r in cleaned;
        var j :| 0 <= j < |cleaned| && cleaned[j] == r;
        assert keys[j] == key(r);
      }
    }
    FilterCongruent(df, (r: R) => key(r) !in keys, (r: R) => !keep(r));
    FilterSplit(df, keep);
  }

  // ------------------------------------------- genders and age buckets

  const Genders: seq<string> := ["Male", "Female"]
  const AgeBuckets: seq<string> := ["25-34", "45-54", "55-74"]

  function InColumn<R>(col: R -> string, values: seq<string>): R -> bool
  {
    (r: R) => col(r) in values
  }

  /** `filter_unknown_and_other_rows`: first the known genders, then the
      three age buckets under study. */
  function FilterUnknownAndOtherRows<R>(df: seq<R>, gender: R -> string, age: R -> string): seq<R>
  {
    Filter(Filter(df, InColumn(gender, Genders)), InColumn(age, AgeBuckets))
  }

  predicate Studied<R>(gender: R -> string, age: R -> string, r: R)
  {
    gender(r) in Genders && age(r) in AgeBuckets
  }

  function StudiedRow<R>(gender: R -> string, age: R -> string): R -> bool
  {
    (r: R) => Studied(gender, age, r)
  }

  /** The two filters are one filter by both conditions. */
  lemma FilterUnknownIsOneFilter<R>(df: seq<R>, gender: R -> string, age: R -> string)
    ensures FilterUnknownAndOtherRows(df, gender, age) == Filter(df, StudiedRow(gender, age))
  {
    var g := InColumn(gender, Genders);
    var a := InColumn(age, AgeBuckets);
    var both := StudiedRow(gender, age);
    var f := Filter(df, g);
    FilterMembers(df, g);
    FilterFilter(df, g, both);
    forall i | 0 <= i < |f| ensures a(f[i]) == both(f[i]) {
      assert f[i] in f;
    }
    FilterCongruent(f, a, both);
  }

  /** A row survives exactly when its gender is "Male" or "Female" and its
      age bucket is one of the three, so no row of the "35-44" bucket or of
      an unknown gender survives. */
  lemma FilterUnknownMembers<R>(df: seq<R>, gender: R -> string, age: R -> string)
    ensures var out := FilterUnknownAndOtherRows(df, gender, age);
      && (forall r :: r in out <==>
            (r in df && (gender(r) == "Male" || gender(r) == "Female")
             && (age(r) == "25-34" || age(r) == "45-54" || age(r) == "55-74")))
      && (forall r | r in out :: age(r) != "35-44" && gender(r) != "Unknown")
  {
    FilterUnknownIsOneFilter(df, gender, age);
    FilterMembers(df, StudiedRow(gender, age));
  }

  /** Filtering the survivors again changes nothing. */
  lemma FilterUnknownIdempotent<R>(df: seq<R>, gender: R -> string, age: R -> string)
    ensures var out := FilterUnknownAndOtherRows(df, gender, age);
      FilterUnknownAndOtherRows(out, gender, age) == out
  {
    var out := FilterUnknownAndOtherRows(df, gender, age);
    var both := StudiedRow(gender, age);
    FilterUnknownIsOneFilter(df, gender, age);
    FilterUnknownIsOneFilter(out, gender, age);
    FilterIdempotent(df, both);
  }

  /** The survivors are the rows passing both conditions, picked in their
      original order. */
  lemma FilterUnknownOrder<R>(df: seq<R>, gender: R -> string, age: R -> string)
    ensures var out := FilterUnknownAndOtherRows(df, gender, age);
      var ks := KeptIndices(df, StudiedRow(gender, age));
      && |ks| == |out|
      && (forall i | 0 <= i < |ks| :: ks[i] < |df| && out[i] == df[ks[i]])
      && (forall i, j | 0 <= i < j < |ks| :: ks[i] < ks[j])
      && (forall k | 0 <= k < |df| :: Studied(gender, age, df[k]) <==> k in ks)
  {
    FilterUnknownIsOneFilter(df, gender, age);
    FilterOrder(df, StudiedRow(gender, age));
  }
}
