/** The integer parts of the gender analysis tables: the per-gender skill
    distribution and the male/female share tables joined on the skill (or
    skill type). A data frame is the sequence of its `(gender, key)`
    pairs; a table lists its groups in order of first appearance, which
    the library leaves unspecified. Percentages are exact, unrounded. */
module GenderAnalysis {
  import opened Collections
  import opened Groups

  /** One row's `(Gender, key)` columns. */
  type Observation<K> = (string, K)

  function OfGender<K(==)>(g: string): Observation<K> -> bool
  {
    (r: Observation<K>) => r.0 == g
  }

  function CountOfGender<K(==)>(g: string): GroupCount<Observation<K>> -> bool
  {
    (c: GroupCount<Observation<K>>) => c.key.0 == g
  }

  // -------------------------------------- get_skill_distribution_by_gender

  /** `total_skills`: the sum of the `(gender, skill)` counts of `g`. */
  function GenderTotal<K(==)>(counts: seq<GroupCount<Observation<K>>>, g: string): nat
  {
    SumNat(Filter(counts, CountOfGender(g)), CountOfRow())
  }

  /** One row of the joined table. */
  datatype SkillShare<K> = SkillShare(gender: string, skill: K, count: nat, totalSkills: nat, percentage: real)

  predicate TotalsPositive<K(==)>(cs: seq<GroupCount<Observation<K>>>, all: seq<GroupCount<Observation<K>>>)
  {
    forall i | 0 <= i < |cs| :: GenderTotal(all, cs[i].key.0) > 0
  }

  /** The joined row of one count row. */
  function ShareOf<K(==)>(c: GroupCount<Observation<K>>, all: seq<GroupCount<Observation<K>>>): SkillShare<K>
    requires GenderTotal(all, c.key.0) > 0
  {
    var t := GenderTotal(all, c.key.0);
    SkillShare(c.key.0, c.key.1, c.count, t, Percentage(c.count, t))
  }

  /** The count rows `cs` joined with the totals of `all` on the gender. */
  function ShareRows<K(==)>(cs: seq<GroupCount<Observation<K>>>, all: seq<GroupCount<Observation<K>>>): seq<SkillShare<K>>
    requires TotalsPositive(cs, all)
  {
    if cs == [] then []
    else
      var n := |cs| - 1;
      assert TotalsPositive(cs[..n], all) by {
        forall i | 0 <= i < n ensures GenderTotal(all, cs[..n][i].key.0) > 0 { assert cs[..n][i] == cs[i]; }
      }
      ShareRows(cs[..n], all) + [ShareOf(cs[n], all)]
  }

  /** In a count table every gender with a row has a positive total. */
  lemma CountTableTotals<K(!new)>(counts: seq<GroupCount<Observation<K>>>, rows: seq<Observation<K>>)
    requires IsCountTable(counts, rows)
    ensures TotalsPositive(counts, counts)
  {
    forall i | 0 <= i < |counts| ensures GenderTotal(counts, counts[i].key.0) > 0 {
      var c := counts[i];
      FilterMembers(counts, CountOfGender(c.key.0));
      assert c in Filter(counts, CountOfGender(c.key.0));
      SumNatIn(Filter(counts, CountOfGender(c.key.0)), CountOfRow(), c);
    }
  }

  /** `get_skill_distribution_by_gender(df)`: one row per `(gender,
      skill)` pair with its count, the gender's total and the share of
      the total in percent. The final sort is not modelled. */
  function SkillDistributionByGender<K(==,!new)>(rows: seq<Observation<K>>): seq<SkillShare<K>>
  {
    var counts := GroupBy(rows);
    GroupByFacts(rows);
    CountTableTotals(counts, rows);
    ShareRows(counts, counts)
  }

  lemma {:induction false} ShareRowsRows<K>(cs: seq<GroupCount<Observation<K>>>, all: seq<GroupCount<Observation<K>>>)
    requires TotalsPositive(cs, all)
    ensures |ShareRows(cs, all)| == |cs|
    ensures forall i | 0 <= i < |cs| :: ShareRows(cs, all)[i] == ShareOf(cs[i], all)
    decreases |cs|
  {
    if cs != [] {
      var n := |cs| - 1;
      assert TotalsPositive(cs[..n], all) by {
        forall i | 0 <= i < n ensures GenderTotal(all, cs[..n][i].key.0) > 0 { assert cs[..n][i] == cs[i]; }
      }
      ShareRowsRows(cs[..n], all);
      var front := ShareRows(cs[..n], all);
      assert ShareRows(cs, all) == front + [ShareOf(cs[n], all)];
      forall i | 0 <= i < |cs| ensures ShareRows(cs, all)[i] == ShareOf(cs[i], all) {
        if i < n {
          assert cs[..n][i] == cs[i];
        }
      }
    }
  }

  /** Counting the keys of distinct `(gender, key)` pairs of one gender
      counts that gender's rows. */
  lemma {:induction false} SumGenderCounts<K>(keys: seq<Observation<K>>, values: seq<Observation<K>>, g: string)
    ensures SumNat(Filter(CountsOf(keys, values), CountOfGender(g)), CountOfRow())
         == SumCounts(Filter(keys, OfGender(g)), values)
    decreases |keys|
  {
    if keys != [] {
      var n := |keys| - 1;
      var k := keys[n];
      SumGenderCounts(keys[..n], values, g);
      var front := CountsOf(keys[..n], values);
      var c := GroupCount(k, Count(values, k));
      assert CountsOf(keys, values) == front + [c];
      FilterSnoc(front, c, CountOfGender(g));
      var f := Filter(keys[..n], OfGender(g));
      var fc := Filter(front, CountOfGender(g));
      if k.0 == g {
        assert Filter(keys, OfGender(g)) == f + [k];
        SumCountsKeySnoc(f, k, values);
        SumNatSnoc(fc, c, CountOfRow());
      } else {
        assert !CountOfGender(g)(c);
        assert Filter(CountsOf(keys, values), CountOfGender(g)) == fc;
        assert Filter(keys, OfGender(g)) == f;
      }
    }
  }

  /** `total_skills` of a gender is its number of rows. */
  lemma GenderTotalIsRowCount<K(!new)>(rows: seq<Observation<K>>, g: string)
    ensures GenderTotal(GroupBy(rows), g) == |Filter(rows, OfGender(g))|
  {
    var d := Dedup(rows);
    var keys := Filter(d, OfGender(g));
    SumGenderCounts(d, rows, g);
    DedupMembers(rows);
    FilterDistinct(d, OfGender(g));
    SumCountsDistinct(keys, rows);
    FilterMembers(d, OfGender(g));
    forall i | 0 <= i < |rows| ensures InKeys(keys)(rows[i]) == OfGender(g)(rows[i]) {
      assert rows[i] in d;
    }
    FilterCongruent(rows, InKeys(keys), OfGender(g));
  }

  /** The figures of one row of the distribution: it counts its
      `(gender, skill)` pair, carries the gender's number of rows as
      `total_skills`, and its percentage is `count / total_skills * 100`,
      in `(0, 100]`. */
  predicate DistributionRowFacts<K(==)>(r: SkillShare<K>, rows: seq<Observation<K>>)
  {
    && r.count == Count(rows, (r.gender, r.skill)) > 0
    && r.totalSkills == |Filter(rows, OfGender(r.gender))|
    && r.count <= r.totalSkills
    && IsShare(r.percentage, r.count, r.totalSkills)
  }

  lemma ShareOfCorrect<K(!new)>(rows: seq<Observation<K>>, i: nat)
    requires i < |GroupBy(rows)|
    ensures GenderTotal(GroupBy(rows), GroupBy(rows)[i].key.0) > 0
    ensures DistributionRowFacts(ShareOf(GroupBy(rows)[i], GroupBy(rows)), rows)
  {
    var counts := GroupBy(rows);
    var c := counts[i];
    var g := c.key.0;
    var t := GenderTotal(counts, g);
    assert c.count == Count(rows, c.key) > 0 by {
      GroupByFacts(rows);
    }
    assert c.count <= t by {
      FilterMembers(counts, CountOfGender(g));
      assert c in Filter(counts, CountOfGender(g));
      SumNatIn(Filter(counts, CountOfGender(g)), CountOfRow(), c);
    }
    assert t == |Filter(rows, OfGender(g))| by {
      GenderTotalIsRowCount(rows, g);
    }
    var r := ShareOf(c, counts);
    assert r == SkillShare(g, c.key.1, c.count, t, Percentage(c.count, t));
    assert c.key == (r.gender, r.skill);
    assert IsShare(r.percentage, r.count, r.totalSkills) by {
      PercentageBounds(c.count, t);
    }
  }

  /** Every row of the distribution has the figures above. */
  lemma SkillDistributionFacts<K(!new)>(rows: seq<Observation<K>>)
    ensures forall r | r in SkillDistributionByGender(rows) :: DistributionRowFacts(r, rows)
  {
    var counts := GroupBy(rows);
    GroupByFacts(rows);
    CountTableTotals(counts, rows);
    ShareRowsRows(counts, counts);
    var out := SkillDistributionByGender(rows);
    forall r | r in out ensures DistributionRowFacts(r, rows) {
      var i :| 0 <= i < |out| && out[i] == r;
      ShareOfCorrect(rows, i);
    }
  }

  /** The two shares of a split total add up to 100. */
  lemma PercentagesComplement(a: nat, b: nat)
    requires a + b > 0
    ensures Percentage(a, a + b) + Percentage(b, a + b) == 100.0
  {
    var t := (a + b) as real;
    assert t == a as real + b as real;
    SharesAdd(a as real, b as real, t);
    SelfShare(t);
  }

  function ShareOfGender<K(==)>(g: string): SkillShare<K> -> bool
  {
    (s: SkillShare<K>) => s.gender == g
  }

  function PercentageOf<K(==)>(): SkillShare<K> -> real
  {
    (s: SkillShare<K>) => s.percentage
  }

  lemma TotalsPositivePrefix<K>(cs: seq<GroupCount<Observation<K>>>, all: seq<GroupCount<Observation<K>>>, n: nat)
    requires TotalsPositive(cs, all) && n <= |cs|
    ensures TotalsPositive(cs[..n], all)
  {
    forall i | 0 <= i < n ensures GenderTotal(all, cs[..n][i].key.0) > 0 {
      assert cs[..n][i] == cs[i];
    }
  }

  /** The percentages of the rows of gender `g` add up to the percentage
      of their counts. */
  lemma {:induction false} SharePercentages<K>(cs: seq<GroupCount<Observation<K>>>, all: seq<GroupCount<Observation<K>>>, g: string)
    requires TotalsPositive(cs, all) && GenderTotal(all, g) > 0
    ensures SumReal(Filter(ShareRows(cs, all), ShareOfGender(g)), PercentageOf())
         == Percentage(SumNat(Filter(cs, CountOfGender(g)), CountOfRow()), GenderTotal(all, g))
    decreases |cs|
  {
    if cs == [] {
      assert Percentage(0, GenderTotal(all, g)) == 0.0;
    } else {
      TotalsPositivePrefix(cs, all, |cs| - 1);
      SharePercentages(cs[..|cs| - 1], all, g);
      SharePercentagesLast(cs, all, g);
    }
  }

  lemma SharePercentagesLast<K>(cs: seq<GroupCount<Observation<K>>>, all: seq<GroupCount<Observation<K>>>, g: string)
    requires cs != [] && TotalsPositive(cs, all) && GenderTotal(all, g) > 0
    requires TotalsPositive(cs[..|cs| - 1], all)
    requires SumReal(Filter(ShareRows(cs[..|cs| - 1], all), ShareOfGender(g)), PercentageOf())
          == Percentage(SumNat(Filter(cs[..|cs| - 1], CountOfGender(g)), CountOfRow()), GenderTotal(all, g))
    ensures SumReal(Filter(ShareRows(cs, all), ShareOfGender(g)), PercentageOf())
         == Percentage(SumNat(Filter(cs, CountOfGender(g)), CountOfRow()), GenderTotal(all, g))
  {
    var t := GenderTotal(all, g);
    var n := |cs| - 1;
    var c := cs[n];
    var front := ShareRows(cs[..n], all);
    var row := ShareOf(c, all);
    var fs := Filter(front, ShareOfGender(g));
    var fc := Filter(cs[..n], CountOfGender(g));
    var lhs := SumReal(Filter(ShareRows(cs, all), ShareOfGender(g)), PercentageOf());
    var sum := SumNat(Filter(cs, CountOfGender(g)), CountOfRow());
    assert ShareRows(cs, all) == front + [row];
    FilterSnoc(front, row, ShareOfGender(g));
    if c.key.0 == g {
      assert lhs == SumReal(fs, PercentageOf()) + row.percentage by {
        assert ShareOfGender(g)(row);
        SumRealSnoc(fs, row, PercentageOf());
      }
      assert sum == SumNat(fc, CountOfRow()) + c.count by {
        assert Filter(cs, CountOfGender(g)) == fc + [c];
        SumNatSnoc(fc, c, CountOfRow());
      }
      ShareStep(SumReal(fs, PercentageOf()), SumNat(fc, CountOfRow()), c.count, t, row.percentage, lhs, sum);
    } else {
      assert !ShareOfGender(g)(row);
      assert !CountOfGender(g)(c);
      assert Filter(cs, CountOfGender(g)) == fc;
    }
  }

  lemma ShareStep(front: real, a: nat, b: nat, t: nat, last: real, all: real, sum: nat)
    requires t > 0 && front == Percentage(a, t) && last == Percentage(b, t)
    requires all == front + last && sum == a + b
    ensures all == Percentage(sum, t)
  {
    PercentageStep(a, b, t);
  }

  lemma PercentageStep(a: nat, b: nat, t: nat)
    requires t > 0
    ensures Percentage(a, t) + Percentage(b, t) == Percentage(a + b, t)
  {
    SharesAdd(a as real, b as real, t as real);
  }

  /** Within one gender that has rows, the percentages add up to 100. */
  lemma PercentagesPerGender<K(!new)>(rows: seq<Observation<K>>, g: string)
    requires exists i | 0 <= i < |rows| :: rows[i].0 == g
    ensures SumReal(Filter(SkillDistributionByGender(rows), ShareOfGender(g)), PercentageOf()) == 100.0
  {
    var counts := GroupBy(rows);
    GroupByFacts(rows);
    CountTableTotals(counts, rows);
    GenderTotalIsRowCount(rows, g);
    var i :| 0 <= i < |rows| && rows[i].0 == g;
    FilterMembers(rows, OfGender(g));
    assert rows[i] in Filter(rows, OfGender(g));
    var t := GenderTotal(counts, g);
    SharePercentages(counts, counts, g);
    SelfShare(t as real);
  }

  // ------------------------------- get_skill_gender_share / skilltype share

  const Male: string := "Male"
  const Female: string := "Female"

  /** The keys of the rows of gender `g`, in order. */
  function KeysOf<K(==)>(rows: seq<Observation<K>>, g: string): seq<K>
  {
    if rows == [] then []
    else
      var n := |rows| - 1;
      KeysOf(rows[..n], g) + (if rows[n].0 == g then [rows[n].1] else [])
  }

  /** One row of the share table, before rounding; `bias_strength` is not
      modelled. */
  datatype GenderShare<K> = GenderShare(key: K, countMale: nat, countFemale: nat, countTotal: nat,
                                        percFemale: real, percMale: real, countDiff: int, percDiff: real)

  /** The joined row of `key`: a side without the key contributes 0. */
  function ShareRow<K(==)>(key: K, male: seq<K>, female: seq<K>): GenderShare<K>
    requires key in male || key in female
  {
    var cm, cf := Count(male, key), Count(female, key);
    CountPositive(male, key);
    CountPositive(female, key);
    var t := cm + cf;
    var pf, pm := Percentage(cf, t), Percentage(cm, t);
    GenderShare(key, cm, cf, t, pf, pm, cm - cf, pm - pf)
  }

  predicate FromEitherSide<K(==)>(keys: seq<K>, male: seq<K>, female: seq<K>)
  {
    forall i | 0 <= i < |keys| :: keys[i] in male || keys[i] in female
  }

  function ShareTable<K(==)>(keys: seq<K>, male: seq<K>, female: seq<K>): seq<GenderShare<K>>
    requires FromEitherSide(keys, male, female)
  {
    if keys == [] then []
    else
      var n := |keys| - 1;
      assert FromEitherSide(keys[..n], male, female) by {
        forall i | 0 <= i < n ensures keys[..n][i] in male || keys[..n][i] in female { assert keys[..n][i] == keys[i]; }
      }
      ShareTable(keys[..n], male, female) + [ShareRow(keys[n], male, female)]
  }

  /** The keys of the outer join: every key of either side, once. */
  function JoinKeys<K(==)>(rows: seq<Observation<K>>): seq<K>
  {
    Dedup(KeysOf(rows, Male) + KeysOf(rows, Female))
  }

  lemma JoinKeysFacts<K>(rows: seq<Observation<K>>)
    ensures FromEitherSide(JoinKeys(rows), KeysOf(rows, Male), KeysOf(rows, Female))
    ensures Distinct(JoinKeys(rows))
    ensures forall k :: k in JoinKeys(rows) <==> k in KeysOf(rows, Male) || k in KeysOf(rows, Female)
  {
    var m, f := KeysOf(rows, Male), KeysOf(rows, Female);
    DedupMembers(m + f);
    var keys := JoinKeys(rows);
    forall i | 0 <= i < |keys| ensures keys[i] in m || keys[i] in f {
      DedupMember(m + f, keys[i]);
    }
  }

  /** `get_skill_gender_share(df)`: male and female counts per key, outer
      joined with 0 for a missing side, with their total, difference and
      percentages. */
  function SkillGenderShare<K(==)>(rows: seq<Observation<K>>): seq<GenderShare<K>>
  {
    JoinKeysFacts(rows);
    ShareTable(JoinKeys(rows), KeysOf(rows, Male), KeysOf(rows, Female))
  }

  function TotalOf<K(==)>(): GenderShare<K> -> int
  {
    (s: GenderShare<K>) => s.countTotal
  }

  /** `get_skilltype_gender_share(df)`: the same table keyed by skill type,
      sorted by `count_total`, largest first. */
  function SkilltypeGenderShare<K(==)>(rows: seq<Observation<K>>): seq<GenderShare<K>>
  {
    SortDesc(SkillGenderShare(rows), TotalOf())
  }

  lemma {:induction false} ShareTableRows<K>(keys: seq<K>, male: seq<K>, female: seq<K>)
    requires FromEitherSide(keys, male, female)
    ensures |ShareTable(keys, male, female)| == |keys|
    ensures forall i | 0 <= i < |keys| :: ShareTable(keys, male, female)[i] == ShareRow(keys[i], male, female)
    decreases |keys|
  {
    if keys != [] {
      var n := |keys| - 1;
      assert FromEitherSide(keys[..n], male, female) by {
        forall i | 0 <= i < n ensures keys[..n][i] in male || keys[..n][i] in female { assert keys[..n][i] == keys[i]; }
      }
      ShareTableRows(keys[..n], male, female);
      var front := ShareTable(keys[..n], male, female);
      assert ShareTable(keys, male, female) == front + [ShareRow(keys[n], male, female)];
      forall i | 0 <= i < |keys| ensures ShareTable(keys, male, female)[i] == ShareRow(keys[i], male, female) {
        if i < n {
          assert keys[..n][i] == keys[i];
        }
      }
    }
  }

  /** The keys of gender `g` count its rows: a key occurs in them as
      often as its `(g, key)` pair occurs among the rows. */
  lemma {:induction false} KeysOfCount<K>(rows: seq<Observation<K>>, g: string, k: K)
    ensures Count(KeysOf(rows, g), k) == Count(rows, (g, k))
    decreases |rows|
  {
    if rows != [] {
      var n := |rows| - 1;
      KeysOfCount(rows[..n], g, k);
      var front := KeysOf(rows[..n], g);
      if rows[n].0 == g {
        assert KeysOf(rows, g) == front + [rows[n].1];
        assert (front + [rows[n].1])[..|front|] == front;
        assert rows[n] == (g, k) <==> rows[n].1 == k;
      } else {
        assert KeysOf(rows, g) == front;
        assert rows[n] != (g, k);
      }
    }
  }

  lemma {:induction false} KeysOfLength<K>(rows: seq<Observation<K>>, g: string)
    ensures |KeysOf(rows, g)| == |Filter(rows, OfGender(g))|
    decreases |rows|
  {
    if rows != [] {
      var n := |rows| - 1;
      KeysOfLength(rows[..n], g);
    }
  }

  /** The figures of one joined row: the counts are the rows of each
      gender with the key, the total their sum (never 0), the difference
      bounded by the total and the two percentages adding up to 100. */
  predicate ShareRowFacts<K(==)>(s: GenderShare<K>, rows: seq<Observation<K>>)
  {
    && s.countMale == Count(rows, (Male, s.key))
    && s.countFemale == Count(rows, (Female, s.key))
    && s.countTotal == s.countMale + s.countFemale > 0
    && s.countDiff == s.countMale - s.countFemale
    && -(s.countTotal as int) <= s.countDiff <= s.countTotal
    && IsShare(s.percMale, s.countMale, s.countTotal)
    && IsShare(s.percFemale, s.countFemale, s.countTotal)
    && s.percMale + s.percFemale == 100.0
    && s.percDiff == s.percMale - s.percFemale
  }

  lemma ShareRowCorrect<K>(k: K, rows: seq<Observation<K>>)
    requires k in KeysOf(rows, Male) || k in KeysOf(rows, Female)
    ensures ShareRowFacts(ShareRow(k, KeysOf(rows, Male), KeysOf(rows, Female)), rows)
  {
    var m, f := KeysOf(rows, Male), KeysOf(rows, Female);
    var s := ShareRow(k, m, f);
    assert s.countMale == Count(rows, (Male, k)) && s.countFemale == Count(rows, (Female, k)) by {
      KeysOfCount(rows, Male, k);
      KeysOfCount(rows, Female, k);
    }
    assert s.countTotal > 0 by {
      CountPositive(m, k);
      CountPositive(f, k);
    }
    PercentageBounds(s.countMale, s.countTotal);
    PercentageBounds(s.countFemale, s.countTotal);
    PercentagesComplement(s.countMale, s.countFemale);
  }

  /** The share table has one row per key found among the male or female
      rows, no key twice, each row with the figures above. */
  lemma SkillGenderShareFacts<K>(rows: seq<Observation<K>>)
    ensures var t := SkillGenderShare(rows);
      && (forall k :: (exists i | 0 <= i < |t| :: t[i].key == k) <==> (Male, k) in rows || (Female, k) in rows)
      && (forall i, j | 0 <= i < j < |t| :: t[i].key != t[j].key)
      && (forall i | 0 <= i < |t| :: ShareRowFacts(t[i], rows))
  {
    var keys := JoinKeys(rows);
    var m, f := KeysOf(rows, Male), KeysOf(rows, Female);
    JoinKeysFacts(rows);
    ShareTableRows(keys, m, f);
    var t := SkillGenderShare(rows);
    forall k ensures (exists i | 0 <= i < |t| :: t[i].key == k) <==> (Male, k) in rows || (Female, k) in rows {
      KeysOfCount(rows, Male, k);
      KeysOfCount(rows, Female, k);
      CountPositive(m, k);
      CountPositive(f, k);
      CountPositive(rows, (Male, k));
      CountPositive(rows, (Female, k));
      if k in keys {
        var i :| 0 <= i < |keys| && keys[i] == k;
        assert t[i].key == k;
      }
    }
    forall i | 0 <= i < |t| ensures ShareRowFacts(t[i], rows) {
      ShareRowCorrect(keys[i], rows);
    }
  }

  function MaleOf<K(==)>(): GenderShare<K> -> nat
  {
    (s: GenderShare<K>) => s.countMale
  }

  function FemaleOf<K(==)>(): GenderShare<K> -> nat
  {
    (s: GenderShare<K>) => s.countFemale
  }

  lemma {:induction false} ShareTableSums<K>(keys: seq<K>, male: seq<K>, female: seq<K>)
    requires FromEitherSide(keys, male, female)
    ensures SumNat(ShareTable(keys, male, female), MaleOf()) == SumCounts(keys, male)
    ensures SumNat(ShareTable(keys, male, female), FemaleOf()) == SumCounts(keys, female)
    decreases |keys|
  {
    if keys != [] {
      var n := |keys| - 1;
      assert FromEitherSide(keys[..n], male, female) by {
        forall i | 0 <= i < n ensures keys[..n][i] in male || keys[..n][i] in female { assert keys[..n][i] == keys[i]; }
      }
      ShareTableSums(keys[..n], male, female);
      var front := ShareTable(keys[..n], male, female);
      assert ShareTable(keys, male, female)[..|front|] == front;
    }
  }

  lemma SideTotal<K>(keys: seq<K>, side: seq<K>, rows: seq<Observation<K>>, g: string)
    requires Distinct(keys) && side == KeysOf(rows, g)
    requires forall k | k in side :: k in keys
    ensures SumCounts(keys, side) == |Filter(rows, OfGender(g))|
  {
    SumCountsDistinct(keys, side);
    forall i | 0 <= i < |side| ensures InKeys(keys)(side[i]) {
      assert side[i] in side;
    }
    FilterKeepsAll(side, InKeys(keys));
    KeysOfLength(rows, g);
  }

  /** Every male row and every female row is counted once: the count
      columns add up to the number of rows of each gender. */
  lemma SkillGenderShareTotals<K>(rows: seq<Observation<K>>)
    ensures SumNat(SkillGenderShare(rows), MaleOf()) == |Filter(rows, OfGender(Male))|
    ensures SumNat(SkillGenderShare(rows), FemaleOf()) == |Filter(rows, OfGender(Female))|
  {
    var keys := JoinKeys(rows);
    var m, f := KeysOf(rows, Male), KeysOf(rows, Female);
    JoinKeysFacts(rows);
    var t := SkillGenderShare(rows);
    assert t == ShareTable(keys, m, f);
    assert SumNat(t, MaleOf()) == SumCounts(keys, m) && SumNat(t, FemaleOf()) == SumCounts(keys, f) by {
      ShareTableSums(keys, m, f);
    }
    SideTotal(keys, m, rows, Male);
    SideTotal(keys, f, rows, Female);
  }

  lemma {:induction false} KeysOfOtherGenders<K>(rows: seq<Observation<K>>, g: string)
    requires g == Male || g == Female
    ensures KeysOf(Filter(rows, MaleOrFemale()), g) == KeysOf(rows, g)
    decreases |rows|
  {
    if rows != [] {
      var n := |rows| - 1;
      KeysOfOtherGenders(rows[..n], g);
      var fr := Filter(rows[..n], MaleOrFemale());
      if MaleOrFemale()(rows[n]) {
        assert Filter(rows, MaleOrFemale()) == fr + [rows[n]];
        assert (fr + [rows[n]])[..|fr|] == fr;
        assert KeysOf(fr + [rows[n]], g) == KeysOf(fr, g) + (if rows[n].0 == g then [rows[n].1] else []);
      } else {
        assert Filter(rows, MaleOrFemale()) == fr;
        assert rows[n].0 != g;
        assert KeysOf(rows, g) == KeysOf(rows[..n], g);
      }
    }
  }

  function MaleOrFemale<K(==)>(): Observation<K> -> bool
  {
    (r: Observation<K>) => r.0 == Male || r.0 == Female
  }

  /** Rows of any other gender contribute to neither count: dropping them
      leaves the table unchanged. */
  lemma ShareIgnoresOtherGenders<K>(rows: seq<Observation<K>>)
    ensures SkillGenderShare(Filter(rows, MaleOrFemale())) == SkillGenderShare(rows)
  {
    KeysOfOtherGenders(rows, Male);
    KeysOfOtherGenders(rows, Female);
  }

  /** The skill-type table is the share table reordered by `count_total`,
      largest first. */
  lemma SkilltypeGenderShareFacts<K>(rows: seq<Observation<K>>)
    ensures SortedDesc(SkilltypeGenderShare(rows), TotalOf())
    ensures multiset(SkilltypeGenderShare(rows)) == multiset(SkillGenderShare(rows))
    ensures forall s | s in SkilltypeGenderShare(rows) :: ShareRowFacts(s, rows)
  {
    SortDescCorrect(SkillGenderShare(rows), TotalOf());
    SkillGenderShareFacts(rows);
    var t := SkillGenderShare(rows);
    forall s | s in SkilltypeGenderShare(rows) ensures ShareRowFacts(s, rows) {
      assert s in multiset(t);
      var i :| 0 <= i < |t| && t[i] == s;
    }
  }
}
