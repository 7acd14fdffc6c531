/** `group_by(col).len()` tables, `get_category_distribution` and the
    left-joined per-group rates of `error_rates_by_group` and
    `analyze_bias_by_gender`. A data frame column is the sequence of its
    values; the row order of a `group_by` result is not fixed by the
    library, and the tables here list the groups in order of first
    appearance. */
module Groups {
  import opened Maybe
  import opened Collections

  /** One row of a grouped count: a key and its number of rows. */
  datatype GroupCount<K> = GroupCount(key: K, count: nat)

  /** One count row per key of `keys`, counted in `values`. */
  function CountsOf<K(==)>(keys: seq<K>, values: seq<K>): seq<GroupCount<K>>
  {
    if keys == [] then []
    else CountsOf(keys[..|keys| - 1], values) + [GroupCount(keys[|keys| - 1], Count(values, keys[|keys| - 1]))]
  }

  /** `group_by(col).len()`: one row per distinct value. */
  function GroupBy<K(==)>(values: seq<K>): seq<GroupCount<K>>
  {
    CountsOf(Dedup(values), values)
  }

  function CountOfRow<K>(): GroupCount<K> -> nat
  {
    (g: GroupCount<K>) => g.count
  }

  lemma {:induction false} CountsOfRows<K>(keys: seq<K>, values: seq<K>)
    ensures |CountsOf(keys, values)| == |keys|
    ensures forall i | 0 <= i < |keys| ::
      CountsOf(keys, values)[i] == GroupCount(keys[i], Count(values, keys[i]))
    ensures SumNat(CountsOf(keys, values), CountOfRow()) == SumCounts(keys, values)
    decreases |keys|
  {
    if keys != [] {
      CountsOfRows(keys[..|keys| - 1], values);
    }
  }

  /** `r` is a grouped count of `values`: every row counts its key's
      occurrences, which are at least one; every value has a row; no two
      rows share a key; and the counts add up to the number of values. */
  predicate IsCountTable<K(==,!new)>(r: seq<GroupCount<K>>, values: seq<K>)
  {
    && (forall i | 0 <= i < |r| :: r[i].key in values && r[i].count == Count(values, r[i].key) && r[i].count > 0)
    && (forall v | v in values :: HasKey(r, v))
    && KeysDistinct(r)
    && SumNat(r, CountOfRow()) == |values|
  }

  predicate HasKey<K(==)>(r: seq<GroupCount<K>>, v: K)
  {
    exists i | 0 <= i < |r| :: r[i].key == v
  }

  predicate KeysDistinct<K(==)>(r: seq<GroupCount<K>>)
  {
    forall i, j | 0 <= i < j < |r| :: r[i].key != r[j].key
  }

  /** The grouped table lists the distinct values in order of first
      appearance, each with its count. */
  lemma GroupByRows<K>(values: seq<K>)
    ensures |GroupBy(values)| == |Dedup(values)| <= |values|
    ensures forall i | 0 <= i < |GroupBy(values)| ::
      GroupBy(values)[i] == GroupCount(Dedup(values)[i], Count(values, Dedup(values)[i]))
  {
    CountsOfRows(Dedup(values), values);
    DedupMembers(values);
  }

  /** The grouped table is a count table of the column. */
  lemma GroupByFacts<K(!new)>(values: seq<K>)
    ensures IsCountTable(GroupBy(values), values)
  {
    var d := Dedup(values);
    var r := GroupBy(values);
    GroupByRows(values);
    DedupMembers(values);
    forall i | 0 <= i < |r|
      ensures r[i].key in values && r[i].count == Count(values, r[i].key) && r[i].count > 0
    {
      assert d[i] in d;
      CountPositive(values, d[i]);
    }
    forall v | v in values
      ensures HasKey(r, v)
    {
      assert v in d;
      var i :| 0 <= i < |d| && d[i] == v;
      assert r[i].key == v;
    }
    CountsOfRows(d, values);
    SumCountsDedup(values);
  }

  // ---------------------------------------------- get_category_distribution

  /** `get_category_distribution(df, col)` without the rounded percentage
      column: the grouped counts, sorted by count, largest first. */
  function CategoryDistribution(values: seq<string>): seq<GroupCount<string>>
  {
    SortDesc(GroupBy(values), (g: GroupCount<string>) => g.count)
  }

  /** `multiset(xs)[x]` is the number of occurrences of `x`. */
  lemma {:induction false} MultisetCount<T>(xs: seq<T>, x: T)
    ensures multiset(xs)[x] == Count(xs, x)
    decreases |xs|
  {
    if xs != [] {
      var n := |xs| - 1;
      assert xs == xs[..n] + [xs[n]];
      MultisetCount(xs[..n], x);
    }
  }

  /** A reordering of a count table is a count table of the same column. */
  lemma CountTablePermutation<K(!new)>(g: seq<GroupCount<K>>, r: seq<GroupCount<K>>, values: seq<K>)
    requires IsCountTable(g, values)
    requires multiset(r) == multiset(g)
    ensures IsCountTable(r, values)
  {
    forall i | 0 <= i < |r|
      ensures r[i].key in values && r[i].count == Count(values, r[i].key) && r[i].count > 0
    {
      assert r[i] in multiset(g);
    }
    forall v | v in values
      ensures HasKey(r, v)
    {
      var k :| 0 <= k < |g| && g[k].key == v;
      assert g[k] in multiset(r);
    }
    forall i, j | 0 <= i < j < |r|
      ensures r[i].key != r[j].key
    {
      if r[i].key == r[j].key {
        assert r[i] in multiset(g) && r[j] in multiset(g);
        RowsOnce(g, r, i, j);
      }
    }
    SumNatPermutation(r, g, CountOfRow());
  }

  /** Two positions of a reordered count table never hold the same key. */
  lemma RowsOnce<K>(g: seq<GroupCount<K>>, r: seq<GroupCount<K>>, i: nat, j: nat)
    requires KeysDistinct(g)
    requires multiset(r) == multiset(g)
    requires i < j < |r| && r[i] in multiset(g)
    ensures r[i] != r[j]
  {
    if r[i] == r[j] {
      var x := r[i];
      assert r == r[..i] + [x] + r[i + 1..j] + [x] + r[j + 1..];
      assert multiset(r)[x] >= 2;
      assert Distinct(g);
      CountInDistinct(g, x);
      MultisetCount(g, x);
    }
  }

  /** The distribution is the grouped table reordered, so it is a count
      table of the column (one row per distinct value with its count,
      counts adding up to the number of rows, the percentage
      denominator), and it is sorted by count, descending. */
  lemma CategoryDistributionFacts(values: seq<string>)
    ensures multiset(CategoryDistribution(values)) == multiset(GroupBy(values))
    ensures SortedDesc(CategoryDistribution(values), (g: GroupCount<string>) => g.count)
    ensures IsCountTable(CategoryDistribution(values), values)
  {
    SortDescCorrect(GroupBy(values), (x: GroupCount<string>) => x.count);
    GroupByFacts(values);
    CountTablePermutation(GroupBy(values), CategoryDistribution(values), values);
  }

  /** The counts of the distribution add up to the number of rows. */
  lemma CategoryDistributionSum(values: seq<string>)
    ensures SumNat(CategoryDistribution(values), CountOfRow()) == |values|
  {
    CategoryDistributionFacts(values);
  }

  /** The percentage column, unrounded. */
  function Percentage(count: nat, total: nat): real
    requires total > 0
  {
    count as real / total as real * 100.0
  }

  /** `p` is `count` as a percentage of `total`: between 0 and 100, and
      0 exactly when the count is. */
  predicate IsShare(p: real, count: nat, total: nat)
  {
    && p * total as real == 100.0 * count as real
    && 0.0 <= p <= 100.0
    && (p == 0.0 <==> count == 0)
  }

  lemma PercentageBounds(count: nat, total: nat)
    requires 0 < total && count <= total
    ensures IsShare(Percentage(count, total), count, total)
  {
    RatioBounds(count as real, total as real);
  }

  lemma RatioBounds(c: real, t: real)
    requires 0.0 <= c <= t && t > 0.0
    ensures (c / t * 100.0) * t == 100.0 * c
    ensures 0.0 <= c / t * 100.0 <= 100.0
    ensures c / t * 100.0 == 0.0 <==> c == 0.0
  {
    var q := c / t;
    assert q * t == c;
    assert (q - 1.0) * t == c - t;
    assert q <= 1.0;
    assert (q * 100.0) * t == 100.0 * (q * t);
    if c > 0.0 {
      assert q > 0.0;
    }
  }

  function SumReal<T>(xs: seq<T>, f: T -> real): real
  {
    if xs == [] then 0.0 else SumReal(xs[..|xs| - 1], f) + f(xs[|xs| - 1])
  }

  lemma SumRealSnoc<T>(xs: seq<T>, x: T, f: T -> real)
    ensures SumReal(xs + [x], f) == SumReal(xs, f) + f(x)
  {
    assert (xs + [x])[..|xs|] == xs;
  }

  lemma SharesAdd(a: real, b: real, t: real)
    requires t > 0.0
    ensures a / t * 100.0 + b / t * 100.0 == (a + b) / t * 100.0
  {
  }

  lemma SelfShare(t: real)
    requires t > 0.0
    ensures t / t * 100.0 == 100.0
  {
    assert t / t == 1.0;
  }

  /** Percentages of counts over a common total add up to the percentage
      of the summed counts. */
  lemma {:induction false} SumPercentages<K>(xs: seq<GroupCount<K>>, total: nat)
    requires total > 0
    ensures SumReal(xs, (g: GroupCount<K>) => Percentage(g.count, total))
         == Percentage(SumNat(xs, CountOfRow()), total)
    decreases |xs|
  {
    if xs != [] {
      var n := |xs| - 1;
      SumPercentages(xs[..n], total);
      SharesAdd(SumNat(xs[..n], CountOfRow()) as real, xs[n].count as real, total as real);
    }
  }

  /** The unrounded percentages of a non-empty column add up to 100. */
  lemma PercentagesSumTo100(values: seq<string>)
    requires values != []
    ensures SumReal(CategoryDistribution(values), (g: GroupCount<string>) => Percentage(g.count, |values|)) == 100.0
  {
    var r := CategoryDistribution(values);
    CategoryDistributionSum(values);
    SumPercentages(r, |values|);
    SelfShare(|values| as real);
  }

  // ------------------------------------------------------ per-group rates

  /** One row of the fp or fn rate table: the group, its number of error
      rows, its population (null when the group is not in the
      population) and the rate (null with it). */
  datatype GroupRate = GroupRate(group: string, num: nat, total: Option<nat>, rate: Option<real>)

  /** The left join: the count of the first population row with key `g`. */
  function LookupTotal(pop: seq<GroupCount<string>>, g: string): (t: Option<nat>)
    ensures t.None? <==> forall i | 0 <= i < |pop| :: pop[i].key != g
    ensures t.Some? ==> exists i | 0 <= i < |pop| :: pop[i].key == g && pop[i].count == t.value
  {
    if pop == [] then None
    else if pop[0].key == g then Some(pop[0].count)
    else
      var t := LookupTotal(pop[1..], g);
      assert forall i | 1 <= i < |pop| :: pop[1..][i - 1] == pop[i];
      t
  }

  predicate PositiveCounts(pop: seq<GroupCount<string>>)
  {
    forall i | 0 <= i < |pop| :: pop[i].count > 0
  }

  function RateRow(g: GroupCount<string>, pop: seq<GroupCount<string>>): GroupRate
    requires PositiveCounts(pop)
  {
    var t := LookupTotal(pop, g.key);
    GroupRate(g.key, g.count, t, if t.Some? then Some(g.count as real / t.value as real) else None)
  }

  /** `counts.join(pop_counts, on=group_col, how="left")` with the rate
      column: one row per group of the error rows. */
  function RateTable(groups: seq<string>, pop: seq<GroupCount<string>>): seq<GroupRate>
    requires PositiveCounts(pop)
  {
    var g := GroupBy(groups);
    seq(|g|, i requires 0 <= i < |g| => RateRow(g[i], pop))
  }

  /** A row of a rate table, for error-row column `groups` and population
      column `population`: the group occurs in the error rows `num` times;
      the total is the group's population count, null exactly when the
      population has no such row; and the rate is their quotient, null
      exactly when the total is. */
  predicate IsRateRow(x: GroupRate, groups: seq<string>, population: seq<string>)
  {
    && x.group in groups && x.num == Count(groups, x.group) > 0
    && (x.total.None? <==> x.group !in population)
    && (x.total.Some? ==> x.total.value == Count(population, x.group) > 0)
    && (x.total.Some? ==> x.rate == Some(x.num as real / x.total.value as real))
    && (x.rate.None? <==> x.total.None?)
  }

  /** The rate table against the population's distribution: every row is a
      rate row, every group of the error rows has one, and none has two. */
  lemma RateTableFacts(population: seq<string>, groups: seq<string>)
    ensures PositiveCounts(CategoryDistribution(population))
    ensures var r := RateTable(groups, CategoryDistribution(population));
      (forall i | 0 <= i < |r| :: IsRateRow(r[i], groups, population))
      && (forall v | v in groups :: exists i | 0 <= i < |r| :: r[i].group == v)
      && (forall i, j | 0 <= i < j < |r| :: r[i].group != r[j].group)
  {
    var pop := CategoryDistribution(population);
    CategoryDistributionFacts(population);
    GroupByFacts(groups);
    var g := GroupBy(groups);
    var r := RateTable(groups, pop);
    forall i | 0 <= i < |r|
      ensures IsRateRow(r[i], groups, population)
    {
      RateRowCorrect(g[i], groups, pop, population);
    }
    forall v | v in groups
      ensures exists i | 0 <= i < |r| :: r[i].group == v
    {
      assert HasKey(g, v);
      var i :| 0 <= i < |g| && g[i].key == v;
      assert r[i].group == v;
    }
  }

  /** The rate row of one group of the error rows, joined with a count
      table of the population, is a rate row. */
  lemma RateRowCorrect(g: GroupCount<string>, groups: seq<string>, pop: seq<GroupCount<string>>, population: seq<string>)
    requires PositiveCounts(pop) && IsCountTable(pop, population)
    requires g.key in groups && g.count == Count(groups, g.key) && g.count > 0
    ensures IsRateRow(RateRow(g, pop), groups, population)
  {
    var t := LookupTotal(pop, g.key);
    if t.Some? {
      var k :| 0 <= k < |pop| && pop[k].key == g.key && pop[k].count == t.value;
    } else if g.key in population {
      assert HasKey(pop, g.key);
    }
  }

  /** The `num_fp` / `num_fn` column of a rate table. */
  function NumOfRow(): GroupRate -> nat
  {
    (x: GroupRate) => x.num
  }

  /** The error counts of a rate table add up to the number of error rows. */
  lemma RateTableSum(population: seq<string>, groups: seq<string>)
    ensures PositiveCounts(CategoryDistribution(population))
    ensures SumNat(RateTable(groups, CategoryDistribution(population)), NumOfRow()) == |groups|
  {
    CategoryDistributionFacts(population);
    GroupByFacts(groups);
    var g := GroupBy(groups);
    var r := RateTable(groups, CategoryDistribution(population));
    SumNatMapped(g, r);
  }

  lemma {:induction false} SumNatMapped(g: seq<GroupCount<string>>, r: seq<GroupRate>)
    requires |g| == |r| && forall i | 0 <= i < |g| :: r[i].num == g[i].count
    ensures SumNat(r, NumOfRow()) == SumNat(g, CountOfRow())
    decreases |g|
  {
    if g != [] {
      var n := |g| - 1;
      SumNatMapped(g[..n], r[..n]);
    }
  }

  /** `error_rates_by_group(df_population, fp_rows, fn_rows, group_col)`
      over the group column of the population and of the two row lists. An
      empty row list makes a frame without columns, on which grouping by
      `group_col` fails. */
  function ErrorRatesByGroup(population: seq<string>, fpGroups: seq<string>, fnGroups: seq<string>, groupCol: string)
    : (r: Result<(seq<GroupRate>, seq<GroupRate>)>)
    ensures r.Err? <==> fpGroups == [] || fnGroups == []
    ensures r.Err? ==> r.error == ColumnNotFoundError(groupCol)
  {
    if fpGroups == [] || fnGroups == [] then Err(ColumnNotFoundError(groupCol))
    else
      var pop := CategoryDistribution(population);
      RateTableFacts(population, fpGroups);
      Ok((RateTable(fpGroups, pop), RateTable(fnGroups, pop)))
  }

  /** On success the two tables are the rate tables of the fp and fn
      columns against the population's distribution. */
  lemma ErrorRatesByGroupTables(population: seq<string>, fpGroups: seq<string>, fnGroups: seq<string>, groupCol: string)
    requires fpGroups != [] && fnGroups != []
    ensures PositiveCounts(CategoryDistribution(population))
    ensures ErrorRatesByGroup(population, fpGroups, fnGroups, groupCol)
         == Ok((RateTable(fpGroups, CategoryDistribution(population)), RateTable(fnGroups, CategoryDistribution(population))))
  {
    RateTableFacts(population, fpGroups);
  }
}
