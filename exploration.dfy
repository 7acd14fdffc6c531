/** The exploration helpers: suffixing and concatenating string columns,
    splitting a data frame by the values of one attribute, and the
    latitude bands of `localize`. A column is the sequence of its values,
    a data frame the sequence of its rows, and an attribute the function
    that reads it from a row. */
module Exploration {
  import opened Maybe
  import opened Collections

  // ------------------------------------------------- add_suffix_and_concat

  function Min(a: nat, b: nat): nat
  {
    if a <= b then a else b
  }

  /** `column + suffix`: the suffix appended to every value. */
  function Suffixed(column: seq<string>, suffix: string): (r: seq<string>)
    ensures |r| == |column| && forall k | 0 <= k < |column| :: r[k] == column[k] + suffix
  {
    seq(|column|, k requires 0 <= k < |column| => column[k] + suffix)
  }

  /** `pl.concat`: the columns one after the other. */
  function Concat(columns: seq<seq<string>>): seq<string>
  {
    if columns == [] then [] else Concat(columns[..|columns| - 1]) + columns[|columns| - 1]
  }

  /** Number of values in the first `i` columns: where column `i` starts
      in the concatenation. */
  function Offset(columns: seq<seq<string>>, i: nat): nat
    requires i <= |columns|
  {
    if i == 0 then 0 else Offset(columns, i - 1) + |columns[i - 1]|
  }

  const EmptyConcat: string := "cannot concat empty list"

  /** `add_suffix_and_concat(columns, suffixes)`: `zip` pairs column `i`
      with suffix `i` and stops at the shorter list; `pl.concat` of an
      empty list raises a ValueError. */
  function AddSuffixAndConcat(columns: seq<seq<string>>, suffixes: seq<string>): (r: Result<seq<string>>)
    ensures r.Err? <==> columns == [] || suffixes == []
    ensures r.Err? ==> r.error == ValueError(EmptyConcat)
  {
    var m := Min(|columns|, |suffixes|);
    if m == 0 then Err(ValueError(EmptyConcat))
    else Ok(Concat(SuffixedParts(columns, suffixes, m)))
  }

  /** `[column + suffix for column, suffix in zip(columns, suffixes)]`. */
  function SuffixedParts(columns: seq<seq<string>>, suffixes: seq<string>, m: nat): (parts: seq<seq<string>>)
    requires m <= |columns| && m <= |suffixes|
    ensures |parts| == m && forall i | 0 <= i < m :: parts[i] == Suffixed(columns[i], suffixes[i])
  {
    seq(m, i requires 0 <= i < m => Suffixed(columns[i], suffixes[i]))
  }

  lemma {:induction false} ConcatLength(columns: seq<seq<string>>)
    ensures |Concat(columns)| == Offset(columns, |columns|)
    decreases |columns|
  {
    if columns != [] {
      var n := |columns| - 1;
      ConcatLength(columns[..n]);
      OffsetPrefixAt(columns, n, n);
    }
  }

  /** Value `k` of column `i` sits at the column's offset plus `k`. */
  lemma {:induction false} ConcatAt(columns: seq<seq<string>>, i: nat, k: nat)
    requires i < |columns| && k < |columns[i]|
    ensures Offset(columns, i) + k < |Concat(columns)|
    ensures Concat(columns)[Offset(columns, i) + k] == columns[i][k]
    decreases |columns|
  {
    var n := |columns| - 1;
    var front := columns[..n];
    ConcatLength(columns);
    ConcatLength(front);
    OffsetPrefixAt(columns, n, n);
    assert Concat(columns) == Concat(front) + columns[n];
    if i < n {
      assert front[i] == columns[i];
      ConcatAt(front, i, k);
      OffsetPrefixAt(columns, n, i);
    }
  }

  lemma {:induction false} OffsetPrefix(columns: seq<seq<string>>, n: nat)
    requires n <= |columns|
    ensures forall i | 0 <= i <= n :: Offset(columns[..n], i) == Offset(columns, i)
  {
    forall i | 0 <= i <= n ensures Offset(columns[..n], i) == Offset(columns, i) {
      OffsetPrefixAt(columns, n, i);
    }
  }

  lemma {:induction false} OffsetPrefixAt(columns: seq<seq<string>>, n: nat, i: nat)
    requires i <= n <= |columns|
    ensures Offset(columns[..n], i) == Offset(columns, i)
    decreases i
  {
    if i > 0 {
      OffsetPrefixAt(columns, n, i - 1);
      assert columns[..n][i - 1] == columns[i - 1];
    }
  }

  /** With no column or no suffix the call fails; otherwise the result
      holds every value of the first `min(|columns|, |suffixes|)` columns,
      and value `k` of column `i` sits at that column's offset plus `k`,
      with suffix `i` appended. */
  lemma AddSuffixAndConcatFacts(columns: seq<seq<string>>, suffixes: seq<string>)
    ensures var m := Min(|columns|, |suffixes|);
      var r := AddSuffixAndConcat(columns, suffixes);
      && (m == 0 <==> r == Err(ValueError(EmptyConcat)))
      && (m > 0 ==>
        && r.Ok?
        && |r.value| == Offset(columns[..m], m)
        && forall i, k | 0 <= i < m && 0 <= k < |columns[i]| ::
          Offset(columns, i) + k < |r.value|
          && r.value[Offset(columns, i) + k] == columns[i][k] + suffixes[i])
  {
    var m := Min(|columns|, |suffixes|);
    if m > 0 {
      var out := Concat(SuffixedParts(columns, suffixes, m));
      assert AddSuffixAndConcat(columns, suffixes) == Ok(out);
      SuffixedLayout(columns, suffixes, m);
    }
  }

  lemma SuffixedLayout(columns: seq<seq<string>>, suffixes: seq<string>, m: nat)
    requires m <= |columns| && m <= |suffixes|
    ensures var out := Concat(SuffixedParts(columns, suffixes, m));
      && |out| == Offset(columns[..m], m)
      && forall i, k | 0 <= i < m && 0 <= k < |columns[i]| ::
        Offset(columns, i) + k < |out| && out[Offset(columns, i) + k] == columns[i][k] + suffixes[i]
  {
    var parts := SuffixedParts(columns, suffixes, m);
    ConcatLength(parts);
    SameOffsets(parts, columns[..m]);
    OffsetPrefix(columns, m);
    forall i, k | 0 <= i < m && 0 <= k < |columns[i]|
      ensures Offset(columns, i) + k < |Concat(parts)|
      ensures Concat(parts)[Offset(columns, i) + k] == columns[i][k] + suffixes[i]
    {
      ConcatAt(parts, i, k);
      assert Offset(parts, i) == Offset(columns, i);
    }
  }

  /** Columns of the same lengths have the same offsets. */
  lemma {:induction false} SameOffsets(xs: seq<seq<string>>, ys: seq<seq<string>>)
    requires |xs| == |ys| && forall i | 0 <= i < |xs| :: |xs[i]| == |ys[i]|
    ensures forall i | 0 <= i <= |xs| :: Offset(xs, i) == Offset(ys, i)
  {
    forall i | 0 <= i <= |xs| ensures Offset(xs, i) == Offset(ys, i) {
      SameOffsetsAt(xs, ys, i);
    }
  }

  lemma {:induction false} SameOffsetsAt(xs: seq<seq<string>>, ys: seq<seq<string>>, i: nat)
    requires |xs| == |ys| && forall i | 0 <= i < |xs| :: |xs[i]| == |ys[i]|
    requires i <= |xs|
    ensures Offset(xs, i) == Offset(ys, i)
    decreases i
  {
    if i > 0 {
      SameOffsetsAt(xs, ys, i - 1);
    }
  }

  // ------------------------------------------------ split_df_per_attribute

  function HasValue<R, V(==)>(attr: R -> V, v: V): R -> bool
  {
    (r: R) => attr(r) == v
  }

  /** `df.filter(pl.col(attribute_name) == value)`. */
  function RowsWith<R, V(==)>(df: seq<R>, attr: R -> V, v: V): seq<R>
  {
    Filter(df, HasValue(attr, v))
  }

  /** `split_df_per_attribute(df, attribute_name)`: the distinct values of
      the attribute in order of first appearance (the insertion order of the
      returned dictionary) and, for each, the rows that hold it. */
  method SplitDfPerAttribute<R, V(==)>(df: seq<R>, attr: R -> V) returns (keys: seq<V>, groups: map<V, seq<R>>)
    ensures keys == Dedup(Column(df, attr))
    ensures forall v :: v in groups <==> v in keys
    ensures forall v | v in groups :: groups[v] == RowsWith(df, attr, v)
  {
    keys := Dedup(Column(df, attr));
    groups := map[];
    var i := 0;
    while i < |keys|
      invariant 0 <= i <= |keys|
      invariant forall v :: v in groups <==> v in keys[..i]
      invariant forall v | v in groups :: groups[v] == RowsWith(df, attr, v)
    {
      var v := keys[i];
      groups := groups[v := RowsWith(df, attr, v)];
      assert keys[..i + 1] == keys[..i] + [v];
      i := i + 1;
    }
    assert keys[..i] == keys;
  }

  /** The number of rows with a value is its number of occurrences in the
      column. */
  lemma {:induction false} RowsWithCount<R, V>(df: seq<R>, attr: R -> V, v: V)
    ensures |RowsWith(df, attr, v)| == Count(Column(df, attr), v)
    decreases |df|
  {
    if df != [] {
      var n := |df| - 1;
      RowsWithCount(df[..n], attr, v);
      assert Column(df[..n], attr) == Column(df, attr)[..n];
    }
  }

  lemma {:induction false} SumRowsWith<R, V>(keys: seq<V>, df: seq<R>, attr: R -> V)
    ensures SumNat(keys, (v: V) => |RowsWith(df, attr, v)|) == SumCounts(keys, Column(df, attr))
    decreases |keys|
  {
    if keys != [] {
      SumRowsWith(keys[..|keys| - 1], df, attr);
      RowsWithCount(df, attr, keys[|keys| - 1]);
    }
  }

  /** The groups partition the rows: each row lies in the group of its own
      value and in no other, the keys are distinct and in order of first
      appearance, and the group sizes add up to the number of rows. */
  lemma SplitPartition<R, V>(df: seq<R>, attr: R -> V)
    ensures var keys := Dedup(Column(df, attr));
      && Distinct(keys)
      && (forall i | 0 <= i < |keys| :: keys[i] in Column(df, attr))
      && (forall v :: v in keys <==> exists j | 0 <= j < |df| :: attr(df[j]) == v)
      && (forall i, j | 0 <= i < j < |keys| :: FirstIndex(Column(df, attr), keys[i]) < FirstIndex(Column(df, attr), keys[j]))
      && (forall j, v | 0 <= j < |df| :: df[j] in RowsWith(df, attr, v) <==> attr(df[j]) == v)
      && SumNat(keys, (v: V) => |RowsWith(df, attr, v)|) == |df|
  {
    var col := Column(df, attr);
    var keys := Dedup(col);
    DedupMembers(col);
    DedupFirstOccurrenceOrder(col);
    forall i | 0 <= i < |keys| ensures keys[i] in col {
      DedupMember(col, keys[i]);
    }
    forall v ensures v in keys <==> exists j | 0 <= j < |df| :: attr(df[j]) == v {
      if v in col {
        var j :| 0 <= j < |col| && col[j] == v;
        assert attr(df[j]) == v;
      }
      if exists j | 0 <= j < |df| :: attr(df[j]) == v {
        var j :| 0 <= j < |df| && attr(df[j]) == v;
        assert col[j] == v;
      }
    }
    forall j, v | 0 <= j < |df| ensures df[j] in RowsWith(df, attr, v) <==> attr(df[j]) == v {
      FilterMembers(df, HasValue(attr, v));
    }
    SumRowsWith(keys, df, attr);
    SumCountsDedup(col);
  }

  // -------------------------------------------------------------- localize

  const North: string := "NORTH"
  const South: string := "SOUTH"
  const Center: string := "CENTER"

  /** `localize(latitude)`: the band of Italy a latitude lies in. */
  function Localize(latitude: real): (r: string)
    ensures r == North <==> latitude > 44.5
    ensures r == South <==> latitude < 40.0
    ensures r == Center <==> 40.0 <= latitude <= 44.5
  {
    if latitude > 44.5 then North
    else if latitude < 40.0 then South
    else Center
  }

  /** The bands in order from south to north. */
  function Rank(region: string): nat
  {
    if region == South then 0 else if region == Center then 1 else 2
  }

  /** Every latitude gets one of the three labels, and moving north never
      moves to a band further south. */
  lemma LocalizeMonotone(a: real, b: real)
    requires a <= b
    ensures Localize(a) in {South, Center, North}
    ensures Rank(Localize(a)) <= Rank(Localize(b))
  {
    assert South != Center && Center != North && South != North;
  }
}
