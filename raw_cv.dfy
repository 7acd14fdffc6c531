/** The CV-quality checks on raw CV text: the stripped length, the
    histogram bins of that length, the share of repeated lines, the
    vocabulary statistics behind the sparsity filter and the share of
    unusual characters. */
module RawCv {
  import opened Maybe
  import opened Collections
  import opened Text

  // ------------------------------------------------------------- fractions

  /** A quotient `c / t` of a part by its positive whole. */
  lemma FractionBounds(c: real, t: real)
    requires 0.0 <= c <= t && t > 0.0
    ensures (c / t) * t == c
    ensures 0.0 <= c / t <= 1.0
    ensures c / t == 0.0 <==> c == 0.0
    ensures c / t == 1.0 <==> c == t
  {
    var q := c / t;
    assert q * t == c;
    assert (q - 1.0) * t == c - t;
    assert q <= 1.0;
    if c > 0.0 {
      assert q > 0.0;
    }
    if q == 1.0 {
      assert c == t;
    }
  }

  /** No element of `xs` satisfies `p` exactly when the filter is empty,
      and every element does exactly when the filter keeps them all. */
  lemma FilterSize<T>(xs: seq<T>, p: T -> bool)
    ensures |Filter(xs, p)| <= |xs|
    ensures Filter(xs, p) == [] <==> forall i | 0 <= i < |xs| :: !p(xs[i])
    ensures |Filter(xs, p)| == |xs| <==> forall i | 0 <= i < |xs| :: p(xs[i])
  {
    FilterMembers(xs, p);
    FilterSplit(xs, p);
    FilterMembers(xs, x => !p(x));
    if exists i | 0 <= i < |xs| :: p(xs[i]) {
      var i :| 0 <= i < |xs| && p(xs[i]);
      assert xs[i] in Filter(xs, p);
    }
    if exists i | 0 <= i < |xs| :: !p(xs[i]) {
      var i :| 0 <= i < |xs| && !p(xs[i]);
      assert xs[i] in Filter(xs, x => !p(x));
    } else {
      FilterKeepsAll(xs, p);
    }
  }

  /** A sequence has as many distinct elements as positions exactly when
      no element repeats; a non-empty one has at least one. */
  lemma {:induction false} ElemsCardDistinct<T>(xs: seq<T>)
    ensures |Elems(xs)| <= |xs|
    ensures |Elems(xs)| == |xs| <==> Distinct(xs)
    ensures xs != [] ==> |Elems(xs)| >= 1
    decreases |xs|
  {
    ElemsCard(xs);
    if xs != [] {
      var n := |xs| - 1;
      var front := xs[..n];
      assert xs == front + [xs[n]];
      assert Elems(xs) == Elems(front) + {xs[n]};
      assert xs[n] in Elems(xs);
      ElemsCardDistinct(front);
      if xs[n] in front {
        var j :| 0 <= j < n && front[j] == xs[n];
        assert xs[j] == xs[n];
        assert Elems(xs) == Elems(front);
      } else {
        assert xs[n] !in Elems(front);
        assert |Elems(xs)| == |Elems(front)| + 1;
        if Distinct(front) {
          forall i, j | 0 <= i < j < |xs| ensures xs[i] != xs[j] {
            if j < n {
              assert xs[i] == front[i] && xs[j] == front[j];
            } else {
              assert xs[i] == front[i];
            }
          }
        } else {
          var i, j :| 0 <= i < j < n && front[i] == front[j];
          assert xs[i] == xs[j];
        }
      }
    }
  }

  // --------------------------------------------------------- length column

  /** `len(s.strip()) if s else 0`: the length of a CV once its surrounding
      whitespace is stripped, with a missing or empty text counted as 0. */
  function TextLength(s: Option<string>): nat
  {
    if s.None? || s.value == [] then 0 else |Strip(s.value)|
  }

  /** The length never exceeds the raw length, is 0 exactly for a missing
      text or one made only of whitespace, and stripping first changes
      nothing. */
  lemma TextLengthFacts(s: Option<string>)
    ensures s.Some? ==> TextLength(s) <= |s.value|
    ensures TextLength(s) == 0 <==> s.None? || forall k | 0 <= k < |s.value| :: IsSpace(s.value[k])
    ensures s.Some? ==> TextLength(Some(Strip(s.value))) == TextLength(s)
  {
    if s.Some? {
      StripEmpty(s.value);
      StripIdempotent(s.value);
    }
  }

  // ------------------------------------------------------ histogram bins

  predicate IsDigit(c: char)
  {
    '0' <= c <= '9'
  }

  predicate AllDigits(s: string)
  {
    forall i | 0 <= i < |s| :: IsDigit(s[i])
  }

  function DigitChar(d: nat): char
    requires d < 10
  {
    ('0' as int + d) as char
  }

  /** `f"{n}"` for a non-negative integer: its decimal digits. */
  function Decimal(n: nat): (s: string)
    ensures s != [] && AllDigits(s)
    decreases n
  {
    if n < 10 then [DigitChar(n)] else Decimal(n / 10) + [DigitChar(n % 10)]
  }

  /** `int(s)` for a string of decimal digits. */
  function Value(s: string): nat
    requires AllDigits(s)
  {
    if s == [] then 0 else Value(s[..|s| - 1]) * 10 + (s[|s| - 1] as int - '0' as int)
  }

  /** Reading back the digits of `n` gives `n`. */
  lemma {:induction false} DecimalRoundTrip(n: nat)
    ensures Value(Decimal(n)) == n
    decreases n
  {
    if n >= 10 {
      DecimalRoundTrip(n / 10);
      var s := Decimal(n);
      assert s[..|s| - 1] == Decimal(n / 10);
    }
  }

  lemma DecimalInjective(a: nat, b: nat)
    requires Decimal(a) == Decimal(b)
    ensures a == b
  {
    DecimalRoundTrip(a);
    DecimalRoundTrip(b);
  }

  /** `str.extract(r"^(\d+)", 1).cast(pl.Int64)`: the number the text
      starts with, or null when it starts with no digit. */
  function LeadingNumber(s: string): Option<nat>
  {
    var k := RunLength(s, IsDigit);
    if k == 0 then None else Some(Value(s[..k]))
  }

  lemma {:induction false} RunLengthIs(s: string, k: nat, p: char -> bool)
    requires k <= |s| && (forall i | 0 <= i < k :: p(s[i])) && (k < |s| ==> !p(s[k]))
    ensures RunLength(s, p) == k
    decreases k
  {
    if k > 0 {
      RunLengthIs(s[1..], k - 1, p);
    }
  }

  /** A label that starts with the digits of `n` followed by a non-digit
      is sorted by `n`. */
  lemma LeadingNumberOf(n: nat, rest: string)
    requires rest == [] || !IsDigit(rest[0])
    ensures LeadingNumber(Decimal(n) + rest) == Some(n)
  {
    var d := Decimal(n);
    var s := d + rest;
    RunLengthIs(s, |d|, IsDigit);
    assert s[..|d|] == d;
    DecimalRoundTrip(n);
  }

  /** `range(0, max_bin + bin_size, bin_size)` for a positive step: the
      multiples of `bin_size` below `max_bin + bin_size`. */
  function BinEdges(binSize: nat, maxBin: nat): (edges: seq<nat>)
    requires binSize > 0
    ensures forall i | 0 <= i < |edges| :: edges[i] == i * binSize
    ensures |edges| == BinCount(binSize, maxBin) + 1
  {
    seq(BinCount(binSize, maxBin) + 1, i requires 0 <= i => i * binSize)
  }

  /** The number of labels, `ceil(max_bin / bin_size)`. */
  function BinCount(binSize: nat, maxBin: nat): nat
    requires binSize > 0
  {
    (maxBin + binSize - 1) / binSize
  }

  /** The edges are exactly the multiples of `bin_size` that `range` yields:
      all below `max_bin + bin_size`, and the next one would not be. */
  lemma BinEdgesAreRange(binSize: nat, maxBin: nat)
    requires binSize > 0
    ensures var edges := BinEdges(binSize, maxBin);
      (forall i | 0 <= i < |edges| :: edges[i] < maxBin + binSize)
      && |edges| * binSize >= maxBin + binSize
  {
    var k := BinCount(binSize, maxBin);
    BinCountBounds(binSize, maxBin);
    forall i | 0 <= i < k + 1 ensures i * binSize < maxBin + binSize {
      MulMonotone(i, k, binSize);
    }
  }

  /** `(k - 1) * bin_size < max_bin <= k * bin_size` for the label count
      `k`. */
  lemma BinCountBounds(binSize: nat, maxBin: nat)
    requires binSize > 0
    ensures var k := BinCount(binSize, maxBin);
      k * binSize >= maxBin && (k == 0 <==> maxBin == 0)
      && (maxBin > 0 ==> (k - 1) * binSize < maxBin)
  {
    var x := maxBin + binSize - 1;
    var k := x / binSize;
    var r := x % binSize;
    assert k * binSize + r == x && 0 <= r < binSize;
    assert (k - 1) * binSize == k * binSize - binSize;
    if maxBin == 0 {
      assert x < binSize;
    } else {
      assert x >= binSize;
    }
  }

  lemma MulMonotone(a: int, b: int, c: nat)
    requires a <= b
    ensures a * c <= b * c
  {
    assert b * c - a * c == (b - a) * c;
  }

  /** The labels of `plot_length_histogram`: `"{start}-{start + bin_size}"`
      for each edge but the last, with the final label replaced by
      `"{bin_edges[-2]}+"`. A zero step makes `range` raise, and no labels
      at all make the assignment to `labels[-1]` raise. */
  function BinLabels(binSize: nat, maxBin: nat): (r: Result<seq<string>>)
    ensures r.Ok? <==> binSize > 0 && maxBin > 0
    ensures r.Ok? ==> r.value != [] && |r.value| == BinCount(binSize, maxBin)
    ensures r.Err? ==> r.error == (if binSize == 0 then ValueError("range() arg 3 must not be zero") else IndexError)
  {
    if binSize == 0 then Err(ValueError("range() arg 3 must not be zero"))
    else
      BinCountBounds(binSize, maxBin);
      var edges := BinEdges(binSize, maxBin);
      var labels := seq(|edges| - 1, j requires 0 <= j < |edges| - 1 => Decimal(edges[j]) + "-" + Decimal(edges[j] + binSize));
      if labels == [] then Err(IndexError)
      else
        Ok(labels[..|labels| - 1] + [Decimal(edges[|edges| - 2]) + "+"])
  }

  /** Every label starts with its bin's start, so sorting by the extracted
      number keeps the labels in bin order; all but the last name a
      `bin_size`-wide range and the last is open-ended. */
  lemma BinLabelsFacts(binSize: nat, maxBin: nat)
    requires binSize > 0 && maxBin > 0
    ensures var labels := BinLabels(binSize, maxBin).value;
      && (forall j | 0 <= j < |labels| :: LeadingNumber(labels[j]) == Some(j * binSize))
      && (forall j | 0 <= j < |labels| - 1 :: labels[j] == Decimal(j * binSize) + "-" + Decimal(j * binSize + binSize))
      && labels[|labels| - 1] == Decimal((|labels| - 1) * binSize) + "+"
  {
    var labels := BinLabels(binSize, maxBin).value;
    forall j | 0 <= j < |labels|
      ensures LeadingNumber(labels[j]) == Some(j * binSize)
      ensures j < |labels| - 1 ==> labels[j] == Decimal(j * binSize) + "-" + Decimal(j * binSize + binSize)
    {
      BinLabelAt(binSize, maxBin, j);
    }
    BinLabelAt(binSize, maxBin, |labels| - 1);
  }

  lemma BinLabelAt(binSize: nat, maxBin: nat, j: nat)
    requires binSize > 0 && maxBin > 0 && j < BinCount(binSize, maxBin)
    ensures var labels := BinLabels(binSize, maxBin).value;
      && labels[j] == (if j < |labels| - 1 then Decimal(j * binSize) + "-" + Decimal(j * binSize + binSize)
                       else Decimal(j * binSize) + "+")
      && LeadingNumber(labels[j]) == Some(j * binSize)
  {
    var labels := BinLabels(binSize, maxBin).value;
    if j < |labels| - 1 {
      LeadingNumberOf(j * binSize, "-" + Decimal(j * binSize + binSize));
      assert labels[j] == Decimal(j * binSize) + ("-" + Decimal(j * binSize + binSize));
    } else {
      LeadingNumberOf(j * binSize, "+");
    }
  }

  /** `assign_bin(n)`: the last label from `max_bin` on, otherwise
      `labels[n // bin_size]`. */
  function AssignBin(n: nat, binSize: nat, maxBin: nat): Result<string>
  {
    match BinLabels(binSize, maxBin)
    case Err(e) => Err(e)
    case Ok(labels) =>
      if n >= maxBin then Ok(labels[|labels| - 1])
      else
        var idx := n / binSize;
        if idx < |labels| then Ok(labels[idx]) else Err(IndexError)
  }

  /** Where `n` falls among the `k` bins: `n // bin_size` is below `k` for
      `n < max_bin` and at least `k - 1` from `max_bin` on. */
  lemma BinIndex(n: nat, binSize: nat, maxBin: nat)
    requires binSize > 0 && maxBin > 0
    ensures var q := n / binSize; var k := BinCount(binSize, maxBin);
      && q * binSize <= n < q * binSize + binSize
      && (n < maxBin ==> q < k)
      && (n >= maxBin ==> q >= k - 1)
  {
    var k := BinCount(binSize, maxBin);
    BinCountBounds(binSize, maxBin);
    var q := n / binSize;
    assert q * binSize + n % binSize == n;
    if n < maxBin && q >= k {
      MulMonotone(k, q, binSize);
    }
    if n >= maxBin && q < k - 1 {
      MulMonotone(q + 1, k - 1, binSize);
    }
  }

  /** For any positive bin size and bound the index is always in range,
      whether or not `max_bin` is a multiple of `bin_size`, and the label
      names the bin holding `n`: it starts at the multiple `s` of
      `bin_size` at or below `n`, and unless it is the open last bin, `n`
      lies below `s + bin_size`. */
  lemma AssignBinContains(n: nat, binSize: nat, maxBin: nat)
    requires binSize > 0 && maxBin > 0
    ensures AssignBin(n, binSize, maxBin).Ok?
    ensures var bin := AssignBin(n, binSize, maxBin).value;
      var k := BinCount(binSize, maxBin);
      var m := if n / binSize < k - 1 then n / binSize else k - 1;
      && LeadingNumber(bin) == Some(m * binSize)
      && m * binSize <= n
      && (m < k - 1 ==> bin == Decimal(m * binSize) + "-" + Decimal(m * binSize + binSize) && n < m * binSize + binSize)
      && (m == k - 1 ==> bin == Decimal(m * binSize) + "+")
  {
    var k := BinCount(binSize, maxBin);
    var q := n / binSize;
    var m := if q < k - 1 then q else k - 1;
    BinNumberFacts(n, binSize, maxBin);
    LabelOfBin(n, binSize, maxBin, m);
  }

  /** The bin number `min(n // bin_size, k - 1)` is a bin whose start is at
      or below `n`, and `n` lies below the end of every bin but the last. */
  lemma BinNumberFacts(n: nat, binSize: nat, maxBin: nat)
    requires binSize > 0 && maxBin > 0
    ensures var k := BinCount(binSize, maxBin);
      var m := if n / binSize < k - 1 then n / binSize else k - 1;
      && 0 <= m < k && m * binSize <= n
      && (m < k - 1 ==> n < m * binSize + binSize)
      && AssignBin(n, binSize, maxBin) == Ok(BinLabels(binSize, maxBin).value[m])
  {
    var k := BinCount(binSize, maxBin);
    var q := n / binSize;
    var m := if q < k - 1 then q else k - 1;
    BinIndex(n, binSize, maxBin);
    AssignBinIndex(n, binSize, maxBin);
    MulMonotone(m, q, binSize);
  }

  lemma LabelOfBin(n: nat, binSize: nat, maxBin: nat, m: nat)
    requires binSize > 0 && maxBin > 0 && m < BinCount(binSize, maxBin)
    requires m * binSize <= n
    requires m < BinCount(binSize, maxBin) - 1 ==> n < m * binSize + binSize
    ensures var bin := BinLabels(binSize, maxBin).value[m];
      var k := BinCount(binSize, maxBin);
      && LeadingNumber(bin) == Some(m * binSize)
      && (m < k - 1 ==> bin == Decimal(m * binSize) + "-" + Decimal(m * binSize + binSize) && n < m * binSize + binSize)
      && (m == k - 1 ==> bin == Decimal(m * binSize) + "+")
  {
    BinLabelAt(binSize, maxBin, m);
  }

  /** `assign_bin(n)` is the label of bin `min(n // bin_size, k - 1)`. */
  lemma AssignBinIndex(n: nat, binSize: nat, maxBin: nat)
    requires binSize > 0 && maxBin > 0
    ensures var k := BinCount(binSize, maxBin);
      var m := if n / binSize < k - 1 then n / binSize else k - 1;
      AssignBin(n, binSize, maxBin) == Ok(BinLabels(binSize, maxBin).value[m])
  {
    BinIndex(n, binSize, maxBin);
  }

  // ----------------------------------------------------- repeated lines

  predicate NonEmptyString(l: string)
  {
    l != []
  }

  /** `[l.strip() for l in text.splitlines() if l.strip()]`. */
  function ContentLines(text: string): seq<string>
  {
    var lines := Lines(text);
    Filter(seq(|lines|, i requires 0 <= i < |lines| => Strip(lines[i])), NonEmptyString)
  }

  /** `analyze(text)` of `detect_repetitive_cvs`: the number of non-blank
      lines and the share of them that repeat an earlier one. */
  function Analyze(text: string): (nat, real)
  {
    if text == [] then (0, 1.0)
    else
      var lines := ContentLines(text);
      var total := |lines|;
      if total == 0 then (0, 1.0)
      else (total, 1.0 - |Elems(lines)| as real / total as real)
  }

  /** Text made only of whitespace has no content lines, so it is reported
      as `(0, 1.0)` like the empty text. */
  lemma AnalyzeBlank(text: string)
    requires forall i | 0 <= i < |text| :: IsSpace(text[i])
    ensures ContentLines(text) == []
    ensures Analyze(text) == (0, 1.0)
  {
    var lines := Lines(text);
    var stripped := seq(|lines|, i requires 0 <= i < |lines| => Strip(lines[i]));
    LinesOfBlank(text);
    forall i | 0 <= i < |lines| ensures !NonEmptyString(stripped[i]) {
      assert lines[i] in lines;
      StripEmpty(lines[i]);
    }
    FilterSize(stripped, NonEmptyString);
  }

  /** Otherwise the count is the number of content lines and the ratio is
      `1 - distinct / total`: in `[0, 1)`, and 0 exactly when no line
      repeats. */
  lemma AnalyzeRatio(text: string)
    requires ContentLines(text) != []
    ensures var lines := ContentLines(text); var total := Analyze(text).0; var ratio := Analyze(text).1;
      && total == |lines|
      && ratio == 1.0 - |Elems(lines)| as real / total as real
      && 0.0 <= ratio < 1.0
      && (ratio == 0.0 <==> Distinct(lines))
  {
    var lines := ContentLines(text);
    ElemsCardDistinct(lines);
    FractionBounds(|Elems(lines)| as real, |lines| as real);
  }

  /** Stripping a line keeps it free of line breaks and leaves nothing to
      strip. */
  lemma StrippedLine(line: string)
    requires forall i | 0 <= i < |line| :: NotLineBreak(line[i])
    ensures Strip(Strip(line)) == Strip(line)
    ensures forall i | 0 <= i < |Strip(line)| :: NotLineBreak(Strip(line)[i])
  {
    StripIdempotent(line);
    StripIsSlice(line);
  }

  /** Every content line is non-empty, already stripped and holds no line
      break. */
  lemma ContentLinesAreStripped(text: string)
    ensures forall l | l in ContentLines(text) ::
      l != [] && Strip(l) == l && (forall i | 0 <= i < |l| :: NotLineBreak(l[i]))
  {
    var lines := Lines(text);
    var stripped := seq(|lines|, i requires 0 <= i < |lines| => Strip(lines[i]));
    FilterMembers(stripped, NonEmptyString);
    forall l | l in ContentLines(text)
      ensures l != [] && Strip(l) == l && forall i | 0 <= i < |l| :: NotLineBreak(l[i])
    {
      var j :| 0 <= j < |stripped| && stripped[j] == l;
      assert lines[j] in lines;
      StrippedLine(lines[j]);
    }
  }

  // ---------------------------------------------------- vocabulary sparsity

  /** The per-text statistics of `detect_vocab_sparsity`. */
  datatype WordStats = WordStats(total: nat, unique: nat, ttr: real)

  /** `tok.lower()` for every token. */
  function LowerWords(ws: seq<string>): (r: seq<string>)
    ensures |r| == |ws| && forall i | 0 <= i < |ws| :: r[i] == Lower(ws[i])
  {
    seq(|ws|, i requires 0 <= i < |ws| => Lower(ws[i]))
  }

  /** One iteration of the loop: a blank text gives `(0, 0, 0.0)`,
      otherwise the number of tokens, the number of distinct lower-cased
      tokens and their type-token ratio. */
  function VocabStats(s: string): WordStats
  {
    if Strip(s) == [] then WordStats(0, 0, 0.0)
    else
      var tokens := Words(s);
      var total := |tokens|;
      var unique := |Elems(LowerWords(tokens))|;
      WordStats(total, unique, if total > 0 then unique as real / total as real else 0.0)
  }

  /** The loop of `detect_vocab_sparsity`: one entry per text in each of
      the three lists. */
  method DetectVocabSparsity(texts: seq<string>) returns (totals: seq<nat>, uniques: seq<nat>, ttrs: seq<real>)
    ensures |totals| == |texts| && |uniques| == |texts| && |ttrs| == |texts|
    ensures forall i | 0 <= i < |texts| :: WordStats(totals[i], uniques[i], ttrs[i]) == VocabStats(texts[i])
  {
    totals, uniques, ttrs := [], [], [];
    for k := 0 to |texts|
      invariant |totals| == k && |uniques| == k && |ttrs| == k
      invariant forall i | 0 <= i < k :: WordStats(totals[i], uniques[i], ttrs[i]) == VocabStats(texts[i])
    {
      var s := texts[k];
      if Strip(s) == [] {
        totals, uniques, ttrs := totals + [0], uniques + [0], ttrs + [0.0];
        continue;
      }
      var tokens := Words(s);
      var totalWords := |tokens|;
      var uniqueWords := |Elems(LowerWords(tokens))|;
      var ttr := if totalWords > 0 then uniqueWords as real / totalWords as real else 0.0;
      totals, uniques, ttrs := totals + [totalWords], uniques + [uniqueWords], ttrs + [ttr];
    }
  }

  /** A text with a non-whitespace character has at least one word. */
  lemma {:induction false} WordsOfNonBlank(s: string, k: nat)
    requires k < |s| && NonSpace(s[k])
    ensures Words(s) != []
    decreases k
  {
    if IsSpace(s[0]) {
      WordsOfNonBlank(s[1..], k - 1);
    }
  }

  /** `r` is the ratio `part / whole` of a part to its positive whole. */
  predicate IsRatio(r: real, part: nat, whole: nat)
  {
    r * whole as real == part as real && 0.0 <= r <= 1.0
    && (r == 0.0 <==> part == 0) && (r == 1.0 <==> part == whole)
  }

  lemma RatioOf(part: nat, whole: nat)
    requires part <= whole && whole > 0
    ensures IsRatio(part as real / whole as real, part, whole)
  {
    FractionBounds(part as real, whole as real);
  }

  /** The statistics of one text: a blank text exactly gives `(0, 0, 0.0)`;
      any other has at least one token, at most as many distinct lower-cased
      tokens as tokens but at least one, and a ratio `unique / total` that
      is 1 exactly when no token repeats up to case. */
  lemma VocabStatsFacts(s: string)
    ensures var st := VocabStats(s);
      && st.unique <= st.total
      && 0.0 <= st.ttr <= 1.0
      && ((forall k | 0 <= k < |s| :: IsSpace(s[k])) <==> st == WordStats(0, 0, 0.0))
      && (st.total > 0 ==> st.unique >= 1 && IsRatio(st.ttr, st.unique, st.total))
      && (st.total > 0 ==> (st.ttr == 1.0 <==> Distinct(LowerWords(Words(s)))))
  {
    StripEmpty(s);
    if Strip(s) != [] {
      NonBlankStats(s);
    }
  }

  lemma NonBlankStats(s: string)
    requires Strip(s) != []
    ensures var st := VocabStats(s); var lw := LowerWords(Words(s));
      && st.total == |lw| >= 1
      && 1 <= st.unique == |Elems(lw)| <= st.total
      && IsRatio(st.ttr, st.unique, st.total)
      && (st.unique == st.total <==> Distinct(lw))
  {
    var lw := LowerWords(Words(s));
    VocabStatsOfNonBlank(s);
    ElemsCardDistinct(lw);
    RatioOf(|Elems(lw)|, |lw|);
  }

  lemma VocabStatsOfNonBlank(s: string)
    requires Strip(s) != []
    ensures var lw := LowerWords(Words(s));
      lw != [] && VocabStats(s) == WordStats(|lw|, |Elems(lw)|, |Elems(lw)| as real / |lw| as real)
  {
    NonBlankHasWord(s);
  }

  lemma NonBlankHasWord(s: string)
    requires Strip(s) != []
    ensures Words(s) != []
  {
    StripEmpty(s);
    var k :| 0 <= k < |s| && !IsSpace(s[k]);
    WordsOfNonBlank(s, k);
  }

  /** The rows `detect_vocab_sparsity` returns: too few words, or enough
      words but too low a type-token ratio. */
  predicate Discarded(st: WordStats, minWords: int, minTtr: real)
  {
    st.total < minWords || (st.total >= minWords && st.ttr < minTtr)
  }

  const MinWords: int := 20
  const MinTtr: real := 0.1

  function ToDiscard(texts: seq<string>, minWords: int, minTtr: real): seq<string>
  {
    Filter(texts, (s: string) => Discarded(VocabStats(s), minWords, minTtr))
  }

  /** A text is discarded exactly when it has fewer than `min_words` words
      or a ratio below `min_ttr`; with the defaults a blank text always is,
      and the result keeps the input order. */
  lemma ToDiscardFacts(texts: seq<string>, minWords: int, minTtr: real)
    ensures forall s :: s in ToDiscard(texts, minWords, minTtr) <==>
      s in texts && (VocabStats(s).total < minWords || VocabStats(s).ttr < minTtr)
    ensures forall s | s in texts && Strip(s) == [] :: s in ToDiscard(texts, MinWords, MinTtr)
    ensures |ToDiscard(texts, minWords, minTtr)| <= |texts|
  {
    FilterMembers(texts, (s: string) => Discarded(VocabStats(s), minWords, minTtr));
    FilterMembers(texts, (s: string) => Discarded(VocabStats(s), MinWords, MinTtr));
  }

  // -------------------------------------------------- unusual characters

  /** `is_unusual_char(c)`: outside printable ASCII, the Latin-1 supplement
      and the general punctuation block, and not a newline, carriage return
      or tab. */
  predicate IsUnusualChar(c: char)
  {
    !((0x20 <= c as int <= 0x7E) || (0xA0 <= c as int <= 0xFF)
      || (0x2000 <= c as int <= 0x206F) || c in "\n\r\t")
  }

  /** Letters, digits and the ASCII space are usual; of the control
      characters below the space only tab, newline and carriage return are
      usual; DEL and the C1 controls are unusual. */
  lemma UnusualCharClasses(c: char)
    ensures IsAsciiLetter(c) || IsDigit(c) || c == ' ' ==> !IsUnusualChar(c)
    ensures c as int < 0x20 ==> (IsUnusualChar(c) <==> c != '\t' && c != '\n' && c != '\r')
    ensures 0x7F <= c as int <= 0x9F ==> IsUnusualChar(c)
  {
  }

  /** `compute_frac(s)`: the share of unusual characters, 0 for the empty
      string. */
  function ComputeFrac(s: string): real
  {
    if s == [] then 0.0 else |Filter(s, IsUnusualChar)| as real / |s| as real
  }

  /** The share lies in `[0, 1]`, times the length it is the number of
      unusual characters, it is 0 exactly when there is none and 1 exactly
      when every character of a non-empty text is unusual. */
  lemma ComputeFracFacts(s: string)
    ensures 0.0 <= ComputeFrac(s) <= 1.0
    ensures s != [] ==> IsRatio(ComputeFrac(s), |Filter(s, IsUnusualChar)|, |s|)
    ensures ComputeFrac(s) == 0.0 <==> forall i | 0 <= i < |s| :: !IsUnusualChar(s[i])
    ensures ComputeFrac(s) == 1.0 <==> s != [] && forall i | 0 <= i < |s| :: IsUnusualChar(s[i])
  {
    FilterSize(s, IsUnusualChar);
    if s != [] {
      RatioOf(|Filter(s, IsUnusualChar)|, |s|);
    }
  }
}
