/** The list helpers of the fuzzy matcher: the job-title clean-up that
    edits its list in place, the true-positive rate of a match table, and
    order-preserving de-duplication. */
module FuzzyUtils {
  import opened Maybe
  import opened Collections
  import opened Text

  // ------------------------------------------------------------ split("/")

  /** Python `s.split(c)` for a one-character separator: the pieces
      between the separators, in order; `c` absent gives `[s]`. */
  function SplitOn(s: string, c: char): (parts: seq<string>)
    decreases |s|
  {
    if c !in s then [s]
    else
      var p := FirstIndex(s, c);
      [s[..p]] + SplitOn(s[p + 1..], c)
  }

  /** `split(c)` gives one piece more than there are separators, and no
      piece holds the separator. */
  lemma {:induction false} SplitOnFacts(s: string, c: char)
    ensures |SplitOn(s, c)| == Count(s, c) + 1
    ensures forall k | 0 <= k < |SplitOn(s, c)| :: c !in SplitOn(s, c)[k]
    decreases |s|
  {
    if c !in s {
      CountPositive(s, c);
    } else {
      var p := FirstIndex(s, c);
      assert s == s[..p] + [c] + s[p + 1..];
      CountAppend(s[..p] + [c], s[p + 1..], c);
      CountAppend(s[..p], [c], c);
      CountPositive(s[..p], c);
      assert Count([c], c) == 1 by { assert [c][..0] == []; }
      SplitOnFacts(s[p + 1..], c);
      var parts := SplitOn(s, c);
      forall k | 0 <= k < |parts| ensures c !in parts[k] {
        if k > 0 {
          assert parts[k] == SplitOn(s[p + 1..], c)[k - 1];
        }
      }
    }
  }

  /** With one separator the two pieces are the text on either side. */
  lemma SplitOnOne(s: string, c: char)
    requires Count(s, c) == 1
    ensures c in s
    ensures var p := FirstIndex(s, c);
      SplitOn(s, c) == [s[..p], s[p + 1..]] && s == s[..p] + [c] + s[p + 1..]
  {
    CountPositive(s, c);
    var p := FirstIndex(s, c);
    CountAround(s, c, p);
    CountPositive(s[p + 1..], c);
    assert SplitOn(s[p + 1..], c) == [s[p + 1..]];
  }

  /** A separator at `p` splits the count into the two sides plus one. */
  lemma CountAround(s: string, c: char, p: nat)
    requires p < |s| && s[p] == c
    ensures s == s[..p] + [c] + s[p + 1..]
    ensures Count(s, c) == Count(s[..p], c) + 1 + Count(s[p + 1..], c)
  {
    assert s == s[..p] + [c] + s[p + 1..];
    CountAppend(s[..p] + [c], s[p + 1..], c);
    CountAppend(s[..p], [c], c);
    assert Count([c], c) == 1 by { assert [c][..0] == []; }
  }

  // -------------------------------------------------------- normalize_jobs

  const MaxWords: nat := 3

  /** A title of more than three words is dropped. */
  predicate TooLong(job: string)
  {
    |Words(job)| > MaxWords
  }

  /** A short title with a "/" is split in two. */
  predicate Splits(job: string)
  {
    !TooLong(job) && '/' in job
  }

  /** A split title with more than one "/" cannot be unpacked into two
      halves: `ValueError`. */
  predicate BadSplit(job: string)
  {
    Splits(job) && |SplitOn(job, '/')| != 2
  }

  /** A title left where it is. */
  predicate Kept(job: string)
  {
    !TooLong(job) && '/' !in job
  }

  function KeptOf(): string -> bool
  {
    (job: string) => Kept(job)
  }

  predicate NoBadSplit(jobs: seq<string>)
  {
    forall k | 0 <= k < |jobs| :: !BadSplit(jobs[k])
  }

  /** The halves appended for the split titles of `jobs`, first half then
      second, in the order the titles come. */
  function SplitHalves(jobs: seq<string>): seq<string>
    requires NoBadSplit(jobs)
    decreases |jobs|
  {
    if jobs == [] then []
    else
      var n := |jobs| - 1;
      assert NoBadSplit(jobs[..n]) by {
        forall k | 0 <= k < n ensures !BadSplit(jobs[..n][k]) { assert jobs[..n][k] == jobs[k]; }
      }
      SplitHalves(jobs[..n]) + (if Splits(jobs[n]) then SplitOn(jobs[n], '/') else [])
  }

  lemma NoBadSplitPrefix(jobs: seq<string>, i: nat)
    requires i <= |jobs| && NoBadSplit(jobs)
    ensures NoBadSplit(jobs[..i])
  {
    forall k | 0 <= k < i ensures !BadSplit(jobs[..i][k]) { assert jobs[..i][k] == jobs[k]; }
  }

  /** The list after `normalize_jobs`: the titles kept in place, in their
      order, then the halves of the split ones. */
  function NormalizedJobs(jobs: seq<string>): seq<string>
    requires NoBadSplit(jobs)
  {
    Filter(jobs, KeptOf()) + SplitHalves(jobs)
  }

  /** The halves of a short title are short and hold no "/". */
  lemma HalvesFacts(job: string)
    requires Splits(job) && !BadSplit(job)
    ensures var h := SplitOn(job, '/');
      |h| == 2 && Kept(h[0]) && Kept(h[1]) && job == h[0] + "/" + h[1]
  {
    SplitOnFacts(job, '/');
    SplitOnOne(job, '/');
    var p := FirstIndex(job, '/');
    WordsPrefix(job, p);
    WordsSuffix(job, p + 1);
  }

  lemma {:induction false} SplitHalvesKept(jobs: seq<string>)
    requires NoBadSplit(jobs)
    ensures forall k | 0 <= k < |SplitHalves(jobs)| :: Kept(SplitHalves(jobs)[k])
    decreases |jobs|
  {
    if jobs != [] {
      var n := |jobs| - 1;
      NoBadSplitPrefix(jobs, n);
      SplitHalvesKept(jobs[..n]);
      if Splits(jobs[n]) {
        HalvesFacts(jobs[n]);
      }
    }
  }

  /** On normal return no title has more than three words or a "/", the
      titles kept in place keep their order, and each split title adds
      exactly its two halves. */
  lemma NormalizedJobsFacts(jobs: seq<string>)
    requires NoBadSplit(jobs)
    ensures var r := NormalizedJobs(jobs);
      && (forall k | 0 <= k < |r| :: |Words(r[k])| <= MaxWords && '/' !in r[k])
      && r[..|Filter(jobs, KeptOf())|] == Filter(jobs, KeptOf())
      && |r| == |Filter(jobs, KeptOf())| + 2 * |Filter(jobs, (j: string) => Splits(j))|
  {
    FilterMembers(jobs, KeptOf());
    SplitHalvesKept(jobs);
    SplitHalvesLength(jobs);
    var r := NormalizedJobs(jobs);
    var f := Filter(jobs, KeptOf());
    forall k | 0 <= k < |r| ensures Kept(r[k]) {
      if k < |f| {
        assert r[k] == f[k];
      } else {
        assert r[k] == SplitHalves(jobs)[k - |f|];
      }
    }
  }

  lemma {:induction false} SplitHalvesLength(jobs: seq<string>)
    requires NoBadSplit(jobs)
    ensures |SplitHalves(jobs)| == 2 * |Filter(jobs, (j: string) => Splits(j))|
    decreases |jobs|
  {
    if jobs != [] {
      var n := |jobs| - 1;
      NoBadSplitPrefix(jobs, n);
      SplitHalvesLength(jobs[..n]);
      if Splits(jobs[n]) {
        HalvesFacts(jobs[n]);
      }
    }
  }

  /** Python `list.remove(x)`: drops the first occurrence of `x`. */
  function RemoveFirst(xs: seq<string>, x: string): seq<string>
    requires x in xs
  {
    var i := FirstIndex(xs, x);
    xs[..i] + xs[i + 1..]
  }

  /** The list after `normalize_jobs` has handled the first `i` titles of
      its copy: the untouched titles, the rest of the copy, then the
      halves added so far. */
  function PartlyNormalized(jobs: seq<string>, i: nat): seq<string>
    requires i <= |jobs| && NoBadSplit(jobs[..i])
  {
    Filter(jobs[..i], KeptOf()) + jobs[i..] + SplitHalves(jobs[..i])
  }

  /** The loop stopped at the first bad title, `jobs[i]`, leaving the
      list as `cur`. */
  predicate StoppedAt(jobs: seq<string>, i: nat, cur: seq<string>)
  {
    && i < |jobs| && BadSplit(jobs[i]) && NoBadSplit(jobs[..i])
    && cur == PartlyNormalized(jobs, i)
  }

  /** The first occurrence of a title that is not kept lies after the
      kept ones. */
  lemma RemoveAfterKept(a: seq<string>, x: string, b: seq<string>)
    requires forall k | 0 <= k < |a| :: Kept(a[k])
    requires !Kept(x)
    ensures x in a + [x] + b && RemoveFirst(a + [x] + b, x) == a + b
  {
    var xs := a + [x] + b;
    assert xs[|a|] == x;
    var i := FirstIndex(xs, x);
    assert i == |a|;
    assert xs[..i] == a;
    assert xs[i + 1..] == b;
  }

  /** The loop invariant of `normalize_jobs` after `i` titles of the copy. */
  predicate Progress(jobs: seq<string>, i: nat, cur: seq<string>)
  {
    i <= |jobs| && NoBadSplit(jobs[..i]) && cur == PartlyNormalized(jobs, i)
  }

  /** The list before and after the turn that handles `jobs[i]`, cut at
      that title. */
  lemma Unroll(jobs: seq<string>, i: nat)
    requires i < |jobs| && NoBadSplit(jobs[..i + 1])
    ensures NoBadSplit(jobs[..i])
    ensures PartlyNormalized(jobs, i)
      == Filter(jobs[..i], KeptOf()) + [jobs[i]] + (jobs[i + 1..] + SplitHalves(jobs[..i]))
    ensures PartlyNormalized(jobs, i + 1)
      == Filter(jobs[..i], KeptOf()) + (if Kept(jobs[i]) then [jobs[i]] else []) + jobs[i + 1..]
         + SplitHalves(jobs[..i]) + (if Splits(jobs[i]) then SplitOn(jobs[i], '/') else [])
  {
    NoBadSplitPrefix(jobs[..i + 1], i);
    assert jobs[..i + 1][..i] == jobs[..i];
    assert jobs[i..] == [jobs[i]] + jobs[i + 1..];
  }

  /** A title that is not kept is removed from where it stands. */
  lemma RemoveStep(jobs: seq<string>, i: nat)
    requires i < |jobs| && NoBadSplit(jobs[..i + 1]) && !Kept(jobs[i])
    ensures NoBadSplit(jobs[..i])
    ensures jobs[i] in PartlyNormalized(jobs, i)
    ensures RemoveFirst(PartlyNormalized(jobs, i), jobs[i])
      == Filter(jobs[..i], KeptOf()) + jobs[i + 1..] + SplitHalves(jobs[..i])
  {
    Unroll(jobs, i);
    FilterMembers(jobs[..i], KeptOf());
    RemoveAfterKept(Filter(jobs[..i], KeptOf()), jobs[i], jobs[i + 1..] + SplitHalves(jobs[..i]));
  }

  lemma DropStep(jobs: seq<string>, i: nat, cur: seq<string>)
    requires Progress(jobs, i, cur) && i < |jobs| && TooLong(jobs[i])
    ensures jobs[i] in cur && Progress(jobs, i + 1, RemoveFirst(cur, jobs[i]))
  {
    assert NoBadSplit(jobs[..i + 1]) by {
      assert forall k | 0 <= k <= i :: jobs[..i + 1][k] == jobs[k];
    }
    RemoveStep(jobs, i);
    Unroll(jobs, i);
  }

  lemma SplitStep(jobs: seq<string>, i: nat, cur: seq<string>)
    requires Progress(jobs, i, cur) && i < |jobs| && Splits(jobs[i]) && !BadSplit(jobs[i])
    ensures jobs[i] in cur && Progress(jobs, i + 1, RemoveFirst(cur, jobs[i]) + SplitOn(jobs[i], '/'))
  {
    assert NoBadSplit(jobs[..i + 1]) by {
      assert forall k | 0 <= k <= i :: jobs[..i + 1][k] == jobs[k];
    }
    RemoveStep(jobs, i);
    Unroll(jobs, i);
  }

  lemma KeepStep(jobs: seq<string>, i: nat, cur: seq<string>)
    requires Progress(jobs, i, cur) && i < |jobs| && Kept(jobs[i])
    ensures Progress(jobs, i + 1, cur)
  {
    assert NoBadSplit(jobs[..i + 1]) by {
      assert forall k | 0 <= k <= i :: jobs[..i + 1][k] == jobs[k];
    }
    Unroll(jobs, i);
  }

  /** A short title with more than one "/" stops the loop where it is. */
  lemma StopStep(jobs: seq<string>, i: nat, cur: seq<string>)
    requires Progress(jobs, i, cur) && i < |jobs| && Splits(jobs[i]) && |SplitOn(jobs[i], '/')| != 2
    ensures StoppedAt(jobs, i, cur) && !NoBadSplit(jobs)
  {
  }

  /** After the last title the list is the normalised list. */
  lemma DoneStep(jobs: seq<string>, cur: seq<string>)
    requires Progress(jobs, |jobs|, cur)
    ensures NoBadSplit(jobs) && cur == NormalizedJobs(jobs)
  {
    assert jobs[..|jobs|] == jobs;
    assert jobs[|jobs|..] == [];
  }

  /** `jobs` as the list object that `normalize_jobs` edits in place. */
  class JobList {
    var jobs: seq<string>

    constructor(initial: seq<string>)
      ensures jobs == initial
    {
      jobs := initial;
    }

    /** `normalize_jobs(jobs)`: walks a copy of the list, removes the
        titles of more than three words, and replaces each short title
        with a "/" by its two halves at the end. A short title with more
        than one "/" raises `ValueError`, leaving the list as edited so
        far. */
    method NormalizeJobs() returns (r: Result<seq<string>>)
      modifies this
      ensures r.Err? <==> !NoBadSplit(old(jobs))
      ensures r.Err? ==> r.error.ValueError? && exists i :: StoppedAt(old(jobs), i, jobs)
      ensures r.Ok? ==> r.value == jobs && jobs == NormalizedJobs(old(jobs))
    {
      var copy := jobs;
      assert copy[..0] == [];
      for i := 0 to |copy|
        invariant Progress(copy, i, jobs)
      {
        var job := copy[i];
        if TooLong(job) {
          DropStep(copy, i, jobs);
          jobs := RemoveFirst(jobs, job);
        } else if '/' in job {
          var parts := SplitOn(job, '/');
          if |parts| != 2 {
            StopStep(copy, i, jobs);
            return Err(ValueError("too many values to unpack"));
          }
          SplitStep(copy, i, jobs);
          var firstJob, secondJob := parts[0], parts[1];
          assert [firstJob, secondJob] == parts;
          jobs := RemoveFirst(jobs, job);
          jobs := jobs + [firstJob, secondJob];
        } else {
          KeepStep(copy, i, jobs);
        }
      }
      DoneStep(copy, jobs);
      r := Ok(jobs);
    }
  }

  // ------------------------------------------------------- compute_tp_rate

  /** One row of a match table: its two boolean outcome columns. */
  datatype MatchRow = MatchRow(truePositive: bool, falseNegative: bool)

  function TpCount(data: seq<MatchRow>): nat
  {
    |Filter(data, (m: MatchRow) => m.truePositive)|
  }

  function FnCount(data: seq<MatchRow>): nat
  {
    |Filter(data, (m: MatchRow) => m.falseNegative)|
  }

  /** `compute_tp_rate(data)`: `tp / (tp + fn) * 100`, or `None` when the
      table has no true-positive and no false-negative row. */
  function ComputeTpRate(data: seq<MatchRow>): (r: Option<real>)
    ensures r.None? <==> TpCount(data) + FnCount(data) == 0
    ensures r.Some? ==>
      && 0.0 <= r.value <= 100.0
      && r.value * (TpCount(data) + FnCount(data)) as real == 100.0 * TpCount(data) as real
      && (r.value == 100.0 <==> FnCount(data) == 0)
      && (r.value == 0.0 <==> TpCount(data) == 0)
  {
    var tp, fn := TpCount(data), FnCount(data);
    if tp + fn != 0 then
      var rate := (tp as real / (tp + fn) as real) * 100.0;
      RateBounds(tp, fn);
      Some(rate)
    else None
  }

  lemma RateBounds(tp: nat, fn: nat)
    requires tp + fn != 0
    ensures var rate := (tp as real / (tp + fn) as real) * 100.0;
      && 0.0 <= rate <= 100.0
      && rate * (tp + fn) as real == 100.0 * tp as real
      && (rate == 100.0 <==> fn == 0)
      && (rate == 0.0 <==> tp == 0)
  {
    var q := tp as real / (tp + fn) as real;
    assert q * (tp + fn) as real == tp as real;
    assert q <= 1.0;
    if q == 1.0 {
      assert fn == 0;
    }
  }

  // ----------------------------------------------------- remove_duplicates

  /** `remove_duplicates(list)`: each element at its first occurrence, the
      `seen` set holding those already taken. */
  method RemoveDuplicates<T(==)>(xs: seq<T>) returns (r: seq<T>)
    ensures r == Dedup(xs)
  {
    var seen: set<T> := {};
    r := [];
    for i := 0 to |xs|
      invariant r == Dedup(xs[..i])
      invariant seen == Elems(xs[..i])
    {
      assert xs[..i + 1][..i] == xs[..i];
      var x := xs[i];
      assert Elems(xs[..i + 1]) == Elems(xs[..i]) + {x};
      if x !in seen {
        seen := seen + {x};
        r := r + [x];
      }
    }
    assert xs[..|xs|] == xs;
  }

  /** The result keeps exactly the first occurrence of each element: the
      same elements, none twice, in the order they first appear, never
      longer, and de-duplicating it again changes nothing. */
  lemma DedupFacts<T>(xs: seq<T>)
    ensures forall x :: x in Dedup(xs) <==> x in xs
    ensures Distinct(Dedup(xs)) && |Dedup(xs)| <= |xs|
    ensures forall i, j | 0 <= i < j < |Dedup(xs)| ::
      FirstIndex(xs, Dedup(xs)[i]) < FirstIndex(xs, Dedup(xs)[j])
    ensures Dedup(Dedup(xs)) == Dedup(xs)
  {
    DedupMembers(xs);
    DedupFirstOccurrenceOrder(xs);
    DedupOfDistinct(Dedup(xs));
  }
}
