/** Evidence lists built by a loop that, for each record in turn, appends
    one row per member of a set. Set iteration order is unspecified, so such
    a list is described by its multiset of rows. */
module Bags {

  /** The rows `mk(l)` for the labels `l`. */
  function Image<L, E>(labels: set<L>, mk: L -> E): set<E>
  {
    set l | l in labels :: mk(l)
  }

  /** Distinct labels give distinct rows. */
  predicate Injective<L(!new), E(==)>(labels: set<L>, mk: L -> E)
  {
    forall a, b | a in labels && b in labels && mk(a) == mk(b) :: a == b
  }

  /** An injective row maker yields one row per label. */
  lemma {:induction false} ImageCard<L(!new), E>(labels: set<L>, mk: L -> E)
    requires Injective(labels, mk)
    ensures |Image(labels, mk)| == |labels|
    decreases |labels|
  {
    if labels != {} {
      var l :| l in labels;
      var rest := labels - {l};
      ImageCard(rest, mk);
      assert Image(labels, mk) == Image(rest, mk) + {mk(l)};
      assert mk(l) !in Image(rest, mk);
    }
  }

  /** `for l in labels: acc.append(mk(l))`, in whatever order the set is
      iterated: every row exactly once, after the rows already there. */
  method AppendRows<L(!new), E(==)>(acc: seq<E>, labels: set<L>, mk: L -> E) returns (out: seq<E>)
    requires Injective(labels, mk)
    ensures multiset(out) == multiset(acc) + multiset(Image(labels, mk))
    ensures |out| == |acc| + |labels|
    ensures out[..|acc|] == acc
  {
    out := acc;
    var remaining := labels;
    while remaining != {}
      invariant remaining <= labels
      invariant multiset(out) == multiset(acc) + multiset(Image(labels - remaining, mk))
      invariant |acc| <= |out| && out[..|acc|] == acc
      decreases |remaining|
    {
      var l :| l in remaining;
      var done := labels - remaining;
      assert Image(done + {l}, mk) == Image(done, mk) + {mk(l)};
      assert mk(l) !in Image(done, mk);
      assert (out + [mk(l)])[..|acc|] == out[..|acc|];
      out := out + [mk(l)];
      remaining := remaining - {l};
      assert labels - remaining == done + {l};
    }
    assert labels - remaining == labels;
    ImageCard(labels, mk);
    assert |out| == |multiset(out)|;
    assert |multiset(Image(labels, mk))| == |Image(labels, mk)|;
  }

  /** The rows appended for all of `cs`, as a multiset. */
  function BagOf<C, E>(cs: seq<C>, rows: C -> set<E>): multiset<E>
  {
    if cs == [] then multiset{}
    else BagOf(cs[..|cs| - 1], rows) + multiset(rows(cs[|cs| - 1]))
  }

  /** How many rows are appended for all of `cs`. */
  function SumCard<C, E>(cs: seq<C>, rows: C -> set<E>): nat
  {
    if cs == [] then 0 else SumCard(cs[..|cs| - 1], rows) + |rows(cs[|cs| - 1])|
  }

  /** A row is in the bag exactly when one of the records produced it. */
  lemma {:induction false} BagMembers<C, E>(cs: seq<C>, rows: C -> set<E>)
    ensures forall e :: e in BagOf(cs, rows) <==> exists c | c in cs :: e in rows(c)
    decreases |cs|
  {
    if cs != [] {
      var n := |cs| - 1;
      BagMembers(cs[..n], rows);
      forall e
        ensures e in BagOf(cs, rows) <==> exists c | c in cs :: e in rows(c)
      {
        if e in BagOf(cs, rows) {
          if e in BagOf(cs[..n], rows) {
            var c :| c in cs[..n] && e in rows(c);
            assert c in cs;
          } else {
            assert e in rows(cs[n]);
          }
        }
        if exists c | c in cs :: e in rows(c) {
          var c :| c in cs && e in rows(c);
          var k :| 0 <= k < |cs| && cs[k] == c;
          if k < n {
            assert cs[..n][k] == c;
          }
        }
      }
    }
  }

  /** The bag holds as many rows as were appended. */
  lemma {:induction false} BagCard<C, E>(cs: seq<C>, rows: C -> set<E>)
    ensures |BagOf(cs, rows)| == SumCard(cs, rows)
    decreases |cs|
  {
    if cs != [] {
      BagCard(cs[..|cs| - 1], rows);
    }
  }

  /** One turn of the outer loop. */
  lemma BagStep<C, E>(cs: seq<C>, i: nat, rows: C -> set<E>)
    requires i < |cs|
    ensures BagOf(cs[..i + 1], rows) == BagOf(cs[..i], rows) + multiset(rows(cs[i]))
  {
    assert cs[..i + 1][..i] == cs[..i];
  }
}
