/** The Python string built-ins the modelled code relies on: whitespace,
    ASCII lower-casing, `strip`, `replace`, the run-collapsing `re.sub`
    calls, `split()` and `splitlines()`. Strings are `seq<char>`. */
module Text {
  import opened Collections

  // ----------------------------------------------------------- characters

  /** Python's `str.isspace`; the same set is matched by the regex class
      `\s` and skipped by `strip()` and `split()`. */
  predicate IsSpace(c: char)
  {
    c == ' ' || ('\t' <= c <= '\r') || ('\U{1C}' <= c <= '\U{1F}')
    || c == '\U{85}' || c == '\U{A0}' || c == '\U{1680}'
    || ('\U{2000}' <= c <= '\U{200A}')
    || c == '\U{2028}' || c == '\U{2029}' || c == '\U{202F}'
    || c == '\U{205F}' || c == '\U{3000}'
  }

  predicate NonSpace(c: char)
  {
    !IsSpace(c)
  }

  /** The characters of the regex class `[\n\r]`. */
  predicate IsNewline(c: char)
  {
    c == '\n' || c == '\r'
  }

  /** The single character of the regex ` +`. */
  predicate IsBlank(c: char)
  {
    c == ' '
  }

  /** The line boundaries of Python's `str.splitlines`. */
  predicate IsLineBreak(c: char)
  {
    c == '\n' || c == '\r' || c == '\U{0B}' || c == '\U{0C}'
    || ('\U{1C}' <= c <= '\U{1E}') || c == '\U{85}' || c == '\U{2028}' || c == '\U{2029}'
  }

  predicate NotLineBreak(c: char)
  {
    !IsLineBreak(c)
  }

  predicate IsUpper(c: char)
  {
    'A' <= c <= 'Z'
  }

  predicate IsAsciiLetter(c: char)
  {
    ('A' <= c <= 'Z') || ('a' <= c <= 'z')
  }

  function LowerChar(c: char): char
  {
    if IsUpper(c) then (c as int - 'A' as int + 'a' as int) as char else c
  }

  /** `str.lower()`, on ASCII letters only. */
  function Lower(s: string): (r: string)
    ensures |r| == |s|
    ensures forall i | 0 <= i < |r| :: !IsUpper(r[i])
  {
    seq(|s|, i requires 0 <= i < |s| => LowerChar(s[i]))
  }

  /** Lower-casing changes only upper-case letters, so it neither creates
      nor removes any other character. */
  lemma LowerKeepsOthers(s: string, c: char)
    requires !IsUpper(c) && !('a' <= c <= 'z')
    ensures c in Lower(s) <==> c in s
  {
    if c in s {
      var i :| 0 <= i < |s| && s[i] == c;
      assert Lower(s)[i] == c;
    }
    if c in Lower(s) {
      var i :| 0 <= i < |s| && Lower(s)[i] == c;
      assert s[i] == c;
    }
  }

  /** Lower-casing maps an adjacent pair of non-letters to itself. */
  lemma LowerKeepsNoPair(s: string, a: char, b: char)
    requires !IsUpper(a) && !('a' <= a <= 'z') && !IsUpper(b) && !('a' <= b <= 'z')
    requires NoPair(s, a, b)
    ensures NoPair(Lower(s), a, b)
  {
    var r := Lower(s);
    forall i | 0 <= i < |r| - 1 ensures !(r[i] == a && r[i + 1] == b) {
      assert r[i] == LowerChar(s[i]) && r[i + 1] == LowerChar(s[i + 1]);
    }
  }

  /** No upper-case ASCII letter occurs in `s`. */
  predicate NoUpper(s: string)
  {
    forall i | 0 <= i < |s| :: !IsUpper(s[i])
  }

  /** Lower-casing leaves a string without upper-case letters as it is;
      in particular it is idempotent. */
  lemma LowerOfNoUpper(s: string)
    requires NoUpper(s)
    ensures Lower(s) == s
  {
    assert forall i | 0 <= i < |s| :: Lower(s)[i] == s[i];
  }

  // ---------------------------------------------------------------- pairs

  /** `a` is never immediately followed by `b`; `NoPair(s, ' ', ',')` says
      that `" ,"` does not occur in `s`. */
  predicate NoPair(s: string, a: char, b: char)
  {
    forall i | 0 <= i < |s| - 1 :: !(s[i] == a && s[i + 1] == b)
  }

  /** No two adjacent characters both satisfy `p`. */
  predicate NoAdjacent(s: string, p: char -> bool)
  {
    forall i | 0 <= i < |s| - 1 :: !(p(s[i]) && p(s[i + 1]))
  }

  lemma NoAdjacentSlice(s: string, i: nat, j: nat, p: char -> bool)
    requires i <= j <= |s|
    requires NoAdjacent(s, p)
    ensures NoAdjacent(s[i..j], p)
  {
    var t := s[i..j];
    forall k | 0 <= k < |t| - 1 ensures !(p(t[k]) && p(t[k + 1])) {
      assert t[k] == s[i + k] && t[k + 1] == s[i + k + 1];
    }
  }

  // ---------------------------------------------------------------- strip

  /** Length of the leading whitespace run. */
  function LeadingSpaces(s: string): (n: nat)
    ensures n <= |s|
    ensures forall i | 0 <= i < n :: IsSpace(s[i])
    ensures n < |s| ==> !IsSpace(s[n])
  {
    if s == [] || !IsSpace(s[0]) then 0 else 1 + LeadingSpaces(s[1..])
  }

  /** Length of the trailing whitespace run. */
  function TrailingSpaces(s: string): (n: nat)
    ensures n <= |s|
    ensures forall i | |s| - n <= i < |s| :: IsSpace(s[i])
    ensures n < |s| ==> !IsSpace(s[|s| - 1 - n])
  {
    if s == [] || !IsSpace(s[|s| - 1]) then 0 else 1 + TrailingSpaces(s[..|s| - 1])
  }

  /** Python `s.strip()`: the slice of `s` between its leading and trailing
      whitespace. */
  function Strip(s: string): (r: string)
    ensures |r| <= |s|
  {
    var t := s[LeadingSpaces(s)..];
    t[..|t| - TrailingSpaces(t)]
  }

  /** `strip()` returns a slice `s[i..j]` with only whitespace outside it. */
  lemma StripIsSlice(s: string)
    ensures var i := LeadingSpaces(s); var r := Strip(s);
      i + |r| <= |s| && r == s[i..i + |r|]
      && (forall k | 0 <= k < i :: IsSpace(s[k]))
      && (forall k | i + |r| <= k < |s| :: IsSpace(s[k]))
  {
    var i := LeadingSpaces(s);
    var t := s[i..];
    var n := TrailingSpaces(t);
    var r := Strip(s);
    assert r == t[..|t| - n];
    assert r == s[i..i + |r|];
    forall k | i + |r| <= k < |s| ensures IsSpace(s[k]) {
      assert s[k] == t[k - i];
    }
  }

  /** The result of `strip()` has no whitespace at either end. */
  lemma StripEnds(s: string)
    ensures Strip(s) != [] ==> NonSpace(Strip(s)[0]) && NonSpace(Strip(s)[|Strip(s)| - 1])
  {
    var i := LeadingSpaces(s);
    var t := s[i..];
    var n := TrailingSpaces(t);
    var r := Strip(s);
    assert r == t[..|t| - n];
    if r != [] {
      assert r[0] == t[0] == s[i];
      assert r[|r| - 1] == t[|t| - 1 - n];
    }
  }

  /** `strip()` gives the empty string exactly when `s` is all whitespace. */
  lemma StripEmpty(s: string)
    ensures Strip(s) == [] <==> forall k | 0 <= k < |s| :: IsSpace(s[k])
  {
    StripIsSlice(s);
    StripEnds(s);
    var i := LeadingSpaces(s);
    if Strip(s) != [] {
      assert Strip(s)[0] == s[i];
    }
  }

  /** `strip()` of a stripped string changes nothing. */
  lemma StripIdempotent(s: string)
    ensures Strip(Strip(s)) == Strip(s)
  {
    StripEnds(s);
    StripOfTrimmed(Strip(s));
  }

  /** A string with no whitespace at either end is its own `strip()`. */
  lemma StripOfTrimmed(s: string)
    requires s != [] ==> NonSpace(s[0]) && NonSpace(s[|s| - 1])
    ensures Strip(s) == s
  {
    if s != [] {
      assert LeadingSpaces(s) == 0;
      assert s[0..] == s;
      assert TrailingSpaces(s) == 0;
    }
  }

  /** A slice of a string without upper-case letters has none either. */
  lemma StripNoUpper(s: string)
    requires NoUpper(s)
    ensures NoUpper(Strip(s))
  {
    StripIsSlice(s);
  }

  lemma {:induction false} LeadingSpacesLower(s: string)
    ensures LeadingSpaces(Lower(s)) == LeadingSpaces(s)
    decreases |s|
  {
    if s != [] {
      assert Lower(s)[1..] == Lower(s[1..]);
      LeadingSpacesLower(s[1..]);
    }
  }

  lemma {:induction false} TrailingSpacesLower(s: string)
    ensures TrailingSpaces(Lower(s)) == TrailingSpaces(s)
    decreases |s|
  {
    if s != [] {
      assert Lower(s)[..|s| - 1] == Lower(s[..|s| - 1]);
      TrailingSpacesLower(s[..|s| - 1]);
    }
  }

  /** Whitespace is never an upper-case letter, so `lower()` and `strip()`
      commute. */
  lemma LowerStripCommute(s: string)
    ensures Lower(Strip(s)) == Strip(Lower(s))
  {
    var i := LeadingSpaces(s);
    LeadingSpacesLower(s);
    var t, lt := s[i..], Lower(s)[i..];
    assert lt == Lower(t);
    TrailingSpacesLower(t);
    var n := TrailingSpaces(t);
    assert Lower(t)[..|t| - n] == Lower(t[..|t| - n]);
  }

  lemma StripKeepsNoAdjacent(s: string, p: char -> bool)
    requires NoAdjacent(s, p)
    ensures NoAdjacent(Strip(s), p)
  {
    StripIsSlice(s);
    var i := LeadingSpaces(s);
    NoAdjacentSlice(s, i, i + |Strip(s)|, p);
  }

  lemma StripChars(s: string, c: char)
    ensures c in Strip(s) ==> c in s
  {
    StripIsSlice(s);
  }

  // -------------------------------------------------------------- replace

  /** Python `s.replace(pat, rep)`: every leftmost, non-overlapping
      occurrence of `pat` is replaced by `rep`. */
  function ReplaceAll(s: string, pat: string, rep: string): string
    requires pat != []
    decreases |s|
  {
    if |s| < |pat| then s
    else if s[..|pat|] == pat then rep + ReplaceAll(s[|pat|..], pat, rep)
    else [s[0]] + ReplaceAll(s[1..], pat, rep)
  }

  /** `pat` occurs in `s` at position `i`. */
  predicate OccursAt(s: string, pat: string, i: nat)
  {
    i + |pat| <= |s| && s[i..i + |pat|] == pat
  }

  /** `ps` are the positions a left-to-right scan of `s` from `from` finds
      `pat` at: each is the leftmost occurrence at or after the end of the
      previous one, and after the last there is none. */
  predicate LeftmostMatches(s: string, pat: string, from: nat, ps: seq<nat>)
    requires pat != [] && from <= |s|
    decreases |ps|
  {
    if ps == [] then forall j | from <= j <= |s| :: !OccursAt(s, pat, j)
    else
      && from <= ps[0]
      && OccursAt(s, pat, ps[0])
      && (forall j | from <= j < ps[0] :: !OccursAt(s, pat, j))
      && LeftmostMatches(s, pat, ps[0] + |pat|, ps[1..])
  }

  /** The pieces of `s` from `from` between the occurrences at `ps`,
      joined by `rep`; a position before `from` or too close to the end to
      hold `pat` ends the list. */
  function Joined(s: string, pat: string, rep: string, from: nat, ps: seq<nat>): string
    requires from <= |s|
    decreases |ps|
  {
    if ps == [] || !(from <= ps[0] && ps[0] + |pat| <= |s|) then s[from..]
    else s[from..ps[0]] + rep + Joined(s, pat, rep, ps[0] + |pat|, ps[1..])
  }

  /** A left-to-right scan always finds its positions. */
  lemma {:induction false} LeftmostMatchesExist(s: string, pat: string, from: nat)
    requires pat != [] && from <= |s|
    ensures exists ps :: LeftmostMatches(s, pat, from, ps)
    decreases |s| - from
  {
    if from + |pat| > |s| {
      assert LeftmostMatches(s, pat, from, []);
    } else if OccursAt(s, pat, from) {
      LeftmostMatchesExist(s, pat, from + |pat|);
      var ps :| LeftmostMatches(s, pat, from + |pat|, ps);
      assert ([from] + ps)[1..] == ps;
      assert LeftmostMatches(s, pat, from, [from] + ps);
    } else {
      LeftmostMatchesExist(s, pat, from + 1);
      var ps :| LeftmostMatches(s, pat, from + 1, ps);
      assert LeftmostMatches(s, pat, from, ps);
    }
  }

  /** and finds only one list of them. */
  lemma {:induction false} LeftmostMatchesUnique(s: string, pat: string, from: nat, ps: seq<nat>, qs: seq<nat>)
    requires pat != [] && from <= |s|
    requires LeftmostMatches(s, pat, from, ps) && LeftmostMatches(s, pat, from, qs)
    ensures ps == qs
    decreases |ps|
  {
    if ps != [] && qs != [] {
      assert ps[0] == qs[0] by {
        assert !(ps[0] < qs[0]) && !(qs[0] < ps[0]);
      }
      LeftmostMatchesUnique(s, pat, ps[0] + |pat|, ps[1..], qs[1..]);
      assert ps == [ps[0]] + ps[1..] && qs == [qs[0]] + qs[1..];
    }
  }

  /** `ReplaceAll` replaces exactly the occurrences a left-to-right scan
      finds: its result is the text between them joined by `rep`. */
  lemma {:induction false} ReplaceAllIsJoined(s: string, pat: string, rep: string, from: nat, ps: seq<nat>)
    requires pat != [] && from <= |s| && LeftmostMatches(s, pat, from, ps)
    ensures ReplaceAll(s[from..], pat, rep) == Joined(s, pat, rep, from, ps)
    decreases |s| - from, 1
  {
    if |s| - from < |pat| {
      NoRoomNoMatch(s, pat, from, ps);
    } else if OccursAt(s, pat, from) {
      ReplaceAllIsJoinedAtMatch(s, pat, rep, from, ps);
    } else {
      ReplaceAllIsJoinedAtSkip(s, pat, rep, from, ps);
    }
  }

  lemma {:induction false} ReplaceAllIsJoinedAtMatch(s: string, pat: string, rep: string, from: nat, ps: seq<nat>)
    requires pat != [] && from <= |s| && LeftmostMatches(s, pat, from, ps)
    requires OccursAt(s, pat, from)
    ensures ReplaceAll(s[from..], pat, rep) == Joined(s, pat, rep, from, ps)
    decreases |s| - from, 0
  {
    MatchFirst(s, pat, from, ps);
    var rest := ReplaceAll(s[from + |pat|..], pat, rep);
    var joinedRest := Joined(s, pat, rep, from + |pat|, ps[1..]);
    assert rest == joinedRest by {
      ReplaceAllIsJoined(s, pat, rep, from + |pat|, ps[1..]);
    }
    assert ReplaceAll(s[from..], pat, rep) == rep + rest by {
      MatchReplace(s, pat, rep, from);
    }
    assert Joined(s, pat, rep, from, ps) == rep + joinedRest by {
      MatchJoined(s, pat, rep, from, ps);
    }
  }

  lemma {:induction false} ReplaceAllIsJoinedAtSkip(s: string, pat: string, rep: string, from: nat, ps: seq<nat>)
    requires pat != [] && from + |pat| <= |s| && LeftmostMatches(s, pat, from, ps)
    requires !OccursAt(s, pat, from)
    ensures ReplaceAll(s[from..], pat, rep) == Joined(s, pat, rep, from, ps)
    decreases |s| - from, 0
  {
    SkipCase(s, pat, rep, from, ps);
    ReplaceAllIsJoined(s, pat, rep, from + 1, ps);
  }

  /** Too little text is left for a match: the scan finds none. */
  lemma {:induction false} NoRoomNoMatch(s: string, pat: string, from: nat, ps: seq<nat>)
    requires pat != [] && from <= |s| && LeftmostMatches(s, pat, from, ps)
    requires |s| - from < |pat|
    ensures ps == []
  {
  }

  /** A match at `from` is the scan's first position. */
  lemma {:induction false} MatchFirst(s: string, pat: string, from: nat, ps: seq<nat>)
    requires pat != [] && from <= |s| && LeftmostMatches(s, pat, from, ps)
    requires OccursAt(s, pat, from)
    ensures ps != [] && ps[0] == from && LeftmostMatches(s, pat, from + |pat|, ps[1..])
  {
    assert ps != [];
    assert !(from < ps[0]);
  }

  lemma {:induction false} MatchReplace(s: string, pat: string, rep: string, from: nat)
    requires pat != [] && OccursAt(s, pat, from)
    ensures ReplaceAll(s[from..], pat, rep) == rep + ReplaceAll(s[from + |pat|..], pat, rep)
  {
    var t := s[from..];
    assert t[..|pat|] == s[from..from + |pat|];
    assert t[|pat|..] == s[from + |pat|..];
  }

  lemma {:induction false} MatchJoined(s: string, pat: string, rep: string, from: nat, ps: seq<nat>)
    requires ps != [] && ps[0] == from && from + |pat| <= |s|
    ensures Joined(s, pat, rep, from, ps) == rep + Joined(s, pat, rep, from + |pat|, ps[1..])
  {
    assert s[from..ps[0]] == [];
  }

  /** Without a match at `from`, both sides keep its character and go on
      from the next one. */
  lemma {:induction false} SkipCase(s: string, pat: string, rep: string, from: nat, ps: seq<nat>)
    requires pat != [] && from + |pat| <= |s| && LeftmostMatches(s, pat, from, ps)
    requires !OccursAt(s, pat, from)
    ensures LeftmostMatches(s, pat, from + 1, ps)
    ensures ReplaceAll(s[from..], pat, rep) == [s[from]] + ReplaceAll(s[from + 1..], pat, rep)
    ensures Joined(s, pat, rep, from, ps) == [s[from]] + Joined(s, pat, rep, from + 1, ps)
  {
    SkipLeftmost(s, pat, from, ps);
    SkipReplace(s, pat, rep, from);
    SkipJoined(s, pat, rep, from, ps);
  }

  lemma {:induction false} SkipLeftmost(s: string, pat: string, from: nat, ps: seq<nat>)
    requires pat != [] && from + |pat| <= |s| && LeftmostMatches(s, pat, from, ps)
    requires !OccursAt(s, pat, from)
    ensures LeftmostMatches(s, pat, from + 1, ps)
  {
  }

  lemma {:induction false} SkipJoined(s: string, pat: string, rep: string, from: nat, ps: seq<nat>)
    requires from < |s| && (ps == [] || from < ps[0])
    ensures Joined(s, pat, rep, from, ps) == [s[from]] + Joined(s, pat, rep, from + 1, ps)
  {
    if ps == [] || ps[0] + |pat| > |s| {
      assert s[from..] == [s[from]] + s[from + 1..];
    } else {
      assert s[from..ps[0]] == [s[from]] + s[from + 1..ps[0]];
    }
  }

  lemma {:induction false} SkipReplace(s: string, pat: string, rep: string, from: nat)
    requires pat != [] && from + |pat| <= |s| && !OccursAt(s, pat, from)
    ensures ReplaceAll(s[from..], pat, rep) == [s[from]] + ReplaceAll(s[from + 1..], pat, rep)
  {
    var t := s[from..];
    assert t[..|pat|] == s[from..from + |pat|];
    assert t[1..] == s[from + 1..];
  }

  /** `s.replace(pat, rep)`: there is exactly one list of leftmost,
      non-overlapping occurrences of `pat`, and the result is the text
      between them joined by `rep`. */
  lemma {:induction false} ReplaceAllCharacterised(s: string, pat: string, rep: string)
    requires pat != []
    ensures exists ps :: LeftmostMatches(s, pat, 0, ps)
    ensures forall ps, qs | LeftmostMatches(s, pat, 0, ps) && LeftmostMatches(s, pat, 0, qs) :: ps == qs
    ensures forall ps | LeftmostMatches(s, pat, 0, ps) :: ReplaceAll(s, pat, rep) == Joined(s, pat, rep, 0, ps)
  {
    LeftmostMatchesExist(s, pat, 0);
    forall ps, qs | LeftmostMatches(s, pat, 0, ps) && LeftmostMatches(s, pat, 0, qs) ensures ps == qs {
      LeftmostMatchesUnique(s, pat, 0, ps, qs);
    }
    forall ps | LeftmostMatches(s, pat, 0, ps) ensures ReplaceAll(s, pat, rep) == Joined(s, pat, rep, 0, ps) {
      ReplaceAllIsJoined(s, pat, rep, 0, ps);
      assert s[0..] == s;
    }
  }

  /** Every character of the result comes from the input or from `rep`. */
  lemma {:induction false} ReplaceAllChars(s: string, pat: string, rep: string)
    requires pat != []
    ensures forall c :: c in ReplaceAll(s, pat, rep) ==> c in s || c in rep
    decreases |s|
  {
    if |s| < |pat| {
    } else if s[..|pat|] == pat {
      ReplaceAllChars(s[|pat|..], pat, rep);
    } else {
      ReplaceAllChars(s[1..], pat, rep);
    }
  }

  /** Replacing a character by text that does not contain it removes it. */
  lemma {:induction false} ReplaceCharRemoves(s: string, c: char, rep: string)
    requires c !in rep
    ensures c !in ReplaceAll(s, [c], rep)
    decreases |s|
  {
    if |s| < 1 {
    } else if s[..1] == [c] {
      ReplaceCharRemoves(s[1..], c, rep);
    } else {
      ReplaceCharRemoves(s[1..], c, rep);
    }
  }

  /** A replacement no longer than the pattern never lengthens the text. */
  lemma {:induction false} ReplaceAllShorter(s: string, pat: string, rep: string)
    requires pat != [] && |rep| <= |pat|
    ensures |ReplaceAll(s, pat, rep)| <= |s|
    decreases |s|
  {
    if |s| < |pat| {
    } else if s[..|pat|] == pat {
      ReplaceAllShorter(s[|pat|..], pat, rep);
    } else {
      ReplaceAllShorter(s[1..], pat, rep);
    }
  }

  /** Deleting `" ,"`-style pairs: replacing `[a, b]` by `[b]` in a text
      with no two adjacent `a`s leaves no `[a, b]` and no two adjacent `a`s. */
  lemma {:induction false} ReplacePairKeepsNoPair(s: string, a: char, b: char)
    requires a != b
    requires NoPair(s, a, a)
    ensures var r := ReplaceAll(s, [a, b], [b]);
      NoPair(r, a, a) && NoPair(r, a, b)
      && (r == [] <==> s == [])
      && (r != [] ==> r[0] == s[0] || (r[0] == b && s[0] == a))
    decreases |s|
  {
    var pat := [a, b];
    var r := ReplaceAll(s, pat, [b]);
    if |s| < 2 {
    } else if s[..2] == pat {
      var t := s[2..];
      assert NoPair(t, a, a) by {
        forall i | 0 <= i < |t| - 1 ensures !(t[i] == a && t[i + 1] == a) {
          assert t[i] == s[i + 2] && t[i + 1] == s[i + 3];
        }
      }
      ReplacePairKeepsNoPair(t, a, b);
      assert r == [b] + ReplaceAll(t, pat, [b]);
    } else {
      var t := s[1..];
      assert NoPair(t, a, a) by {
        forall i | 0 <= i < |t| - 1 ensures !(t[i] == a && t[i + 1] == a) {
          assert t[i] == s[i + 1] && t[i + 1] == s[i + 2];
        }
      }
      ReplacePairKeepsNoPair(t, a, b);
      var rt := ReplaceAll(t, pat, [b]);
      assert r == [s[0]] + rt;
      assert rt != [];
      if s[0] == a {
        assert t[0] == s[1];
        assert s[1] != a && s[1] != b;
        assert rt[0] == t[0];
      }
    }
  }

  /** Text without the characters of `cs`, in order. */
  function Without(s: string, cs: seq<char>): (r: string)
    ensures |r| <= |s|
    ensures forall c :: c in r <==> c in s && c !in cs
  {
    if s == [] then []
    else Without(s[..|s| - 1], cs) + (if s[|s| - 1] in cs then [] else [s[|s| - 1]])
  }

  lemma {:induction false} WithoutAppend(s: string, t: string, cs: seq<char>)
    ensures Without(s + t, cs) == Without(s, cs) + Without(t, cs)
    decreases |t|
  {
    if t == [] {
      assert s + t == s;
    } else {
      var n := |t| - 1;
      assert (s + t)[..|s + t| - 1] == s + t[..n];
      WithoutAppend(s, t[..n], cs);
    }
  }

  /** Deleting every occurrence of one character is a filter. */
  lemma {:induction false} ReplaceCharIsWithout(s: string, c: char)
    ensures ReplaceAll(s, [c], "") == Without(s, [c])
    decreases |s|
  {
    if s != [] {
      var t := s[1..];
      var head := if s[0] == c then "" else [s[0]];
      ReplaceCharIsWithout(t, c);
      assert ReplaceAll(s, [c], "") == head + ReplaceAll(t, [c], "") by {
        assert s[..1] == [s[0]];
      }
      assert s == [s[0]] + t;
      WithoutAppend([s[0]], t, [c]);
      assert Without([s[0]], [c]) == head by {
        assert [s[0]][..0] == [];
        assert Without([s[0]][..0], [c]) == [];
      }
    }
  }

  /** Removing `cs` and then `c` removes `cs + [c]`. */
  lemma {:induction false} WithoutThenWithout(s: string, cs: seq<char>, c: char)
    ensures Without(Without(s, cs), [c]) == Without(s, cs + [c])
    decreases |s|
  {
    if s != [] {
      var n := |s| - 1;
      WithoutThenWithout(s[..n], cs, c);
      var last := if s[n] in cs then [] else [s[n]];
      WithoutAppend(Without(s[..n], cs), last, [c]);
      if last != [] {
        assert Without(last, [c]) == (if s[n] == c then [] else last) by {
          assert last[..0] == [];
        }
      }
    }
  }

  /** Removing characters that do not occur changes nothing. */
  lemma {:induction false} WithoutAbsent(s: string, cs: seq<char>)
    requires forall c :: c in cs ==> c !in s
    ensures Without(s, cs) == s
    decreases |s|
  {
    if s != [] {
      var n := |s| - 1;
      assert s == s[..n] + [s[n]];
      WithoutAbsent(s[..n], cs);
    }
  }

  /** Deleting a character only when present is still a filter. */
  lemma ReplaceIfPresent(r: string, p: char)
    ensures (if p in r then ReplaceAll(r, [p], "") else r) == Without(r, [p])
  {
    if p in r {
      ReplaceCharIsWithout(r, p);
    } else {
      WithoutAbsent(r, [p]);
    }
  }

  /** One turn of a loop that deletes, for each character of `cs` in turn,
      every occurrence of it when present. */
  lemma WithoutStep(text: string, cs: seq<char>, i: nat, r: string)
    requires i < |cs| && r == Without(text, cs[..i])
    ensures (if cs[i] in r then ReplaceAll(r, [cs[i]], "") else r) == Without(text, cs[..i + 1])
  {
    ReplaceIfPresent(r, cs[i]);
    WithoutThenWithout(text, cs[..i], cs[i]);
    assert cs[..i] + [cs[i]] == cs[..i + 1];
  }

  lemma WithoutIdempotent(s: string, cs: seq<char>)
    ensures Without(Without(s, cs), cs) == Without(s, cs)
  {
    WithoutAbsent(Without(s, cs), cs);
  }

  // -------------------------------------------------------- runs (re.sub)

  /** Length of the longest prefix of `s` whose characters satisfy `p`. */
  function RunLength(s: string, p: char -> bool): (k: nat)
    ensures k <= |s|
    ensures forall i | 0 <= i < k :: p(s[i])
    ensures k < |s| ==> !p(s[k])
  {
    if s == [] || !p(s[0]) then 0 else 1 + RunLength(s[1..], p)
  }

  /** `re.sub(X+, " ", s)` (with `minRun == 1`) or `re.sub(X{2,}, " ", s)`
      (with `minRun == 2`) for a character class `p`: every maximal run of
      `p`-characters at least `minRun` long becomes one space, and shorter
      runs are kept. */
  function CollapseRuns(s: string, p: char -> bool, minRun: nat): string
    requires minRun >= 1
    decreases |s|
  {
    if s == [] then []
    else if !p(s[0]) then [s[0]] + CollapseRuns(s[1..], p, minRun)
    else
      var k := RunLength(s, p);
      (if k >= minRun then " " else s[..k]) + CollapseRuns(s[k..], p, minRun)
  }

  /** Every character of the result is from the input or is the space. */
  lemma {:induction false} CollapseRunsChars(s: string, p: char -> bool, minRun: nat)
    requires minRun >= 1
    ensures forall c :: c in CollapseRuns(s, p, minRun) ==> c in s || c == ' '
    ensures minRun == 1 ==> forall c :: c in CollapseRuns(s, p, minRun) ==> !p(c) || c == ' '
    decreases |s|
  {
    if s != [] {
      if !p(s[0]) {
        CollapseRunsChars(s[1..], p, minRun);
      } else {
        var k := RunLength(s, p);
        CollapseRunsChars(s[k..], p, minRun);
        assert forall c :: c in s[..k] ==> c in s;
        assert forall c :: c in s[k..] ==> c in s;
      }
    }
  }

  lemma {:induction false} CollapseRunsShorter(s: string, p: char -> bool, minRun: nat)
    requires minRun >= 1
    ensures |CollapseRuns(s, p, minRun)| <= |s|
    decreases |s|
  {
    if s != [] {
      if !p(s[0]) {
        CollapseRunsShorter(s[1..], p, minRun);
      } else {
        CollapseRunsShorter(s[RunLength(s, p)..], p, minRun);
      }
    }
  }

  /** When the space is itself in the class and runs of two or more are
      collapsed, no two adjacent class characters remain. */
  lemma {:induction false} CollapseRunsNoAdjacent(s: string, p: char -> bool, minRun: nat)
    requires 1 <= minRun <= 2 && p(' ')
    ensures NoAdjacent(CollapseRuns(s, p, minRun), p)
    ensures s != [] && !p(s[0]) ==> CollapseRuns(s, p, minRun)[0] == s[0]
    ensures CollapseRuns(s, p, minRun) == [] <==> s == []
    decreases |s|
  {
    var r := CollapseRuns(s, p, minRun);
    if s != [] {
      if !p(s[0]) {
        CollapseRunsNoAdjacent(s[1..], p, minRun);
        var t := CollapseRuns(s[1..], p, minRun);
        assert r == [s[0]] + t;
        forall i | 0 <= i < |r| - 1 ensures !(p(r[i]) && p(r[i + 1])) {
          if i > 0 {
            assert r[i] == t[i - 1] && r[i + 1] == t[i];
          }
        }
      } else {
        var k := RunLength(s, p);
        CollapseRunsNoAdjacent(s[k..], p, minRun);
        var t := CollapseRuns(s[k..], p, minRun);
        var head := if k >= minRun then " " else s[..k];
        assert |head| == 1;
        assert r == head + t;
        forall i | 0 <= i < |r| - 1 ensures !(p(r[i]) && p(r[i + 1])) {
          if i == 0 {
            assert r[1] == t[0] == s[k];
          } else {
            assert r[i] == t[i - 1] && r[i + 1] == t[i];
          }
        }
      }
    }
  }

  // ---------------------------------------------------------------- split

  /** Python `s.split()`: the maximal runs of non-whitespace characters. */
  function Words(s: string): seq<string>
    decreases |s|
  {
    if s == [] then []
    else if IsSpace(s[0]) then Words(s[1..])
    else
      var k := RunLength(s, NonSpace);
      [s[..k]] + Words(s[k..])
  }

  /** Every word is non-empty and holds no whitespace. */
  lemma {:induction false} WordsAreTokens(s: string)
    ensures forall w | w in Words(s) :: w != [] && forall i | 0 <= i < |w| :: NonSpace(w[i])
    decreases |s|
  {
    if s != [] {
      if IsSpace(s[0]) {
        WordsAreTokens(s[1..]);
      } else {
        WordsAreTokens(s[RunLength(s, NonSpace)..]);
      }
    }
  }

  lemma {:induction false} RunLengthPrefix(s: string, j: nat, p: char -> bool)
    requires j <= |s|
    ensures RunLength(s[..j], p) == if RunLength(s, p) <= j then RunLength(s, p) else j
    decreases j
  {
    if j > 0 && p(s[0]) {
      assert s[..j][1..] == s[1..][..j - 1];
      RunLengthPrefix(s[1..], j - 1, p);
    }
  }

  /** Dropping the first character never adds a word. */
  lemma WordsTail(s: string)
    requires s != []
    ensures |Words(s[1..])| <= |Words(s)|
  {
    if !IsSpace(s[0]) {
      var k := RunLength(s, NonSpace);
      if k > 1 {
        assert RunLength(s[1..], NonSpace) == k - 1;
        assert s[1..][k - 1..] == s[k..];
      } else {
        assert s[1..] == s[k..];
      }
    }
  }

  /** A suffix of a text has no more words than the text. */
  lemma {:induction false} WordsSuffix(s: string, i: nat)
    requires i <= |s|
    ensures |Words(s[i..])| <= |Words(s)|
    decreases i
  {
    if i > 0 {
      WordsSuffix(s, i - 1);
      assert s[i..] == s[i - 1..][1..];
      WordsTail(s[i - 1..]);
    } else {
      assert s[0..] == s;
    }
  }

  /** A prefix of a text has no more words than the text. */
  lemma {:induction false} WordsPrefix(s: string, j: nat)
    requires j <= |s|
    ensures |Words(s[..j])| <= |Words(s)|
    decreases |s|
  {
    if j == 0 {
    } else if IsSpace(s[0]) {
      assert s[..j][1..] == s[1..][..j - 1];
      WordsPrefix(s[1..], j - 1);
    } else {
      var k := RunLength(s, NonSpace);
      var u := s[..j];
      RunLengthPrefix(s, j, NonSpace);
      assert u[0] == s[0];
      assert Words(s) == [s[..k]] + Words(s[k..]);
      if j > k {
        assert Words(u) == [u[..k]] + Words(u[k..]);
        assert u[k..] == s[k..][..j - k];
        WordsPrefix(s[k..], j - k);
      } else {
        assert Words(u) == [u[..j]] + Words(u[j..]);
        assert u[j..] == [];
      }
    }
  }

  // ----------------------------------------------------------- splitlines

  /** Python `s.splitlines()`: the text between line boundaries, where
      `"\r\n"` is one boundary and a final boundary opens no empty line. */
  function Lines(s: string): (ls: seq<string>)
    ensures forall l | l in ls :: forall i | 0 <= i < |l| :: NotLineBreak(l[i])
    decreases |s|
  {
    if s == [] then []
    else
      var k := RunLength(s, NotLineBreak);
      if k == |s| then [s]
      else
        var skip := if s[k] == '\r' && k + 1 < |s| && s[k + 1] == '\n' then 2 else 1;
        [s[..k]] + Lines(s[k + skip..])
  }

  /** Text made only of whitespace splits into lines made only of
      whitespace. */
  lemma {:induction false} LinesOfBlank(s: string)
    requires forall i | 0 <= i < |s| :: IsSpace(s[i])
    ensures forall l | l in Lines(s) :: forall i | 0 <= i < |l| :: IsSpace(l[i])
    decreases |s|
  {
    if s != [] {
      var k := RunLength(s, NotLineBreak);
      if k < |s| {
        var skip := if s[k] == '\r' && k + 1 < |s| && s[k + 1] == '\n' then 2 else 1;
        LinesOfBlank(s[k + skip..]);
      }
    }
  }
}
