/** The rule-based extractors and the normalisers applied to the parser's
    skill labels before they are compared with the extractors' output.
    The regular expressions for driving licences and languages are not
    modelled: each is a predicate "the pattern matches somewhere in the
    text". The short licence-code test `^[a-e][1-9]?e?$` is modelled
    exactly. */
module Extractors {
  import opened Maybe
  import opened Text

  const DriverLicense: string := "driver_license"

  // ------------------------------------------------------------ extractors

  /** `extract_driver_license(text)`: the one label when the licence
      pattern matches the lower-cased text, no label otherwise. */
  function ExtractDriverLicense(text: string, licensePattern: string -> bool): (r: set<string>)
    ensures r == {} || r == {DriverLicense}
    ensures DriverLicense in r <==> licensePattern(Lower(text))
  {
    if licensePattern(Lower(text)) then {DriverLicense} else {}
  }

  /** `extract_languages(text)`: the languages whose pattern matches the
      lower-cased text; `regexes` is the language-to-pattern table. */
  function ExtractLanguages(text: string, regexes: map<string, string -> bool>): (r: set<string>)
    ensures r <= regexes.Keys
    ensures forall lang | lang in regexes :: lang in r <==> regexes[lang](Lower(text))
  {
    set lang | lang in regexes && regexes[lang](Lower(text))
  }

  /** Both extractors lower-case first, so they do not see case. */
  lemma ExtractorsIgnoreCase(text: string, licensePattern: string -> bool, regexes: map<string, string -> bool>)
    ensures ExtractDriverLicense(Lower(text), licensePattern) == ExtractDriverLicense(text, licensePattern)
    ensures ExtractLanguages(Lower(text), regexes) == ExtractLanguages(text, regexes)
  {
    LowerOfNoUpper(Lower(text));
  }

  // --------------------------------------------------------- licence codes

  predicate IsCodeDigit(c: char)
  {
    '1' <= c <= '9'
  }

  /** `_driver_code.match(s)` for `^[a-e][1-9]?e?$`: a letter from `a` to
      `e`, then an optional digit from 1 to 9, then an optional `e`, and
      nothing else. The input is already stripped, so the `$` that would
      also match before a final newline sees none. */
  predicate IsDriverCode(s: string)
  {
    && 1 <= |s| <= 3
    && 'a' <= s[0] <= 'e'
    && (|s| == 2 ==> IsCodeDigit(s[1]) || s[1] == 'e')
    && (|s| == 3 ==> IsCodeDigit(s[1]) && s[2] == 'e')
  }

  /** The code with class letter `letter`, optional digit `digit` and
      optional `e` suffix. */
  function Code(letter: char, digit: Option<char>, e: bool): string
  {
    [letter] + (if digit.Some? then [digit.value] else []) + (if e then "e" else "")
  }

  /** The codes the regex accepts are exactly the ones built from its
      three parts. */
  lemma DriverCodeForms(s: string)
    ensures IsDriverCode(s) <==>
      exists letter: char, digit: Option<char>, e: bool :: 'a' <= letter <= 'e' && (digit.Some? ==> IsCodeDigit(digit.value))
                                 && s == Code(letter, digit, e)
  {
    if IsDriverCode(s) {
      if |s| == 1 {
        assert s == Code(s[0], None, false);
      } else if |s| == 2 && IsCodeDigit(s[1]) {
        assert s == Code(s[0], Some(s[1]), false);
      } else if |s| == 2 {
        assert s == Code(s[0], None, true);
      } else {
        assert s == Code(s[0], Some(s[1]), true);
      }
    }
  }

  /** The codes named beside the regex, and some strings it refuses. */
  lemma DriverCodeExamples()
    ensures IsDriverCode("b") && IsDriverCode("b1") && IsDriverCode("ce") && IsDriverCode("c1e")
    ensures !IsDriverCode("") && !IsDriverCode("f") && !IsDriverCode("b0") && !IsDriverCode("b10")
    ensures !IsDriverCode("bee") && !IsDriverCode("B") && !IsDriverCode(DriverLicense)
  {
  }

  // ---------------------------------------------------- licence normaliser

  /** `norm_driver_license(skill)`: "" for a non-string, otherwise the
      lower-cased, stripped label, or "driver_license" when that is a
      licence code or the licence pattern matches it. */
  function NormDriverLicense(skill: Option<string>, licensePattern: string -> bool): (r: string)
    ensures skill.None? ==> r == ""
    ensures skill.Some? ==>
      var key := Strip(Lower(skill.value));
      && (r == DriverLicense <==> IsDriverCode(key) || licensePattern(key) || key == DriverLicense)
      && (r != DriverLicense ==> r == key)
    ensures r == DriverLicense || NoUpper(r)
  {
    match skill
    case None => ""
    case Some(s) =>
      var key := Strip(Lower(s));
      StripNoUpper(Lower(s));
      if IsDriverCode(key) || licensePattern(key) then DriverLicense else key
  }

  /** A licence code in upper case maps to "driver_license", whatever
      the pattern. */
  lemma NormDriverLicenseCodes(licensePattern: string -> bool)
    ensures NormDriverLicense(Some("B"), licensePattern) == DriverLicense
    ensures NormDriverLicense(Some("CE"), licensePattern) == DriverLicense
  {
    assert Lower("B") == "b" by { assert LowerChar('B') == 'b'; }
    StripOfTrimmed("b");
    assert IsDriverCode(Strip(Lower("B")));
    assert Lower("CE") == "ce" by { assert LowerChar('C') == 'c' && LowerChar('E') == 'e'; }
    StripOfTrimmed("ce");
    assert IsDriverCode(Strip(Lower("CE")));
  }

  /** Surrounding whitespace is stripped before the code test. */
  lemma NormDriverLicenseStrips(licensePattern: string -> bool)
    ensures NormDriverLicense(Some(" b1\n"), licensePattern) == DriverLicense
  {
    assert Lower(" b1\n") == " b1\n";
    assert LeadingSpaces(" b1\n") == 1;
    assert " b1\n"[1..] == "b1\n";
    assert TrailingSpaces("b1\n") == 1;
    assert "b1\n"[..2] == "b1";
  }

  /** Normalising a normalised label changes nothing. */
  lemma NormDriverLicenseIdempotent(skill: Option<string>, licensePattern: string -> bool)
    requires skill.Some? || !licensePattern("")
    ensures NormDriverLicense(Some(NormDriverLicense(skill, licensePattern)), licensePattern)
         == NormDriverLicense(skill, licensePattern)
  {
    var r := NormDriverLicense(skill, licensePattern);
    if r == DriverLicense {
      assert NoUpper(DriverLicense);
      LowerOfNoUpper(DriverLicense);
      StripOfTrimmed(DriverLicense);
    } else if skill.None? {
      assert Strip(Lower("")) == "";
    } else {
      var key := Strip(Lower(skill.value));
      assert r == key;
      LowerOfNoUpper(key);
      StripIdempotent(Lower(skill.value));
    }
  }

  // ------------------------------------------------------------- languages

  /** `{variant.lower(): code for variant in variants}` added to `m`; a
      later variant overrides an earlier one with the same key. */
  function AddVariants(m: map<string, string>, code: string, variants: seq<string>): map<string, string>
    decreases |variants|
  {
    if variants == [] then m
    else AddVariants(m, code, variants[..|variants| - 1])[Lower(variants[|variants| - 1]) := code]
  }

  /** `_reverse_language_map`: for each `(code, variants)` entry of
      `LANGUAGE_VARIANTS`, in order, each lower-cased variant maps to the
      code; a later entry overrides an earlier one. */
  function ReverseLanguageMap(entries: seq<(string, seq<string>)>): map<string, string>
    decreases |entries|
  {
    if entries == [] then map[]
    else
      var n := |entries| - 1;
      AddVariants(ReverseLanguageMap(entries[..n]), entries[n].0, entries[n].1)
  }

  /** Some variant of the list lower-cases to `k`. */
  predicate NamesKey(variants: seq<string>, k: string)
  {
    exists j | 0 <= j < |variants| :: Lower(variants[j]) == k
  }

  lemma {:induction false} AddVariantsFacts(m: map<string, string>, code: string, variants: seq<string>)
    ensures var r := AddVariants(m, code, variants);
      && (forall k :: k in r <==> k in m || NamesKey(variants, k))
      && (forall k | k in r && NamesKey(variants, k) :: r[k] == code)
      && (forall k | k in r && !NamesKey(variants, k) :: r[k] == m[k])
    decreases |variants|
  {
    if variants != [] {
      var n := |variants| - 1;
      var front := variants[..n];
      AddVariantsFacts(m, code, front);
      forall k ensures NamesKey(variants, k) <==> NamesKey(front, k) || Lower(variants[n]) == k {
        if NamesKey(variants, k) {
          var j :| 0 <= j < |variants| && Lower(variants[j]) == k;
          if j < n {
            assert front[j] == variants[j];
          }
        }
        if NamesKey(front, k) {
          var j :| 0 <= j < |front| && Lower(front[j]) == k;
          assert variants[j] == front[j];
        }
      }
    }
  }

  /** The code of entry `i` names `k` among its variants. */
  predicate EntryNames(entries: seq<(string, seq<string>)>, i: int, k: string)
    requires 0 <= i < |entries|
  {
    NamesKey(entries[i].1, k)
  }

  /** The keys of the reverse map are exactly the lower-cased variants. */
  lemma {:induction false} ReverseLanguageMapKeys(entries: seq<(string, seq<string>)>)
    ensures var r := ReverseLanguageMap(entries);
      forall k :: k in r <==> exists i | 0 <= i < |entries| :: EntryNames(entries, i, k)
    decreases |entries|
  {
    if entries != [] {
      var n := |entries| - 1;
      var front := entries[..n];
      ReverseLanguageMapKeys(front);
      assert forall k :: k in ReverseLanguageMap(front) <==> exists i | 0 <= i < |front| :: EntryNames(front, i, k);
      AddVariantsFacts(ReverseLanguageMap(front), entries[n].0, entries[n].1);
      var r := ReverseLanguageMap(entries);
      forall k ensures k in r <==> exists i | 0 <= i < |entries| :: EntryNames(entries, i, k) {
        if exists i | 0 <= i < |entries| :: EntryNames(entries, i, k) {
          var i :| 0 <= i < |entries| && EntryNames(entries, i, k);
          if i < n {
            assert entries[i] == front[i];
            assert EntryNames(front, i, k);
          }
        }
        if k in ReverseLanguageMap(front) {
          assert exists i | 0 <= i < |front| :: EntryNames(front, i, k);
          var i :| 0 <= i < |front| && EntryNames(front, i, k);
          assert entries[i] == front[i];
          assert EntryNames(entries, i, k);
        }
        if NamesKey(entries[n].1, k) {
          assert EntryNames(entries, n, k);
        }
      }
    }
  }

  /** No entry after entry `i` lists `k`. */
  predicate LastNaming(entries: seq<(string, seq<string>)>, i: int, k: string)
    requires 0 <= i < |entries|
  {
    EntryNames(entries, i, k) && forall j | i < j < |entries| :: !EntryNames(entries, j, k)
  }

  /** Each key maps to the code of the last entry that lists it. */
  lemma {:induction false} ReverseLanguageMapLastWins(entries: seq<(string, seq<string>)>, i: nat, k: string)
    requires i < |entries| && LastNaming(entries, i, k)
    ensures k in ReverseLanguageMap(entries) && ReverseLanguageMap(entries)[k] == entries[i].0
    decreases |entries|
  {
    var n := |entries| - 1;
    var front := entries[..n];
    AddVariantsFacts(ReverseLanguageMap(front), entries[n].0, entries[n].1);
    if i < n {
      assert !EntryNames(entries, n, k);
      assert entries[i] == front[i];
      forall j | i < j < |front| ensures !EntryNames(front, j, k) {
        assert entries[j] == front[j];
        assert !EntryNames(entries, j, k);
      }
      ReverseLanguageMapLastWins(front, i, k);
    }
  }

  /** Every code in the reverse map is the code of an entry listing the
      key among its variants. */
  lemma {:induction false} ReverseLanguageMapValues(entries: seq<(string, seq<string>)>)
    ensures var r := ReverseLanguageMap(entries);
      forall k | k in r :: exists i | 0 <= i < |entries| :: entries[i].0 == r[k] && EntryNames(entries, i, k)
    decreases |entries|
  {
    if entries != [] {
      var n := |entries| - 1;
      var front := entries[..n];
      ReverseLanguageMapValues(front);
      AddVariantsFacts(ReverseLanguageMap(front), entries[n].0, entries[n].1);
      var r := ReverseLanguageMap(entries);
      forall k | k in r
        ensures exists i | 0 <= i < |entries| :: entries[i].0 == r[k] && EntryNames(entries, i, k)
      {
        if NamesKey(entries[n].1, k) {
          assert EntryNames(entries, n, k);
        } else {
          assert k in ReverseLanguageMap(front);
          var i :| 0 <= i < |front| && front[i].0 == ReverseLanguageMap(front)[k] && EntryNames(front, i, k);
          assert entries[i] == front[i];
        }
      }
    }
  }

  /** The code `norm_languages` returns for `skill`: the reverse-map code
      of the stripped, lower-cased text, or "" when there is none (or the
      code itself is the empty string, which is falsy). */
  function LanguageCode(reverseMap: map<string, string>, skill: Option<string>): string
  {
    match skill
    case None => ""
    case Some(s) =>
      var key := Lower(Strip(s));
      if key in reverseMap && reverseMap[key] != "" then reverseMap[key] else ""
  }

  /** What `norm_languages` adds to `_missing`: the stripped text, not
      lower-cased, of a string without a code. */
  function MissedText(reverseMap: map<string, string>, skill: Option<string>): set<string>
  {
    match skill
    case None => {}
    case Some(s) => if LanguageCode(reverseMap, skill) == "" then {Strip(s)} else {}
  }

  /** A language label is normalised to the code of an entry that lists
      it, ignoring case and surrounding whitespace; when the last entry
      listing it has a non-empty code, that is the code returned. */
  lemma LanguageCodeFacts(entries: seq<(string, seq<string>)>, skill: Option<string>)
    ensures var r := LanguageCode(ReverseLanguageMap(entries), skill);
      r != "" ==> skill.Some? && exists i | 0 <= i < |entries| ::
                    entries[i].0 == r && EntryNames(entries, i, Lower(Strip(skill.value)))
    ensures skill.Some? ==>
      forall i | 0 <= i < |entries| && LastNaming(entries, i, Lower(Strip(skill.value))) && entries[i].0 != ""
        :: LanguageCode(ReverseLanguageMap(entries), skill) == entries[i].0
  {
    ReverseLanguageMapValues(entries);
    if skill.Some? {
      forall i | 0 <= i < |entries| && LastNaming(entries, i, Lower(Strip(skill.value))) && entries[i].0 != ""
        ensures LanguageCode(ReverseLanguageMap(entries), skill) == entries[i].0
      {
        ReverseLanguageMapLastWins(entries, i, Lower(Strip(skill.value)));
      }
    }
  }

  /** Case and surrounding whitespace make no difference to the code. */
  lemma LanguageCodeIgnoresCase(reverseMap: map<string, string>, s: string)
    ensures LanguageCode(reverseMap, Some(Lower(s))) == LanguageCode(reverseMap, Some(s))
    ensures LanguageCode(reverseMap, Some(Strip(s))) == LanguageCode(reverseMap, Some(s))
  {
    LowerStripCommute(s);
    LowerOfNoUpper(Strip(Lower(s)));
    StripIdempotent(s);
  }

  /** `norm_languages` with its module-level `_missing` set: `reverseMap`
      is `_reverse_language_map`, built once. */
  class LanguageNormalizer {
    const reverseMap: map<string, string>
    var missing: set<string>

    constructor(entries: seq<(string, seq<string>)>)
      ensures reverseMap == ReverseLanguageMap(entries)
      ensures missing == {}
    {
      reverseMap := ReverseLanguageMap(entries);
      missing := {};
    }

    /** `norm_languages(skill)`: the code, or "" with the stripped text
        recorded as missing; a non-string leaves `_missing` alone. */
    method NormLanguages(skill: Option<string>) returns (r: string)
      modifies this
      ensures r == LanguageCode(reverseMap, skill)
      ensures missing == old(missing) + MissedText(reverseMap, skill)
      ensures skill.None? ==> r == "" && missing == old(missing)
      ensures skill.Some? && r == "" ==> Strip(skill.value) in missing
    {
      if skill.None? {
        return "";
      }
      var raw := Strip(skill.value);
      var key := Lower(raw);
      var code: Option<string> := if key in reverseMap then Some(reverseMap[key]) else None;
      if code.None? || code.value == "" {
        missing := missing + {raw};
      }
      r := if code.Some? && code.value != "" then code.value else "";
    }
  }
}
