/**
 * The string operations the cleaning script applies through pandas' `.str`
 * accessor: `strip()`, `lower()` and `replace(' ', '_')`, and the two
 * normalisations built from them (column headers and categorical cells).
 *
 * Whitespace is the ASCII part of Python's `str.isspace` (tab, line feed,
 * vertical tab, form feed, carriage return, the four separators 0x1C-0x1F
 * and the space); lower-casing is ASCII lower-casing.
 */
module Text {

  predicate IsWhitespace(c: char) {
    9 <= c as int <= 13 || 28 <= c as int <= 32
  }

  predicate IsUpper(c: char) {
    'A' <= c <= 'Z'
  }

  /** No whitespace at either end. */
  predicate IsStripped(s: string) {
    s == [] || (!IsWhitespace(s[0]) && !IsWhitespace(s[|s| - 1]))
  }

  predicate IsLowerCase(s: string) {
    forall i :: 0 <= i < |s| ==> !IsUpper(s[i])
  }

  predicate AllWhitespace(s: string) {
    forall i :: 0 <= i < |s| ==> IsWhitespace(s[i])
  }

  /** `r` is what `str.strip()` leaves of `s`: a slice of `s` without
      whitespace at its ends, everything cut off on both sides being whitespace. */
  ghost predicate IsStripOf(r: string, s: string) {
    IsStripped(r) &&
    exists i, j :: 0 <= i <= j <= |s| && r == s[i..j] && AllWhitespace(s[..i]) && AllWhitespace(s[j..])
  }

  function TrimStart(s: string): (r: string)
    ensures |r| <= |s| && r == s[|s| - |r|..]
    ensures AllWhitespace(s[..|s| - |r|])
    ensures r == [] || !IsWhitespace(r[0])
  {
    if s != [] && IsWhitespace(s[0]) then
      var r := TrimStart(s[1..]);
      assert s[1..][..|s| - 1 - |r|] == s[1..|s| - |r|];
      r
    else
      s
  }

  function TrimEnd(s: string): (r: string)
    ensures |r| <= |s| && r == s[..|r|]
    ensures AllWhitespace(s[|r|..])
    ensures r == [] || !IsWhitespace(r[|r| - 1])
  {
    if s != [] && IsWhitespace(s[|s| - 1]) then
      var r := TrimEnd(s[..|s| - 1]);
      assert s[|r|..] == s[..|s| - 1][|r|..] + [s[|s| - 1]];
      r
    else
      s
  }

  /** A string without whitespace at its ends is left alone by trimming. */
  lemma TrimStripped(s: string)
    requires IsStripped(s)
    ensures TrimStart(s) == s && TrimEnd(s) == s
  {
  }

  /** A slice of `s` without whitespace at its ends, cut out of whitespace
      on both sides, is what `str.strip()` leaves of `s`. */
  lemma StripOfSlice(s: string, i: nat, j: nat)
    requires i <= j <= |s| && IsStripped(s[i..j])
    requires AllWhitespace(s[..i]) && AllWhitespace(s[j..])
    ensures IsStripOf(s[i..j], s)
  {
  }

  /** Cutting leading whitespace off `s` to give `t`, then trailing whitespace
      off `t` to give `r`, leaves in `r` what `str.strip()` leaves of `s`. */
  lemma TrimmedTwice(s: string, t: string, r: string)
    requires |t| <= |s| && t == s[|s| - |t|..] && AllWhitespace(s[..|s| - |t|])
    requires t == [] || !IsWhitespace(t[0])
    requires |r| <= |t| && r == t[..|r|] && AllWhitespace(t[|r|..])
    requires r == [] || !IsWhitespace(r[|r| - 1])
    ensures IsStripOf(r, s)
  {
    var i := |s| - |t|;
    var j := i + |r|;
    assert r == s[i..j] by {
      assert s[i..][..|r|] == s[i..j];
    }
    assert s[j..] == t[|r|..] by {
      assert s[i..][|r|..] == s[j..];
    }
    if r != [] {
      assert r[0] == t[0];
    }
    StripOfSlice(s, i, j);
  }

  /** Trimming the front and then the back of `s` leaves what
      `str.strip()` leaves. */
  lemma TrimBoth(s: string)
    ensures IsStripOf(TrimEnd(TrimStart(s)), s)
  {
    TrimmedTwice(s, TrimStart(s), TrimEnd(TrimStart(s)));
  }

  /** Python's `str.strip()` with no argument. */
  function Strip(s: string): (r: string)
    ensures IsStripOf(r, s)
    ensures IsStripped(s) ==> r == s
  {
    TrimBoth(s);
    assert IsStripped(s) ==> TrimEnd(TrimStart(s)) == s by {
      if IsStripped(s) {
        TrimStripped(s);
      }
    }
    TrimEnd(TrimStart(s))
  }

  function LowerChar(c: char): (d: char)
    ensures !IsUpper(d)
    ensures IsWhitespace(d) <==> IsWhitespace(c)
    ensures !IsUpper(c) ==> d == c
    ensures IsUpper(c) ==> d as int == c as int + 32
  {
    if IsUpper(c) then (c as int + 32) as char else c
  }

  /** Python's `str.lower()` on ASCII letters. */
  function Lower(s: string): (r: string)
    ensures |r| == |s| && IsLowerCase(r)
    ensures forall i :: 0 <= i < |s| ==> (IsWhitespace(r[i]) <==> IsWhitespace(s[i]))
    ensures forall i :: 0 <= i < |s| && !IsUpper(s[i]) ==> r[i] == s[i]
    ensures forall i :: 0 <= i < |s| && IsUpper(s[i]) ==> r[i] as int == s[i] as int + 32
    ensures IsLowerCase(s) ==> r == s
  {
    seq(|s|, i requires 0 <= i < |s| => LowerChar(s[i]))
  }

  /** `str.replace(' ', '_')`: every space becomes an underscore. */
  function ReplaceSpaces(s: string): (r: string)
    ensures |r| == |s| && ' ' !in r
    ensures forall i :: 0 <= i < |s| && s[i] != ' ' ==> r[i] == s[i]
    ensures forall i :: 0 <= i < |s| && s[i] == ' ' ==> r[i] == '_'
    ensures ' ' !in s ==> r == s
  {
    seq(|s|, i requires 0 <= i < |s| => if s[i] == ' ' then '_' else s[i])
  }

  /** Lower-casing keeps a stripped string stripped. */
  lemma LowerKeepsStripped(s: string)
    requires IsStripped(s)
    ensures IsStripped(Lower(s))
  {
    if s != [] {
      assert IsWhitespace(Lower(s)[0]) <==> IsWhitespace(s[0]);
      assert IsWhitespace(Lower(s)[|s| - 1]) <==> IsWhitespace(s[|s| - 1]);
    }
  }

  /** Replacing spaces keeps a stripped lower-case string stripped and
      lower-case. */
  lemma ReplaceSpacesKeeps(s: string)
    requires IsStripped(s) && IsLowerCase(s)
    ensures IsStripped(ReplaceSpaces(s)) && IsLowerCase(ReplaceSpaces(s))
  {
    var r := ReplaceSpaces(s);
    if s != [] {
      assert r[0] == s[0] && r[|r| - 1] == s[|s| - 1];
    }
    forall i | 0 <= i < |r|
      ensures !IsUpper(r[i])
    {
      if s[i] != ' ' {
        assert r[i] == s[i];
      }
    }
  }

  /** A column header as marine.py line 11 rewrites it:
      `.str.strip().str.lower().str.replace(' ', '_')`. */
  function NormalizeName(h: string): (r: string)
    ensures ' ' !in r && IsStripped(r) && IsLowerCase(r)
  {
    var l := Lower(Strip(h));
    LowerKeepsStripped(Strip(h));
    ReplaceSpacesKeeps(l);
    ReplaceSpaces(l)
  }

  /** Every header of a column index, in order. */
  function NormalizeNames(hs: seq<string>): (rs: seq<string>)
    ensures |rs| == |hs|
    ensures forall k :: 0 <= k < |hs| ==> rs[k] == NormalizeName(hs[k])
  {
    seq(|hs|, k requires 0 <= k < |hs| => NormalizeName(hs[k]))
  }

  /** A categorical cell as marine.py line 25 rewrites it: `.str.strip().str.lower()`. */
  function NormalizeText(s: string): (r: string)
    ensures IsStripped(r) && IsLowerCase(r)
  {
    LowerKeepsStripped(Strip(s));
    Lower(Strip(s))
  }

  /** What a witness of `IsStripOf` says position by position. */
  lemma StripWitness(r: string, s: string, i: nat, j: nat)
    requires IsStripped(r) && i <= j <= |s| && r == s[i..j]
    requires AllWhitespace(s[..i]) && AllWhitespace(s[j..])
    ensures forall k :: 0 <= k < i || j <= k < |s| ==> IsWhitespace(s[k])
    ensures r != [] ==> !IsWhitespace(s[i]) && !IsWhitespace(s[j - 1])
  {
    forall k | 0 <= k < i || j <= k < |s|
      ensures IsWhitespace(s[k])
    {
      if k < i { assert s[..i][k] == s[k]; } else { assert s[j..][k - j] == s[k]; }
    }
  }

  /** Two stripped results of the same string are the same string: `IsStripOf`
      is a definition of `str.strip()` independent of the trimming functions. */
  lemma StripOfUnique(r1: string, r2: string, s: string)
    requires IsStripOf(r1, s) && IsStripOf(r2, s)
    ensures r1 == r2
  {
    var i1, j1 :| 0 <= i1 <= j1 <= |s| && r1 == s[i1..j1] && AllWhitespace(s[..i1]) && AllWhitespace(s[j1..]);
    var i2, j2 :| 0 <= i2 <= j2 <= |s| && r2 == s[i2..j2] && AllWhitespace(s[..i2]) && AllWhitespace(s[j2..]);
    StripWitness(r1, s, i1, j1);
    StripWitness(r2, s, i2, j2);
    if r1 != [] && r2 != [] {
      assert i1 == i2 && j1 == j2;
    }
  }

  /** A header that is already stripped, lower case and free of spaces is left as it is. */
  lemma NormalizeNameFixes(h: string)
    requires ' ' !in h && IsStripped(h) && IsLowerCase(h)
    ensures NormalizeName(h) == h
  {
  }

  /** Line 11 is idempotent: normalising an already normalised header changes nothing. */
  lemma NormalizeNameIdempotent(h: string)
    ensures NormalizeName(NormalizeName(h)) == NormalizeName(h)
  {
  }

  /** Line 25 is idempotent on every cell. */
  lemma NormalizeTextIdempotent(s: string)
    ensures NormalizeText(NormalizeText(s)) == NormalizeText(s)
  {
  }

  /** Two strings of one length whose letters agree once lower-cased. */
  predicate SameUpToCase(a: string, b: string) {
    |a| == |b| && forall i :: 0 <= i < |a| ==> LowerChar(a[i]) == LowerChar(b[i])
  }

  /** Line 25 maps two cells to the same text exactly when, once stripped,
      they differ only in letter case. */
  lemma NormalizeTextSameUpToCase(s: string, t: string)
    ensures NormalizeText(s) == NormalizeText(t) <==> SameUpToCase(Strip(s), Strip(t))
  {
    var a, b := Strip(s), Strip(t);
    if Lower(a) == Lower(b) {
      forall i | 0 <= i < |a|
        ensures LowerChar(a[i]) == LowerChar(b[i])
      {
        assert Lower(a)[i] == LowerChar(a[i]) && Lower(b)[i] == LowerChar(b[i]);
      }
    }
  }

  /** "Fishing " and "fishing" agree up to case once stripped, so they
      normalise to the same text, "fishing". */
  lemma NormalizeTextCollapsesVariants()
    ensures SameUpToCase(Strip("Fishing "), Strip("fishing"))
    ensures NormalizeText("Fishing ") == NormalizeText("fishing") == "fishing"
  {
    assert TrimStart("Fishing ") == "Fishing ";
    assert TrimEnd("Fishing ") == TrimEnd("Fishing");
    assert TrimEnd("Fishing") == "Fishing";
    assert Lower("Fishing") == "fishing";
    NormalizeTextSameUpToCase("Fishing ", "fishing");
  }
}
