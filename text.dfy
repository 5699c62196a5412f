/**
 * Python string helpers used by the importer: `str.strip()` with no argument,
 * `str.capitalize()`, and the truthiness of optional values (`x or y or z`).
 */
module Text {

  /** Python's `str.isspace()` characters, which `str.strip()` removes from both ends. */
  predicate IsSpace(c: char)
  {
    c == ' ' || ('\t' <= c <= '\r') || ('\U{1C}' <= c <= '\U{1F}') || c == '\U{85}' || c == '\U{A0}'
    || c == '\U{1680}' || ('\U{2000}' <= c <= '\U{200A}') || c == '\U{2028}' || c == '\U{2029}'
    || c == '\U{202F}' || c == '\U{205F}' || c == '\U{3000}'
  }

  /** The ASCII decimal digits: `\d` of Python's `re`, restricted to ASCII. */
  predicate IsDigit(c: char)
  {
    '0' <= c <= '9'
  }

  /** Upper-case letters whose lower-case partner is at a fixed offset: Latin A-Z and Cyrillic U+0400-U+042F. */
  predicate IsUpperLetter(c: char)
  {
    ('A' <= c <= 'Z') || ('А' <= c <= 'Я') || ('Ѐ' <= c <= 'Џ')
  }

  predicate IsLowerLetter(c: char)
  {
    ('a' <= c <= 'z') || ('а' <= c <= 'я') || ('ѐ' <= c <= 'џ')
  }

  function ToUpper(c: char): (u: char)
    ensures IsLowerLetter(c) ==> IsUpperLetter(u)
    ensures !IsLowerLetter(c) ==> u == c
  {
    if 'a' <= c <= 'z' then (c as int - 32) as char
    else if 'а' <= c <= 'я' then (c as int - 32) as char
    else if 'ѐ' <= c <= 'џ' then (c as int - 80) as char
    else c
  }

  function ToLower(c: char): (l: char)
    ensures IsUpperLetter(c) ==> IsLowerLetter(l)
    ensures !IsUpperLetter(c) ==> l == c
  {
    if 'A' <= c <= 'Z' then (c as int + 32) as char
    else if 'А' <= c <= 'Я' then (c as int + 32) as char
    else if 'Ѐ' <= c <= 'Џ' then (c as int + 80) as char
    else c
  }

  function LowerAll(s: string): (r: string)
    ensures |r| == |s|
    ensures forall i :: 0 <= i < |s| ==> r[i] == ToLower(s[i])
  {
    if s == [] then [] else [ToLower(s[0])] + LowerAll(s[1..])
  }

  /** Python's `str.capitalize()`: the first character in upper case, the rest in lower case. */
  function Capitalize(s: string): (r: string)
    ensures |r| == |s|
    ensures s != [] ==> r[0] == ToUpper(s[0])
    ensures forall i :: 0 < i < |s| ==> r[i] == ToLower(s[i])
  {
    if s == [] then [] else [ToUpper(s[0])] + LowerAll(s[1..])
  }

  /** Python's `str.lstrip()`. */
  function StripLeft(s: string): (r: string)
    ensures |r| <= |s| && r == s[|s| - |r|..]
    ensures forall i :: 0 <= i < |s| - |r| ==> IsSpace(s[i])
    ensures r != [] ==> !IsSpace(r[0])
  {
    if s != [] && IsSpace(s[0]) then StripLeft(s[1..]) else s
  }

  /** Python's `str.rstrip()`. */
  function StripRight(s: string): (r: string)
    ensures |r| <= |s| && r == s[..|r|]
    ensures forall i :: |r| <= i < |s| ==> IsSpace(s[i])
    ensures r != [] ==> !IsSpace(r[|r| - 1])
  {
    if s != [] && IsSpace(s[|s| - 1]) then StripRight(s[..|s| - 1]) else s
  }

  /** Python's `str.strip()`: the infix left after removing whitespace from both ends. */
  function Strip(s: string): (r: string)
  {
    StripRight(StripLeft(s))
  }

  /** The stripped infix starts where the leading whitespace ends. */
  lemma StripSlice(s: string)
    ensures var i := |s| - |StripLeft(s)|;
      0 <= i <= i + |Strip(s)| <= |s| && Strip(s) == s[i..i + |Strip(s)|]
  {
    var l := StripLeft(s);
    SliceOfSuffix(s, |s| - |l|, |StripRight(l)|);
  }

  lemma SliceOfSuffix(s: string, i: nat, n: nat)
    requires i + n <= |s|
    ensures s[i..][..n] == s[i..i + n]
  {
  }

  /** Everything after the stripped infix is whitespace. */
  lemma StripTail(s: string)
    ensures var j := |s| - |StripLeft(s)| + |Strip(s)|;
      forall k :: j <= k < |s| ==> IsSpace(s[k])
  {
    var l := StripLeft(s);
    var i := |s| - |l|;
    var j := i + |StripRight(l)|;
    forall k | j <= k < |s|
      ensures IsSpace(s[k])
    {
      assert s[k] == l[k - i];
    }
  }

  /** `Strip` removes exactly the leading and trailing whitespace and nothing in between. */
  lemma StripIsTrimmedInfix(s: string)
    ensures exists i, j ::
      && 0 <= i <= j <= |s| && Strip(s) == s[i..j]
      && (forall k :: 0 <= k < i ==> IsSpace(s[k]))
      && (forall k :: j <= k < |s| ==> IsSpace(s[k]))
    ensures Trimmed(Strip(s))
    ensures Strip(s) == [] <==> forall k :: 0 <= k < |s| ==> IsSpace(s[k])
  {
    StripBounds(s);
    StripTrimmed(s);
    StripEmpty(s);
  }

  /** The witnesses of `StripIsTrimmedInfix`: the infix runs from the first to the last non-space character. */
  lemma StripBounds(s: string)
    ensures var i := |s| - |StripLeft(s)|;
      var j := i + |Strip(s)|;
      && 0 <= i <= j <= |s| && Strip(s) == s[i..j]
      && (forall k :: 0 <= k < i ==> IsSpace(s[k]))
      && (forall k :: j <= k < |s| ==> IsSpace(s[k]))
  {
    StripSlice(s);
    StripTail(s);
  }

  /** The stripped string has no whitespace at either end. */
  lemma StripTrimmed(s: string)
    ensures Trimmed(Strip(s))
  {
    var l := StripLeft(s);
    var r := StripRight(l);
    if r != [] {
      assert r[0] == l[0];
    }
  }

  /** Stripping leaves nothing exactly when the string is all whitespace. */
  lemma StripEmpty(s: string)
    ensures Strip(s) == [] <==> forall k :: 0 <= k < |s| ==> IsSpace(s[k])
  {
    var l := StripLeft(s);
    if Strip(s) == [] {
      assert l == [];
    } else {
      assert s[|s| - |l|] == l[0];
    }
  }

  /** No whitespace at either end. */
  predicate Trimmed(s: string)
  {
    s != [] ==> !IsSpace(s[0]) && !IsSpace(s[|s| - 1])
  }

  lemma StripOfTrimmed(s: string)
    requires Trimmed(s)
    ensures Strip(s) == s
  {
  }

  /** How the importer normalises a genre name: stripped, then capitalised. */
  function NormalizeGenreName(s: string): string
  {
    Capitalize(Strip(s))
  }

  lemma CaseMapsKeepSpaces(c: char)
    ensures IsSpace(ToUpper(c)) == IsSpace(c) && IsSpace(ToLower(c)) == IsSpace(c)
    ensures ToUpper(ToUpper(c)) == ToUpper(c) && ToLower(ToLower(c)) == ToLower(c)
  {
  }

  lemma CapitalizeIdempotent(t: string)
    ensures Capitalize(Capitalize(t)) == Capitalize(t)
  {
    var n := Capitalize(t);
    forall k | 0 <= k < |n|
      ensures Capitalize(n)[k] == n[k]
    {
      CaseMapsKeepSpaces(t[k]);
    }
  }

  lemma CapitalizeKeepsTrimmed(t: string)
    requires Trimmed(t)
    ensures Trimmed(Capitalize(t))
  {
    if t != [] {
      CaseMapsKeepSpaces(t[0]);
      CaseMapsKeepSpaces(t[|t| - 1]);
    }
  }

  /**
   * A normalised genre name is a fixed point of normalisation, so a stored name
   * fed back to the importer resolves to the same row.
   */
  lemma NormalizeGenreNameIdempotent(s: string)
    ensures NormalizeGenreName(NormalizeGenreName(s)) == NormalizeGenreName(s)
  {
    var n := NormalizeGenreName(s);
    StripIsTrimmedInfix(s);
    CapitalizeKeepsTrimmed(Strip(s));
    StripOfTrimmed(n);
    CapitalizeIdempotent(Strip(s));
  }

  lemma CapitalizeDrama(s: string)
    requires s == "драма" || s == "Драма"
    ensures Capitalize(s) == "Драма"
  {
    assert LowerAll(s[1..]) == s[1..];
  }

  lemma StripPaddedDrama(s: string)
    requires s == " драма "
    ensures Strip(s) == "драма"
  {
    assert IsSpace(s[0]) && !IsSpace(s[1]);
    assert StripLeft(s[1..]) == s[1..];
    var t := s[1..];
    assert IsSpace(t[5]) && !IsSpace(t[4]);
    assert StripRight(t[..5]) == t[..5];
  }

  /** The three spellings of one genre collapse to a single stored name. */
  lemma GenreSpellingsCollapse(s: string)
    requires s == "драма" || s == "Драма" || s == " драма "
    ensures NormalizeGenreName(s) == "Драма"
  {
    if s == " драма " {
      StripPaddedDrama(s);
      CapitalizeDrama("драма");
    } else {
      StripOfTrimmed(s);
      CapitalizeDrama(s);
    }
  }
}
