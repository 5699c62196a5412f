/**
 * `KinopoiskService.extract_id_from_url` (movies/kinopoisk.py:40-63): the film
 * id is the digit run after `kinopoisk.ru/film/` or `kinopoisk.ru/series/`.
 *
 * The code tries two regular expressions with `re.search`, in order:
 *   pattern 1: `kinopoisk\.ru/(?:film|series)/(\d+)`
 *   pattern 2: `kinopoisk\.ru/(?:film|series)/(\d+)/`
 * `re.search` finds the leftmost position where the pattern matches; `\d+` is
 * greedy, and since pattern 2 needs a '/' after the digits, backtracking to a
 * shorter run (followed by a digit) never helps, so both capture the maximal run.
 */
module Urls {
  import opened Values
  import opened Errors
  import opened Text

  const FilmPrefix: string := "kinopoisk.ru/film/"
  const SeriesPrefix: string := "kinopoisk.ru/series/"
  /** The alternation `kinopoisk\.ru/(?:film|series)/`, spelled out as its two fixed strings. */
  const Prefixes: seq<string> := [FilmPrefix, SeriesPrefix]

  predicate AllDigits(d: string)
  {
    forall k :: 0 <= k < |d| ==> IsDigit(d[k])
  }

  /** Python's `int()` of a string of decimal digits. */
  function DigitsValue(d: string): (n: nat)
    requires AllDigits(d)
    ensures |d| > 0 && d[0] != '0' ==> n > 0
  {
    if d == [] then 0
    else
      var front := d[..|d| - 1];
      assert AllDigits(front) by { assert forall k :: 0 <= k < |front| ==> front[k] == d[k]; }
      var v := DigitsValue(front);
      assert |front| > 0 && front[0] != '0' ==> v > 0;
      10 * v + (d[|d| - 1] as int - '0' as int)
  }

  predicate StartsWithAt(s: string, p: nat, lit: string)
  {
    p + |lit| <= |s| && s[p..p + |lit|] == lit
  }

  /** Length of the maximal run of digits starting at `q`. */
  function DigitRun(s: string, q: nat): (n: nat)
    requires q <= |s|
    ensures q + n <= |s|
    ensures forall k :: q <= k < q + n ==> IsDigit(s[k])
    ensures q + n == |s| || !IsDigit(s[q + n])
    decreases |s| - q
  {
    if q < |s| && IsDigit(s[q]) then 1 + DigitRun(s, q + 1) else 0
  }

  /**
   * A pattern: the alternatives for the text before the group, and whether
   * a '/' must follow the digits (pattern 2) or not (pattern 1).
   */
  datatype Pattern = Pattern(prefixes: seq<string>, slashAfterDigits: bool)
  const Plain: Pattern := Pattern(Prefixes, false)
  const Slashed: Pattern := Pattern(Prefixes, true)
  const Patterns: seq<Pattern> := [Plain, Slashed]

  /** Where the group would start: after the first of `prefixes` that sits at `p`, as the alternation tries them. */
  function DigitsStart(s: string, p: nat, prefixes: seq<string>): (q: Option<nat>)
    ensures q.Some? ==> p < q.value <= |s| || (p == q.value <= |s| && "" in prefixes)
    decreases |prefixes|
  {
    if prefixes == [] then None
    else if StartsWithAt(s, p, prefixes[0]) then Some(p + |prefixes[0]|)
    else DigitsStart(s, p, prefixes[1..])
  }

  /** The group a pattern captures when it matches at position `p` (Python's `re.match` at `p`). */
  function MatchAt(s: string, p: nat, pat: Pattern): (g: Option<string>)
    ensures g.Some? ==> |g.value| > 0 && AllDigits(g.value)
  {
    match DigitsStart(s, p, pat.prefixes)
    case None => None
    case Some(q) =>
      var n := DigitRun(s, q);
      if n > 0 && (!pat.slashAfterDigits || (q + n < |s| && s[q + n] == '/'))
      then Some(s[q..q + n]) else None
  }

  datatype Match = Match(pos: nat, group: string)

  /** `re.search` from position `p` on: the leftmost match at or after `p`. */
  function SearchFrom(s: string, pat: Pattern, p: nat): (r: Option<Match>)
    requires p <= |s|
    ensures r.Some? ==> p <= r.value.pos <= |s| && MatchAt(s, r.value.pos, pat) == Some(r.value.group)
    ensures r.Some? ==> forall k :: p <= k < r.value.pos ==> MatchAt(s, k, pat).None?
    ensures r.None? ==> forall k :: p <= k <= |s| ==> MatchAt(s, k, pat).None?
    decreases |s| - p
  {
    match MatchAt(s, p, pat)
    case Some(g) => Some(Match(p, g))
    case None => if p == |s| then None else SearchFrom(s, pat, p + 1)
  }

  function Search(s: string, pat: Pattern): (r: Option<Match>)
  {
    SearchFrom(s, pat, 0)
  }

  /** Whatever pattern 2 matches at a position, pattern 1 matches there too, with the same group. */
  lemma SlashPatternImpliesPlain(s: string, p: nat, prefixes: seq<string>)
    ensures MatchAt(s, p, Pattern(prefixes, true)).Some? ==>
      MatchAt(s, p, Pattern(prefixes, false)) == MatchAt(s, p, Pattern(prefixes, true))
  {
  }

  /** Pattern 2 never finds anything when pattern 1 finds nothing: its attempt in the loop is redundant. */
  lemma {:induction false} SecondPatternRedundant(s: string)
    ensures Search(s, Plain).None? ==> Search(s, Slashed).None?
  {
    if Search(s, Plain).None? {
      forall k | 0 <= k <= |s|
        ensures MatchAt(s, k, Slashed).None?
      {
        SlashPatternImpliesPlain(s, k, Prefixes);
      }
    }
  }

  /**
   * CPython's default `sys.get_int_max_str_digits()` (since 3.11, 3.10.7):
   * `int()` of a decimal string with more digits raises `ValueError`.
   */
  const IntMaxStrDigits: nat := 4300

  /** `int(group)` on a run of decimal digits: its value, or the `ValueError` past the digit limit. */
  function IdValue(d: string): (r: Result<nat, ImportError>)
    requires AllDigits(d)
    ensures r.Ok? <==> |d| <= IntMaxStrDigits
    ensures r.Ok? ==> r.value == DigitsValue(d)
    ensures r.Err? ==> r.error == IdTooLong(|d|)
  {
    if |d| <= IntMaxStrDigits then Ok(DigitsValue(d)) else Err(IdTooLong(|d|))
  }

  /**
   * The id the URL names, stated by pattern 1 alone: `int()` of the maximal
   * digit run after the leftmost `kinopoisk.ru/film/` or `kinopoisk.ru/series/`
   * that is followed by at least one digit.
   */
  function ExtractId(url: string): Result<nat, ImportError>
  {
    match Search(url, Plain)
    case Some(m) => IdValue(m.group)
    case None => Err(BadUrl(url))
  }

  /**
   * `ExtractId` fails with the import error exactly when no position holds a
   * supported prefix followed by a digit. Otherwise the maximal digit run at
   * the leftmost such position decides: its value when it has at most 4300
   * digits, else `int()`'s error; no other error is possible.
   */
  lemma ExtractIdMeaning(url: string)
    ensures ExtractId(url) == Err(BadUrl(url)) <==> forall p :: 0 <= p <= |url| ==> MatchAt(url, p, Plain).None?
    ensures ExtractId(url).Err? ==> ExtractId(url).error == BadUrl(url) || ExtractId(url).error.IdTooLong?
    ensures ExtractId(url) != Err(BadUrl(url)) ==> exists p ::
      && 0 <= p <= |url| && MatchAt(url, p, Plain).Some?
      && (forall k :: 0 <= k < p ==> MatchAt(url, k, Plain).None?)
      && (|MatchAt(url, p, Plain).value| <= IntMaxStrDigits ==>
            ExtractId(url) == Ok(DigitsValue(MatchAt(url, p, Plain).value)))
      && (|MatchAt(url, p, Plain).value| > IntMaxStrDigits ==>
            ExtractId(url) == Err(IdTooLong(|MatchAt(url, p, Plain).value|)))
  {
    match Search(url, Plain)
    case Some(m) =>
      assert MatchAt(url, m.pos, Plain).Some?;
    case None =>
  }

  /** The source's loop: try each pattern in turn and return the first match's id. */
  method ExtractIdFromUrl(url: string) returns (r: Result<nat, ImportError>)
    ensures r == ExtractId(url)
  {
    SecondPatternRedundant(url);
    assert Patterns[0] == Plain && Patterns[1] == Slashed;
    for i := 0 to |Patterns|
      invariant forall j :: 0 <= j < i ==> Search(url, Patterns[j]).None?
    {
      var found := Search(url, Patterns[i]);
      if found.Some? {
        assert i == 0 && found == Search(url, Plain);
        return IdValue(found.value.group);
      }
    }
    return Err(BadUrl(url));
  }

  lemma SearchFindsAt(s: string, pat: Pattern, p: nat)
    requires p <= |s| && MatchAt(s, p, pat).Some?
    requires forall k :: 0 <= k < p ==> MatchAt(s, k, pat).None?
    ensures Search(s, pat) == Some(Match(p, MatchAt(s, p, pat).value))
  {
    var r := Search(s, pat);
    assert r.Some? by { assert MatchAt(s, p, pat).Some?; }
  }

  lemma DigitsValueSnoc(d: string, c: char)
    requires AllDigits(d) && IsDigit(c)
    ensures AllDigits(d + [c]) && DigitsValue(d + [c]) == 10 * DigitsValue(d) + (c as int - '0' as int)
  {
    assert (d + [c])[..|d|] == d;
  }

  lemma DigitsOf435(d: string)
    requires d == "435"
    ensures AllDigits(d) && DigitsValue(d) == 435
  {
    assert AllDigits("4") && DigitsValue("4") == 4;
    DigitsValueSnoc("4", '3'); assert "4" + ['3'] == "43";
    DigitsValueSnoc("43", '5'); assert "43" + ['5'] == "435";
  }

  lemma DigitsOf6058297(d: string)
    requires d == "6058297"
    ensures AllDigits(d) && DigitsValue(d) == 6058297
  {
    assert AllDigits("6") && DigitsValue("6") == 6;
    DigitsValueSnoc("6", '0'); assert "6" + ['0'] == "60";
    DigitsValueSnoc("60", '5'); assert "60" + ['5'] == "605";
    DigitsValueSnoc("605", '8'); assert "605" + ['8'] == "6058";
    DigitsValueSnoc("6058", '2'); assert "6058" + ['2'] == "60582";
    DigitsValueSnoc("60582", '9'); assert "60582" + ['9'] == "605829";
    DigitsValueSnoc("605829", '7'); assert "605829" + ['7'] == "6058297";
  }

  /** No alternative starting with 'k' sits at a position that holds another character. */
  lemma {:induction false} NoPrefixAt(s: string, k: nat, prefixes: seq<string>)
    requires forall i :: 0 <= i < |prefixes| ==> |prefixes[i]| > 0 && prefixes[i][0] == 'k'
    requires k < |s| ==> s[k] != 'k'
    ensures DigitsStart(s, k, prefixes).None?
    decreases |prefixes|
  {
    if prefixes != [] {
      var lit := prefixes[0];
      if k + |lit| <= |s| { assert s[k..k + |lit|][0] == s[k]; }
      NoPrefixAt(s, k, prefixes[1..]);
    }
  }

  /** Nothing matches before the first 'k' of the URL. */
  lemma NoMatchBeforeK(s: string, p: nat)
    requires forall k :: 0 <= k < p && k < |s| ==> s[k] != 'k'
    ensures forall k :: 0 <= k < p ==> MatchAt(s, k, Plain).None?
  {
    assert FilmPrefix[0] == 'k' && SeriesPrefix[0] == 'k';
    forall k | 0 <= k < p ensures DigitsStart(s, k, Prefixes).None? {
      NoPrefixAt(s, k, Prefixes);
    }
  }

  /** Pattern 1 matches nowhere before `p`. */
  predicate NoMatchBefore(s: string, p: nat)
  {
    forall k :: 0 <= k < p ==> MatchAt(s, k, Plain).None?
  }

  /** The digits `d` sit at `q`, followed by the end of `s` or a '/'. */
  predicate DigitsEndAt(s: string, q: nat, d: string)
  {
    q + |d| <= |s| && s[q..q + |d|] == d && (q + |d| == |s| || s[q + |d|] == '/')
  }

  /** Where `IdAt` finds the id: a prefix at `p` ending at `q`, the digits `d` there, and no earlier match. */
  predicate IdLaidOut(url: string, p: nat, q: nat, d: string)
  {
    && DigitsStart(url, p, Prefixes) == Some(q)
    && |d| > 0 && AllDigits(d)
    && DigitsEndAt(url, q, d)
    && NoMatchBefore(url, p)
  }

  /** The digits `d` start at `q`, where a supported prefix placed at `p` ends, and nothing matches earlier. */
  lemma IdAt(url: string, p: nat, q: nat, d: string)
    requires IdLaidOut(url, p, q, d)
    ensures ExtractId(url) == IdValue(d)
  {
    RunOfDigits(url, q, d);
    MatchAtStart(url, p, q, d, Plain);
    FirstMatchId(url, p, d);
  }

  /** Digits `d` at `q`, followed by the end or a '/', are the whole digit run there. */
  lemma RunOfDigits(url: string, q: nat, d: string)
    requires AllDigits(d) && DigitsEndAt(url, q, d)
    ensures DigitRun(url, q) == |d|
  {
    forall k | q <= k < q + |d| ensures IsDigit(url[k]) { assert url[k] == d[k - q]; }
    DigitRunOfDigits(url, q, |d|);
  }

  /** A pattern without the trailing '/' captures the digit run where its prefix ends, when that run is not empty. */
  lemma MatchAtStart(s: string, p: nat, q: nat, d: string, pat: Pattern)
    requires !pat.slashAfterDigits && DigitsStart(s, p, pat.prefixes) == Some(q)
    requires q + |d| <= |s| && s[q..q + |d|] == d && DigitRun(s, q) == |d| > 0
    ensures MatchAt(s, p, pat) == Some(d)
  {
  }

  /** The leftmost match of pattern 1 decides the id. */
  lemma FirstMatchId(url: string, p: nat, d: string)
    requires p <= |url| && MatchAt(url, p, Plain) == Some(d) && NoMatchBefore(url, p)
    ensures ExtractId(url) == IdValue(d)
  {
    SearchFindsAt(url, Plain, p);
  }

  /** A supported prefix at `p` is recognised, and the group starts right after it. */
  lemma PrefixGivesStart(url: string, p: nat, prefix: string)
    requires prefix == FilmPrefix || prefix == SeriesPrefix
    requires p + |prefix| <= |url| && url[p..p + |prefix|] == prefix
    ensures DigitsStart(url, p, Prefixes) == Some(p + |prefix|)
  {
    assert Prefixes[0] == FilmPrefix && Prefixes[1..] == [SeriesPrefix];
    if prefix == SeriesPrefix {
      assert url[p + 13] == url[p..p + |prefix|][13] == 's';
      assert FilmPrefix[13] == 'f';
      assert !StartsWithAt(url, p, FilmPrefix);
    }
  }

  lemma {:induction false} DigitRunOfDigits(s: string, q: nat, n: nat)
    requires q + n <= |s|
    requires forall k :: q <= k < q + n ==> IsDigit(s[k])
    requires q + n == |s| || !IsDigit(s[q + n])
    ensures DigitRun(s, q) == n
    decreases n
  {
    if n > 0 { DigitRunOfDigits(s, q + 1, n - 1); }
  }

  lemma NoMatchInLead(url: string, lead: string)
    requires forall k :: 0 <= k < |lead| ==> lead[k] != 'k'
    requires |lead| <= |url| && url[..|lead|] == lead
    ensures NoMatchBefore(url, |lead|)
  {
    forall k | 0 <= k < |lead| && k < |url| ensures url[k] != 'k' {
      assert url[k] == url[..|lead|][k];
    }
    NoMatchBeforeK(url, |lead|);
  }

  lemma Layout(url: string, lead: string, prefix: string, d: string, rest: string)
    requires url == lead + prefix + d + rest
    ensures url[..|lead|] == lead && url[|lead|..|lead| + |prefix|] == prefix
    ensures url[|lead| + |prefix|..|lead| + |prefix| + |d|] == d
    ensures |lead| + |prefix| + |d| < |url| ==> url[|lead| + |prefix| + |d|] == rest[0]
  {
  }

  /** The parts of a URL laid out as `lead + prefix + digits + rest` put the id where `IdAt` expects it. */
  lemma PartsLaidOut(url: string, lead: string, prefix: string, d: string, rest: string)
    requires url == lead + prefix + d + rest
    requires forall k :: 0 <= k < |lead| ==> lead[k] != 'k'
    requires prefix == FilmPrefix || prefix == SeriesPrefix
    requires |d| > 0 && AllDigits(d)
    requires rest == [] || rest[0] == '/'
    ensures IdLaidOut(url, |lead|, |lead| + |prefix|, d)
  {
    Layout(url, lead, prefix, d, rest);
    NoMatchInLead(url, lead);
    PrefixGivesStart(url, |lead|, prefix);
  }

  /**
   * A URL laid out as `lead + prefix + digits + rest`, with no 'k' in `lead`,
   * names the id `digits`, unless `int()` refuses that many digits.
   */
  lemma IdInUrl(url: string, lead: string, prefix: string, d: string, rest: string)
    requires url == lead + prefix + d + rest
    requires forall k :: 0 <= k < |lead| ==> lead[k] != 'k'
    requires prefix == FilmPrefix || prefix == SeriesPrefix
    requires |d| > 0 && AllDigits(d)
    requires rest == [] || rest[0] == '/'
    ensures |d| <= IntMaxStrDigits ==> ExtractId(url) == Ok(DigitsValue(d))
    ensures |d| > IntMaxStrDigits ==> ExtractId(url) == Err(IdTooLong(|d|))
  {
    PartsLaidOut(url, lead, prefix, d, rest);
    var p, q :| p == |lead| && q == |lead| + |prefix| && IdLaidOut(url, p, q, d);
    IdAt(url, p, q, d);
  }

  /** `https://kinopoisk.ru/film/435` names film 435. */
  lemma ShortFilmUrl(url: string)
    requires url == "https://kinopoisk.ru/film/435"
    ensures ExtractId(url) == Ok(435)
  {
    assert url == "https://" + FilmPrefix + "435" + "";
    DigitsOf435("435");
    IdInUrl(url, "https://", FilmPrefix, "435", "");
  }

  /** `https://www.kinopoisk.ru/film/435/` names film 435. */
  lemma FullFilmUrl(url: string)
    requires url == "https://www.kinopoisk.ru/film/435/"
    ensures ExtractId(url) == Ok(435)
  {
    assert url == "https://www." + FilmPrefix + "435" + "/";
    DigitsOf435("435");
    IdInUrl(url, "https://www.", FilmPrefix, "435", "/");
  }

  /** `https://www.kinopoisk.ru/series/6058297/` names series 6058297. */
  lemma SeriesUrl(url: string)
    requires url == "https://www.kinopoisk.ru/series/6058297/"
    ensures ExtractId(url) == Ok(6058297)
  {
    assert url == "https://www." + SeriesPrefix + "6058297" + "/";
    DigitsOf6058297("6058297");
    IdInUrl(url, "https://www.", SeriesPrefix, "6058297", "/");
  }

  /** A film URL with 4301 digits is refused by `int()`, not by the pattern. */
  lemma OverlongIdRefused(url: string, d: string)
    requires d == seq(IntMaxStrDigits + 1, _ => '1')
    requires url == "https://" + FilmPrefix + d
    ensures ExtractId(url) == Err(IdTooLong(4301))
  {
    assert url == "https://" + FilmPrefix + d + "";
    IdInUrl(url, "https://", FilmPrefix, d, "");
  }
}
