/**
 * Calendar dates and Python's `datetime.strptime(s, '%Y-%m-%d')`, which the
 * importer uses on the premiere dates (movies/kinopoisk.py:181, 183).
 *
 * `strptime` turns the format into the regular expression
 *   (\d\d\d\d)-(1[0-2]|0[1-9]|[1-9])-(3[01]|[12]\d|0[1-9]|[1-9]| [1-9])
 * matches it at the start of the string, rejects any unconverted text left
 * after the match, and then builds the date, which fails for a day beyond
 * the month's length or for year 0. Each of those failures is a `ValueError`,
 * modelled here as `None`.
 */
module Dates {
  import opened Values
  import opened Models
  import opened Text

  predicate IsLeapYear(y: int)
  {
    y % 4 == 0 && (y % 100 != 0 || y % 400 == 0)
  }

  function DaysInMonth(y: int, m: int): (n: int)
    requires 1 <= m <= 12
    ensures 28 <= n <= 31
  {
    if m == 2 then (if IsLeapYear(y) then 29 else 28)
    else if m == 4 || m == 6 || m == 9 || m == 11 then 30
    else 31
  }

  /** The dates Python's `date` can hold. */
  predicate IsValidDate(d: Date)
  {
    1 <= d.year <= 9999 && 1 <= d.month <= 12 && 1 <= d.day <= DaysInMonth(d.year, d.month)
  }

  function DigitValue(c: char): int
  {
    c as int - '0' as int
  }

  /** The `%m` group: `1[0-2]|0[1-9]|[1-9]`, which here must span the whole text between the dashes. */
  function MonthGroup(t: string): (m: Option<int>)
    ensures m.Some? ==> 1 <= m.value <= 12
  {
    if |t| == 2 && t[0] == '1' && '0' <= t[1] <= '2' then Some(10 + DigitValue(t[1]))
    else if |t| == 2 && t[0] == '0' && '1' <= t[1] <= '9' then Some(DigitValue(t[1]))
    else if |t| == 1 && '1' <= t[0] <= '9' then Some(DigitValue(t[0]))
    else None
  }

  /**
   * The `%d` group: `3[01]|[12]\d|0[1-9]|[1-9]| [1-9]`. The first alternative that
   * matches at the start of `t` is taken; its length and value are returned.
   */
  function DayGroup(t: string): (r: Option<(nat, int)>)
    ensures r.Some? ==> 1 <= r.value.0 <= 2 && r.value.0 <= |t| && 1 <= r.value.1 <= 31
  {
    if |t| >= 2 && t[0] == '3' && '0' <= t[1] <= '1' then Some((2, 30 + DigitValue(t[1])))
    else if |t| >= 2 && '1' <= t[0] <= '2' && IsDigit(t[1]) then Some((2, 10 * DigitValue(t[0]) + DigitValue(t[1])))
    else if |t| >= 2 && t[0] == '0' && '1' <= t[1] <= '9' then Some((2, DigitValue(t[1])))
    else if |t| >= 1 && '1' <= t[0] <= '9' then Some((1, DigitValue(t[0])))
    else if |t| >= 2 && t[0] == ' ' && '1' <= t[1] <= '9' then Some((2, DigitValue(t[1])))
    else None
  }

  /** Index of the first '-' at or after `i`, or `|s|` when there is none. */
  function NextDash(s: string, i: nat): (j: nat)
    requires i <= |s|
    ensures i <= j <= |s|
    ensures j < |s| ==> s[j] == '-'
    ensures forall k :: i <= k < j ==> s[k] != '-'
    decreases |s| - i
  {
    if i == |s| || s[i] == '-' then i else NextDash(s, i + 1)
  }

  function YearOf(s: string): int
    requires |s| >= 4
  {
    1000 * DigitValue(s[0]) + 100 * DigitValue(s[1]) + 10 * DigitValue(s[2]) + DigitValue(s[3])
  }

  /** `datetime.strptime(s, '%Y-%m-%d').date()`, or `None` where it raises `ValueError`. */
  function ParseIsoDate(s: string): (r: Option<Date>)
    ensures r.Some? ==> IsValidDate(r.value)
  {
    if |s| < 5 || !(IsDigit(s[0]) && IsDigit(s[1]) && IsDigit(s[2]) && IsDigit(s[3])) || s[4] != '-' then None
    else
      var j := NextDash(s, 5);
      if j == |s| then None
      else
        match (MonthGroup(s[5..j]), DayGroup(s[j + 1..]))
        case (Some(m), Some((len, d))) =>
          var date := Date(YearOf(s), m, d);
          if j + 1 + len == |s| && IsValidDate(date) then Some(date) else None
        case _ => None
  }

  /** Two decimal digits with leading zero. */
  function TwoDigits(n: int): (t: string)
    requires 0 <= n <= 99
    ensures |t| == 2 && IsDigit(t[0]) && IsDigit(t[1]) && 10 * DigitValue(t[0]) + DigitValue(t[1]) == n
  {
    [('0' as int + n / 10) as char, ('0' as int + n % 10) as char]
  }

  /** Four decimal digits with leading zeros. */
  function FourDigits(n: int): (t: string)
    requires 0 <= n <= 9999
    ensures |t| == 4 && YearOf(t) == n
    ensures forall k :: 0 <= k < 4 ==> IsDigit(t[k])
  {
    TwoDigits(n / 100) + TwoDigits(n % 100)
  }

  /** The ISO form `YYYY-MM-DD` the metadata API uses for premiere dates. */
  function FormatIsoDate(d: Date): (s: string)
    requires IsValidDate(d)
    ensures |s| == 10
  {
    FourDigits(d.year) + "-" + TwoDigits(d.month) + "-" + TwoDigits(d.day)
  }

  /** Every valid date written in ISO form reads back as itself. */
  lemma ParseFormatRoundTrip(d: Date)
    requires IsValidDate(d)
    ensures ParseIsoDate(FormatIsoDate(d)) == Some(d)
  {
    var s := FormatIsoDate(d);
    var y, mm, dd := FourDigits(d.year), TwoDigits(d.month), TwoDigits(d.day);
    assert s[..4] == y && s[4] == '-' && s[5..7] == mm && s[7] == '-' && s[8..] == dd;
    assert forall k :: 0 <= k < 4 ==> s[k] == y[k];
    assert YearOf(s) == d.year;
    assert s[5] != '-' && s[6] != '-';
    assert NextDash(s, 5) == 7;
    assert MonthGroup(s[5..7]) == Some(d.month);
    assert DayGroup(s[8..]) == Some((2, d.day));
  }

  /** What the premiere dates look like in practice parse to the date they spell. */
  lemma ParseExample(s: string)
    requires s == "2010-07-16"
    ensures ParseIsoDate(s) == Some(Date(2010, 7, 16))
  {
    var d := Date(2010, 7, 16);
    assert IsValidDate(d);
    assert FormatIsoDate(d) == s;
    ParseFormatRoundTrip(d);
  }

  /** Day 30 of February is refused, as `date(y, 2, 30)` raises. */
  lemma ParseRejectsImpossibleDay(s: string)
    requires s == "2010-02-30"
    ensures ParseIsoDate(s) == None
  {
    assert s[5] == '0' && s[6] == '2' && s[7] == '-';
    assert NextDash(s, 6) == 7;
    assert NextDash(s, 5) == 7;
    assert s[5..7] == "02" && s[8..] == "30";
    assert !IsValidDate(Date(2010, 2, 30));
  }
}
