/**
 * `parse_date`: the PEP index's `DD-Mon-YYYY` dates, read the way
 * `datetime.strptime(value, "%d-%b-%Y").date()` reads them under an English
 * locale, with the locale replaced by a fixed month table.
 */
module Dates {
  import opened Wrappers
  import opened Errors
  import opened Text

  /** A calendar date, as Python's `datetime.date`. */
  datatype Date = Date(year: int, month: int, day: int)

  predicate IsLeapYear(y: int) {
    y % 4 == 0 && (y % 100 != 0 || y % 400 == 0)
  }

  function DaysInMonth(y: int, m: int): (n: int)
    requires 1 <= m <= 12
    ensures 28 <= n <= 31
  {
    if m == 2 then (if IsLeapYear(y) then 29 else 28)
    else if m == 4 || m == 6 || m == 9 || m == 11 then 30
    else 31
  }

  /** What `datetime.date(year, month, day)` accepts (MINYEAR 1 to MAXYEAR 9999). */
  predicate ValidDate(d: Date) {
    && 1 <= d.year <= 9999
    && 1 <= d.month <= 12
    && 1 <= d.day <= DaysInMonth(d.year, d.month)
  }

  /** The English month abbreviations `%b` prints, January first. */
  const MonthAbbreviations: seq<string> :=
    ["Jan", "Feb", "Mar", "Apr", "May", "Jun", "Jul", "Aug", "Sep", "Oct", "Nov", "Dec"]

  /** The lower-cased names `%b` matches against, January first. */
  const MonthKeys: seq<string> :=
    ["jan", "feb", "mar", "apr", "may", "jun", "jul", "aug", "sep", "oct", "nov", "dec"]

  lemma MonthKeysAreLowerAbbreviations()
    ensures |MonthAbbreviations| == |MonthKeys| == 12
    ensures forall i :: 0 <= i < 12 ==> Lower(MonthAbbreviations[i]) == MonthKeys[i]
  {
  }

  /** `t` is text that the `%d` directive reads as `day`: `3[01]|[12]\d|0[1-9]|[1-9]| [1-9]`. */
  predicate DayField(t: string, day: int) {
    || (|t| == 2 && t[0] == '3' && (t[1] == '0' || t[1] == '1') && day == 30 + DigitValue(t[1]))
    || (|t| == 2 && (t[0] == '1' || t[0] == '2') && IsDigit(t[1]) && day == 10 * DigitValue(t[0]) + DigitValue(t[1]))
    || (|t| == 2 && t[0] == '0' && '1' <= t[1] <= '9' && day == DigitValue(t[1]))
    || (|t| == 1 && '1' <= t[0] <= '9' && day == DigitValue(t[0]))
    || (|t| == 2 && t[0] == ' ' && '1' <= t[1] <= '9' && day == DigitValue(t[1]))
  }

  /** `t` is text that `%b` reads as `month`: the abbreviation in any ASCII case. */
  predicate MonthField(t: string, month: int) {
    1 <= month <= 12 && Lower(t) == MonthKeys[month - 1]
  }

  /** `t` is text that `%Y` reads as `year`: exactly four digits. */
  predicate YearField(t: string, year: int) {
    |t| == 4 && AllDigits(t) && year == DecimalValue(t)
  }

  /**
   * `s` matches the whole of `%d-%b-%Y` with the fields of `d`. The month and
   * year fields have fixed widths, so the day field is the first `|s| - 9`
   * characters.
   */
  predicate Spells(s: string, d: Date) {
    && 10 <= |s| <= 11
    && var n := |s| - 9;
    && DayField(s[..n], d.day)
    && s[n] == '-'
    && MonthField(s[n + 1..n + 4], d.month)
    && s[n + 4] == '-'
    && YearField(s[n + 5..], d.year)
  }

  function DayNumber(t: string): (r: Option<int>)
    ensures r.Some? ==> DayField(t, r.value)
    ensures r.None? ==> forall day :: !DayField(t, day)
  {
    if |t| == 2 && IsDigit(t[0]) && IsDigit(t[1]) && 1 <= 10 * DigitValue(t[0]) + DigitValue(t[1]) <= 31 then
      Some(10 * DigitValue(t[0]) + DigitValue(t[1]))
    else if |t| == 1 && '1' <= t[0] <= '9' then Some(DigitValue(t[0]))
    else if |t| == 2 && t[0] == ' ' && '1' <= t[1] <= '9' then Some(DigitValue(t[1]))
    else None
  }

  lemma DayFieldUnique(t: string, d1: int, d2: int)
    requires DayField(t, d1) && DayField(t, d2)
    ensures d1 == d2
  {
  }

  /** The month whose key is at index `i` or later and matches `t`. */
  function MonthFrom(t: string, i: nat): (r: Option<int>)
    requires i <= 12
    ensures r.Some? ==> i < r.value <= 12 && MonthField(t, r.value)
    ensures r.None? ==> forall m :: i < m <= 12 ==> !MonthField(t, m)
    decreases 12 - i
  {
    if i == 12 then None
    else if Lower(t) == MonthKeys[i] then Some(i + 1)
    else MonthFrom(t, i + 1)
  }

  function MonthNumber(t: string): (r: Option<int>)
    ensures r.Some? ==> MonthField(t, r.value)
    ensures r.None? ==> forall m :: !MonthField(t, m)
  {
    MonthFrom(t, 0)
  }

  lemma MonthFieldUnique(t: string, m1: int, m2: int)
    requires MonthField(t, m1) && MonthField(t, m2)
    ensures m1 == m2
  {
  }

  /** A text spells at most one date. */
  lemma SpellsUnique(s: string, d1: Date, d2: Date)
    requires Spells(s, d1) && Spells(s, d2)
    ensures d1 == d2
  {
    var n := |s| - 9;
    DayFieldUnique(s[..n], d1.day, d2.day);
    MonthFieldUnique(s[n + 1..n + 4], d1.month, d2.month);
  }

  /**
   * `parse_date`: succeeds exactly when `s` spells a valid calendar date, and
   * then returns that date; otherwise raises `MalformedDate` carrying `s`.
   */
  function ParseDate(s: string): (r: Result<Date, Error>)
    ensures r.Ok? ==> Spells(s, r.value) && ValidDate(r.value)
    ensures r.Ok? ==> forall d :: Spells(s, d) ==> d == r.value
    ensures r.Err? ==> r.error == MalformedDate(s)
    ensures r.Err? ==> forall d :: Spells(s, d) ==> !ValidDate(d)
  {
    if !(10 <= |s| <= 11) then Err(MalformedDate(s))
    else
      var n := |s| - 9;
      var day := DayNumber(s[..n]);
      var month := MonthNumber(s[n + 1..n + 4]);
      var yearText := s[n + 5..];
      if day.None? || s[n] != '-' || month.None? || s[n + 4] != '-' || !AllDigits(yearText) then
        Err(MalformedDate(s))
      else
        var d := Date(DecimalValue(yearText), month.value, day.value);
        assert Spells(s, d);
        assert forall e :: Spells(s, e) ==> e == d by {
          forall e | Spells(s, e) ensures e == d { SpellsUnique(s, d, e); }
        }
        if ValidDate(d) then Ok(d) else Err(MalformedDate(s))
  }

  /** The digits of `n`, zero-padded to `width` characters (`%02d`, `%04d`). */
  function Padded(n: nat, width: nat): (t: string)
    ensures |t| == width && AllDigits(t)
    ensures n < Pow10(width) ==> DecimalValue(t) == n
  {
    if width == 0 then []
    else
      var t := Padded(n / 10, width - 1) + [DigitChar(n % 10)];
      assert t[..|t| - 1] == Padded(n / 10, width - 1);
      t
  }

  function Pow10(k: nat): (p: nat)
    ensures p >= 1
  {
    if k == 0 then 1 else 10 * Pow10(k - 1)
  }

  /** The index's own way of writing a date: `%d-%b-%Y` with a two-digit day. */
  function FormatDate(d: Date): (s: string)
    requires ValidDate(d)
    ensures |s| == 11
  {
    Padded(d.day, 2) + "-" + MonthAbbreviations[d.month - 1] + "-" + Padded(d.year, 4)
  }

  /** Parsing a formatted date gives the date back. */
  lemma ParseFormatDate(d: Date)
    requires ValidDate(d)
    ensures ParseDate(FormatDate(d)) == Ok(d)
  {
    var s := FormatDate(d);
    var dd := Padded(d.day, 2);
    assert Pow10(2) == 100 && Pow10(4) == 10000;
    assert s[..2] == dd;
    assert s[3..6] == MonthAbbreviations[d.month - 1];
    assert s[7..] == Padded(d.year, 4);
    MonthKeysAreLowerAbbreviations();
    assert DayField(dd, d.day);
    assert Spells(s, d);
  }

  /** Every English abbreviation parses to its own month, with no locale involved. */
  lemma EnglishMonths(m: int)
    requires 1 <= m <= 12
    ensures ParseDate("01-" + MonthAbbreviations[m - 1] + "-2025") == Ok(Date(2025, m, 1))
  {
    var abbreviation := MonthAbbreviations[m - 1];
    var s := "01-" + abbreviation + "-2025";
    assert |abbreviation| == 3;
    assert s[..2] == "01" && s[3..6] == abbreviation && s[7..] == "2025";
    MonthKeysAreLowerAbbreviations();
    Year2025();
    SpelledValidAccepted(s, Date(2025, m, 1));
  }

  /** A text that spells a valid calendar date is parsed as that date. */
  lemma SpelledValidAccepted(s: string, d: Date)
    requires Spells(s, d) && ValidDate(d)
    ensures ParseDate(s) == Ok(d)
  {
  }

  /** A text that spells an impossible calendar date is rejected. */
  lemma SpelledInvalidRejected(s: string, d: Date)
    requires Spells(s, d) && !ValidDate(d)
    ensures ParseDate(s) == Err(MalformedDate(s))
  {
  }

  lemma Year2025()
    ensures YearField("2025", 2025)
  {
    DecimalValueSnoc("", '2');
    assert "" + ['2'] == "2";
    DecimalValueSnoc("2", '0');
    assert "2" + ['0'] == "20";
    DecimalValueSnoc("20", '2');
    assert "20" + ['2'] == "202";
    DecimalValueSnoc("202", '5');
    assert "202" + ['5'] == "2025";
  }

  /** April has 30 days, so its 31st is rejected. */
  lemma ThirtyFirstOfAprilRejected()
    ensures ParseDate("31-Apr-2025") == Err(MalformedDate("31-Apr-2025"))
  {
    var s := "31-Apr-2025";
    assert s[..2] == "31" && s[3..6] == "Apr" && s[7..] == "2025";
    assert MonthField("Apr", 4) by {
      assert Lower("Apr") == "apr";
    }
    Year2025();
    SpelledInvalidRejected(s, Date(2025, 4, 31));
  }

  /** A three-letter month that is not an English abbreviation is rejected. */
  lemma UnknownMonthRejected()
    ensures ParseDate("01-Xyz-2025") == Err(MalformedDate("01-Xyz-2025"))
  {
    var s := "01-Xyz-2025";
    assert s[3..6] == "Xyz";
    assert Lower("Xyz") == "xyz";
  }
}
