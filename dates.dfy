/** Calendar dates as the parser meets them: the `DD.MM.YYYY` closing-date
    text that `get_dividend_history` builds and hands to
    `pd.to_datetime(..., format='%d.%m.%Y')`, and `parse_russian_date`,
    which reads the same layout with `datetime.strptime`. */
module Dates {
  import opened Text

  datatype Date = Date(year: int, month: int, day: int)

  predicate IsLeapYear(y: int) {
    y % 4 == 0 && (y % 100 != 0 || y % 400 == 0)
  }

  /** Days in a month of the proleptic Gregorian calendar. */
  function DaysInMonth(y: int, m: int): (n: int)
    requires 1 <= m <= 12
    ensures 28 <= n <= 31
    ensures m == 2 ==> (n == 29 <==> IsLeapYear(y))
  {
    if m == 2 then (if IsLeapYear(y) then 29 else 28)
    else if m == 4 || m == 6 || m == 9 || m == 11 then 30
    else 31
  }

  predicate IsCalendarDate(d: Date) {
    1 <= d.month <= 12 && 1 <= d.day <= DaysInMonth(d.year, d.month)
  }

  predicate Before(a: Date, b: Date) {
    a.year < b.year
    || (a.year == b.year && a.month < b.month)
    || (a.year == b.year && a.month == b.month && a.day < b.day)
  }

  /** A pandas Timestamp holds nanoseconds since 1970 in 64 bits: midnight of
      1677-09-22 is the first representable midnight, 2262-04-11 the last. */
  const FirstTimestampDay := Date(1677, 9, 22)
  const LastTimestampDay := Date(2262, 4, 11)

  predicate InTimestampRange(d: Date) {
    !Before(d, FirstTimestampDay) && !Before(LastTimestampDay, d)
  }

  // ---------------------------------------------------------------------
  // The closing date text `DD.MM.YYYY`

  /** A closing date as the row loop holds it: the day already padded to two
      digits, the month and the year as they were matched. */
  datatype DateText = DateText(day: string, month: string, year: string)

  predicate WellFormed(t: DateText) {
    |t.day| == 2 && |t.month| == 2 && |t.year| == 4
    && AllDigits(t.day) && AllDigits(t.month) && AllDigits(t.year)
  }

  function Format(t: DateText): string {
    t.day + "." + t.month + "." + t.year
  }

  /** `pd.to_datetime(text, format='%d.%m.%Y')`: None stands for the
      exception it raises on a day or month out of range, or on a date that
      a Timestamp cannot hold. */
  function ToTimestamp(t: DateText): (r: Option<Date>)
    requires WellFormed(t)
    ensures var d := Date(DigitsValue(t.year), DigitsValue(t.month), DigitsValue(t.day));
      && (r.Some? <==> IsCalendarDate(d) && InTimestampRange(d))
      && (r.Some? ==> r.value == d)
  {
    var d := Date(DigitsValue(t.year), DigitsValue(t.month), DigitsValue(t.day));
    if IsCalendarDate(d) && InTimestampRange(d) then Some(d) else None
  }

  // ---------------------------------------------------------------------
  // parse_russian_date: datetime.strptime(s, '%d.%m.%Y')

  /** The spellings `%d` accepts: 3[01] | [12]\d | 0[1-9] | [1-9] | ' '[1-9]. */
  predicate IsDayToken(t: string) {
    || (|t| == 1 && '1' <= t[0] <= '9')
    || (|t| == 2 && t[0] == '3' && (t[1] == '0' || t[1] == '1'))
    || (|t| == 2 && (t[0] == '1' || t[0] == '2') && IsDigit(t[1]))
    || (|t| == 2 && t[0] == '0' && '1' <= t[1] <= '9')
    || (|t| == 2 && t[0] == ' ' && '1' <= t[1] <= '9')
  }

  /** The spellings `%m` accepts: 1[0-2] | 0[1-9] | [1-9]. */
  predicate IsMonthToken(t: string) {
    || (|t| == 1 && '1' <= t[0] <= '9')
    || (|t| == 2 && t[0] == '1' && '0' <= t[1] <= '2')
    || (|t| == 2 && t[0] == '0' && '1' <= t[1] <= '9')
  }

  /** The number a day or month token stands for (a leading space counts as
      nothing). */
  function TokenValue(t: string): (n: nat)
    requires IsDayToken(t) || IsMonthToken(t)
    ensures IsDayToken(t) ==> 1 <= n <= 31
    ensures IsMonthToken(t) ==> 1 <= n <= 12
  {
    if |t| == 1 then DigitValue(t[0])
    else if t[0] == ' ' then DigitValue(t[1])
    else DigitValue(t[0]) * 10 + DigitValue(t[1])
  }

  /** Where the token in front of the next '.' ends: a token of one
      character when '.' is the second character, otherwise of two. */
  function TokenEnd(s: string): nat {
    if |s| > 1 && s[1] == '.' then 1 else 2
  }

  /** `parse_russian_date`: the date `strptime` reads with format
      `%d.%m.%Y`, or None where it raises (no match, unconverted trailing
      text, a day past the end of the month, year 0). */
  function ParseRussianDate(s: string): (r: Option<Date>)
    ensures r.Some? ==> IsCalendarDate(r.value) && 1 <= r.value.year <= 9999
  {
    var k := TokenEnd(s);
    if !(k < |s| && s[k] == '.' && IsDayToken(s[..k])) then None
    else
      var rest := s[k + 1..];
      var m := TokenEnd(rest);
      if !(m < |rest| && rest[m] == '.' && IsMonthToken(rest[..m])) then None
      else
        var y := rest[m + 1..];
        if !(|y| == 4 && AllDigits(y)) then None
        else
          DigitsValueBound(y);
          var d := Date(DigitsValue(y), TokenValue(rest[..m]), TokenValue(s[..k]));
          if IsCalendarDate(d) && d.year >= 1 then Some(d) else None
  }

  /** The `dd.mm.yyyy` spelling of a date. */
  function FormatDate(d: Date): string
    requires IsCalendarDate(d) && 0 <= d.year <= 9999
  {
    Pad(d.day, 2) + "." + Pad(d.month, 2) + "." + Pad(d.year, 4)
  }

  /** Every date `datetime` can hold survives the round trip through its
      `dd.mm.yyyy` spelling. */
  lemma ParseFormattedDate(d: Date)
    requires IsCalendarDate(d) && 1 <= d.year <= 9999
    ensures ParseRussianDate(FormatDate(d)) == Some(d)
  {
    PadValue(d.day, 2);
    PadValue(d.month, 2);
    PadValue(d.year, 4);
    TwoDigitTokens(Pad(d.day, 2));
    TwoDigitTokens(Pad(d.month, 2));
    ParsePaddedLayout(Pad(d.day, 2), Pad(d.month, 2), Pad(d.year, 4));
  }

  /** A two-digit token is read as the number its digits spell, and is
      accepted by `%d` (`%m`) exactly when that number is a day (month). */
  lemma TwoDigitTokens(t: string)
    requires |t| == 2 && AllDigits(t)
    ensures IsDayToken(t) <==> 1 <= DigitsValue(t) <= 31
    ensures IsMonthToken(t) <==> 1 <= DigitsValue(t) <= 12
    ensures IsDayToken(t) || IsMonthToken(t) ==> TokenValue(t) == DigitsValue(t)
  {
    assert t[..1][..0] == [];
    assert DigitsValue(t[..1]) == DigitValue(t[0]);
    assert DigitsValue(t) == DigitValue(t[0]) * 10 + DigitValue(t[1]);
  }

  /** `strptime` on the fully padded layout `dd.mm.yyyy`. */
  lemma ParsePaddedLayout(dd: string, mm: string, yy: string)
    requires |dd| == 2 && |mm| == 2 && |yy| == 4 && AllDigits(yy)
    requires IsDayToken(dd) && IsMonthToken(mm)
    ensures ParseRussianDate(dd + "." + mm + "." + yy) ==
      var d := Date(DigitsValue(yy), TokenValue(mm), TokenValue(dd));
      if IsCalendarDate(d) && d.year >= 1 then Some(d) else None
  {
    var s := dd + "." + mm + "." + yy;
    assert s[..2] == dd && s[1] != '.' && s[2] == '.';
    var rest := s[3..];
    assert rest == mm + "." + yy;
    assert rest[..2] == mm && rest[1] != '.' && rest[2] == '.' && rest[3..] == yy;
  }

  /** The closing date the row loop converts with pandas, when it converts,
      is the date `parse_russian_date` reads from the same text. */
  lemma TimestampAgreesWithParse(t: DateText)
    requires WellFormed(t) && ToTimestamp(t).Some?
    ensures ParseRussianDate(Format(t)) == ToTimestamp(t)
  {
    TwoDigitTokens(t.day);
    TwoDigitTokens(t.month);
    ParsePaddedLayout(t.day, t.month, t.year);
  }
}
