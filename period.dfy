/** The period cell of a dividend row: the registry closing date, the year
    the payment belongs to, and the kind of period it covers
    (dividend_parser.py, lines 124-175). */
module Period {
  import opened Text
  import opened Dates

  // ---------------------------------------------------------------------
  // Closing date: `закрытие реестра (\d{1,2}\.\d{2}\.\d{4})`, then
  // `(\d{1,2}\.\d{2}\.\d{4})`

  const ClosingLabel := "закрытие реестра "

  /** `\d{w}\.\d{2}\.\d{4}` matches at index i. */
  predicate DateShapeAt(s: string, i: nat, w: nat) {
    && i + w + 8 <= |s|
    && AllDigits(s[i..i + w])
    && s[i + w] == '.'
    && AllDigits(s[i + w + 1..i + w + 3])
    && s[i + w + 3] == '.'
    && AllDigits(s[i + w + 4..i + w + 8])
  }

  /** The date `\d{1,2}\.\d{2}\.\d{4}` matches at index i, with the day
      zero-padded as `day.zfill(2)` does. The greedy `\d{1,2}` tries two
      digits first; one-digit and two-digit days cannot both fit. */
  function DateAt(s: string, i: nat): (r: Option<DateText>)
    ensures r.Some? ==> WellFormed(r.value)
    ensures r.Some? <==> DateShapeAt(s, i, 2) || DateShapeAt(s, i, 1)
    ensures DateShapeAt(s, i, 2) ==> r == Some(DateText(s[i..i + 2], s[i + 3..i + 5], s[i + 6..i + 10]))
    ensures DateShapeAt(s, i, 1) ==> r == Some(DateText("0" + s[i..i + 1], s[i + 2..i + 4], s[i + 5..i + 9]))
  {
    if DateShapeAt(s, i, 2) then
      Some(DateText(s[i..i + 2], s[i + 3..i + 5], s[i + 6..i + 10]))
    else if DateShapeAt(s, i, 1) then
      Some(DateText("0" + s[i..i + 1], s[i + 2..i + 4], s[i + 5..i + 9]))
    else
      None
  }

  predicate LabelledDateAt(s: string, i: nat) {
    i + |ClosingLabel| <= |s| && s[i..i + |ClosingLabel|] == ClosingLabel
    && DateAt(s, i + |ClosingLabel|).Some?
  }

  predicate BareDateAt(s: string, i: nat) {
    DateAt(s, i).Some?
  }

  /** The closing date of a normalised period text: the date after the
      first `закрытие реестра ` label that is followed by a date, failing
      that the first date anywhere, failing that none. */
  function ClosingDate(s: string): (r: Option<DateText>)
    ensures r.Some? ==> WellFormed(r.value)
    ensures r.Some? <==> exists i | 0 <= i <= |s| :: BareDateAt(s, i)
    ensures (exists i | 0 <= i <= |s| :: LabelledDateAt(s, i)) ==>
      exists i | 0 <= i <= |s| :: LabelledDateAt(s, i) && r == DateAt(s, i + |ClosingLabel|)
        && forall j | 0 <= j < i :: !LabelledDateAt(s, j)
    ensures (forall i | 0 <= i <= |s| :: !LabelledDateAt(s, i)) ==>
      forall i | 0 <= i <= |s| && BareDateAt(s, i) ::
        exists j | 0 <= j <= i :: BareDateAt(s, j) && r == DateAt(s, j)
  {
    var labelled := (i: nat) => LabelledDateAt(s, i);
    var bare := (i: nat) => BareDateAt(s, i);
    assert forall i: nat :: labelled(i) == LabelledDateAt(s, i);
    assert forall i: nat :: bare(i) == BareDateAt(s, i);
    match FirstFrom(0, |s| + 1, labelled)
    case Some(i) =>
      assert BareDateAt(s, i + |ClosingLabel|);
      DateAt(s, i + |ClosingLabel|)
    case None =>
      match FirstFrom(0, |s| + 1, bare)
      case Some(j) => DateAt(s, j)
      case None => None
  }

  // ---------------------------------------------------------------------
  // Year: `(?:^|\s)(\d{4})(?:\s|$)`, then `(\d{4})`, then `(\d{4})` in the
  // cell as it was before the date's year was deleted

  predicate FourDigitsAt(s: string, j: nat) {
    j + 4 <= |s| && forall k | j <= k < j + 4 :: IsDigit(s[k])
  }

  /** A four-digit token that stands alone: start of text or whitespace
      before it, whitespace or end of text after it. */
  predicate YearTokenAt(s: string, j: nat) {
    FourDigitsAt(s, j)
    && (j == 0 || IsSpace(s[j - 1]))
    && (j + 4 == |s| || IsSpace(s[j + 4]))
  }

  /** The year four digits at j spell (`int(...)` of the matched group). */
  function YearAt(s: string, j: nat): (y: nat)
    requires FourDigitsAt(s, j)
    ensures y <= 9999
  {
    assert Pow10(4) == 10000;
    DigitsValueBound(s[j..j + 4]);
    DigitsValue(s[j..j + 4])
  }

  predicate HasFourDigits(s: string) {
    exists j | 0 <= j <= |s| :: FourDigitsAt(s, j)
  }

  /** The year a period belongs to: the first standalone four-digit token of
      `rest` (the period with the date's year deleted), else the first run
      of four digits in `rest`, else the first in `original`. */
  function ResolveYear(rest: string, original: string): (r: Option<nat>)
    ensures r.None? <==> !HasFourDigits(rest) && !HasFourDigits(original)
    ensures (exists j | 0 <= j <= |rest| :: YearTokenAt(rest, j)) ==>
      exists j | 0 <= j <= |rest| :: YearTokenAt(rest, j) && r == Some(YearAt(rest, j))
        && forall k | 0 <= k < j :: !YearTokenAt(rest, k)
    ensures HasFourDigits(rest) && (forall j | 0 <= j <= |rest| :: !YearTokenAt(rest, j)) ==>
      exists j | 0 <= j <= |rest| :: FourDigitsAt(rest, j) && r == Some(YearAt(rest, j))
        && forall k | 0 <= k < j :: !FourDigitsAt(rest, k)
    ensures !HasFourDigits(rest) && HasFourDigits(original) ==>
      exists j | 0 <= j <= |original| :: FourDigitsAt(original, j)
        && r == Some(YearAt(original, j)) && forall k | 0 <= k < j :: !FourDigitsAt(original, k)
  {
    var token := (j: nat) => YearTokenAt(rest, j);
    var run := (j: nat) => FourDigitsAt(rest, j);
    var runBefore := (j: nat) => FourDigitsAt(original, j);
    assert forall j: nat :: token(j) == YearTokenAt(rest, j);
    assert forall j: nat :: run(j) == FourDigitsAt(rest, j);
    assert forall j: nat :: runBefore(j) == FourDigitsAt(original, j);
    match FirstFrom(0, |rest| + 1, token)
    case Some(j) => Some(YearAt(rest, j))
    case None =>
      match FirstFrom(0, |rest| + 1, run)
      case Some(j) => Some(YearAt(rest, j))
      case None =>
        match FirstFrom(0, |original| + 1, runBefore)
        case Some(j) => Some(YearAt(original, j))
        case None => None
  }

  // ---------------------------------------------------------------------
  // Period type: ordered substring tests on the lower-cased text

  datatype PeriodType = FullYear | HalfYear | NineMonths | SixMonths | ThreeMonths

  /** The markers of each period type; the half-year marker is spelled with
      a Latin i, a digit one and a Ukrainian і. */
  const HalfYearMarkers: seq<string> := ["i полугодие", "1 полугодие", "\U{456} полугодие"]
  const NineMonthsMarkers: seq<string> := ["9 месяцев", "9 мес"]
  const SixMonthsMarkers: seq<string> := ["6 месяцев", "6 мес"]
  const ThreeMonthsMarkers: seq<string> := ["3 месяца", "3 мес"]

  /** The ranked rules, tried in this order; the first that hits wins. */
  const PeriodRules: seq<(PeriodType, seq<string>)> := [
    (HalfYear, HalfYearMarkers),
    (NineMonths, NineMonthsMarkers),
    (SixMonths, SixMonthsMarkers),
    (ThreeMonths, ThreeMonthsMarkers)
  ]

  predicate Mentions(text: string, markers: seq<string>) {
    exists k | 0 <= k < |markers| :: Contains(text, markers[k])
  }

  /** The first rule whose markers occur in the text, or the default. */
  function FirstRule(rules: seq<(PeriodType, seq<string>)>, text: string, default: PeriodType): (r: PeriodType)
    ensures (forall k | 0 <= k < |rules| :: !Mentions(text, rules[k].1)) ==> r == default
    ensures forall k | 0 <= k < |rules| ::
      Mentions(text, rules[k].1) && (forall j | 0 <= j < k :: !Mentions(text, rules[j].1)) ==> r == rules[k].0
  {
    if rules == [] then default
    else if Mentions(text, rules[0].1) then rules[0].0
    else FirstRule(rules[1..], text, default)
  }

  /** The period type of a (year-stripped) period text. */
  function ClassifyPeriod(period: string): (r: PeriodType)
    ensures var t := Lower(period);
      var half, nine, six, three :=
        Mentions(t, HalfYearMarkers), Mentions(t, NineMonthsMarkers),
        Mentions(t, SixMonthsMarkers), Mentions(t, ThreeMonthsMarkers);
      && (r == HalfYear <==> half)
      && (r == NineMonths <==> !half && nine)
      && (r == SixMonths <==> !half && !nine && six)
      && (r == ThreeMonths <==> !half && !nine && !six && three)
      && (r == FullYear <==> !half && !nine && !six && !three)
  {
    var t := Lower(period);
    var rules := PeriodRules;
    assert rules[0].1 == HalfYearMarkers && rules[1].1 == NineMonthsMarkers;
    assert rules[2].1 == SixMonthsMarkers && rules[3].1 == ThreeMonthsMarkers;
    FirstRule(rules, t, FullYear)
  }

  // ---------------------------------------------------------------------
  // The whole period cell

  datatype PeriodInfo = PeriodInfo(closing: Option<DateText>, year: nat, periodType: PeriodType)

  /** `period.replace('\n', ' ').strip()` */
  function Normalize(period: string): string {
    Strip(ReplaceChar(period, '\n', ' '))
  }

  /** The period text once every occurrence of the closing date's year has
      been deleted from it. */
  function WithoutDateYear(text: string, closing: Option<DateText>): string
    requires closing.Some? ==> WellFormed(closing.value)
  {
    if closing.Some? then DeleteAll(text, closing.value.year) else text
  }

  /** The period part of a row, given its stripped first cell; None when no
      year can be found, and the row then yields no records. */
  function ParsePeriod(period: string): (r: Option<PeriodInfo>)
    ensures var text := Normalize(period);
      var year := ResolveYear(WithoutDateYear(text, ClosingDate(text)), period);
      && (r.None? <==> year.None?)
      && (r.Some? ==> Some(r.value.year) == year)
    ensures r.Some? ==> r.value.year <= 9999
    ensures r.Some? ==> r.value.closing == ClosingDate(Normalize(period))
    ensures var text := Normalize(period);
      r.Some? ==> r.value.periodType == ClassifyPeriod(WithoutDateYear(text, ClosingDate(text)))
  {
    var text := Normalize(period);
    var closing := ClosingDate(text);
    var rest := WithoutDateYear(text, closing);
    match ResolveYear(rest, period)
    case None => None
    case Some(y) => Some(PeriodInfo(closing, y, ClassifyPeriod(rest)))
  }

  // ---------------------------------------------------------------------
  // Properties

  lemma FourDigitsInInfix(s: string, r: string, i: nat, j: nat)
    requires InfixAt(s, r, i) && FourDigitsAt(r, j)
    ensures FourDigitsAt(s, i + j)
  {
    assert forall k | j <= k < j + 4 :: r[k] == s[i + k];
  }

  lemma FourDigitsBeforeNewlines(s: string, j: nat)
    requires FourDigitsAt(ReplaceChar(s, '\n', ' '), j)
    ensures FourDigitsAt(s, j)
  {
    var t := ReplaceChar(s, '\n', ' ');
    assert forall k | j <= k < j + 4 :: s[k] == t[k] || t[k] == ' ';
  }

  /** A four-digit run in the normalised text was already in the cell. */
  lemma NormalizeKeepsNoRun(period: string)
    requires !HasFourDigits(period)
    ensures !HasFourDigits(Normalize(period))
  {
    var t := ReplaceChar(period, '\n', ' ');
    var n := Strip(t);
    forall j | 0 <= j <= |n|
      ensures !FourDigitsAt(n, j)
    {
      if FourDigitsAt(n, j) {
        var i :| 0 <= i <= |t| && InfixAt(t, n, i);
        FourDigitsInInfix(t, n, i, j);
        FourDigitsBeforeNewlines(period, i + j);
        assert HasFourDigits(period);
      }
    }
  }

  /** A closing date brings its four-digit year with it. */
  lemma DateNeedsRun(s: string)
    requires ClosingDate(s).Some?
    ensures HasFourDigits(s)
  {
    var i :| 0 <= i <= |s| && BareDateAt(s, i);
    var w := if DateShapeAt(s, i, 2) then 2 else 1;
    DigitsInSlice(s, i + w + 4);
  }

  lemma DigitsInSlice(s: string, j: nat)
    requires j + 4 <= |s| && AllDigits(s[j..j + 4])
    ensures FourDigitsAt(s, j)
  {
    forall k | j <= k < j + 4
      ensures IsDigit(s[k])
    {
      assert s[k] == s[j..j + 4][k - j];
    }
  }

  /** A row's period yields no year, and the row no record, exactly when
      its first cell holds no run of four digits anywhere. */
  lemma NoYearIffNoFourDigits(period: string)
    ensures ParsePeriod(period).None? <==> !HasFourDigits(period)
  {
    var text := Normalize(period);
    if !HasFourDigits(period) {
      NormalizeKeepsNoRun(period);
      if ClosingDate(text).Some? {
        DateNeedsRun(text);
      }
      assert WithoutDateYear(text, ClosingDate(text)) == text;
    }
  }

  // ---------------------------------------------------------------------
  // A worked example

  const ExampleCell := "закрытие реестра 9.07.2025 2024"
  /** The cell with the date's year deleted. */
  const ExampleRest := "закрытие реестра 9.07. 2024"

  /** A row with closing date 9.07.2025 paid for 2024: the day is padded,
      the date's year 2025 is deleted before the year is looked for, so
      the payment year is the 2024 that stands alone, and with no period
      marker the period is the full year. */
  lemma ParsePeriodExample()
    ensures ParsePeriod(ExampleCell) == Some(PeriodInfo(Some(DateText("09", "07", "2025")), 2024, FullYear))
  {
    ExampleNormal();
    ExampleClosing();
    ExampleDeletion();
    ExampleYear();
    ExampleType();
  }

  lemma ExampleNormal()
    ensures Normalize(ExampleCell) == ExampleCell
  {
    var e := ExampleCell;
    CellChars();
    ReplaceAbsent(e, '\n', ' ');
    StripTrimmed(e);
  }

  lemma CellChars()
    ensures '\n' !in ExampleCell
    ensures !IsSpace(ExampleCell[0]) && !IsSpace(ExampleCell[|ExampleCell| - 1])
  {
  }

  lemma ExampleClosing()
    ensures ClosingDate(ExampleCell) == Some(DateText("09", "07", "2025"))
  {
    CellDate();
    assert LabelledDateAt(ExampleCell, 0);
  }

  lemma CellDate()
    ensures ExampleCell[..|ClosingLabel|] == ClosingLabel
    ensures DateAt(ExampleCell, |ClosingLabel|) == Some(DateText("09", "07", "2025"))
  {
    var e := ExampleCell;
    CellSlices();
    assert !DateShapeAt(e, 17, 2) by {
      assert e[17..19][1] == '.';
    }
    assert e[17..18] == "9";
    assert "0" + e[17..18] == "09";
    assert e[19..21] == "07";
    assert e[22..26] == "2025";
    assert DateShapeAt(e, 17, 1);
  }

  lemma CellSlices()
    ensures ExampleCell[..|ClosingLabel|] == ClosingLabel
    ensures |ClosingLabel| == 17 && |ExampleCell| == 31
    ensures ExampleCell[17] == '9' && ExampleCell[18] == '.'
    ensures ExampleCell[19] == '0' && ExampleCell[20] == '7' && ExampleCell[21] == '.'
    ensures ExampleCell[22] == '2' && ExampleCell[23] == '0' && ExampleCell[24] == '2' && ExampleCell[25] == '5'
  {
  }

  lemma ExampleDeletion()
    ensures WithoutDateYear(ExampleCell, Some(DateText("09", "07", "2025"))) == ExampleRest
  {
    var head, pat, tail := "закрытие реестра 9.07.", "2025", " 2024";
    ExampleSplit();
    MissingChar(head + "202", pat, 3);
    DeleteAllFirst(head, pat, tail);
    MissingChar(tail, pat, 3);
  }

  lemma ExampleSplit()
    ensures ExampleCell == "закрытие реестра 9.07." + "2025" + " 2024"
    ensures ExampleRest == "закрытие реестра 9.07." + " 2024"
    ensures "2025"[3] == '5' && "2025"[..3] == "202"
    ensures '5' !in "закрытие реестра 9.07." + "202" && '5' !in " 2024"
  {
  }

  lemma ExampleYear()
    ensures ResolveYear(ExampleRest, ExampleCell) == Some(2024)
  {
    var r := ExampleRest;
    RestDigits();
    assert YearTokenAt(r, 23);
    forall j | 0 <= j < 23
      ensures !FourDigitsAt(r, j)
    {
      if j < 17 {
        assert !IsDigit(r[j]);
      } else if j < 19 {
        assert !IsDigit(r[18]);
      } else if j < 22 {
        assert !IsDigit(r[21]);
      } else {
        assert !IsDigit(r[22]);
      }
    }
  }

  lemma RestDigits()
    ensures |ExampleRest| == 27 && ExampleRest[22] == ' '
    ensures ExampleRest[23..27] == "2024" && DigitsValue("2024") == 2024
    ensures forall j | 0 <= j < 17 :: !IsDigit(ExampleRest[j])
    ensures ExampleRest[18] == '.' && ExampleRest[21] == '.'
  {
    assert "2024"[..3] == "202" && "202"[..2] == "20" && "20"[..1] == "2";
  }

  lemma ExampleType()
    ensures ClassifyPeriod(ExampleRest) == FullYear
  {
    RestNoMarkers();
  }

  lemma RestNoMarkers()
    ensures var t := Lower(ExampleRest);
      && !Mentions(t, HalfYearMarkers) && !Mentions(t, NineMonthsMarkers)
      && !Mentions(t, SixMonthsMarkers) && !Mentions(t, ThreeMonthsMarkers)
  {
    var r := ExampleRest;
    RestLower();
    MarkerLetters();
    NoMarker(r, HalfYearMarkers, 'п');
    NoMarker(r, NineMonthsMarkers, 'м');
    NoMarker(r, SixMonthsMarkers, 'м');
    NoMarker(r, ThreeMonthsMarkers, 'м');
  }

  lemma RestLower()
    ensures Lower(ExampleRest) == ExampleRest
    ensures 'м' !in ExampleRest && 'п' !in ExampleRest
  {
    RestSmall();
    LowerSmall(ExampleRest);
  }

  lemma RestSmall()
    ensures forall i | 0 <= i < |ExampleRest| :: LowerChar(ExampleRest[i]) == ExampleRest[i]
    ensures 'м' !in ExampleRest && 'п' !in ExampleRest
  {
  }

  /** Every marker has c as its third letter. */
  predicate ThirdLetter(markers: seq<string>, c: char) {
    forall k | 0 <= k < |markers| :: |markers[k]| > 2 && markers[k][2] == c
  }

  lemma MarkerLetters()
    ensures ThirdLetter(HalfYearMarkers, 'п')
    ensures ThirdLetter(NineMonthsMarkers, 'м') && ThirdLetter(SixMonthsMarkers, 'м')
    ensures ThirdLetter(ThreeMonthsMarkers, 'м')
  {
  }

  /** Markers whose third letter is missing from the text do not occur in
      it. */
  lemma NoMarker(t: string, markers: seq<string>, c: char)
    requires c !in t && ThirdLetter(markers, c)
    ensures !Mentions(t, markers)
  {
    forall k | 0 <= k < |markers|
      ensures !Contains(t, markers[k])
    {
      MissingChar(t, markers[k], 2);
    }
  }
}
