/** `get_dividend_history` once the page is in hand (dividend_parser.py,
    lines 86-252): find the dividend table, turn each of its rows into
    records for the ordinary and the preferred shares, and order both
    lists by year, latest first. An exception anywhere makes the whole call
    return an empty result. */
module Dividends {
  import opened Text
  import opened Dates
  import opened Period
  import opened Amounts

  /** A `<tr>` of the page: its text, as `row.text` gives it, and the texts
      of its `<td>`/`<th>` cells. */
  datatype Row = Row(text: string, cells: seq<string>)

  /** A `<table>`, as the list of its rows. */
  type Table = seq<Row>

  /** One line of the result. A missing closing date is pandas' `NaT`. */
  datatype Record = Record(closingDate: Option<Date>, year: nat, periodType: PeriodType, value: Decimal)

  // ---------------------------------------------------------------------
  // Finding the dividend table (lines 90-103)

  const Keywords: seq<string> := ["период", "дивиденд", "выплат", "акци"]

  /** The texts of the rows, stripped and lower-cased. */
  function RowTexts(table: Table): (r: seq<string>)
    ensures |r| == |table|
    ensures forall i | 0 <= i < |table| :: r[i] == Lower(Strip(table[i].text))
  {
    seq(|table|, i requires 0 <= i < |table| => Lower(Strip(table[i].text)))
  }

  /** `' '.join(row.text.strip().lower() for row in rows)`. */
  function TableText(table: Table): string {
    Join(RowTexts(table), " ")
  }

  predicate MentionsKeyword(text: string) {
    exists k | 0 <= k < |Keywords| :: Contains(text, Keywords[k])
  }

  /** A table with rows whose text mentions one of the keywords. */
  predicate IsDividendTable(table: Table) {
    |table| > 0 && MentionsKeyword(TableText(table))
  }

  /** No keyword spans two rows: the joined text mentions a keyword exactly
      when the text of one of the rows does. */
  lemma KeywordInSomeRow(table: Table, k: nat)
    requires k < |Keywords|
    ensures Contains(TableText(table), Keywords[k]) <==>
      exists i | 0 <= i < |table| :: Contains(Lower(Strip(table[i].text)), Keywords[k])
  {
    assert ' ' !in Keywords[k];
    JoinContains(RowTexts(table), ' ', Keywords[k]);
    var texts := RowTexts(table);
    assert forall i | 0 <= i < |table| :: texts[i] == Lower(Strip(table[i].text));
  }

  /** The index of the first dividend table of the page. */
  function FirstDividendTable(tables: seq<Table>): (r: Option<nat>)
    ensures r.Some? ==> r.value < |tables| && IsDividendTable(tables[r.value])
    ensures r.Some? ==> forall i | 0 <= i < r.value :: !IsDividendTable(tables[i])
    ensures r.None? <==> forall i | 0 <= i < |tables| :: !IsDividendTable(tables[i])
  {
    var dividend := (i: nat) => i < |tables| && IsDividendTable(tables[i]);
    assert forall i: nat :: dividend(i) == (i < |tables| && IsDividendTable(tables[i]));
    FirstFrom(0, |tables|, dividend)
  }

  /** The table loop: tables without rows are passed over, and the first
      whose text mentions a keyword is taken. */
  method LocateTable(tables: seq<Table>) returns (found: Option<nat>)
    ensures found == FirstDividendTable(tables)
  {
    found := None;
    for i := 0 to |tables|
      invariant forall j | 0 <= j < i :: !IsDividendTable(tables[j])
    {
      var rows := tables[i];
      if |rows| == 0 {
        continue;
      }
      var text := TableText(rows);
      if MentionsKeyword(text) {
        found := Some(i);
        break;
      }
    }
    var first := FirstDividendTable(tables);
    if first.Some? && found.Some? {
      assert first.value <= found.value && found.value <= first.value;
    }
  }

  // ---------------------------------------------------------------------
  // One row (lines 111-228)

  const HeaderCell := "Период выплаты"
  const TotalMarker := "ИТОГО"

  /** A row the loop reads: at least two cells, and a first cell that is
      neither the header nor a total. */
  predicate IsDataRow(cells: seq<string>) {
    |cells| >= 2 && Strip(cells[0]) != HeaderCell && !Contains(Strip(cells[0]), TotalMarker)
  }

  /** `pd.to_datetime(closing_date, format='%d.%m.%Y') if closing_date else
      pd.NaT`: the outer None is the exception raised on a date pandas
      rejects. */
  function Stamp(closing: Option<DateText>): (r: Option<Option<Date>>)
    requires closing.Some? ==> WellFormed(closing.value)
    ensures closing.None? ==> r == Some(None)
    ensures closing.Some? ==> (r.None? <==> ToTimestamp(closing.value).None?)
    ensures closing.Some? && ToTimestamp(closing.value).Some? ==> r == Some(ToTimestamp(closing.value))
    ensures r.Some? && r.value.Some? ==> IsCalendarDate(r.value.value) && InTimestampRange(r.value.value)
  {
    match closing
    case None => Some(None)
    case Some(t) =>
      match ToTimestamp(t)
      case None => None
      case Some(d) => Some(Some(d))
  }

  /** What a row gives: an exception that ends the whole call, or the
      ordinary-share record and the preferred-share record it adds (each
      possibly none). */
  datatype RowOutcome = Raised | Yields(ordinary: Option<Record>, preferred: Option<Record>)

  predicate WellFormedRecord(r: Record) {
    && r.year <= 9999
    && (r.closingDate.Some? ==> IsCalendarDate(r.closingDate.value) && InTimestampRange(r.closingDate.value))
  }

  /** The two records of a row share the closing date, the year and the
      period type; only the amount differs. */
  predicate SamePayout(a: Record, b: Record) {
    a.closingDate == b.closingDate && a.year == b.year && a.periodType == b.periodType
  }

  /** What every row outcome satisfies: no preferred record without the
      ordinary one, the two agreeing on everything but the amount, and
      each record well formed. */
  predicate Coherent(r: RowOutcome) {
    r.Yields? ==>
      && (r.ordinary.Some? ==> WellFormedRecord(r.ordinary.value))
      && (r.preferred.Some? ==>
            r.ordinary.Some? && SamePayout(r.ordinary.value, r.preferred.value) && WellFormedRecord(r.preferred.value))
  }

  /** The body of the row loop for one row's cells. The amount of the
      third cell is None where the row has no third cell. */
  function ProcessRow(cells: seq<string>): RowOutcome {
    if !IsDataRow(cells) then Yields(None, None)
    else
      RowFrom(ParsePeriod(Strip(cells[0])), ParseAmount(Strip(cells[1])),
        if |cells| >= 3 then Some(ParseAmount(Strip(cells[2]))) else None)
  }

  /** A period whose closing date has the `DD.MM.YYYY` shape, as every
      period the parser reads has. */
  predicate ClosingShaped(period: Option<PeriodInfo>) {
    period.Some? && period.value.closing.Some? ==> WellFormed(period.value.closing.value)
  }

  /** A data row, from what its cells read as, taken in the order of the
      source: no year, or no number in the second cell, and the row is
      passed over; an amount float() rejects, or a date pandas rejects,
      raises; then the preferred-share amount, when there is a third cell. */
  function RowFrom(period: Option<PeriodInfo>, amount: Amount, preferredAmount: Option<Amount>): RowOutcome
    requires ClosingShaped(period)
  {
    match period
    case None => Yields(None, None)
    case Some(info) =>
      match amount
      case NoAmount => Yields(None, None)
      case Unconvertible => Raised
      case Amount(v) =>
        match Stamp(info.closing)
        case None => Raised
        case Some(date) =>
          var ordinary := Record(date, info.year, info.periodType, v);
          match preferredAmount
          case None => Yields(Some(ordinary), None)
          case Some(NoAmount) => Yields(Some(ordinary), None)
          case Some(Unconvertible) => Raised
          case Some(Amount(w)) => Yields(Some(ordinary), Some(ordinary.(value := w)))
  }

  /** The parsed cells are where each record of a row comes from: the
      period gives the closing date, the year and the period type, the
      second cell the ordinary amount and the third the preferred one. A
      row with a year and a number in its second cell gives an ordinary
      record unless it raises. */
  lemma RowFromSources(period: Option<PeriodInfo>, amount: Amount, preferredAmount: Option<Amount>)
    requires ClosingShaped(period)
    ensures var r := RowFrom(period, amount, preferredAmount);
      r.Yields? && r.ordinary.Some? ==>
        && period.Some? && amount == Amount(r.ordinary.value.value)
        && r.ordinary.value.year == period.value.year
        && r.ordinary.value.periodType == period.value.periodType
        && Stamp(period.value.closing) == Some(r.ordinary.value.closingDate)
    ensures var r := RowFrom(period, amount, preferredAmount);
      r.Yields? && r.preferred.Some? ==>
        preferredAmount == Some(Amount(r.preferred.value.value))
    ensures var r := RowFrom(period, amount, preferredAmount);
      period.Some? && amount.Amount? ==> r.Raised? || r.ordinary.Some?
    ensures var r := RowFrom(period, amount, preferredAmount);
      period.None? || amount.NoAmount? ==> r == Yields(None, None)
  {
  }

  /** The two records of a row agree on everything but the amount, and
      each is well formed. */
  lemma RowCoherent(cells: seq<string>)
    ensures Coherent(ProcessRow(cells))
  {
    if IsDataRow(cells) {
      RowIs(cells);
      FromCoherent(ParsePeriod(Strip(cells[0])), ParseAmount(Strip(cells[1])),
        if |cells| >= 3 then Some(ParseAmount(Strip(cells[2]))) else None);
    } else {
      NotDataRow(cells);
    }
  }

  /** A data row with a year of at most four digits gives coherent
      records. */
  lemma FromCoherent(period: Option<PeriodInfo>, amount: Amount, third: Option<Amount>)
    requires ClosingShaped(period) && (period.Some? ==> period.value.year <= 9999)
    ensures Coherent(RowFrom(period, amount, third))
  {
  }

  /** Where the records of a row come from: the period cell gives the
      year and the period type, the second cell the ordinary amount and
      the third the preferred one. */
  lemma RowSources(cells: seq<string>)
    ensures var r := ProcessRow(cells);
      r.Yields? && r.ordinary.Some? ==>
        && IsDataRow(cells)
        && ParsePeriod(Strip(cells[0])).Some?
        && r.ordinary.value.year == ParsePeriod(Strip(cells[0])).value.year
        && r.ordinary.value.periodType == ParsePeriod(Strip(cells[0])).value.periodType
        && ParseAmount(Strip(cells[1])) == Amount(r.ordinary.value.value)
    ensures var r := ProcessRow(cells);
      r.Yields? && r.preferred.Some? ==>
        && |cells| >= 3
        && ParseAmount(Strip(cells[2])) == Amount(r.preferred.value.value)
  {
    if IsDataRow(cells) {
      var period := ParsePeriod(Strip(cells[0]));
      var amount := ParseAmount(Strip(cells[1]));
      var preferred := if |cells| >= 3 then Some(ParseAmount(Strip(cells[2]))) else None;
      RowIs(cells);
      RowFromSources(period, amount, preferred);
    } else {
      NotDataRow(cells);
    }
  }

  /** A cell that says no dividend is paid gives a zero amount. */
  lemma RowSentinel(cells: seq<string>)
    ensures var r := ProcessRow(cells);
      IsDataRow(cells) && Contains(Strip(cells[1]), Sentinel) && r.Yields? && r.ordinary.Some? ==>
        r.ordinary.value.value == Decimal(0, 0)
    ensures var r := ProcessRow(cells);
      |cells| >= 3 && Contains(Strip(cells[2]), Sentinel) && r.Yields? && r.preferred.Some? ==>
        r.preferred.value.value == Decimal(0, 0)
  {
    RowSources(cells);
  }

  // ---------------------------------------------------------------------
  // The row loop (lines 106-228)

  /** The lists the row loop builds, or the exception that ended it. */
  datatype Extraction = Aborted | Extracted(ordinary: seq<Record>, preferred: seq<Record>)

  function Listed(r: Option<Record>): seq<Record> {
    if r.Some? then [r.value] else []
  }

  /** The lists after one more row. */
  function Step(e: Extraction, outcome: RowOutcome): Extraction {
    match e
    case Aborted => Aborted
    case Extracted(o, p) =>
      match outcome
      case Raised => Aborted
      case Yields(a, b) => Extracted(o + Listed(a), p + Listed(b))
  }

  /** The row loop over a table, for a given handler of one row: the rows
      taken in order, the first exception ending it. */
  function RowLoop(table: Table, row: seq<string> -> RowOutcome): Extraction {
    if table == [] then Extracted([], [])
    else Step(RowLoop(table[..|table| - 1], row), row(table[|table| - 1].cells))
  }

  /** The row loop of `get_dividend_history`. */
  function Collect(table: Table): Extraction {
    RowLoop(table, ProcessRow)
  }

  /** Lists of well-formed records, no more preferred-share records than
      ordinary ones, and each preferred-share record beside an ordinary one
      for the same payout. */
  predicate CoherentLists(e: Extraction) {
    e.Extracted? ==>
      && |e.preferred| <= |e.ordinary|
      && (forall k | 0 <= k < |e.ordinary| :: WellFormedRecord(e.ordinary[k]))
      && (forall k | 0 <= k < |e.preferred| :: WellFormedRecord(e.preferred[k]))
      && Paired(e.ordinary, e.preferred)
  }

  /** Some record of o is for the same payout as r. */
  predicate HasPartner(o: seq<Record>, r: Record) {
    exists j | 0 <= j < |o| :: SamePayout(o[j], r)
  }

  /** Each record of p is beside a record of o for the same payout. */
  predicate Paired(o: seq<Record>, p: seq<Record>) {
    forall k | 0 <= k < |p| :: HasPartner(o, p[k])
  }

  /** With a handler whose outcomes are coherent, the loop builds lists of
      well-formed records, no more preferred-share records than ordinary
      ones, and each preferred-share record beside an ordinary one for the
      same payout. */
  lemma {:induction false} LoopCoherent(table: Table, row: seq<string> -> RowOutcome)
    requires forall cells :: Coherent(row(cells))
    ensures CoherentLists(RowLoop(table, row))
  {
    if table != [] {
      var init := table[..|table| - 1];
      var last := row(table[|table| - 1].cells);
      LoopCoherent(init, row);
      match RowLoop(init, row)
      case Aborted =>
      case Extracted(o, p) =>
        match last
        case Raised =>
        case Yields(a, b) =>
          var o', p' := o + Listed(a), p + Listed(b);
          assert RowLoop(table, row) == Extracted(o', p');
          assert Coherent(last);
          PairedExtend(o, p, a, b);
    }
  }

  /** Appending one row's records keeps every preferred-share record beside
      an ordinary one. */
  lemma PairedExtend(o: seq<Record>, p: seq<Record>, a: Option<Record>, b: Option<Record>)
    requires Paired(o, p)
    requires b.Some? ==> a.Some? && SamePayout(a.value, b.value)
    ensures Paired(o + Listed(a), p + Listed(b))
  {
    var o', p' := o + Listed(a), p + Listed(b);
    forall k | 0 <= k < |p'|
      ensures HasPartner(o', p'[k])
    {
      if k < |p| {
        assert HasPartner(o, p[k]);
        var j :| 0 <= j < |o| && SamePayout(o[j], p[k]);
        assert o'[j] == o[j] && p'[k] == p[k];
      } else {
        assert o'[|o|] == a.value && p'[k] == b.value;
      }
    }
  }

  /** The loop ends in an exception exactly when one of the rows raises
      one. */
  lemma {:induction false} AbortedIffRaised(table: Table, row: seq<string> -> RowOutcome)
    ensures RowLoop(table, row).Aborted? <==> exists k | 0 <= k < |table| :: row(table[k].cells).Raised?
  {
    if table != [] {
      var init := table[..|table| - 1];
      AbortedIffRaised(init, row);
      assert forall k | 0 <= k < |init| :: init[k] == table[k];
    }
  }

  /** Every row gives a coherent outcome. */
  lemma RowsCoherent()
    ensures forall cells :: Coherent(ProcessRow(cells))
  {
    forall cells: seq<string>
      ensures Coherent(ProcessRow(cells))
    {
      RowCoherent(cells);
    }
  }

  /** The row loop of `get_dividend_history` builds coherent lists. */
  lemma CollectCoherent(table: Table)
    ensures CoherentLists(Collect(table))
  {
    RowsCoherent();
    LoopCoherent(table, ProcessRow);
  }

  /** The row loop as the source writes it: the cells are read one by one,
      the preferred-share column is remembered in a flag that stays set,
      and each `continue` and each raised exception leaves the row (or the
      call) where the source does. */
  method ExtractRows(table: Table) returns (r: Extraction)
    ensures r == Collect(table)
  {
    var ordinary: seq<Record> := [];
    var preferred: seq<Record> := [];
    var hasPreferredShares := false;
    for i := 0 to |table|
      invariant Collect(table[..i]) == Extracted(ordinary, preferred)
      invariant hasPreferredShares == HasThirdColumn(table[..i])
    {
      assert table[..i + 1][..i] == table[..i];
      LoopStep(table, i, ProcessRow);
      var outcome;
      outcome, hasPreferredShares := ReadRow(table[i].cells, hasPreferredShares);
      match outcome
      case Raised =>
        AbortedStays(table, i + 1, ProcessRow);
        return Aborted;
      case Yields(a, b) =>
        ordinary := ordinary + Listed(a);
        preferred := preferred + Listed(b);
    }
    assert table[..|table|] == table;
    r := Extracted(ordinary, preferred);
  }

  /** Some row of the table has a third cell. */
  predicate HasThirdColumn(table: Table) {
    table != [] && (HasThirdColumn(table[..|table| - 1]) || |table[|table| - 1].cells| >= 3)
  }

  /** The body of the row loop as the source writes it: the cells are read
      one by one, each `continue` leaves the row where the source does, and
      the flag that a third column was seen stays set. */
  method ReadRow(cells: seq<string>, hasPreferredShares: bool) returns (outcome: RowOutcome, flag: bool)
    ensures outcome == ProcessRow(cells)
    ensures flag <==> hasPreferredShares || |cells| >= 3
  {
    flag := hasPreferredShares;
    if |cells| < 2 {
      NotDataRow(cells);
      return Yields(None, None), flag;
    }
    var period := Strip(cells[0]);
    var dividend := Strip(cells[1]);
    var preferredDividend := "";
    if |cells| >= 3 {
      flag := true;
      preferredDividend := Strip(cells[2]);
    }
    if period == HeaderCell || Contains(period, TotalMarker) {
      NotDataRow(cells);
      return Yields(None, None), flag;
    }
    RowIs(cells);
    ghost var third := if |cells| >= 3 then Some(ParseAmount(preferredDividend)) else None;
    var info := ParsePeriod(period);
    if info.None? {
      FromNothing(info, NoAmount, third);
      return Yields(None, None), flag;
    }
    var amount := ParseAmount(dividend);
    if amount.NoAmount? {
      FromNothing(info, amount, third);
      return Yields(None, None), flag;
    }
    // The record's fields are built in order: the closing date first,
    // then float() of the amount.
    var date := Stamp(info.value.closing);
    if date.None? {
      FromRaises(info, amount, third);
      return Raised, flag;
    }
    if amount.Unconvertible? {
      FromRaises(info, amount, third);
      return Raised, flag;
    }
    var record := Record(date.value, info.value.year, info.value.periodType, amount.value);
    if flag && |cells| >= 3 {
      var preferredAmount := ParseAmount(preferredDividend);
      if preferredAmount.NoAmount? {
        FromRecords(info, amount, third, record);
        return Yields(Some(record), None), flag;
      }
      if preferredAmount.Unconvertible? {
        FromRaises(info, amount, third);
        return Raised, flag;
      }
      FromRecords(info, amount, third, record);
      return Yields(Some(record), Some(record.(value := preferredAmount.value))), flag;
    }
    FromRecords(info, amount, third, record);
    outcome := Yields(Some(record), None);
  }

  /** A row without a year, or without a number in its second cell, is
      passed over. */
  lemma FromNothing(period: Option<PeriodInfo>, amount: Amount, third: Option<Amount>)
    requires ClosingShaped(period) && (period.None? || amount.NoAmount?)
    ensures RowFrom(period, amount, third) == Yields(None, None)
  {
  }

  /** The ways a data row raises: an amount float() rejects, or a closing
      date pandas rejects. */
  lemma FromRaises(period: Option<PeriodInfo>, amount: Amount, third: Option<Amount>)
    requires ClosingShaped(period) && period.Some?
    requires || amount.Unconvertible?
      || (amount.Amount? && Stamp(period.value.closing).None?)
      || (amount.Amount? && Stamp(period.value.closing).Some? && third == Some(Unconvertible))
    ensures RowFrom(period, amount, third) == Raised
  {
  }

  /** A data row that does not raise gives its ordinary record, and the
      preferred one when its third cell holds a number. */
  lemma FromRecords(period: Option<PeriodInfo>, amount: Amount, third: Option<Amount>, record: Record)
    requires ClosingShaped(period) && period.Some? && amount.Amount?
    requires Stamp(period.value.closing).Some? && third != Some(Unconvertible)
    requires record == Record(Stamp(period.value.closing).value, period.value.year, period.value.periodType, amount.value)
    ensures RowFrom(period, amount, third) ==
      Yields(Some(record), if third.Some? && third.value.Amount? then Some(record.(value := third.value.value)) else None)
  {
  }

  /** One more row of the loop. */
  lemma LoopStep(table: Table, i: nat, row: seq<string> -> RowOutcome)
    requires i < |table|
    ensures RowLoop(table[..i + 1], row) == Step(RowLoop(table[..i], row), row(table[i].cells))
  {
    assert table[..i + 1][..i] == table[..i];
  }

  /** A data row is what its parsed cells make of it. */
  lemma RowIs(cells: seq<string>)
    requires IsDataRow(cells)
    ensures ProcessRow(cells) == RowFrom(ParsePeriod(Strip(cells[0])), ParseAmount(Strip(cells[1])),
      if |cells| >= 3 then Some(ParseAmount(Strip(cells[2]))) else None)
  {
  }

  /** A header, a total or a short row gives nothing. */
  lemma NotDataRow(cells: seq<string>)
    requires !IsDataRow(cells)
    ensures ProcessRow(cells) == Yields(None, None)
  {
  }

  /** Once the loop has raised, the rest of the table changes nothing. */
  lemma {:induction false} AbortedStays(table: Table, i: nat, row: seq<string> -> RowOutcome)
    requires i <= |table| && RowLoop(table[..i], row) == Aborted
    ensures RowLoop(table, row) == Aborted
    decreases |table| - i
  {
    if i < |table| {
      assert table[..i + 1][..i] == table[..i];
      AbortedStays(table, i + 1, row);
    } else {
      assert table[..i] == table;
    }
  }

  // ---------------------------------------------------------------------
  // sort_values('year', ascending=False) (lines 234-235, 251-252)

  predicate ByYearDescending(s: seq<Record>) {
    forall i, j | 0 <= i < j < |s| :: s[i].year >= s[j].year
  }

  function InsertByYear(r: Record, s: seq<Record>): (t: seq<Record>)
    requires ByYearDescending(s)
    ensures ByYearDescending(t)
    ensures multiset(t) == multiset(s) + multiset{r}
    ensures |t| == |s| + 1
    ensures t[0] == r || (s != [] && t[0] == s[0])
  {
    if s == [] || s[0].year <= r.year then [r] + s
    else
      var t' := InsertByYear(r, s[1..]);
      assert s == [s[0]] + s[1..];
      assert s[0].year >= t'[0].year;
      [s[0]] + t'
  }

  /** The records ordered by year, latest first. */
  function SortByYear(s: seq<Record>): (t: seq<Record>)
    ensures ByYearDescending(t)
    ensures multiset(t) == multiset(s)
    ensures |t| == |s|
  {
    if s == [] then []
    else
      assert s == [s[0]] + s[1..];
      InsertByYear(s[0], SortByYear(s[1..]))
  }

  // ---------------------------------------------------------------------
  // The whole call

  /** What the call leaves: the ordinary-share records it returns and the
      preferred-share records it writes beside them, both empty when an
      exception was raised. */
  datatype History = History(ordinary: seq<Record>, preferred: seq<Record>)

  /** The history of a page with the given tables. */
  function DividendHistory(tables: seq<Table>): History {
    match FirstDividendTable(tables)
    case None => History([], [])
    case Some(i) => Finish(Collect(tables[i]))
  }

  /** The lists the row loop left, each ordered by year, latest first; an
      exception leaves both empty. */
  function Finish(e: Extraction): History {
    match e
    case Aborted => History([], [])
    case Extracted(o, p) => History(SortByYear(o), SortByYear(p))
  }

  /** Ordering keeps the records the loop built and the bounds between the
      two lists. */
  lemma {:induction false} FinishKeeps(e: Extraction)
    requires CoherentLists(e)
    ensures var h := Finish(e);
      && ByYearDescending(h.ordinary) && ByYearDescending(h.preferred)
      && (e.Extracted? ==> multiset(h.ordinary) == multiset(e.ordinary))
      && (e.Extracted? ==> multiset(h.preferred) == multiset(e.preferred))
      && |h.preferred| <= |h.ordinary|
      && (forall k | 0 <= k < |h.ordinary| :: WellFormedRecord(h.ordinary[k]))
      && (forall k | 0 <= k < |h.preferred| :: WellFormedRecord(h.preferred[k]))
      && Paired(h.ordinary, h.preferred)
  {
    if e.Extracted? {
      var o, p := e.ordinary, e.preferred;
      WellFormedPermuted(o, SortByYear(o));
      WellFormedPermuted(p, SortByYear(p));
      PairedPermuted(o, p, SortByYear(o), SortByYear(p));
    }
  }

  /** Reordering either list keeps each preferred-share record beside an
      ordinary one for the same payout. */
  lemma PairedPermuted(o: seq<Record>, p: seq<Record>, o': seq<Record>, p': seq<Record>)
    requires Paired(o, p) && multiset(o) == multiset(o') && multiset(p) == multiset(p')
    ensures Paired(o', p')
  {
    forall k | 0 <= k < |p'|
      ensures HasPartner(o', p'[k])
    {
      assert p'[k] in multiset(p);
      var i :| 0 <= i < |p| && p[i] == p'[k];
      var j :| 0 <= j < |o| && SamePayout(o[j], p[i]);
      assert o[j] in multiset(o');
      var j' :| 0 <= j' < |o'| && o'[j'] == o[j];
      assert SamePayout(o'[j'], p'[k]);
    }
  }

  /** A reordering of well-formed records holds only well-formed records. */
  lemma WellFormedPermuted(s: seq<Record>, t: seq<Record>)
    requires multiset(s) == multiset(t)
    requires forall k | 0 <= k < |s| :: WellFormedRecord(s[k])
    ensures forall k | 0 <= k < |t| :: WellFormedRecord(t[k])
  {
    forall k | 0 <= k < |t|
      ensures WellFormedRecord(t[k])
    {
      assert t[k] in multiset(s);
    }
  }

  /** The call returns the records of the first dividend table, reordered
      by year, latest first, every one well formed, no more preferred-share
      records than ordinary ones and each of them beside an ordinary one
      for the same payout; nothing at all on a page without a
      dividend table or when a row raises. */
  lemma HistoryFacts(tables: seq<Table>)
    ensures var h := DividendHistory(tables);
      && ByYearDescending(h.ordinary) && ByYearDescending(h.preferred)
      && |h.preferred| <= |h.ordinary|
      && (forall k | 0 <= k < |h.ordinary| :: WellFormedRecord(h.ordinary[k]))
      && (forall k | 0 <= k < |h.preferred| :: WellFormedRecord(h.preferred[k]))
      && Paired(h.ordinary, h.preferred)
      && (FirstDividendTable(tables).None? ==> h == History([], []))
    ensures var h := DividendHistory(tables);
      FirstDividendTable(tables).Some? ==>
        var e := Collect(tables[FirstDividendTable(tables).value]);
        && (e.Aborted? ==> h == History([], []))
        && (e.Extracted? ==> multiset(h.ordinary) == multiset(e.ordinary) && multiset(h.preferred) == multiset(e.preferred))
  {
    match FirstDividendTable(tables)
    case None =>
    case Some(i) =>
      CollectCoherent(tables[i]);
      FinishKeeps(Collect(tables[i]));
  }

  /** `get_dividend_history` after the page has been fetched and parsed
      into tables. */
  method GetDividendHistory(tables: seq<Table>) returns (h: History)
    ensures h == DividendHistory(tables)
  {
    var found := LocateTable(tables);
    if found.None? {
      return History([], []);
    }
    var extraction := ExtractRows(tables[found.value]);
    if extraction.Aborted? {
      return History([], []);
    }
    h := History(SortByYear(extraction.ordinary), SortByYear(extraction.preferred));
  }
}
