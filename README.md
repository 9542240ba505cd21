# Russian dividends: the table reader and the ticker map, in Dafny

This project models the two in-memory parts of the `russian_dividends`
scraper, which reads dividend histories of Russian shares from the site
закрытияреестров.рф:

- `get_dividend_history` (dividend_parser.py) once the page is parsed into
  tables. It finds the first table whose row text mentions a dividend
  keyword. It reads each row's period cell (closing date, year, period
  type) and its amount cells (ordinary and preferred shares). It collects
  the records and orders both lists by year, latest first. An exception
  anywhere makes the whole call return an empty result. `parse_russian_date`
  is modelled beside it.
- The link loop of `get_ticker_mappings` (ticker_mapper.py). It maps each
  ticker named in a front-page link to the link's path.

Modules:

| module | file | contents |
|---|---|---|
| `Text` | text.dfy | `str.strip`, `str.lower`, `in`, `replace`, `join`; the leftmost-position search that stands for `re.search` |
| `Dates` | dates.dfy | calendar dates; the `DD.MM.YYYY` closing-date text and its pandas conversion; `parse_russian_date` |
| `Period` | period.dfy | the period cell: closing date, year, period type |
| `Amounts` | amounts.dfy | the amount cell: sentinel, the two number searches, conversion to a decimal |
| `Dividends` | dividends.dfy | the table search loop, the row loop, the sort, the whole call |
| `Tickers` | tickers.dfy | the ticker pattern, `href.strip('/')`, the link loop |

A table is a sequence of rows. Each row holds its `tr.text` and the texts
of its `td`/`th` cells. A link is its text and its `href`. Amounts are exact
decimals `Decimal(mantissa, scale)` (mantissa / 10^scale) instead of floats.
Each regular expression is replaced by a hand-written scanner, and a lemma
states which match `re.search` reports.

Each loop of the source is a method with a `for` loop. Its `ensures` ties
the result to a recursive specification function: `LocateTable` to
`FirstDividendTable`, `ExtractRows` to `Collect`, `GetTickerMappings` to
`MappingsOf`. The lemmas state the promised properties about those
functions.

## Model

| member | source | states |
|---|---|---|
| Text.Strip | dividend_parser.py:114-115 | `str.strip()`: the result sits in the input with only whitespace around it, and starts and ends with non-whitespace |
| Text.Lower | dividend_parser.py:168 | `str.lower()` maps every character through the letter case map and keeps the length |
| Text.DeleteAll | dividend_parser.py:146 | `replace(year, '')` leaves the text unchanged exactly when the year does not occur in it |
| Text.DeleteAllFirst | dividend_parser.py:146 | every occurrence is deleted, not just one: the first occurrence goes, the text before it stays, and the scan goes on after it; with `DeleteAll`'s own contract this fixes the result on every input |
| Text.FirstOccurrence | dividend_parser.py:146 | a text that contains the year splits at its first occurrence, with no occurrence before it, so `DeleteAllFirst` applies to every such text |
| Text.DeleteEveryYear | dividend_parser.py:146 | `"2025 2025".replace("2025", "")` is `" "`: both copies of the year go |
| Text.ReplaceChar | dividend_parser.py:124 | `replace('\n', ' ')` changes exactly the newlines, to spaces |
| Text.JoinContains | dividend_parser.py:97-98 | of `Join`, the model of `' '.join`: a keyword without a space occurs in the space-joined row texts exactly when it occurs in one row's text |
| Dates.ToTimestamp | dividend_parser.py:196 | `pd.to_datetime(..., format='%d.%m.%Y')` succeeds exactly on a calendar date within the Timestamp range, and gives the date the digits spell |
| Dates.ParseRussianDate | dividend_parser.py:37-49 | `strptime(s, '%d.%m.%Y')` yields only calendar dates with years 1..9999; None stands for the caught exception |
| Dates.ParseFormattedDate | dividend_parser.py:37-49 | every date `datetime` can hold is read back from its `dd.mm.yyyy` spelling |
| Dates.TwoDigitTokens | dividend_parser.py:47 | a two-digit token is accepted as day (month) exactly when its value is 1..31 (1..12), and is read as that value |
| Dates.TimestampAgreesWithParse | dividend_parser.py:37-49 | when pandas converts a closing date, `parse_russian_date` reads the same date from the same text |
| Period.DateAt | dividend_parser.py:127-140 | `\d{1,2}\.\d{2}\.\d{4}` matches at i exactly when a two-digit or one-digit day fits; the day comes out zero-padded as `zfill(2)` does |
| Period.ClosingDate | dividend_parser.py:126-142 | the date after the first `закрытие реестра ` label that has one; otherwise the first date anywhere; None exactly when no date occurs |
| Period.ResolveYear | dividend_parser.py:148-161 | the first standalone four-digit token, else the first four-digit run, else the first run in the original cell; None exactly when neither text has four digits |
| Period.ClassifyPeriod | dividend_parser.py:166-175 | the half-year, 9-, 6- and 3-month markers are checked in this order on the lower-cased text; each type holds exactly when its markers occur and no earlier ones do; full year is the default |
| Period.FirstRule | dividend_parser.py:167-175 | the first rule whose markers occur decides, and the default is used when none occur |
| Period.ParsePeriod | dividend_parser.py:124-175 | the period part of a row: the cell is normalised (`Normalize`, line 124) and the closing date's year deleted from it (`WithoutDateYear`, line 146); the year is what `ResolveYear` finds in that text, with the cell as it was as fallback, and the row has no period exactly when it finds none; the closing date is that of the normalised cell; the type is that of the year-stripped text |
| Period.ParsePeriodExample | dividend_parser.py:124-175 | `закрытие реестра 9.07.2025 2024` gives closing date 09.07.2025, year 2024 (not the date's 2025) and the full year |
| Period.NoYearIffNoFourDigits | dividend_parser.py:144-164 | a row's period yields no year, and the row is skipped, exactly when its first cell holds no run of four digits |
| Period.NormalizeKeepsNoRun | dividend_parser.py:124 | `Normalize`, replacing newlines and stripping creates no four-digit run |
| Period.DateNeedsRun | dividend_parser.py:127-146 | a closing date brings a four-digit run (its year) with it |
| Amounts.SuffixedSpan | dividend_parser.py:182 | the group of the search with `руб.`: the leftmost start from which a number followed by the currency matches, and the one end such a number can have |
| Amounts.SuffixedEndUnique | dividend_parser.py:182 | from one start, a number followed by the currency can end in only one place |
| Amounts.SuffixedFromIff | dividend_parser.py:182 | the suffixed search matches at p exactly when p is a digit and the currency follows the greedy number from p |
| Amounts.BareSpan | dividend_parser.py:185 | the group of the search without the currency starts at the first digit and is the longest number there; None exactly when the cell has no digit |
| Amounts.GreedyIsLongest | dividend_parser.py:185 | the greedy quantifiers give the longest number from a start |
| Amounts.MatchedSpan | dividend_parser.py:182-187 | the suffixed group, else the bare one; always a number; None exactly when the cell has no digit |
| Amounts.ParseAmount | dividend_parser.py:178-192 | the sentinel gives exactly 0; the row is skipped (NoAmount) exactly when there is no sentinel and no digit |
| Amounts.DecimalOfDigits | dividend_parser.py:199 | `float` (`DecimalOf`) of a non-empty run of digits is the number they spell |
| Amounts.DecimalOfSplit | dividend_parser.py:199 | `float` of digits, a point and digits is the digits without the point over ten to the number of digits after the point |
| Amounts.DecimalOfRejects | dividend_parser.py:199 | of the texts a cleaned match can be (digits, points and whitespace other than the space), `float` rejects every one that is not digits or digits-point-digits, such as one with a tab or newline inside |
| Amounts.ConvertNumber | dividend_parser.py:190-199 | `float(g.replace(' ', '').replace(',', '.'))` (`Clean`, then `DecimalOf`) on a matched number gives the amount it denotes exactly when only spaces separate its groups; otherwise it raises |
| Amounts.AmountOfMatch | dividend_parser.py:182-199 | a cell without the sentinel yields the amount its matched number denotes, or raises when a tab or newline sits inside the number |
| Amounts.ParseSpelled | dividend_parser.py:182-199 | an amount written the usual way (`1 234,56 руб.`) is read back as exactly that amount |
| Amounts.GroupedExample | dividend_parser.py:182-199 | the cell `1 234,56 руб.` is read as exactly 1234.56 (123456 hundredths) |
| Amounts.SpelledSpan | dividend_parser.py:182 | in the usual spelling followed by the currency, the search finds the whole number |
| Amounts.SpelledDenotes | dividend_parser.py:190 | the usual spelling denotes the amount it spells |
| Amounts.RenderValue | dividend_parser.py:190 | the digits of the space-grouped spelling of n spell n |
| Amounts.UngroupedThousands | dividend_parser.py:182 | `1234 руб.` is read as 234: the unanchored `\d{1,3}` loses the leading digit |
| Amounts.UngroupedFraction | dividend_parser.py:185 | `1234,5` without the currency is read as 123 |
| Dividends.KeywordInSomeRow | dividend_parser.py:97-98 | the joined table text mentions a keyword exactly when one row's stripped, lower-cased text does |
| Dividends.FirstDividendTable | dividend_parser.py:90-103 | the first table with rows whose text mentions a keyword; None exactly when no table qualifies |
| Dividends.LocateTable | dividend_parser.py:90-103 | the table search loop finds exactly the first dividend table |
| Dividends.Stamp | dividend_parser.py:196 | no closing date gives NaT; a date pandas rejects raises; a date it converts is stored as the date `ToTimestamp` gives, a calendar date in the Timestamp range |
| Dividends.RowFromSources | dividend_parser.py:144-228 | of `RowFrom`, the row body once the cells are parsed: a record's year, type and date come from the period cell and its amount from its own cell; a row with a year and a number yields an ordinary record unless it raises; no year or no number yields nothing |
| Dividends.FromNothing | dividend_parser.py:163-192 | a row without a year, or without a number in its second cell, yields nothing, preferred record included |
| Dividends.FromRaises | dividend_parser.py:196-226 | an amount `float` rejects, or a closing date pandas rejects, raises |
| Dividends.FromRecords | dividend_parser.py:195-228 | a row that does not raise yields its ordinary record; it also yields the preferred record, same payout with the third cell's amount, when that cell holds a number |
| Dividends.NotDataRow | dividend_parser.py:113-122 | a row with fewer than two cells, the header row and a total row yield nothing |
| Dividends.RowSources | dividend_parser.py:113-228 | of `ProcessRow`, the whole row body: the ordinary record's year, type and amount come from cells 0 and 1; a preferred record needs a third cell and carries its amount |
| Dividends.RowSentinel | dividend_parser.py:178-206 | a cell with the no-dividend sentinel gives a zero amount |
| Dividends.RowCoherent | dividend_parser.py:195-228 | no preferred record without the ordinary one; the two share closing date, year and period type; each is well formed |
| Dividends.ReadRow | dividend_parser.py:110-228 | the row body, read cell by cell in the source's order, computes the row's outcome; the preferred-shares flag ends up set exactly when it was set or the row has a third cell |
| Dividends.ExtractRows | dividend_parser.py:105-228 | the row loop builds exactly the lists of `Collect` (`ProcessRow` on each row, in order), or stops at the first exception |
| Dividends.AbortedIffRaised | dividend_parser.py:106-228 | the loop ends in an exception exactly when one of the rows raises |
| Dividends.AbortedStays | dividend_parser.py:263-265 | once a row has raised, the later rows change nothing |
| Dividends.LoopCoherent | dividend_parser.py:106-228 | with coherent rows, the lists hold well-formed records, no more preferred than ordinary ones, each preferred record beside an ordinary one for the same payout |
| Dividends.PairedExtend | dividend_parser.py:201-228 | appending one row's records keeps each preferred record beside an ordinary one |
| Dividends.CollectCoherent | dividend_parser.py:106-228 | the row loop of the source builds such coherent lists |
| Dividends.InsertByYear | dividend_parser.py:235 | insertion into a list ordered by year, latest first, keeps it ordered and adds exactly the record |
| Dividends.SortByYear | dividend_parser.py:234-252 | `sort_values('year', ascending=False)`: the result is ordered by year, latest first, and is a permutation of the input |
| Dividends.FinishKeeps | dividend_parser.py:231-252 | sorting keeps exactly the records the loop built, their well-formedness, the bound between the two lists and each preferred record's ordinary partner |
| Dividends.PairedPermuted | dividend_parser.py:234-252 | reordering the lists keeps each preferred record beside an ordinary one for the same payout |
| Dividends.WellFormedPermuted | dividend_parser.py:234-235 | a reordering of well-formed records holds only well-formed records |
| Dividends.HistoryFacts | dividend_parser.py:86-265 | of `DividendHistory`, the whole call on the page's tables: the result is a permutation of the first dividend table's records, ordered by year, latest first, every record well formed, with no more preferred than ordinary records and each preferred record beside an ordinary one for the same payout; it is empty when there is no such table or a row raises |
| Dividends.GetDividendHistory | dividend_parser.py:86-265 | the whole call, with its early exits, computes `DividendHistory` |
| Tickers.FindTicker | ticker_mapper.py:40-58 | group 2 of the pattern: the ticker in the leftmost brackets holding `[A-Z0-9.]+`; None exactly when no such brackets occur |
| Tickers.LabelTicker | ticker_mapper.py:40-58 | the ticker of `Company (TICKER)` is read back |
| Tickers.StripSlashes | ticker_mapper.py:60 | `href.strip('/')`: the infix with only '/' around it, neither starting nor ending with '/' |
| Tickers.StripSlashesIdempotent | ticker_mapper.py:60 | stripping the slashes again changes nothing |
| Tickers.EntryShape | ticker_mapper.py:45-61 | of `Entry`, one pass of the loop body: an accepted link gives a ticker over `[A-Z0-9.]` and a path without outer slashes; a link without href gives nothing |
| Tickers.EntryOfLabel | ticker_mapper.py:44-61 | a link `Company (TICKER)` with an address maps the ticker to the stripped path |
| Tickers.NavFilterRedundant | ticker_mapper.py:48-52 | no navigation label matches the pattern, so the label filter skips no link the pattern would accept |
| Tickers.GetTickerMappings | ticker_mapper.py:37-61 | the link loop builds exactly `MappingsOf(links)`, the insertions of `Entry` of each link in order |
| Tickers.MappingsShape | ticker_mapper.py:40-61 | every key is a non-empty ticker over `[A-Z0-9.]`; every path is its own `strip('/')` |
| Tickers.MappingsKeys | ticker_mapper.py:55-61 | a ticker is a key exactly when some link yields it |
| Tickers.InsertedKeys | ticker_mapper.py:61 | a ticker is a key exactly when some insertion carries it |
| Tickers.LastWriterWins | ticker_mapper.py:61 | the path of a ticker is the one of its last insertion |
| Tickers.LastLinkWins | ticker_mapper.py:44-61 | the path of a ticker is the one of the last link that yields it |
| Tickers.OtherKeysUnchanged | ticker_mapper.py:61 | an insertion leaves every other ticker's presence and path as they were |
| Tickers.OtherLinksUnchanged | ticker_mapper.py:44-61 | a link leaves every ticker other than its own as it was |

## Left out

- Fetching pages, the ticker-to-URL lookup and its JSON file, BeautifulSoup, and pandas DataFrame and CSV output are not modelled: network, parsing library and persistence (dividend_parser.py:23-35, 66-87, 230-259; ticker_mapper.py:23-34, 63-68). The model starts from tables and links already extracted.
- Dividends.GetDividendHistory: returns both lists. The source returns only the ordinary-share DataFrame and writes the preferred-share one to a CSV file.
- Dividends.SortByYear: promises order by year and a permutation only. Among records of the same year, pandas' default quicksort leaves an order the model does not fix.
- Amounts.DecimalOf: amounts are exact decimals, not binary floats, so rounding by `float` is not modelled.
- Text.Lower: lower-cases ASCII letters and the Cyrillic capitals U+0400..U+042F only; Python's full Unicode case map is not modelled.
- Text.IsDigit: a digit is ASCII `0`-`9`. In Python 3, `\d`, `int` and `float` also accept the other Unicode decimal digits (Arabic-Indic, full-width and so on); cells holding those are outside the model.
- Text.Strip: whitespace is ASCII whitespace (`\s` and `strip()` also treat other Unicode spaces as whitespace). A non-breaking space between thousands is therefore outside the model.
- Nested tables: `find_all('tr')` of a table also returns rows of tables nested inside it. The model takes each table's rows as given.
- Dividends.ReadRow: the source's row body has no function of its own. It is modelled as a method that returns the row's outcome, and the loop appends it.
- `parse_russian_date` has no caller in the core. It is modelled by itself, together with its agreement with the pandas conversion.
- The broad `except Exception` wrappers are modelled only as "an exception gives an empty result". The error message printed is left out, as are all `print` calls and the `__main__` blocks.
- The company name (group 1 of the ticker pattern) is computed by the source and never used. It is not modelled.
- parse_all_dividends.py is not part of this model. It is a batch driver with sleeps and file output.

## Where the code differs from its description

The model follows the code in each of these cases:

- A closing date that is not a real calendar date, or one a pandas Timestamp cannot hold (before 1677-09-22 or after 2262-04-11), makes `pd.to_datetime` raise when the row reaches line 196. The whole call then returns an empty result; the row does not get an empty date. A row with such a date but no number in its amount cell is skipped earlier (line 192) and the date is never converted (`FromNothing`).
- The amount pattern is not anchored on the left. `1234 руб.` is read as 234 (`UngroupedThousands`), and `1234,5` without the currency as 123 (`UngroupedFraction`).
- A number whose groups are separated by a tab or a newline keeps that character after `replace(' ', '')`. `float` then raises, and the whole call returns an empty result (`ConvertNumber`).
- When the ordinary amount has no number, the row is skipped with its preferred record (`FromNothing`). When only the preferred amount has none, the ordinary record stays.
- In the row loop, the date is converted before the amount. When both fail, the exception is the date's. Either way the call ends empty.
- The sticky `has_preferred_shares` flag adds nothing beyond the row's own third cell (`ReadRow`).
