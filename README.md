# Scrape-route row extractor of wikicharts, in Dafny

wikicharts charts the record progression of an athletics event from a
Wikipedia page. Its `GET /api/scrape?url=…` route downloads the page. It then
reads the first table with the class `wikitable` and returns one
`DataPoint { date, mark, athlete, venue }` for each usable row. This project
models that row extraction (`src/app/api/scrape/route.ts`, lines 41-89) and
proves what it produces.

What the code does:

- Only the first `table.wikitable` of the page is read. If the page has none,
  the result is empty.
- Every `tr` of that table is visited in document order. If the row has at
  least four `td` cells, the first four are read by position and trimmed:
  mark, athlete, date, venue. Otherwise all four fields stay `""`, so header
  rows made only of `th` cells drop out.
- The mark is the first maximal run of digits and dots in the mark text
  (`/([\d.]+)/`), read by `parseFloat`. It is 0 when there is no run.
- A record is appended only when the mark is above zero and the athlete,
  date and venue are all non-empty.

Modules:

- `Wrappers` (`wrappers.dfy`): `Option`.
- `JsText` (`js_text.dfy`): `String.prototype.trim`. It uses the explicit
  WhiteSpace and LineTerminator code points of sections 12.2 and 12.3 of
  ECMA-262.
- `MarkParse` (`mark_parse.dfy`): the regular-expression capture and
  `parseFloat`. The mark is an exact decimal `Num(units, scale)`, meaning
  `units / 10^scale`, or `NaN`.
- `Collecting` (`collect.dfy`): an in-order walk that appends the value each
  element yields. It is written once for any per-element function.
- `ScrapeRoute` (`scrape_route.dfy`): pages, tables, rows and `DataPoint`.
  `Records` is the specification. `ExtractDataPoints` is the row loop itself,
  and `VisitRow` is one call of its per-row callback, with per-row variables
  and an appended result. Both are proved against `Records`.

A page is the sequence of its tables in document order. Each table is its
class names plus its rows. A row is the sequence of the texts of its `td`
cells.

## Model

| member | source | states |
|---|---|---|
| ScrapeRoute.ExtractDataPoints | src/app/api/scrape/route.ts:41-89 | The row loop, calling `VisitRow` on each row in turn. Its result equals `Records` of the rows of the first wikitable, and every record is well formed: mark above zero, and athlete, date and venue non-empty with no surrounding whitespace. A page without a wikitable gives no records. There are never more records than rows in that table. |
| ScrapeRoute.VisitRow | src/app/api/scrape/route.ts:47-85 | One call of the per-row callback. The result grows by exactly the records of that one row, and by nothing else. |
| ScrapeRoute.RowStep | src/app/api/scrape/route.ts:49-85 | Take per-row values as the callback sets them: the trimmed cells 0-3 when there are at least four cells, all `""` otherwise, and the mark parsed from the first. The conditional `push` then appends exactly the records of that row. |
| ScrapeRoute.IsWikitable | src/app/api/scrape/route.ts:41-41 | A table matches `table.wikitable` when its class list contains `wikitable`. |
| ScrapeRoute.FirstWikitable | src/app/api/scrape/route.ts:41-41 | Returns None exactly when no table has the class `wikitable`. Otherwise it returns a wikitable of the page, and no table before it is a wikitable. |
| ScrapeRoute.TableRows | src/app/api/scrape/route.ts:41-47 | A page without a wikitable walks no rows. Any rows walked are the rows of a wikitable of the page. |
| ScrapeRoute.Qualifies | src/app/api/scrape/route.ts:58-78 | A row qualifies when it has at least four `td` cells, its trimmed first cell reads as a mark above zero, and its trimmed second, third and fourth cells are non-empty. |
| ScrapeRoute.RecordOf | src/app/api/scrape/route.ts:58-84 | The record is read by position: cell 0 gives the mark, 1 the athlete, 2 the date and 3 the venue. The athlete, date and venue never start or end with whitespace. |
| ScrapeRoute.RowOutcome | src/app/api/scrape/route.ts:58-85 | A row with fewer than four `td` cells yields nothing. A row that yields a record yields its positional record. |
| ScrapeRoute.Records | src/app/api/scrape/route.ts:44-86 | There is at most one record per row. |
| ScrapeRoute.RecordsWellFormed | src/app/api/scrape/route.ts:78-84 | Every record the extractor produces has a mark above zero and a non-empty, trimmed athlete, date and venue. |
| ScrapeRoute.OutcomeWellFormed | src/app/api/scrape/route.ts:58-84 | A record produced from a single row is well formed. |
| ScrapeRoute.QualifyingIndices | src/app/api/scrape/route.ts:78-78 | Lists the positions of the qualifying rows in strictly increasing order. It contains every qualifying row and no other. |
| ScrapeRoute.RecordsFollowRowOrder | src/app/api/scrape/route.ts:47-85 | There is one record per qualifying row. The k-th record is the positional read of the k-th qualifying row, so the output keeps document order and nothing is sorted or deduplicated. |
| ScrapeRoute.RecordsOfConcat | src/app/api/scrape/route.ts:47-85 | The records of two consecutive blocks of rows are the first block's records followed by the second block's. |
| ScrapeRoute.RecordsOfPrefix | src/app/api/scrape/route.ts:47-85 | The records of the first i+1 rows are the records of the first i rows followed by those of row i. |
| ScrapeRoute.RecordsOfOneRow | src/app/api/scrape/route.ts:49-85 | A row yields its positional record exactly when it qualifies, and nothing otherwise. A row with fewer than four `td` cells, such as a `th`-only header row, yields nothing. |
| ScrapeRoute.ExtraCellsIgnored | src/app/api/scrape/route.ts:58-62 | Cells after the fourth change neither whether a row qualifies nor the record it gives. |
| ScrapeRoute.TrimmedRowOutcome | src/app/api/scrape/route.ts:58-84 | For a row of already-trimmed texts, cell 0 becomes the mark, 1 the athlete, 2 the date and 3 the venue. Such a row qualifies exactly when the mark is above zero and the other three are non-empty. |
| ScrapeRoute.HeaderAndOneDataRow | src/app/api/scrape/route.ts:41-89 | Take a first wikitable whose rows are a `th` header row and one valid data row. The result is exactly that data row's record. |
| JsText.IsWhiteSpace | src/app/api/scrape/route.ts:59-62 | The characters `trim` removes: the WhiteSpace and LineTerminator code points of ECMA-262. |
| JsText.Trim | src/app/api/scrape/route.ts:59-62 | The result neither starts nor ends with whitespace. |
| JsText.TrimStart | src/app/api/scrape/route.ts:59-62 | Returns a suffix of the input. Only whitespace is removed, and the result does not start with whitespace. |
| JsText.TrimEnd | src/app/api/scrape/route.ts:59-62 | Returns a prefix of the input. Only whitespace is removed, and the result does not end with whitespace. |
| JsText.TrimStripsOnlyWhiteSpace | src/app/api/scrape/route.ts:59-62 | The result of `trim` is an infix of its input, and every character outside that infix is whitespace. |
| JsText.TrimEmptyIff | src/app/api/scrape/route.ts:78-78 | A trimmed field is empty, and so drops the row, exactly when the cell text is all whitespace. |
| JsText.TrimOfTrimmed | src/app/api/scrape/route.ts:59-62 | `trim` leaves a string with no whitespace at either end unchanged, so `trim` is idempotent. |
| MarkParse.FirstRun | src/app/api/scrape/route.ts:67-67 | Returns None exactly when the text has no digit or dot. Otherwise it returns a non-empty run of digits and dots. |
| MarkParse.FirstRunIsLeftmostMaximal | src/app/api/scrape/route.ts:67-67 | The captured run starts at the first digit or dot in the text. It extends to the end of the text or up to a character that is neither. |
| MarkParse.RunStart | src/app/api/scrape/route.ts:67-67 | Gives the position of the first digit or dot. |
| MarkParse.RunLength | src/app/api/scrape/route.ts:67-67 | Gives the length of the maximal leading run of digits and dots. |
| MarkParse.DigitCount | src/app/api/scrape/route.ts:70-70 | Gives the length of the maximal leading run of digits. |
| MarkParse.PrefixLength | src/app/api/scrape/route.ts:70-70 | Length of the longest prefix made of digits with at most one dot; it never exceeds the length of the string. |
| MarkParse.PrefixLengthIsLongestDecimal | src/app/api/scrape/route.ts:70-70 | The prefix `PrefixLength` measures is the longest prefix made of digits with at most one dot. `parseFloat` reads it when it holds a digit. |
| MarkParse.ParseFloat | src/app/api/scrape/route.ts:70-70 | `parseFloat` of a run of digits and dots: the longest prefix `whole ('.' frac)?` read as the decimal `whole frac / 10^len(frac)`, or NaN when that prefix has no digit. |
| MarkParse.ParseMark | src/app/api/scrape/route.ts:67-71 | The mark of a trimmed mark text: 0 when `match` finds no run, otherwise `parseFloat` of the first run. |
| MarkParse.IsAboveZero | src/app/api/scrape/route.ts:78-78 | `numericMark > 0`, which is false for NaN. |
| MarkParse.HasNonZeroDigitIff | src/app/api/scrape/route.ts:70-78 | The non-zero-digit test holds exactly when some position of the string holds a non-zero digit. |
| MarkParse.DigitsValuePositive | src/app/api/scrape/route.ts:70-70 | A digit string denotes a positive number exactly when one of its digits is non-zero. |
| MarkParse.ParseFloatNaN | src/app/api/scrape/route.ts:70-70 | `parseFloat` of a run is NaN exactly when the run starts with neither a digit nor a dot followed by a digit, as with a lone ".". |
| MarkParse.ParseFloatAboveZero | src/app/api/scrape/route.ts:70-78 | `parseFloat` gives a value above zero exactly when the decimal-form prefix (the longest prefix of digits with at most one dot) contains a non-zero digit. |
| MarkParse.ParseFloatWhole | src/app/api/scrape/route.ts:70-70 | Digits `whole` followed by nothing, or by a character that is neither a digit nor a dot, read as the integer `whole`. They read as NaN when `whole` is empty. |
| MarkParse.ParseFloatDecimal | src/app/api/scrape/route.ts:70-70 | `whole.frac` followed by anything that does not start with a digit, including a second dot, reads as the decimal `whole frac / 10^len(frac)`. It reads as NaN when there is no digit. |
| MarkParse.AboveZeroIsPositiveValue | src/app/api/scrape/route.ts:78-78 | The test on the exact decimal agrees with `numericMark > 0` on its value. NaN is never above zero. |
| MarkParse.NoRunReadsAsZero | src/app/api/scrape/route.ts:67-71 | A mark text with no digit or dot reads as 0, which is not above zero. |
| MarkParse.NonNumericRunReadsAsNaN | src/app/api/scrape/route.ts:67-71 | A mark whose first run does not begin a decimal literal reads as NaN, which is not above zero. |
| MarkParse.ZerosNotAboveZero | src/app/api/scrape/route.ts:67-78 | A mark text whose digits are all zeros never reads as above zero. |
| MarkParse.FirstRunAtStart | src/app/api/scrape/route.ts:67-67 | A text that opens with a maximal run of digits and dots captures exactly that run. |
| MarkParse.DigitCountAt | src/app/api/scrape/route.ts:70-70 | The leading digit count is fixed by the position of the first non-digit. |
| MarkParse.ParseMarkLeadingInteger | src/app/api/scrape/route.ts:65-71 | A mark text that opens with digits followed by a unit, a colon or anything else that is neither a digit nor a dot has that integer as its mark. |
| MarkParse.ParseMarkLeadingDecimal | src/app/api/scrape/route.ts:65-71 | A mark text that opens with a decimal followed by a unit or a conversion has that decimal as its mark, whatever follows. |
| MarkParse.ParseMarkMetres | src/app/api/scrape/route.ts:65-71 | "1.46 m (4 ft 9+1⁄4 in)" reads as 146/10^2, that is 1.46. |
| MarkParse.ParseMarkInteger | src/app/api/scrape/route.ts:65-71 | "8 m", a run with no dot, reads as 8. |
| MarkParse.ParseMarkTime | src/app/api/scrape/route.ts:65-71 | The time "3:59.4" reads as 3: the capture stops at the colon. |
| MarkParse.ParseMarkTwoDots | src/app/api/scrape/route.ts:65-71 | "1.2.3" reads as 12/10^1, that is 1.2: `parseFloat` stops at the second dot. |
| MarkParse.ParseMarkZeros | src/app/api/scrape/route.ts:65-71 | "0.00 m" reads as 0/10^2, which is zero. |
| MarkParse.ParseMarkNoNumber | src/app/api/scrape/route.ts:65-71 | "no data" reads as 0 and "." reads as NaN. |
| Collecting.Collect | src/app/api/scrape/route.ts:47-85 | The in-order walk appends at most one value per element. |
| Collecting.YieldingIndices | src/app/api/scrape/route.ts:47-85 | Lists the positions that yield a value, strictly increasing and complete. |
| Collecting.CollectAt | src/app/api/scrape/route.ts:47-85 | The k-th collected value is what the k-th yielding element yields. |
| Collecting.CollectConcat | src/app/api/scrape/route.ts:47-85 | Walking two consecutive blocks collects the first block's values, then the second's. |

## Left out

- The HTTP layer is not modelled: reading the `url` parameter, the `fetch`, `response.ok`, the 400 and 500 replies, the `try`/`catch` and the JSON envelope (`route.ts:6-33`, `89-97`). These are network and transport.
- HTML parsing with cheerio is not modelled. The page comes in already split into tables, rows and `td` texts, and `.text()` of a cell is taken as given. The descendant semantics of `find('tr')` and `find('td')` are not captured: rows and cells of a table nested inside a wikitable would also be visited by the source.
- The CSS selector `table.wikitable` is modelled as membership of "wikitable" in a table's class list.
- IEEE-754 doubles are not modelled. The mark is an exact decimal. `parseFloat` rounds it to a double, which can overflow to Infinity (still above zero) or underflow to 0. For example, "0." followed by 400 zeros and a 1 reads as 0 in the source, but the model says it is above zero. Records carry the exact decimal, not the rounded double.
- Strings are sequences of Unicode scalar values, not UTF-16 code units. The whitespace set of `trim` is the fixed list of ECMA-262 WhiteSpace and LineTerminator code points.
- The chart and page components, the client-side fetch to `/api/scrape` and the CSV download (`ChartPage.tsx`, `useChartPage.ts`, `page.tsx`, `DownloadCsv.tsx`, `useDownloadCsv.ts`) are not modelled. They are UI, browser I/O and foreign library calls (chart.js, Papa.unparse).
- Fields are read by position, and only the first wikitable is read; no table is compared with another.
