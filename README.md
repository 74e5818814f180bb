# FTSE 100 page object: row extraction, verified

This project models the data-extraction logic of the `FTSE100Page` Playwright
page object in Dafny and proves properties of it. The page object reads the
FTSE 100 constituents table of the London Stock Exchange site and runs three
scenarios:

- the **top ten** and **bottom ten** constituents by percentage change: sort
  the table, then read the names of the first ten rows;
- the constituents whose **market cap exceeds 7 million**: sort by market
  cap, walk pages 1 to 5 of the paginator and keep every row whose parsed
  market cap is above 7.

Everything the browser does is an input here. A table row is the list of
the text contents of its `td` cells (`Row = seq<string>`). The sorted table
is the sequence of rows the sort produced. The paginator is a `Pager`: the
rows of page 1 and the rows of every further page whose link appears.

Files:

- `wrappers.dfy`: `Option` and `Result`.
- `js_text.dfy` (module `JsText`): ECMAScript `String.prototype.trim`, with
  the WhiteSpace and LineTerminator code points of sections 12.2 and 12.3 of
  ECMA-262, and `replace(/,/g, '')`.
- `js_number.dfy` (module `JsNumber`): the global `parseFloat` of section
  19.2.4 of ECMA-262.
  - The StrDecimalLiteral grammar is a predicate. The scan for the longest
    literal prefix is a function, proved to stop at a literal with no
    longer literal prefix.
  - Values are exact reals, or positive or negative infinity.
- `market_cap.dfy` (module `MarketCap`): `parseMarketCap`. It also has a
  renderer of hundredths with thousands separators ("8,321.50"), which the
  parser inverts.
- `selection.dfy` (module `Selection`): the shape of every extraction loop
  in the page object.
  - `FilterMap` walks the rows in order, skips a row that gives no record
    and appends the record of every other row.
  - `KeptIndices` lists the positions of the kept rows.
  - `FilterMapExact` proves that the output holds exactly the records of
    the kept rows, in row order.
- `ftse100_page.dfy` (module `FTSE100Page`): the `Constituent` record, cell
  reading, the top / bottom ten loop and the five-page market-cap scan.
  - The loops are methods, proved equal to `FilterMap` of the rows they
    visit.
  - Lemmas about those functions state what the page object promises.

Some members are definitions whose meaning the rows below state through
the lemmas and methods about them:

- `JsNumber.GreaterThan` and `FTSE100Page.AboveThreshold` are the test
  `marketCapInMillions !== null && marketCapInMillions > 7`
  (pages/FTSE100Page.ts:158). `ThresholdIsStrict`, `MarketCapRecordKept`
  and `MarketCapScanRows` state what it keeps.
- `Selection.OptionList` is what one row adds to the output
  (pages/FTSE100Page.ts:73). `FilterMapStep` and `FilterMapExact` state its
  effect.
- `FTSE100Page.NameRecord` is the name rule of pages/FTSE100Page.ts:67-73.
  `ReadNameRow`, `LeadingNamesRecords` and `LeadingNamesRows` state it.

## Model

| member | source | states |
|---|---|---|
| JsText.Trim | pages/FTSE100Page.ts:22 | trim's result has no white space at either end, is empty exactly when the input is all white space, and is a slice of the input with only white space around it |
| JsText.RemoveCommas | pages/FTSE100Page.ts:22 | `replace(/,/g, '')` leaves no comma and leaves a comma-free text unchanged |
| JsText.RemoveCommasKeeps | pages/FTSE100Page.ts:22 | every character left after deleting commas is a non-comma character of the input |
| JsText.RemoveCommasAppend | pages/FTSE100Page.ts:22 | deleting commas from a concatenation deletes them from each part |
| JsText.RemoveCommasAround | pages/FTSE100Page.ts:22 | deleting commas around an inserted comma gives the commas-deleted parts, joined |
| JsText.TrimStart | pages/FTSE100Page.ts:23 | parseFloat's first step drops exactly the white space at the start: the result is a suffix of the input, everything before it is white space, and it does not start with white space |
| JsText.TrimTrimmed | pages/FTSE100Page.ts:22 | trim leaves a text whose ends are not white space unchanged |
| JsNumber.LiteralValue | pages/FTSE100Page.ts:23 | the value of a literal: negative infinity exactly for "-Infinity", positive infinity exactly for "Infinity" and "+Infinity", a finite number otherwise |
| JsNumber.ExponentTextValue | pages/FTSE100Page.ts:23 | `e`, an optional sign and digits form an exponent part, worth the digits, negated after a minus sign |
| JsNumber.ExponentLiteralValue | pages/FTSE100Page.ts:23 | digits followed by an exponent part form an unsigned literal whose value is the digits times ten to the exponent |
| JsNumber.LiteralLength | pages/FTSE100Page.ts:23 | parseFloat's scan: the prefix it takes is a decimal literal, and no longer prefix is one |
| JsNumber.UnsignedLongest | pages/FTSE100Page.ts:23 | no prefix longer than the unsigned scan's is an unsigned decimal literal |
| JsNumber.ParseFloat | pages/FTSE100Page.ts:23-24 | parseFloat is NaN (None) exactly when no prefix after the leading white space is a decimal literal; otherwise it is the value of the longest such prefix |
| JsNumber.ParseFloatOfLiteral | pages/FTSE100Page.ts:23 | a whole decimal literal parses to its own value |
| JsNumber.ParseFloatStopsAtText | pages/FTSE100Page.ts:23 | a literal followed by a character that is not a digit, `.`, `e` or `E` parses to the literal's value, whatever follows that character |
| JsNumber.NegativeLiteral | pages/FTSE100Page.ts:23 | a leading minus sign negates the value of an unsigned literal |
| MarketCap.Normalize | pages/FTSE100Page.ts:22 | the normalised text is the comma-deleted text with only the white space at its ends removed: comma-free, trimmed, and empty exactly when the comma-deleted text is blank |
| MarketCap.ParseMarketCap | pages/FTSE100Page.ts:20-25 | null exactly when no prefix of the normalised text is a decimal literal (so the empty text gives null); otherwise the value of the longest literal prefix |
| MarketCap.BlankIsNull | pages/FTSE100Page.ts:21-24 | a text of only white space and commas ("", "   ", ",") gives null, never 0 |
| MarketCap.SameDigitsSameValue | pages/FTSE100Page.ts:22-23 | two texts that differ only in their commas parse to the same result |
| MarketCap.CommaInsertion | pages/FTSE100Page.ts:19-23 | inserting a comma anywhere in a text does not change the parsed value |
| MarketCap.UngroupThousands | pages/FTSE100Page.ts:22 | deleting commas undoes thousands grouping of a digit string |
| MarketCap.NumeralValue | pages/FTSE100Page.ts:23 | the plain numeral of c hundredths is a decimal literal whose value is c / 100 |
| MarketCap.FormattedDigits | pages/FTSE100Page.ts:22 | deleting commas from the separated rendering gives the plain numeral |
| MarketCap.ParseNormalizedLiteral | pages/FTSE100Page.ts:20-25 | a text whose normalised form is a literal parses to that literal's value |
| MarketCap.ParseFormatted | pages/FTSE100Page.ts:19-25 | round trip: parsing the thousands-separated two-decimal rendering of c hundredths gives c / 100, for every integer c, negative ones included |
| MarketCap.ParsesSeparatedExample | pages/FTSE100Page.ts:19 | "8,321.50" parses to 8321.5 |
| MarketCap.ParsesLeadingDigits | pages/FTSE100Page.ts:23 | digits followed by a text that has no comma, does not end in white space and starts with a character that is not a digit, `.`, `e` or `E` ("12abc") parse to the value of the digits; a comma is deleted first, so "12,5" is not covered |
| Selection.FilterMap | pages/FTSE100Page.ts:64-74 | the shape of every extraction loop: at most one record per row visited (FilterMapExact states the contents) |
| Selection.FilterMapExact | pages/FTSE100Page.ts:64-74 | the loop's output holds the records of exactly the rows that give one, at strictly ascending positions, in row order |
| Selection.FilterMapAppend | pages/FTSE100Page.ts:133-166 | filtering a concatenation of rows concatenates the filtered parts |
| Selection.FilterMapStep | pages/FTSE100Page.ts:64-74 | reading one more row appends that row's record, if any |
| Selection.FilterMapKeepsAll | pages/FTSE100Page.ts:64-74 | when every row gives a record, none is skipped and the k-th record is row k's |
| FTSE100Page.CellText | pages/FTSE100Page.ts:67 | `cells[i]?.trim() \|\| ''` is the text of cell i with only white space removed around it, trimmed, and empty exactly when the cell is missing or all white space |
| FTSE100Page.LeadingRows | pages/FTSE100Page.ts:64 | the rows looked at are the first min(10, number of rows) |
| FTSE100Page.ReadNameRow | pages/FTSE100Page.ts:65-73 | one iteration of the top / bottom ten loop yields a record exactly when the name cell is non-blank, holding that name and no other field |
| FTSE100Page.ReadLeadingNames | pages/FTSE100Page.ts:63-75 | the top / bottom ten loop returns the name records of the first ten rows, blank names skipped, in row order |
| FTSE100Page.LeadingNamesRecords | pages/FTSE100Page.ts:64-73 | at most ten records and no more than there are rows; each a non-blank, trimmed name from cell 1 of a distinct row, in ascending row order, with no other field |
| FTSE100Page.LeadingNamesRows | pages/FTSE100Page.ts:100-110 | among the first ten rows, a row is read exactly when its name cell is non-blank |
| FTSE100Page.LeadingNamesAllNamed | pages/FTSE100Page.ts:64-73 | when each of the first ten rows has a name, the output has min(10, number of rows) records, the k-th carrying row k's name |
| FTSE100Page.LeadingNamesIgnoreLaterRows | pages/FTSE100Page.ts:64 | rows after the tenth never affect the output |
| FTSE100Page.MarketCapRecord | pages/FTSE100Page.ts:150-163 | a record holds a non-blank trimmed name, a non-blank market cap text, the value parsed from that text, which passes the threshold, and no percent change |
| FTSE100Page.ReadMarketCapRow | pages/FTSE100Page.ts:148-164 | one iteration of the scan's row loop yields a record exactly when name and market cap text are non-blank and the parsed value is above 7; the record holds the name, the text and the parsed value |
| FTSE100Page.ScanPageRows | pages/FTSE100Page.ts:146-165 | the row loop of one page appends that page's records, in row order, to what was collected before |
| FTSE100Page.MarketCapScan | pages/FTSE100Page.ts:133-166 | the outcome of the scan: on success, five pages were reached and there is at most one record per visited row; on failure, the missing page is one of pages 2 to 5 |
| FTSE100Page.ExtractMarketCapConstituents | pages/FTSE100Page.ts:117-169 | the scan returns the records of pages 1 to 5 in page and row order, or fails with the timeout of the first missing page link |
| FTSE100Page.MarketCapScanFails | pages/FTSE100Page.ts:133-138 | the scan fails exactly when fewer than five pages exist, and names the first missing page |
| FTSE100Page.MarketCapRecordKept | pages/FTSE100Page.ts:150-163 | a row gives a record exactly when its name and market cap cells are non-blank and its parsed market cap is above 7; the record holds name, text and parsed value |
| FTSE100Page.MarketCapScanRecords | pages/FTSE100Page.ts:147-164 | every record of a successful scan comes from a distinct row of pages 1 to 5, in row order, with a non-blank name, its own market cap text, the value parsed from that text (never null) above 7, and no percent change |
| FTSE100Page.MarketCapScanRows | pages/FTSE100Page.ts:150-158 | a row of pages 1 to 5 is kept exactly when its name and market cap are non-blank and the parsed value exceeds 7; unparsable rows are dropped, not counted as 0 |
| FTSE100Page.ThresholdIsStrict | pages/FTSE100Page.ts:158 | a market cap rendered with two decimals passes exactly when it exceeds 7.00, so "7.00" itself is dropped |
| FTSE100Page.VisitedRecordsByPage | pages/FTSE100Page.ts:133-166 | the records of pages 1 to n are those of pages 1 to n - 1 followed by those of page n |
| FTSE100Page.MarketCapScanFirstFivePages | pages/FTSE100Page.ts:133 | pages after the fifth never affect the scan |

## Left out

- Every browser interaction is an input or is left out. This covers `navigate`, `goToFTSE100Table`, the cookie banner, the clicks on the sort menus, `waitFor`, `toBeVisible`, `waitForTimeout` and `waitForNavigation`. The model starts from the rows the sort produced and the pages the paginator offers.
- `console.log` and `console.warn` (the "Name missing in row" diagnostic) are output only and are not modelled.
- FTSE100Page.ReadLeadingNames models both `extractTop10Constituents` and `extractLast10Constituents`. The two differ only in the sort they select before the loop, and the sort is an input.
- A page link is modelled as present or absent. Playwright's `hasText` substring match, the 5000 ms timeout and the network-idle wait are not modelled. A missing link ends the scan with `PageLinkTimeout`, the model of the exception `waitFor` throws; no partial result is returned.
- JsNumber.ParseFloat: values are exact reals, not IEEE-754 doubles. Rounding to the nearest double, overflow of huge literals to infinity and negative zero are not modelled. The literal "Infinity" and its signed forms are modelled.
- JsText.Trim: strings are sequences of code points. UTF-16 surrogate pairs are not modelled; trim strips only BMP characters in any case.
- `percentChange` is declared in the `Constituent` type but never set by the page object; the model carries it as `None` in every record.
