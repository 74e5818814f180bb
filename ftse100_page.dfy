/**
 * The data-extraction logic of the FTSE 100 constituents page object. The
 * browser is outside the model: the rows of the table (each row the text
 * contents of its `td` cells, in the order the page shows them after the
 * sort the scenario selected) and the pages the paginator can reach are
 * inputs. What is modelled is what the page object does with them: the two
 * "first ten names" loops and the five-page market-cap scan.
 */
module FTSE100Page {
  import opened Wrappers
  import opened JsText
  import opened JsNumber
  import opened MarketCap
  import opened Selection

  /** The text contents of the `td` cells of one table row, left to right. */
  type Row = seq<string>

  /** A constituent as the page object records it; a field the source leaves
      out of the object literal is None. percentChange is declared by the
      source but never filled in. */
  datatype Constituent = Constituent(
    name: string,
    percentChange: Option<Number>,
    marketCapInMillions: Option<Number>,
    marketCapText: Option<string>)

  /** At most this many rows are read by the top / bottom ten loops. */
  const RowLimit: nat := 10
  /** The market-cap scan visits pages 1 to PageCount. */
  const PageCount: nat := 5
  /** A market cap is kept when it is strictly greater than this (millions). */
  const MarketCapThreshold: real := 7.0
  /** Column of the constituent name. */
  const NameColumn: nat := 1
  /** Column of the market cap. */
  const MarketCapColumn: nat := 3

  function Min(a: nat, b: nat): (m: nat)
    ensures m <= a && m <= b && (m == a || m == b)
  {
    if a <= b then a else b
  }

  /** `cells[column]?.trim() || ''`: the trimmed text of a cell, or the
      empty string when the row has no such cell. */
  function CellText(row: Row, column: nat): (t: string)
    ensures IsTrimmed(t)
    ensures t == [] <==> column >= |row| || IsBlank(row[column])
    ensures column < |row| ==>
      exists lead | 0 <= lead <= |row[column]| - |t| :: IsTrimSlice(row[column], lead, t)
  {
    if column < |row| then Trim(row[column]) else ""
  }

  /** `marketCapInMillions !== null && marketCapInMillions > 7`: a null
      market cap never passes, positive infinity always does. */
  predicate AboveThreshold(cap: Option<Number>)
    ensures AboveThreshold(cap) <==>
      cap == Some(PositiveInfinity) || (cap.Some? && cap.value.Finite? && cap.value.r > 7.0)
  {
    cap.Some? && GreaterThan(cap.value, MarketCapThreshold)
  }

  // ---------------------------------------------------------------------
  // Top and bottom ten
  // ---------------------------------------------------------------------

  /** What one row contributes to the top / bottom ten: its name, or nothing
      when the name cell is missing or blank. */
  function NameRecord(row: Row): (record: Option<Constituent>)
    ensures record.Some? <==> CellText(row, NameColumn) != ""
    ensures record.Some? ==> record.value.name == CellText(row, NameColumn) && IsTrimmed(record.value.name)
    ensures record.Some? ==> record.value == Constituent(record.value.name, None, None, None)
  {
    var name := CellText(row, NameColumn);
    if name == "" then None else Some(Constituent(name, None, None, None))
  }

  /** The rows the top / bottom ten loop looks at: the first ten, or all
      of them when there are fewer. */
  function LeadingRows(rows: seq<Row>): (window: seq<Row>)
    ensures |window| == Min(RowLimit, |rows|)
    ensures window == rows[..|window|]
  {
    rows[..Min(RowLimit, |rows|)]
  }

  /** The body of the row loop of the top / bottom ten: read the name cell
      and keep the row when the name is not blank. */
  method ReadNameRow(cells: Row) returns (record: Option<Constituent>)
    ensures record == NameRecord(cells)
    ensures record.Some? <==> CellText(cells, NameColumn) != ""
    ensures record.Some? ==> record.value == Constituent(CellText(cells, NameColumn), None, None, None)
  {
    var name := CellText(cells, NameColumn);
    if name == "" {
      return None;
    }
    return Some(Constituent(name, None, None, None));
  }

  /** The loop of extractTop10Constituents and extractLast10Constituents:
      the names of the first min(10, |rows|) rows, skipping rows without a
      name. The two scenarios differ only in the sort they select before it. */
  method ReadLeadingNames(rows: seq<Row>) returns (data: seq<Constituent>)
    ensures data == FilterMap(LeadingRows(rows), NameRecord)
  {
    data := [];
    var window := LeadingRows(rows);
    for i := 0 to |window|
      invariant data == FilterMap(window[..i], NameRecord)
    {
      ghost var before := data;
      var record := ReadNameRow(window[i]);
      if record.Some? {
        data := data + [record.value];
      }
      FilterMapExtend(window, i, NameRecord, before, data);
    }
    assert window[..|window|] == window;
  }

  /** The names read are those of the first ten rows that have one, in row
      order, and each record carries only a non-blank, trimmed name. */
  lemma LeadingNamesRecords(rows: seq<Row>)
    ensures var window := LeadingRows(rows);
      var ks := KeptIndices(window, NameRecord);
      var data := FilterMap(window, NameRecord);
      && |data| <= RowLimit && |data| <= |rows|
      && |ks| == |data|
      && (forall k | 0 <= k < |ks| :: ks[k] < |window|)
      && (forall k, l | 0 <= k < l < |ks| :: ks[k] < ks[l])
      && (forall k | 0 <= k < |data| ::
            && data[k] == Constituent(CellText(rows[ks[k]], NameColumn), None, None, None)
            && data[k].name != "" && IsTrimmed(data[k].name))
  {
    var window := LeadingRows(rows);
    var ks := KeptIndices(window, NameRecord);
    var data := FilterMap(window, NameRecord);
    FilterMapExact(window, NameRecord);
    forall k | 0 <= k < |data|
      ensures && data[k] == Constituent(CellText(rows[ks[k]], NameColumn), None, None, None)
              && data[k].name != "" && IsTrimmed(data[k].name)
    {
      assert window[ks[k]] == rows[ks[k]];
    }
  }

  /** Every one of the first ten rows that has a name is read, and no other
      row. */
  lemma LeadingNamesRows(rows: seq<Row>)
    ensures var window := LeadingRows(rows);
      var ks := KeptIndices(window, NameRecord);
      forall j | 0 <= j < |window| :: j in ks <==> CellText(rows[j], NameColumn) != ""
  {
    var window := LeadingRows(rows);
    KeptIndicesMembers(window, NameRecord);
    forall j | 0 <= j < |window|
      ensures NameRecord(window[j]).Some? <==> CellText(rows[j], NameColumn) != ""
    {
      assert window[j] == rows[j];
    }
  }

  /** When each of the first ten rows has a name, the result holds exactly
      those ten names (all of them when there are fewer rows), in order. */
  lemma LeadingNamesAllNamed(rows: seq<Row>)
    requires forall j | 0 <= j < Min(RowLimit, |rows|) :: CellText(rows[j], NameColumn) != ""
    ensures var data := FilterMap(LeadingRows(rows), NameRecord);
      && |data| == Min(RowLimit, |rows|)
      && forall k | 0 <= k < |data| :: data[k].name == CellText(rows[k], NameColumn)
  {
    var window := LeadingRows(rows);
    assert forall j | 0 <= j < |window| :: window[j] == rows[j];
    FilterMapKeepsAll(window, NameRecord);
  }

  /** Rows after the tenth are never looked at. */
  lemma LeadingNamesIgnoreLaterRows(rows: seq<Row>, more: seq<Row>)
    requires |rows| >= RowLimit
    ensures FilterMap(LeadingRows(rows + more), NameRecord) == FilterMap(LeadingRows(rows), NameRecord)
  {
    assert (rows + more)[..RowLimit] == rows[..RowLimit];
  }

  // ---------------------------------------------------------------------
  // The market-cap scan
  // ---------------------------------------------------------------------

  /** The table as the paginator presents it: the rows of page 1 (shown
      after the sort) and the rows of each further page whose link the
      paginator offers, page 2 first. */
  datatype Pager = Pager(first: seq<Row>, later: seq<seq<Row>>)

  /** The scan stops when the link to a page it wants never appears
      (`waitFor` with a 5000 ms timeout throws). */
  datatype ScanError = PageLinkTimeout(pageNum: nat)

  /** The rows of page `pageNum`, counting from 1. */
  function PageRows(pager: Pager, pageNum: nat): seq<Row>
    requires 1 <= pageNum <= |pager.later| + 1
  {
    if pageNum == 1 then pager.first else pager.later[pageNum - 2]
  }

  /** The rows of pages 1 to `pages`, in page order. */
  function VisitedRows(pager: Pager, pages: nat): seq<Row>
    requires pages <= |pager.later| + 1
  {
    if pages == 0 then [] else VisitedRows(pager, pages - 1) + PageRows(pager, pages)
  }

  /** What one row contributes to the scan: name, market cap text and value,
      when both cells are non-blank and the value is above the threshold. */
  function MarketCapRecord(row: Row): (record: Option<Constituent>)
    ensures record.Some? ==>
      && record.value.name != "" && IsTrimmed(record.value.name)
      && record.value.marketCapText.Some? && record.value.marketCapText.value != ""
      && record.value.marketCapInMillions == ParseMarketCap(record.value.marketCapText.value)
      && AboveThreshold(record.value.marketCapInMillions)
      && record.value.percentChange == None
  {
    var name := CellText(row, NameColumn);
    var text := CellText(row, MarketCapColumn);
    if name == "" || text == "" then None
    else
      var cap := ParseMarketCap(text);
      if AboveThreshold(cap) then Some(Constituent(name, None, cap, Some(text))) else None
  }

  /** The outcome of the scan: the records of every row of pages 1 to 5, in
      page and row order; or, when fewer than five pages exist, the timeout
      on the first page whose link is missing (nothing is returned then). */
  function MarketCapScan(pager: Pager): (outcome: Result<seq<Constituent>, ScanError>)
    ensures outcome.Success? ==>
      PageCount <= |pager.later| + 1 && |outcome.value| <= |VisitedRows(pager, PageCount)|
    ensures outcome.Failure? ==> 2 <= outcome.error.pageNum <= PageCount
  {
    if |pager.later| + 1 < PageCount then Failure(PageLinkTimeout(|pager.later| + 2))
    else Success(FilterMap(VisitedRows(pager, PageCount), MarketCapRecord))
  }

  /** The body of the row loop of extractMarketCapConstituents: read the
      name and market cap cells, skip the row when either is blank, parse the
      market cap and keep the row when the value is above the threshold. */
  method ReadMarketCapRow(cells: Row) returns (record: Option<Constituent>)
    ensures record == MarketCapRecord(cells)
    ensures record.Some? <==>
      && CellText(cells, NameColumn) != ""
      && CellText(cells, MarketCapColumn) != ""
      && AboveThreshold(ParseMarketCap(CellText(cells, MarketCapColumn)))
    ensures record.Some? ==>
      record.value == Constituent(
        CellText(cells, NameColumn), None,
        ParseMarketCap(CellText(cells, MarketCapColumn)), Some(CellText(cells, MarketCapColumn)))
  {
    var name := CellText(cells, NameColumn);
    var marketCapText := CellText(cells, MarketCapColumn);
    if name == "" || marketCapText == "" {
      return None;
    }
    var marketCapInMillions := ParseMarketCap(marketCapText);
    if marketCapInMillions.Some? && GreaterThan(marketCapInMillions.value, MarketCapThreshold) {
      return Some(Constituent(name, None, marketCapInMillions, Some(marketCapText)));
    }
    return None;
  }

  /** The row loop of one page: append the record of every row of the page
      that gives one, in row order. */
  method ScanPageRows(rows: seq<Row>, data: seq<Constituent>) returns (result: seq<Constituent>)
    ensures result == data + FilterMap(rows, MarketCapRecord)
  {
    result := data;
    for j := 0 to |rows|
      invariant result == data + FilterMap(rows[..j], MarketCapRecord)
    {
      ghost var before := result;
      var record := ReadMarketCapRow(rows[j]);
      if record.Some? {
        result := result + [record.value];
      }
      FilterMapAdvance(data, rows, j, MarketCapRecord, before, result);
    }
    assert rows[..|rows|] == rows;
  }

  /** extractMarketCapConstituents after the sort: visit pages 1 to 5 and
      keep every row whose market cap is above 7 million. */
  method ExtractMarketCapConstituents(pager: Pager) returns (result: Result<seq<Constituent>, ScanError>)
    ensures result == MarketCapScan(pager)
  {
    var data: seq<Constituent> := [];
    for pageNum := 1 to PageCount + 1
      invariant pageNum - 1 <= |pager.later| + 1
      invariant data == FilterMap(VisitedRows(pager, pageNum - 1), MarketCapRecord)
    {
      if pageNum > 1 && pageNum - 2 >= |pager.later| {
        assert pageNum == |pager.later| + 2;
        return Failure(PageLinkTimeout(pageNum));
      }
      var rows := PageRows(pager, pageNum);
      VisitedRecordsByPage(pager, pageNum);
      data := ScanPageRows(rows, data);
    }
    assert data == FilterMap(VisitedRows(pager, PageCount), MarketCapRecord);
    return Success(data);
  }

  /** The scan fails exactly when fewer than five pages exist, naming the
      first missing page. */
  lemma MarketCapScanFails(pager: Pager)
    ensures MarketCapScan(pager).Failure? <==> |pager.later| < PageCount - 1
    ensures MarketCapScan(pager).Failure? ==>
      MarketCapScan(pager).error.pageNum == |pager.later| + 2 <= PageCount
  {
  }

  /** When a row gives a record, and what it records. */
  lemma MarketCapRecordKept(row: Row)
    ensures MarketCapRecord(row).Some? <==>
      && CellText(row, NameColumn) != ""
      && CellText(row, MarketCapColumn) != ""
      && AboveThreshold(ParseMarketCap(CellText(row, MarketCapColumn)))
    ensures MarketCapRecord(row).Some? ==>
      MarketCapRecord(row).value == Constituent(
        CellText(row, NameColumn), None,
        ParseMarketCap(CellText(row, MarketCapColumn)), Some(CellText(row, MarketCapColumn)))
  {
  }

  /** Every record of a successful scan comes from a row of pages 1 to 5, in
      row order, and holds that row's non-blank name, its market cap text and
      the value parsed from it, which is above 7. */
  lemma MarketCapScanRecords(pager: Pager)
    requires |pager.later| >= PageCount - 1
    ensures var rows := VisitedRows(pager, PageCount);
      var ks := KeptIndices(rows, MarketCapRecord);
      var data := FilterMap(rows, MarketCapRecord);
      && MarketCapScan(pager) == Success(data)
      && |ks| == |data|
      && (forall k, l | 0 <= k < l < |ks| :: ks[k] < ks[l])
      && (forall k | 0 <= k < |data| ::
            && ks[k] < |rows|
            && data[k].name == CellText(rows[ks[k]], NameColumn) != ""
            && data[k].marketCapText == Some(CellText(rows[ks[k]], MarketCapColumn))
            && data[k].marketCapInMillions == ParseMarketCap(CellText(rows[ks[k]], MarketCapColumn))
            && AboveThreshold(data[k].marketCapInMillions)
            && data[k].percentChange == None)
  {
    var rows := VisitedRows(pager, PageCount);
    var ks := KeptIndices(rows, MarketCapRecord);
    var data := FilterMap(rows, MarketCapRecord);
    FilterMapExact(rows, MarketCapRecord);
    forall k | 0 <= k < |data|
      ensures && data[k].name == CellText(rows[ks[k]], NameColumn) != ""
              && data[k].marketCapText == Some(CellText(rows[ks[k]], MarketCapColumn))
              && data[k].marketCapInMillions == ParseMarketCap(CellText(rows[ks[k]], MarketCapColumn))
              && AboveThreshold(data[k].marketCapInMillions)
              && data[k].percentChange == None
    {
      MarketCapRecordKept(rows[ks[k]]);
    }
  }

  /** A row of pages 1 to 5 is kept exactly when its name and market cap
      cells are non-blank and its market cap parses to a number above 7. */
  lemma MarketCapScanRows(pager: Pager)
    requires |pager.later| >= PageCount - 1
    ensures var rows := VisitedRows(pager, PageCount);
      var ks := KeptIndices(rows, MarketCapRecord);
      forall j | 0 <= j < |rows| ::
        j in ks <==>
          && CellText(rows[j], NameColumn) != ""
          && CellText(rows[j], MarketCapColumn) != ""
          && AboveThreshold(ParseMarketCap(CellText(rows[j], MarketCapColumn)))
  {
    var rows := VisitedRows(pager, PageCount);
    KeptIndicesMembers(rows, MarketCapRecord);
    forall j | 0 <= j < |rows|
      ensures MarketCapRecord(rows[j]).Some? <==>
          && CellText(rows[j], NameColumn) != ""
          && CellText(rows[j], MarketCapColumn) != ""
          && AboveThreshold(ParseMarketCap(CellText(rows[j], MarketCapColumn)))
    {
      MarketCapRecordKept(rows[j]);
    }
  }

  /** The threshold is strict: a market cap written with two decimals and
      thousands separators is kept exactly when it exceeds 7.00, so "7.00"
      itself is dropped and "7.01" kept. */
  lemma ThresholdIsStrict(hundredths: int)
    ensures AboveThreshold(ParseMarketCap(FormatHundredths(hundredths))) <==> hundredths > 700
  {
    ParseFormatted(hundredths);
  }

  /** The records of pages 1 to n are those of page 1, then those of page 2,
      and so on: each page contributes its own rows, in page order. */
  lemma {:induction false} VisitedRecordsByPage(pager: Pager, pages: nat)
    requires 1 <= pages <= |pager.later| + 1
    ensures FilterMap(VisitedRows(pager, pages), MarketCapRecord)
         == FilterMap(VisitedRows(pager, pages - 1), MarketCapRecord)
            + FilterMap(PageRows(pager, pages), MarketCapRecord)
  {
    FilterMapAppend(VisitedRows(pager, pages - 1), PageRows(pager, pages), MarketCapRecord);
  }

  /** Pages after the fifth never affect the scan. */
  lemma {:induction false} MarketCapScanFirstFivePages(pager: Pager, extra: seq<seq<Row>>)
    requires |pager.later| >= PageCount - 1
    ensures MarketCapScan(Pager(pager.first, pager.later + extra)) == MarketCapScan(pager)
  {
    var longer := Pager(pager.first, pager.later + extra);
    VisitedUnchanged(pager, longer, PageCount);
  }

  /** Two pagers that agree on pages 1 to n visit the same rows there. */
  lemma {:induction false} VisitedUnchanged(a: Pager, b: Pager, pages: nat)
    requires pages <= |a.later| + 1 && pages <= |b.later| + 1
    requires a.first == b.first
    requires forall p | 0 <= p < pages - 1 :: a.later[p] == b.later[p]
    ensures VisitedRows(a, pages) == VisitedRows(b, pages)
  {
    if pages > 0 {
      VisitedUnchanged(a, b, pages - 1);
    }
  }
}
