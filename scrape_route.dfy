/**
  The row extractor of the scrape route: from the first `table.wikitable` of
  a page, every row whose first four `td` cells give a mark above zero and a
  non-empty athlete, date and venue becomes a `DataPoint`, in row order.

  A page is the sequence of its tables in document order; a table carries
  its class names and its rows; a row is the sequence of the texts of its
  `td` cells (`th` cells are not part of it).
 */
module ScrapeRoute {
  import opened Wrappers
  import opened JsText
  import opened MarkParse
  import opened Collecting

  /** The text of each `td` cell of a `tr`, left to right. */
  type Row = seq<string>

  datatype HtmlTable = HtmlTable(classes: seq<string>, rows: seq<Row>)

  /** The tables of a document, in document order. */
  type Page = seq<HtmlTable>

  /** One scraped record; the mark of every emitted record is above zero (see `WellFormed`). */
  datatype DataPoint = DataPoint(date: string, mark: Mark, athlete: string, venue: string)

  predicate IsWikitable(t: HtmlTable)
  {
    "wikitable" in t.classes
  }

  /** `$('table.wikitable').first()`: the first table carrying the class `wikitable`. */
  function FirstWikitable(page: Page): (t: Option<HtmlTable>)
    ensures t.None? <==> forall i :: 0 <= i < |page| ==> !IsWikitable(page[i])
    ensures t.Some? ==>
      exists i :: 0 <= i < |page| && page[i] == t.value && IsWikitable(page[i])
        && forall j :: 0 <= j < i ==> !IsWikitable(page[j])
  {
    if page == [] then None
    else if IsWikitable(page[0]) then Some(page[0])
    else
      var t := FirstWikitable(page[1..]);
      assert forall i :: 1 <= i < |page| ==> page[i] == page[1..][i - 1];
      t
  }

  /** The rows `table.find('tr')` walks: none when the page has no wikitable. */
  function TableRows(page: Page): (rows: seq<Row>)
    ensures (forall i :: 0 <= i < |page| ==> !IsWikitable(page[i])) ==> rows == []
    ensures rows != [] ==> exists i :: 0 <= i < |page| && IsWikitable(page[i]) && page[i].rows == rows
  {
    match FirstWikitable(page)
    case None => []
    case Some(t) => t.rows
  }

  /**
    A row yields a record exactly when it has at least four cells, its
    trimmed first cell reads as a mark above zero and its trimmed second,
    third and fourth cells are non-empty.
   */
  predicate Qualifies(row: Row)
  {
    && |row| >= 4
    && IsAboveZero(ParseMark(Trim(row[0])))
    && Trim(row[1]) != ""
    && Trim(row[2]) != ""
    && Trim(row[3]) != ""
  }

  /** The record read from a row by position: mark, athlete, date, venue. */
  function RecordOf(row: Row): (d: DataPoint)
    requires |row| >= 4
    ensures IsTrimmed(d.athlete) && IsTrimmed(d.date) && IsTrimmed(d.venue)
  {
    DataPoint(Trim(row[2]), ParseMark(Trim(row[0])), Trim(row[1]), Trim(row[3]))
  }

  /** What every emitted record satisfies. */
  predicate WellFormed(d: DataPoint)
  {
    && IsAboveZero(d.mark)
    && d.athlete != "" && IsTrimmed(d.athlete)
    && d.date != "" && IsTrimmed(d.date)
    && d.venue != "" && IsTrimmed(d.venue)
  }

  /** The record a row yields, if any. */
  function RowOutcome(row: Row): (r: Option<DataPoint>)
    ensures |row| < 4 ==> r.None?
    ensures r.Some? ==> |row| >= 4 && r.value == RecordOf(row)
  {
    if Qualifies(row) then Some(RecordOf(row)) else None
  }

  /** A record a row yields is well formed. */
  lemma OutcomeWellFormed(row: Row)
    ensures RowOutcome(row).Some? ==> WellFormed(RowOutcome(row).value)
  {
  }

  /** The records the extractor produces from `rows`: those of the qualifying rows, in row order. */
  function Records(rows: seq<Row>): (out: seq<DataPoint>)
    ensures |out| <= |rows|
  {
    Collect(rows, RowOutcome)
  }

  /** Every record the extractor produces is well formed. */
  lemma RecordsWellFormed(rows: seq<Row>)
    ensures forall k :: 0 <= k < |Records(rows)| ==> WellFormed(Records(rows)[k])
  {
    CollectAt(rows, RowOutcome);
    var out, idx := Records(rows), YieldingIndices(rows, RowOutcome);
    forall k | 0 <= k < |out|
      ensures WellFormed(out[k])
    {
      OutcomeWellFormed(rows[idx[k]]);
    }
  }

  /** The positions of the qualifying rows, in increasing order. */
  function QualifyingIndices(rows: seq<Row>): (idx: seq<nat>)
    ensures forall k :: 0 <= k < |idx| ==> idx[k] < |rows| && Qualifies(rows[idx[k]])
    ensures forall k, l :: 0 <= k < l < |idx| ==> idx[k] < idx[l]
    ensures forall i :: 0 <= i < |rows| && Qualifies(rows[i]) ==> i in idx
  {
    YieldingIndices(rows, RowOutcome)
  }

  /**
    The output is exactly the records of the qualifying rows, one per row,
    in document order: the k-th record is read from the k-th qualifying row.
   */
  lemma RecordsFollowRowOrder(rows: seq<Row>)
    ensures |Records(rows)| == |QualifyingIndices(rows)|
    ensures forall k :: 0 <= k < |Records(rows)| ==>
              Records(rows)[k] == RecordOf(rows[QualifyingIndices(rows)[k]])
  {
    CollectAt(rows, RowOutcome);
  }

  /** Records of consecutive blocks of rows come out in block order, with nothing merged or dropped. */
  lemma RecordsOfConcat(a: seq<Row>, b: seq<Row>)
    ensures Records(a + b) == Records(a) + Records(b)
  {
    CollectConcat(a, b, RowOutcome);
  }

  /** Walking one more row appends that row's records to those of the rows before it. */
  lemma RecordsOfPrefix(rows: seq<Row>, i: nat)
    requires i < |rows|
    ensures Records(rows[..i + 1]) == Records(rows[..i]) + Records([rows[i]])
  {
    assert rows[..i + 1] == rows[..i] + [rows[i]];
    RecordsOfConcat(rows[..i], [rows[i]]);
  }

  /** A row yields a record exactly when it qualifies, and then the record read by position. */
  lemma RecordsOfOneRow(row: Row)
    ensures Records([row]) == if Qualifies(row) then [RecordOf(row)] else []
    ensures |row| < 4 ==> Records([row]) == []
  {
  }

  /** Cells beyond the fourth never influence a row's outcome. */
  lemma ExtraCellsIgnored(row: Row, extra: seq<string>)
    requires |row| >= 4
    ensures Qualifies(row + extra) == Qualifies(row)
    ensures RecordOf(row + extra) == RecordOf(row)
  {
    var longer := row + extra;
    assert longer[0] == row[0] && longer[1] == row[1] && longer[2] == row[2] && longer[3] == row[3];
  }

  /** A row of four already-trimmed texts is read field by field, unchanged. */
  lemma TrimmedRowOutcome(mark: string, athlete: string, date: string, venue: string)
    requires IsTrimmed(mark) && IsTrimmed(athlete) && IsTrimmed(date) && IsTrimmed(venue)
    ensures Qualifies([mark, athlete, date, venue]) <==>
            IsAboveZero(ParseMark(mark)) && athlete != "" && date != "" && venue != ""
    ensures RecordOf([mark, athlete, date, venue]) == DataPoint(date, ParseMark(mark), athlete, venue)
  {
    var row: Row := [mark, athlete, date, venue];
    assert row[0] == mark && row[1] == athlete && row[2] == date && row[3] == venue;
    TrimOfTrimmed(mark);
    TrimOfTrimmed(athlete);
    TrimOfTrimmed(date);
    TrimOfTrimmed(venue);
    assert Trim(row[0]) == mark && Trim(row[1]) == athlete && Trim(row[2]) == date && Trim(row[3]) == venue;
  }

  /**
    A page whose first wikitable has a header row of `th` cells (so no `td`
    cells) and one data row of already-trimmed texts gives exactly the record
    of the data row, when its mark is above zero and its other texts are not
    empty.
   */
  lemma HeaderAndOneDataRow(page: Page, mark: string, athlete: string, date: string, venue: string)
    requires |page| > 0 && IsWikitable(page[0])
    requires page[0].rows == [[], [mark, athlete, date, venue]]
    requires IsTrimmed(mark) && IsTrimmed(athlete) && IsTrimmed(date) && IsTrimmed(venue)
    requires IsAboveZero(ParseMark(mark)) && athlete != "" && date != "" && venue != ""
    ensures Records(TableRows(page)) == [DataPoint(date, ParseMark(mark), athlete, venue)]
  {
    var header: Row := [];
    var data: Row := [mark, athlete, date, venue];
    var d := DataPoint(date, ParseMark(mark), athlete, venue);
    assert TableRows(page) == [header] + [data] by {
      assert FirstWikitable(page) == Some(page[0]);
    }
    assert Records([header]) == [] by {
      RecordsOfOneRow(header);
    }
    assert Records([data]) == [d] by {
      RecordsOfOneRow(data);
      TrimmedRowOutcome(mark, athlete, date, venue);
    }
    RecordsOfConcat([header], [data]);
  }

  /**
    What the callback does to `result` is decided by the row: the values it
    reads from the cells push exactly the row's records.
   */
  lemma RowStep(cells: Row, markVal: string, athleteVal: string, dateVal: string, venueVal: string,
                numericMark: Mark, result: seq<DataPoint>)
    requires if |cells| >= 4
             then markVal == Trim(cells[0]) && athleteVal == Trim(cells[1])
               && dateVal == Trim(cells[2]) && venueVal == Trim(cells[3])
             else markVal == "" && athleteVal == "" && dateVal == "" && venueVal == ""
    requires numericMark == ParseMark(markVal)
    ensures result + Records([cells]) ==
            if IsAboveZero(numericMark) && athleteVal != "" && dateVal != "" && venueVal != ""
            then result + [DataPoint(dateVal, numericMark, athleteVal, venueVal)] else result
  {
    RecordsOfOneRow(cells);
    assert result + [] == result;
  }

  /**
    The callback the route runs on each `tr`.  The per-row variables start as
    empty strings and are filled from the first four cells only when the row
    has at least four; the mark is 0 unless the mark text holds a run of
    digits and dots, which `parseFloat` then reads; the record is pushed
    onto `result` only when the mark is above zero and the other three
    fields are non-empty.
   */
  method VisitRow(cells: Row, result: seq<DataPoint>) returns (pushed: seq<DataPoint>)
    ensures pushed == result + Records([cells])
  {
    var markVal, athleteVal, dateVal, venueVal := "", "", "", "";
    if |cells| >= 4 {
      markVal := Trim(cells[0]);
      athleteVal := Trim(cells[1]);
      dateVal := Trim(cells[2]);
      venueVal := Trim(cells[3]);
    }
    var numericMark := Num(0, 0);
    var found := FirstRun(markVal);
    if found.Some? {
      numericMark := ParseFloat(found.value);
    }
    RowStep(cells, markVal, athleteVal, dateVal, venueVal, numericMark, result);
    pushed := result;
    if IsAboveZero(numericMark) && athleteVal != "" && dateVal != "" && venueVal != "" {
      pushed := pushed + [DataPoint(dateVal, numericMark, athleteVal, venueVal)];
    }
  }

  /**
    The row walk of the scrape route: the callback runs on every row of the
    first wikitable of `page`, in document order.
   */
  method ExtractDataPoints(page: Page) returns (result: seq<DataPoint>)
    ensures result == Records(TableRows(page))
    ensures forall k :: 0 <= k < |result| ==> WellFormed(result[k])
    ensures (forall i :: 0 <= i < |page| ==> !IsWikitable(page[i])) ==> result == []
    ensures forall t :: FirstWikitable(page) == Some(t) ==> |result| <= |t.rows|
  {
    var table := FirstWikitable(page);
    var rows: seq<Row> := if table.Some? then table.value.rows else [];
    result := [];
    var i := 0;
    while i < |rows|
      invariant 0 <= i <= |rows|
      invariant result == Records(rows[..i])
    {
      result := VisitRow(rows[i], result);
      RecordsOfPrefix(rows, i);
      i := i + 1;
    }
    assert rows[..|rows|] == rows;
    RecordsWellFormed(rows);
  }
}
