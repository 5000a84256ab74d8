/** NASA POWER response post-processing: the request built for a point and a
    date range, and the pure transformation of the CSV payload into a table of
    the expected columns with its summary. The HTTP exchange is a parameter,
    `upstream`, which returns the response or the transport failure. */
module DatasetService {
  import opened Wrappers
  import opened Text
  import opened Seqs
  // Only for `RequestedPrecipitationNotInCatalog`, which records that the
  // code requested here is absent from the activity catalog.
  import ActivityParameters

  /** Precipitation, temperature and humidity, as sent to NASA POWER. */
  const RequestedParameters := "PRECTOT,T2M,RH2M"
  const ResponseFormat := "CSV"

  /** Lines of metadata NASA POWER puts before the CSV header (`skiprows=10`). */
  const PreambleLines := 10

  /** The columns kept in the result, if the payload has them. */
  const ExpectedColumns: seq<string> := ["YEAR", "MO", "DY", "PRECTOT", "T2M", "RH2M"]

  const DatasetName := "NASA POWER"
  const StatusDownloaded := "downloaded"

  // ---------------------------------------------------------------------------
  // Data model
  // ---------------------------------------------------------------------------

  /** One CSV field: `None` where pandas reads a missing value (NaN). */
  type Cell = Option<string>
  type Row = seq<Cell>

  /** A data frame: its column names and its rows, in order. */
  datatype Table = Table(columns: seq<string>, rows: seq<Row>)

  /** Every row has one cell per column. */
  predicate WellFormed(t: Table) {
    forall row | row in t.rows :: |row| == |t.columns|
  }

  /** The query parameters of the NASA POWER request. */
  datatype RequestParams = RequestParams(
    parameters: string, start: string, end: string,
    latitude: real, longitude: real, format: string)

  datatype HttpResponse = HttpResponse(statusCode: int, text: string)

  /** Why `fetch_nasa_power_data` raises. */
  datatype FetchError =
    | TransportError(message: string)         // httpx could not complete the request
    | HttpStatusError(statusCode: int)        // `raise_for_status` on a non-2xx response
    | EmptyDataError                          // no header line after the preamble
    | TokenizingError(expected: nat, saw: nat) // a data line with more fields than the header

  /** The summary dict returned beside the data frame. */
  datatype Summary = Summary(
    dataset: string, lat: real, lon: real,
    rows: nat, columns: seq<string>, status: string)

  // ---------------------------------------------------------------------------
  // Dates and request
  // ---------------------------------------------------------------------------

  /** Python's `given or fallback` on an optional string: `None` and the empty
      string are falsy. */
  function OrElse(given: Option<string>, fallback: string): string {
    if given.Some? && given.value != "" then given.value else fallback
  }

  /** Jan 1 and Dec 31 of `year`, as `f"{year}0101"` and `f"{year}1231"`. */
  function DefaultStart(year: nat): string {
    NatToString(year) + "0101"
  }

  function DefaultEnd(year: nat): string {
    NatToString(year) + "1231"
  }

  /** The request sent for a point and a (defaulted) date range. */
  function BuildRequest(lat: real, lon: real, start: string, end: string): RequestParams {
    RequestParams(RequestedParameters, start, end, lat, lon, ResponseFormat)
  }

  predicate IsSuccess(statusCode: int) {
    200 <= statusCode < 300
  }

  // ---------------------------------------------------------------------------
  // CSV reading (`pd.read_csv(StringIO(text), skiprows=10)`)
  // ---------------------------------------------------------------------------

  /** The strings pandas reads as a missing value by default. */
  function MissingMarkers(): set<string> {
    {"", "#N/A", "#N/A N/A", "#NA", "-1.#IND", "-1.#QNAN", "-NaN", "-nan", "1.#IND",
     "1.#QNAN", "<NA>", "N/A", "NA", "NULL", "NaN", "None", "n/a", "nan", "null"}
  }

  /** A field as a cell: a missing marker is a missing cell. */
  function ParseField(field: string): Cell {
    if field in MissingMarkers() then None else Some(field)
  }

  /** The payload's lines after the preamble. */
  function SkipPreamble(lines: seq<string>): (r: seq<string>)
    ensures |lines| <= PreambleLines ==> r == []
    ensures |lines| > PreambleLines ==> r == lines[PreambleLines..]
  {
    if |lines| <= PreambleLines then [] else lines[PreambleLines..]
  }

  /** pandas (`skip_blank_lines`) skips a line that is empty or holds only
      spaces and tabs instead of reading it as a row. */
  predicate IsNotBlank(line: string) {
    exists c | c in line :: c != ' ' && c != '\t'
  }

  /** The lines `read_csv` sees: the non-blank lines after the preamble, the
      header first. */
  function DataLines(payload: string): seq<string> {
    Filter(SkipPreamble(Split(payload, '\n')), IsNotBlank)
  }

  /** The implicit index columns pandas infers: when the first line after
      the header has `k` more fields than the header's `width`, its first `k`
      fields (and those of every later line) form the index, which
      `reset_index(drop=True)` later discards. */
  function IndexColumns(data: seq<string>, width: nat): (k: nat)
    ensures k > 0 <==> |data| > 0 && |Split(data[0], ',')| > width
    ensures k > 0 ==> |Split(data[0], ',')| == width + k
  {
    if |data| > 0 && |Split(data[0], ',')| > width then |Split(data[0], ',')| - width else 0
  }

  /** One data line with `lead` index fields before `width` columns: the line
      is padded with `None` to `lead + width` fields, the index fields are
      dropped, and field `lead + i` becomes cell `i`; more than
      `lead + width` fields is an error. */
  function ParseRow(line: string, lead: nat, width: nat): (r: Result<Row, FetchError>)
    ensures r.Success? <==> |Split(line, ',')| <= lead + width
    ensures r.Failure? ==> r.error == TokenizingError(lead + width, |Split(line, ',')|)
    ensures r.Success? ==>
              && |r.value| == width
              && (forall i | 0 <= i < width && lead + i < |Split(line, ',')| ::
                    r.value[i] == ParseField(Split(line, ',')[lead + i]))
              && (forall i | 0 <= i < width && |Split(line, ',')| <= lead + i :: r.value[i] == None)
  {
    var fields := Split(line, ',');
    if |fields| > lead + width then Failure(TokenizingError(lead + width, |fields|))
    else
      Success(seq(width, i requires 0 <= i < width =>
                if lead + i < |fields| then ParseField(fields[lead + i]) else None))
  }

  /** The data lines, in order: row `i` is the parse of line `i`; the first
      line that fails makes the whole read fail (`ParseRowsFailsAtFirst`). */
  function ParseRows(lines: seq<string>, lead: nat, width: nat): (r: Result<seq<Row>, FetchError>)
    ensures r.Success? <==> forall i | 0 <= i < |lines| :: |Split(lines[i], ',')| <= lead + width
    ensures r.Success? ==> |r.value| == |lines|
    ensures r.Success? ==> forall i | 0 <= i < |lines| :: ParseRow(lines[i], lead, width) == Success(r.value[i])
    ensures r.Success? ==> forall i | 0 <= i < |r.value| :: |r.value[i]| == width
    ensures r.Failure? ==> r.error.TokenizingError?
    decreases |lines|
  {
    if |lines| == 0 then Success([])
    else
      assert forall i | 1 <= i < |lines| :: lines[i] == lines[1..][i - 1];
      match ParseRow(lines[0], lead, width)
      case Failure(e) => Failure(e)
      case Success(row) =>
        match ParseRows(lines[1..], lead, width)
        case Failure(e) => Failure(e)
        case Success(rest) => Success([row] + rest)
  }

  /** The frame `read_csv` builds: the first data line is the header, the
      later ones are the rows, read past the implicit index columns; no data
      line at all is `EmptyDataError`. */
  function ReadCsv(payload: string): (r: Result<Table, FetchError>)
    ensures r.Success? ==> WellFormed(r.value)
    ensures r == Failure(EmptyDataError) <==> |DataLines(payload)| == 0
    ensures |DataLines(payload)| > 0 ==>
              var header, data := Split(DataLines(payload)[0], ','), DataLines(payload)[1..];
              var lead := IndexColumns(data, |header|);
              && (r.Success? <==> forall i | 0 <= i < |data| :: |Split(data[i], ',')| <= lead + |header|)
              && (r.Success? ==>
                    && r.value.columns == header
                    && |r.value.rows| == |data|
                    && forall i | 0 <= i < |data| :: ParseRow(data[i], lead, |header|) == Success(r.value.rows[i]))
  {
    var body := DataLines(payload);
    if |body| == 0 then Failure(EmptyDataError)
    else
      var header := Split(body[0], ',');
      var rows :- ParseRows(body[1..], IndexColumns(body[1..], |header|), |header|);
      Success(Table(header, rows))
  }

  /** A failing read fails at its first over-long line: that line's own
      error is the result and every earlier line parses. */
  lemma {:induction false} ParseRowsFailsAtFirst(lines: seq<string>, lead: nat, width: nat)
    requires ParseRows(lines, lead, width).Failure?
    ensures exists i | 0 <= i < |lines| ::
              && ParseRow(lines[i], lead, width) == Failure(ParseRows(lines, lead, width).error)
              && forall j | 0 <= j < i :: ParseRow(lines[j], lead, width).Success?
    decreases |lines|
  {
    var e := ParseRows(lines, lead, width).error;
    if ParseRow(lines[0], lead, width).Success? {
      var rest := lines[1..];
      ParseRowsFailsAtFirst(rest, lead, width);
      var k :| 0 <= k < |rest| && ParseRow(rest[k], lead, width) == Failure(e)
               && forall j | 0 <= j < k :: ParseRow(rest[j], lead, width).Success?;
      assert lines[k + 1] == rest[k];
      assert forall j | 1 <= j < k + 1 :: lines[j] == rest[j - 1];
    }
  }

  /** The first line after the header always parses: its excess over the
      header becomes the index, so only a later line can be too long. */
  lemma FirstRowAlwaysParses(data: seq<string>, width: nat)
    requires |data| > 0
    ensures ParseRow(data[0], IndexColumns(data, width), width).Success?
  {
  }

  /** Without an implicit index (the first data line is no longer than the
      header), every kept row is the line's own fields, padded with `None`. */
  lemma NoIndexWhenFirstRowFits(data: seq<string>, width: nat)
    requires |data| > 0 && |Split(data[0], ',')| <= width
    ensures IndexColumns(data, width) == 0
    ensures forall i | 0 <= i < |data| && ParseRow(data[i], 0, width).Success? ::
              forall j | 0 <= j < |Split(data[i], ',')| :: ParseRow(data[i], 0, width).value[j] == ParseField(Split(data[i], ',')[j])
  {
  }

  // ---------------------------------------------------------------------------
  // Frame transformations
  // ---------------------------------------------------------------------------

  /** At least one cell of the row is present. */
  predicate HasValue(row: Row) {
    exists c | c in row :: c.Some?
  }

  /** `df.dropna(how="all").reset_index(drop=True)`. */
  function DropEmptyRows(t: Table): (r: Table)
    requires WellFormed(t)
    ensures WellFormed(r)
    ensures r.columns == t.columns
    ensures forall row | row in r.rows :: HasValue(row)
  {
    FilterSubset(t.rows, HasValue);
    Table(t.columns, Filter(t.rows, HasValue))
  }

  predicate IsExpectedColumn(name: string) {
    name in ExpectedColumns
  }

  /** The positions of the kept columns in the frame. */
  function KeptColumns(t: Table): seq<nat> {
    Positions(t.columns, IsExpectedColumn)
  }

  /** `df[[c for c in df.columns if c in expected_cols]]`. */
  function SelectColumns(t: Table): (r: Table)
    requires WellFormed(t)
    ensures WellFormed(r)
    ensures forall name | name in r.columns :: name in ExpectedColumns
  {
    var keep := KeptColumns(t);
    Table(Pick(t.columns, keep), seq(|t.rows|, k requires 0 <= k < |t.rows| => Pick(t.rows[k], keep)))
  }

  /** The summary dict. */
  function Summarize(lat: real, lon: real, t: Table): Summary {
    Summary(DatasetName, lat, lon, |t.rows|, t.columns, StatusDownloaded)
  }

  /** Everything after a successful response: read, drop empty rows, keep
      the expected columns. */
  function ProcessPayload(text: string): (r: Result<Table, FetchError>)
    ensures r.Success? ==> WellFormed(r.value)
    ensures r.Success? ==> forall name | name in r.value.columns :: name in ExpectedColumns
  {
    var raw :- ReadCsv(text);
    Success(SelectColumns(DropEmptyRows(raw)))
  }

  /** `fetch_nasa_power_data(lat, lon, start, end)`, with the current year
      and the HTTP exchange passed in. */
  function FetchNasaPowerData(
    upstream: RequestParams -> Result<HttpResponse, string>,
    lat: real, lon: real, currentYear: nat,
    start: Option<string> := None, end: Option<string> := None
  ): (r: Result<(Summary, Table), FetchError>)
    ensures var request := BuildRequest(lat, lon, OrElse(start, DefaultStart(currentYear)),
                                        OrElse(end, DefaultEnd(currentYear)));
            match upstream(request)
            case Failure(message) => r == Failure(TransportError(message))
            case Success(response) =>
              && (!IsSuccess(response.statusCode) ==> r == Failure(HttpStatusError(response.statusCode)))
              && (IsSuccess(response.statusCode) ==>
                    match ProcessPayload(response.text)
                    case Failure(e) => r == Failure(e)
                    case Success(table) => r == Success((Summarize(lat, lon, table), table)))
    ensures r.Success? ==>
              var (summary, table) := r.value;
              && WellFormed(table)
              && (forall name | name in table.columns :: name in ExpectedColumns)
              && summary.rows == |table.rows| && summary.columns == table.columns
              && summary.dataset == "NASA POWER" && summary.status == "downloaded"
              && summary.lat == lat && summary.lon == lon
  {
    var start := OrElse(start, DefaultStart(currentYear));
    var end := OrElse(end, DefaultEnd(currentYear));
    var request := BuildRequest(lat, lon, start, end);
    match upstream(request)
    case Failure(message) => Failure(TransportError(message))
    case Success(response) =>
      if !IsSuccess(response.statusCode) then Failure(HttpStatusError(response.statusCode))
      else
        var table :- ProcessPayload(response.text);
        Success((Summarize(lat, lon, table), table))
  }

  // ---------------------------------------------------------------------------
  // Dates and request properties
  // ---------------------------------------------------------------------------

  /** A missing or empty `start`/`end` becomes Jan 1 / Dec 31 of the current
      year; a supplied one passes through unchanged. */
  lemma DatesDefaulted(given: Option<string>, currentYear: nat)
    ensures (given == None || given == Some("")) ==>
              && OrElse(given, DefaultStart(currentYear)) == NatToString(currentYear) + "0101"
              && OrElse(given, DefaultEnd(currentYear)) == NatToString(currentYear) + "1231"
    ensures forall s: string | given == Some(s) && s != "" ::
              OrElse(given, DefaultStart(currentYear)) == s && OrElse(given, DefaultEnd(currentYear)) == s
  {
  }

  /** For a four-digit year the defaults are eight-digit YYYYMMDD dates whose
      first four digits are the year. */
  lemma DefaultDatesAreYyyymmdd(currentYear: nat)
    requires 1000 <= currentYear <= 9999
    ensures |DefaultStart(currentYear)| == 8 && |DefaultEnd(currentYear)| == 8
    ensures forall c | c in DefaultStart(currentYear) :: IsDigit(c)
    ensures forall c | c in DefaultEnd(currentYear) :: IsDigit(c)
    ensures DigitsValue(DefaultStart(currentYear)[..4]) == currentYear
    ensures DefaultStart(currentYear)[4..] == "0101" && DefaultEnd(currentYear)[4..] == "1231"
  {
    var y := NatToString(currentYear);
    NatToStringFourDigits(currentYear);
    NatToStringValue(currentYear);
    assert DefaultStart(currentYear)[..4] == y;
    assert DefaultStart(currentYear)[4..] == "0101";
    assert DefaultEnd(currentYear)[4..] == "1231";
  }

  /** The request always asks for the same three parameters in CSV, for the
      given dates and point. */
  lemma RequestParamsFixed(lat: real, lon: real, start: string, end: string)
    ensures var p := BuildRequest(lat, lon, start, end);
            && p.parameters == "PRECTOT,T2M,RH2M" && p.format == "CSV"
            && p.start == start && p.end == end && p.latitude == lat && p.longitude == lon
  {
  }

  /** Each requested parameter is one of the kept columns. */
  lemma RequestedParametersKept()
    ensures Split(RequestedParameters, ',') == ["PRECTOT", "T2M", "RH2M"]
    ensures forall code | code in Split(RequestedParameters, ',') :: code in ExpectedColumns
  {
    assert RequestedParameters == Join(["PRECTOT", "T2M", "RH2M"], ',');
    SplitJoin(["PRECTOT", "T2M", "RH2M"], ',');
  }

  /** The precipitation code requested here is not the one the activity
      catalog describes: the catalog knows "PRECTOTCORR", not "PRECTOT".
      The code is a parameter pinned by `requires` to keep the proof cheap. */
  lemma RequestedPrecipitationNotInCatalog(code: string)
    requires code == "PRECTOT"
    ensures code in Split(RequestedParameters, ',')
    ensures ActivityParameters.DescribeParameter(code) == ActivityParameters.UnknownParameter
  {
    assert ActivityParameters.DescribeParameter(code) == ActivityParameters.UnknownParameter by {
      assert code !in ActivityParameters.DefinedCodes();
    }
    RequestedParametersKept();
  }

  /** The result depends on the upstream service only through the one request
      built from the inputs. */
  lemma FetchUsesBuiltRequest(
    upstream1: RequestParams -> Result<HttpResponse, string>,
    upstream2: RequestParams -> Result<HttpResponse, string>,
    lat: real, lon: real, currentYear: nat, start: Option<string>, end: Option<string>)
    requires var request := BuildRequest(lat, lon, OrElse(start, DefaultStart(currentYear)),
                                         OrElse(end, DefaultEnd(currentYear)));
             upstream1(request) == upstream2(request)
    ensures FetchNasaPowerData(upstream1, lat, lon, currentYear, start, end)
         == FetchNasaPowerData(upstream2, lat, lon, currentYear, start, end)
  {
  }

  // ---------------------------------------------------------------------------
  // Preamble
  // ---------------------------------------------------------------------------

  /** The first ten lines never matter: payloads that agree from the
      eleventh line on are read alike. */
  lemma PreambleIgnored(payload1: string, payload2: string)
    requires |Split(payload1, '\n')| >= PreambleLines
    requires |Split(payload2, '\n')| >= PreambleLines
    requires Split(payload1, '\n')[PreambleLines..] == Split(payload2, '\n')[PreambleLines..]
    ensures ReadCsv(payload1) == ReadCsv(payload2)
  {
    assert SkipPreamble(Split(payload1, '\n')) == SkipPreamble(Split(payload2, '\n'));
  }

  /** When the eleventh line is not blank it is the header. */
  lemma EleventhLineIsHeader(payload: string)
    requires |Split(payload, '\n')| > PreambleLines
    requires IsNotBlank(Split(payload, '\n')[PreambleLines])
    ensures |DataLines(payload)| > 0 && DataLines(payload)[0] == Split(payload, '\n')[PreambleLines]
    ensures ReadCsv(payload).Success? ==>
              ReadCsv(payload).value.columns == Split(Split(payload, '\n')[PreambleLines], ',')
  {
    var body := SkipPreamble(Split(payload, '\n'));
    FilterAtPositions(body, IsNotBlank);
    var p := Positions(body, IsNotBlank);
    assert 0 in p;
    assert p[0] == 0 by {
      var j :| 0 <= j < |p| && p[j] == 0;
      assert p[0] <= p[j];
    }
  }

  // ---------------------------------------------------------------------------
  // Dropping empty rows
  // ---------------------------------------------------------------------------

  /** `dropna(how="all")` keeps exactly the rows with a present cell, in their
      original order: the kept rows are the rows at the ascending positions
      `Positions(t.rows, HasValue)`, which are the positions of all such rows. */
  lemma DropEmptyRowsKeepsExactly(t: Table)
    requires WellFormed(t)
    ensures var kept := Positions(t.rows, HasValue);
            && DropEmptyRows(t).rows == Pick(t.rows, kept)
            && (forall j, k | 0 <= j < k < |kept| :: kept[j] < kept[k])
            && (forall i | 0 <= i < |t.rows| :: i in kept <==> HasValue(t.rows[i]))
  {
    FilterAtPositions(t.rows, HasValue);
  }

  /** Dropping empty rows twice is dropping them once. */
  lemma DropEmptyRowsIdempotent(t: Table)
    requires WellFormed(t)
    ensures DropEmptyRows(DropEmptyRows(t)) == DropEmptyRows(t)
  {
    var rows := DropEmptyRows(t).rows;
    assert forall i | 0 <= i < |rows| :: HasValue(rows[i]) by {
      forall i | 0 <= i < |rows| ensures HasValue(rows[i]) { assert rows[i] in rows; }
    }
    FilterAllKept(rows, HasValue);
  }

  // ---------------------------------------------------------------------------
  // Selecting the expected columns
  // ---------------------------------------------------------------------------

  /** The kept columns are exactly the frame's columns that are expected, in
      the frame's own order; the row count and every retained cell are
      unchanged. */
  lemma SelectColumnsSpec(t: Table)
    requires WellFormed(t)
    ensures var r, keep := SelectColumns(t), KeptColumns(t);
            && r.columns == Filter(t.columns, IsExpectedColumn)
            && |r.rows| == |t.rows|
            && (forall j, k | 0 <= j < k < |keep| :: keep[j] < keep[k])
            && (forall i | 0 <= i < |t.columns| :: i in keep <==> t.columns[i] in ExpectedColumns)
            && (forall j | 0 <= j < |keep| :: r.columns[j] == t.columns[keep[j]])
            && (forall k, j | 0 <= k < |t.rows| && 0 <= j < |keep| ::
                  r.rows[k][j] == t.rows[k][keep[j]])
  {
    FilterAtPositions(t.columns, IsExpectedColumn);
    var keep := KeptColumns(t);
    forall k, j | 0 <= k < |t.rows| && 0 <= j < |keep|
      ensures SelectColumns(t).rows[k][j] == t.rows[k][keep[j]]
    {
      assert t.rows[k] in t.rows;
    }
  }

  /** Empty rows are dropped before the columns are selected, so a row can
      survive with every retained cell missing: under a header of an expected
      column and one that is not kept, a row whose only value sits in the
      second column is kept and comes out as a single missing cell. The
      table is a parameter pinned by `requires` to keep the proof cheap. */
  lemma RetainedRowMayBeEmpty(t: Table, kept: string, other: string, value: string)
    requires kept in ExpectedColumns && other !in ExpectedColumns
    requires t == Table([kept, other], [[None, Some(value)]])
    ensures WellFormed(t)
    ensures SelectColumns(DropEmptyRows(t)).rows == [[None]]
    ensures !HasValue(SelectColumns(DropEmptyRows(t)).rows[0])
  {
    DropKeepsValuedRow(t, value);
    OneKeptColumn(t, kept, other);
    var r := SelectColumns(t);
    assert |r.rows| == 1;
    var row := Pick(t.rows[0], [0]);
    assert r.rows[0] == row;
    assert |row| == 1 && row[0] == None;
    assert row == [None];
    assert r.rows == [row];
    assert !HasValue(row);
  }

  /** A single row with a present cell survives `DropEmptyRows`. */
  lemma DropKeepsValuedRow(t: Table, value: string)
    requires |t.columns| == 2 && t.rows == [[None, Some(value)]]
    ensures DropEmptyRows(t) == t
  {
    assert HasValue(t.rows[0]) by { assert t.rows[0][1] in t.rows[0]; }
    FilterAllKept(t.rows, HasValue);
  }

  /** Under a header of one expected and one other column, only position 0
      is kept. */
  lemma OneKeptColumn(t: Table, kept: string, other: string)
    requires kept in ExpectedColumns && other !in ExpectedColumns
    requires t.columns == [kept, other]
    ensures KeptColumns(t) == [0]
  {
    var keep := KeptColumns(t);
    assert 0 in keep && 1 !in keep;
    assert forall j | 0 <= j < |keep| :: keep[j] == 0;
    AscendingBelowBound(keep, 1);
  }
}
