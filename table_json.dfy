/**
 * The HTML-table normaliser, applied to a table that has already been parsed:
 * an optional table (absent when the markup has no `<table>`) whose rows hold
 * the stripped texts of their `<td>`/`<th>` cells, in document order. The
 * result is one record per data row, keyed by the header names.
 */
module TableJson {
  import opened Wrappers
  import opened PyDict
  import Decimal

  /** The stripped cell texts of one `<tr>`. */
  type Row = seq<string>

  /** One output record: header name -> cell text, as a Python dict. */
  type Record = Dict<string>

  const NO_TABLE_MESSAGE: string := "No table found in HTML"

  datatype Outcome =
    | NoTable(error: string)          // the `{"error": ...}` dict returned when there is no table
    | HeaderIndexError                // the IndexError raised by `rows[header_row_index]`
    | Records(records: seq<Record>)   // the list of row dicts

  // ---------------------------------------------------------------------
  // Column count

  /** The cell count of the first row that has a cell, or 0 when none has. */
  function ColumnCount(rows: seq<Row>): (n: nat)
    ensures n == 0 <==> forall j :: 0 <= j < |rows| ==> rows[j] == []
  {
    if rows == [] then 0
    else if |rows[0]| > 0 then |rows[0]|
    else ColumnCount(rows[1..])
  }

  /** The column count is the length of the first non-empty row. */
  lemma {:induction false} ColumnCountIsFirstNonEmpty(rows: seq<Row>, j: nat)
    requires j < |rows| && rows[j] != []
    requires forall k :: 0 <= k < j ==> rows[k] == []
    ensures ColumnCount(rows) == |rows[j]|
  {
    if j > 0 {
      ColumnCountIsFirstNonEmpty(rows[1..], j - 1);
    }
  }

  /** Empty rows in front of the table do not change the column count. */
  lemma {:induction false} ColumnCountIgnoresEmptyPrefix(blank: seq<Row>, rows: seq<Row>)
    requires forall k :: 0 <= k < |blank| ==> blank[k] == []
    ensures ColumnCount(blank + rows) == ColumnCount(rows)
  {
    if blank != [] {
      assert (blank + rows)[0] == [];
      assert ColumnCount(blank + rows) == ColumnCount((blank + rows)[1..]);
      assert (blank + rows)[1..] == blank[1..] + rows;
      ColumnCountIgnoresEmptyPrefix(blank[1..], rows);
    } else {
      assert blank + rows == rows;
    }
  }

  // ---------------------------------------------------------------------
  // Python list indexing and slicing

  /** Whether `i` indexes a list of length `len`; negative indices count from the end. */
  predicate ValidIndex(len: nat, i: int) {
    -(len as int) <= i < len
  }

  /** The position `xs[i]` reads. */
  function Position(len: nat, i: int): (p: nat)
    requires ValidIndex(len, i)
    ensures p < len
    ensures i >= 0 ==> p == i
    ensures i < 0 ==> p == len + i
  {
    if i >= 0 then i else len + i
  }

  /** The position `xs[start:]` starts at: negative starts count from the end, all clamp. */
  function SliceStart(len: nat, start: int): (p: nat)
    ensures p <= len
    ensures 0 <= start <= len ==> p == start
    ensures -(len as int) <= start < 0 ==> p == len + start
  {
    if start >= 0 then (if start <= len then start else len)
    else if len + start >= 0 then len + start
    else 0
  }

  // ---------------------------------------------------------------------
  // Headers

  /** `f"Column{i+1}"`: the name of the column at 0-based position `i`. */
  function DefaultName(i: nat): (name: string)
    ensures |name| > 6 && name[..6] == "Column"
    ensures Decimal.AllDigits(name[6..]) && Decimal.ValueOf(name[6..]) == i + 1
    ensures name[6] != '0'
  {
    Decimal.ValueOfNatToString(i + 1);
    assert ("Column" + Decimal.NatToString(i + 1))[6..] == Decimal.NatToString(i + 1);
    "Column" + Decimal.NatToString(i + 1)
  }

  /** No two columns get the same default name. */
  lemma DefaultNamesDistinct(i: nat, j: nat)
    ensures DefaultName(i) == DefaultName(j) ==> i == j
  {
    if DefaultName(i) == DefaultName(j) {
      assert DefaultName(i)[6..] == Decimal.NatToString(i + 1);
      assert DefaultName(j)[6..] == Decimal.NatToString(j + 1);
      Decimal.NatToStringInjective(i + 1, j + 1);
    }
  }

  /** Header names taken from a header row: a blank cell gets its default name. */
  function NamedHeaders(cells: Row): (names: seq<string>)
    ensures |names| == |cells|
    ensures forall i :: 0 <= i < |names| ==> names[i] != ""
    ensures forall i :: 0 <= i < |cells| && cells[i] != "" ==> names[i] == cells[i]
  {
    seq(|cells|, i requires 0 <= i < |cells| => if cells[i] != "" then cells[i] else DefaultName(i))
  }

  /** `Column1` .. `Column<n>`. */
  function DefaultHeaders(n: nat): (names: seq<string>)
    ensures |names| == n
    ensures forall i, j :: 0 <= i < j < n ==> names[i] != names[j]
  {
    DefaultNamesAllDistinct(n);
    seq(n, i requires 0 <= i < n => DefaultName(i))
  }

  /** The first `n` default names are pairwise distinct. */
  lemma DefaultNamesAllDistinct(n: nat)
    ensures forall i, j :: 0 <= i < j < n ==> DefaultName(i) != DefaultName(j)
  {
    forall i, j | 0 <= i < j < n
      ensures DefaultName(i) != DefaultName(j)
    {
      DefaultNamesDistinct(i, j);
    }
  }

  /** Which names key the records, and which rows are data. */
  datatype Layout = Layout(headers: seq<string>, dataRows: seq<Row>)

  /** Whether the candidate header row supplies the names: its cell count is the column count. */
  predicate HeaderRowMatches(rows: seq<Row>, numCols: nat, headerRowIndex: int)
    requires ValidIndex(|rows|, headerRowIndex)
  {
    |rows[Position(|rows|, headerRowIndex)]| == numCols
  }

  /**
   * The header names and the data rows; None when `rows[header_row_index]`
   * would raise. The names always number `numCols`; the data rows are a
   * suffix of the table.
   */
  function ChooseLayout(rows: seq<Row>, numCols: nat, headerRowIndex: int): (l: Option<Layout>)
    ensures l.None? <==> !ValidIndex(|rows|, headerRowIndex)
    ensures l.Some? ==> |l.value.headers| == numCols
    ensures l.Some? ==> |l.value.dataRows| <= |rows| && l.value.dataRows == rows[|rows| - |l.value.dataRows|..]
  {
    if !ValidIndex(|rows|, headerRowIndex) then None
    else
      var candidate := rows[Position(|rows|, headerRowIndex)];
      if |candidate| == numCols then
        Some(Layout(NamedHeaders(candidate), rows[SliceStart(|rows|, headerRowIndex + 1)..]))
      else
        Some(Layout(DefaultHeaders(numCols), rows))
  }

  /**
   * Header `i` is the candidate row's cell `i` when that row matches and the
   * cell is not blank, and `Column<i+1>` otherwise.
   */
  lemma HeaderNaming(rows: seq<Row>, numCols: nat, headerRowIndex: int, i: nat)
    requires ValidIndex(|rows|, headerRowIndex) && i < numCols
    ensures var candidate := rows[Position(|rows|, headerRowIndex)];
      ChooseLayout(rows, numCols, headerRowIndex).value.headers[i] ==
        if HeaderRowMatches(rows, numCols, headerRowIndex) && candidate[i] != "" then candidate[i]
        else DefaultName(i)
  {
  }

  /**
   * With the default index 0, a first row that has a cell always matches,
   * since the column count is taken from that very row.
   */
  lemma FirstRowHeaderMatches(rows: seq<Row>)
    requires rows != [] && rows[0] != []
    ensures HeaderRowMatches(rows, ColumnCount(rows), 0)
  {
    ColumnCountIsFirstNonEmpty(rows, 0);
  }

  /**
   * Which rows are data: with a matching header row, the rows after it,
   * except that index -1 slices `rows[0:]`, the whole table; with a header
   * row that does not match, every row, the candidate included.
   */
  lemma DataRowsChoice(rows: seq<Row>, numCols: nat, headerRowIndex: int)
    requires ValidIndex(|rows|, headerRowIndex)
    ensures var l := ChooseLayout(rows, numCols, headerRowIndex).value;
      if !HeaderRowMatches(rows, numCols, headerRowIndex) then l.dataRows == rows
      else if headerRowIndex >= 0 then l.dataRows == rows[headerRowIndex + 1..]
      else if headerRowIndex == -1 then l.dataRows == rows
      else l.dataRows == rows[|rows| + headerRowIndex + 1..]
  {
    var start := SliceStart(|rows|, headerRowIndex + 1);
    if HeaderRowMatches(rows, numCols, headerRowIndex) {
      assert headerRowIndex >= 0 ==> start == headerRowIndex + 1;
      assert headerRowIndex == -1 ==> start == 0;
      assert headerRowIndex < -1 ==> start == |rows| + headerRowIndex + 1;
    }
  }

  // ---------------------------------------------------------------------
  // Records

  /** `[""] * k`. */
  function Blanks(k: nat): seq<string> {
    seq(k, _ => "")
  }

  /**
   * A data row brought to exactly `numCols` values: the cells kept in order,
   * padded on the right with "" or truncated on the right.
   */
  function Reconcile(cells: Row, numCols: nat): (r: Row)
    ensures |r| == numCols
    ensures forall i :: 0 <= i < numCols && i < |cells| ==> r[i] == cells[i]
    ensures forall i :: |cells| <= i < numCols ==> r[i] == ""
  {
    if |cells| < numCols then cells + Blanks(numCols - |cells|)
    else if |cells| > numCols then cells[..numCols]
    else cells
  }

  /** `dict(zip(headers, row_data))` for one data row. */
  function MakeRecord(headers: seq<string>, cells: Row, numCols: nat): (r: Record)
    ensures |r.entries| <= |headers|
    ensures KeysDistinct(r.entries)
  {
    FromPairsKeysDistinct(Zip(headers, Reconcile(cells, numCols)));
    FromPairs(Zip(headers, Reconcile(cells, numCols)))
  }

  /** The cell value at column `i`, after padding: the cell text, or "" past the row's end. */
  function CellValue(cells: Row, i: nat): string {
    if i < |cells| then cells[i] else ""
  }

  /**
   * A header name maps to the value of the LAST column carrying that name
   * (later columns overwrite earlier ones); names that head no column are absent.
   */
  lemma RecordValue(headers: seq<string>, cells: Row, i: nat)
    requires i < |headers|
    requires forall j :: i < j < |headers| ==> headers[j] != headers[i]
    ensures Get(MakeRecord(headers, cells, |headers|), headers[i]) == Some(CellValue(cells, i))
  {
    ZipAt(headers, Reconcile(cells, |headers|));
    FromPairsLastWins(Zip(headers, Reconcile(cells, |headers|)), i);
  }

  lemma RecordAbsentKey(headers: seq<string>, cells: Row, k: string)
    requires k !in headers
    ensures Get(MakeRecord(headers, cells, |headers|), k) == None
  {
    var ps := Zip(headers, Reconcile(cells, |headers|));
    ZipAt(headers, Reconcile(cells, |headers|));
    assert forall j :: 0 <= j < |ps| ==> ps[j].0 == headers[j];
    FromPairsAbsent(ps, k);
  }

  /** With distinct header names, a record holds every column, in column order. */
  lemma RecordOfDistinctHeaders(headers: seq<string>, cells: Row)
    requires forall i, j :: 0 <= i < j < |headers| ==> headers[i] != headers[j]
    ensures MakeRecord(headers, cells, |headers|).entries ==
      seq(|headers|, i requires 0 <= i < |headers| => Entry(headers[i], CellValue(cells, i)))
  {
    ZipAt(headers, Reconcile(cells, |headers|));
    FromPairsOfDistinct(Zip(headers, Reconcile(cells, |headers|)));
  }

  // ---------------------------------------------------------------------
  // The whole normaliser

  /** The records of the data rows, appended row by row: one per row, in row order. */
  function RecordsOf(headers: seq<string>, dataRows: seq<Row>, numCols: nat): (records: seq<Record>)
    ensures |records| == |dataRows|
    ensures forall k :: 0 <= k < |dataRows| ==> records[k] == MakeRecord(headers, dataRows[k], numCols)
  {
    if dataRows == [] then []
    else RecordsOf(headers, dataRows[..|dataRows| - 1], numCols) + [MakeRecord(headers, dataRows[|dataRows| - 1], numCols)]
  }

  /** The records of one more data row extend the records of the rows before it. */
  lemma RecordsOfAppend(headers: seq<string>, dataRows: seq<Row>, numCols: nat, k: nat)
    requires k < |dataRows|
    ensures RecordsOf(headers, dataRows[..k + 1], numCols)
      == RecordsOf(headers, dataRows[..k], numCols) + [MakeRecord(headers, dataRows[k], numCols)]
  {
    assert dataRows[..k + 1][..k] == dataRows[..k];
    assert dataRows[..k + 1][k] == dataRows[k];
  }

  /** `html_table_to_json` on a parsed table. */
  function Normalize(table: Option<seq<Row>>, headerRowIndex: int): (r: Outcome)
    ensures r.NoTable? <==> table.None?
    ensures r.NoTable? ==> r.error == NO_TABLE_MESSAGE
    ensures r.HeaderIndexError? <==> table.Some? && !ValidIndex(|table.value|, headerRowIndex)
    ensures r.Records? ==> |r.records| <= |table.value|
  {
    match table
    case None => NoTable(NO_TABLE_MESSAGE)
    case Some(rows) =>
      var numCols := ColumnCount(rows);
      match ChooseLayout(rows, numCols, headerRowIndex)
      case None => HeaderIndexError
      case Some(l) => Records(RecordsOf(l.headers, l.dataRows, numCols))
  }

  /** A table whose header row can be indexed yields the records of its data rows. */
  lemma NormalizeOfLayout(rows: seq<Row>, headerRowIndex: int, l: Layout)
    requires ChooseLayout(rows, ColumnCount(rows), headerRowIndex) == Some(l)
    ensures Normalize(Some(rows), headerRowIndex) == Records(RecordsOf(l.headers, l.dataRows, ColumnCount(rows)))
  {
  }

  /**
   * One record per data row, in order; in record `k`, the last column named
   * `h` supplies the value of `h`: that row's cell text, or "" past its end.
   */
  lemma NormalizeRecordValue(rows: seq<Row>, headerRowIndex: int, k: nat, i: nat)
    requires ValidIndex(|rows|, headerRowIndex)
    requires var l := ChooseLayout(rows, ColumnCount(rows), headerRowIndex).value;
      k < |l.dataRows| && i < |l.headers| && forall j :: i < j < |l.headers| ==> l.headers[j] != l.headers[i]
    ensures var l := ChooseLayout(rows, ColumnCount(rows), headerRowIndex).value;
      var r := Normalize(Some(rows), headerRowIndex);
      r.Records? && |r.records| == |l.dataRows|
      && Get(r.records[k], l.headers[i]) == Some(CellValue(l.dataRows[k], i))
  {
    var l := ChooseLayout(rows, ColumnCount(rows), headerRowIndex).value;
    RecordValue(l.headers, l.dataRows[k], i);
  }

  /** The record of a row under the headers `Column1` .. `Column<n>`, spelled out. */
  function SyntheticRecord(cells: Row, n: nat): Record {
    Dict(seq(n, i requires 0 <= i < n => Entry(DefaultName(i), CellValue(cells, i))))
  }

  /** Under `Column1` .. `Column<n>` a record holds exactly the row's n values, in order. */
  lemma DefaultHeadersRecord(cells: Row, n: nat)
    ensures MakeRecord(DefaultHeaders(n), cells, n) == SyntheticRecord(cells, n)
  {
    var headers := DefaultHeaders(n);
    forall i, j | 0 <= i < j < n
      ensures headers[i] != headers[j]
    {
      DefaultNamesDistinct(i, j);
    }
    RecordOfDistinctHeaders(headers, cells);
  }

  /**
   * When the header row does not match, every row is a record keyed
   * `Column1` .. `Column<n>`, holding exactly its padded or truncated cells.
   */
  lemma NormalizeWithoutHeaderRow(rows: seq<Row>, headerRowIndex: int)
    requires ValidIndex(|rows|, headerRowIndex)
    requires !HeaderRowMatches(rows, ColumnCount(rows), headerRowIndex)
    ensures var r := Normalize(Some(rows), headerRowIndex);
      r.Records? && |r.records| == |rows|
      && forall k :: 0 <= k < |rows| ==> r.records[k] == SyntheticRecord(rows[k], ColumnCount(rows))
  {
    var n := ColumnCount(rows);
    var headers := DefaultHeaders(n);
    assert ChooseLayout(rows, n, headerRowIndex) == Some(Layout(headers, rows));
    NormalizeOfLayout(rows, headerRowIndex, Layout(headers, rows));
    forall k | 0 <= k < |rows|
      ensures MakeRecord(headers, rows[k], n) == SyntheticRecord(rows[k], n)
    {
      DefaultHeadersRecord(rows[k], n);
    }
  }

  /**
   * A first row of non-blank names supplies the keys, and every later row
   * is a data row.
   */
  lemma NormalizeWithHeaderRow(header: Row, body: seq<Row>)
    requires header != []
    requires forall i :: 0 <= i < |header| ==> header[i] != ""
    ensures Normalize(Some([header] + body), 0) == Records(RecordsOf(header, body, |header|))
  {
    var rows := [header] + body;
    ColumnCountIsFirstNonEmpty(rows, 0);
    assert NamedHeaders(header) == header;
    assert rows[1..] == body;
    assert ChooseLayout(rows, |header|, 0) == Some(Layout(header, body));
    NormalizeOfLayout(rows, 0, Layout(header, body));
  }

  /** With distinct headers, a row as wide as the headers becomes the record pairing them up. */
  lemma RecordOfFullRow(headers: seq<string>, cells: Row)
    requires forall i, j :: 0 <= i < j < |headers| ==> headers[i] != headers[j]
    requires |cells| == |headers|
    ensures MakeRecord(headers, cells, |headers|)
      == Dict(seq(|headers|, i requires 0 <= i < |headers| => Entry(headers[i], cells[i])))
  {
    RecordOfDistinctHeaders(headers, cells);
    assert seq(|headers|, i requires 0 <= i < |headers| => Entry(headers[i], CellValue(cells, i)))
      == seq(|headers|, i requires 0 <= i < |headers| => Entry(headers[i], cells[i]));
  }

  /**
   * A well-formed table (a first row of distinct, non-blank names and data
   * rows of the same width) yields, per data row, the record pairing each
   * name with that row's cell, in column order.
   */
  lemma NormalizeWellFormed(header: Row, body: seq<Row>)
    requires header != []
    requires forall i :: 0 <= i < |header| ==> header[i] != ""
    requires forall i, j :: 0 <= i < j < |header| ==> header[i] != header[j]
    requires forall k :: 0 <= k < |body| ==> |body[k]| == |header|
    ensures var r := Normalize(Some([header] + body), 0);
      r.Records? && |r.records| == |body|
      && forall k :: 0 <= k < |body| ==>
        r.records[k] == Dict(seq(|header|, i requires 0 <= i < |header| => Entry(header[i], body[k][i])))
  {
    NormalizeWithHeaderRow(header, body);
    forall k | 0 <= k < |body|
      ensures MakeRecord(header, body[k], |header|)
        == Dict(seq(|header|, i requires 0 <= i < |header| => Entry(header[i], body[k][i])))
    {
      RecordOfFullRow(header, body[k]);
    }
  }

  /** A short data row is padded: headers a, b, c over cells x, y give {a: x, b: y, c: ""}. */
  lemma PaddingExample(a: string, b: string, c: string, x: string, y: string)
    requires a != "" && b != "" && c != "" && a != b && a != c && b != c
    ensures Normalize(Some([[a, b, c], [x, y]]), 0)
      == Records([Dict([Entry(a, x), Entry(b, y), Entry(c, "")])])
  {
    var header, body := [a, b, c], [[x, y]];
    assert [header] + body == [[a, b, c], [x, y]];
    NormalizeWithHeaderRow(header, body);
    RecordOfDistinctHeaders(header, body[0]);
    assert seq(3, i requires 0 <= i < 3 => Entry(header[i], CellValue(body[0], i)))
      == [Entry(a, x), Entry(b, y), Entry(c, "")];
    assert RecordsOf(header, body, 3) == [MakeRecord(header, body[0], 3)] by {
      assert body[..0] == [];
    }
  }

  /** A long data row is truncated: headers a, b over cells x, y, z give {a: x, b: y}. */
  lemma TruncationExample(a: string, b: string, x: string, y: string, z: string)
    requires a != "" && b != "" && a != b
    ensures Normalize(Some([[a, b], [x, y, z]]), 0) == Records([Dict([Entry(a, x), Entry(b, y)])])
  {
    var header, body := [a, b], [[x, y, z]];
    assert [header] + body == [[a, b], [x, y, z]];
    NormalizeWithHeaderRow(header, body);
    RecordOfDistinctHeaders(header, body[0]);
    assert seq(2, i requires 0 <= i < 2 => Entry(header[i], CellValue(body[0], i)))
      == [Entry(a, x), Entry(b, y)];
    assert RecordsOf(header, body, 2) == [MakeRecord(header, body[0], 2)] by {
      assert body[..0] == [];
    }
  }

  /** Duplicate names: headers a, a over cells x, y give {a: y}, the later column winning. */
  lemma DuplicateHeaderExample(a: string, x: string, y: string)
    requires a != ""
    ensures Normalize(Some([[a, a], [x, y]]), 0) == Records([Dict([Entry(a, y)])])
  {
    var header, body := [a, a], [[x, y]];
    assert [header] + body == [[a, a], [x, y]];
    NormalizeWithHeaderRow(header, body);
    var ps := Zip(header, Reconcile(body[0], 2));
    ZipAt(header, Reconcile(body[0], 2));
    assert ps == [(a, x), (a, y)];
    assert ps[..1] == [(a, x)];
    assert FromPairs(ps[..1]) == Dict([Entry(a, x)]);
    assert Find(FromPairs(ps[..1]).entries, a) == Some(0);
    assert MakeRecord(header, body[0], 2) == Dict([Entry(a, y)]);
    assert RecordsOf(header, body, 2) == [MakeRecord(header, body[0], 2)] by {
      assert body[..0] == [];
    }
  }

  /** A table whose only row is its header row yields no records, not an error. */
  lemma NormalizeHeaderOnly(header: Row)
    ensures Normalize(Some([header]), 0) == Records([])
  {
    if header != [] {
      ColumnCountIsFirstNonEmpty([header], 0);
    }
  }

  /**
   * A table whose rows carry no cells has no columns: the header row matches
   * with zero names, and every row after it yields an empty record.
   */
  lemma NormalizeNoCells(rows: seq<Row>, headerRowIndex: int)
    requires forall k :: 0 <= k < |rows| ==> rows[k] == []
    requires ValidIndex(|rows|, headerRowIndex)
    ensures var r := Normalize(Some(rows), headerRowIndex);
      r.Records? && |r.records| == |rows| - SliceStart(|rows|, headerRowIndex + 1)
      && forall k :: 0 <= k < |r.records| ==> r.records[k] == Dict([])
  {
    assert ColumnCount(rows) == 0;
    assert rows[Position(|rows|, headerRowIndex)] == [];
    var l := Layout([], rows[SliceStart(|rows|, headerRowIndex + 1)..]);
    assert ChooseLayout(rows, 0, headerRowIndex) == Some(l);
    NormalizeOfLayout(rows, headerRowIndex, l);
    forall k | 0 <= k < |l.dataRows|
      ensures MakeRecord([], l.dataRows[k], 0) == Dict([])
    {
      assert Zip(l.headers, Reconcile(l.dataRows[k], 0)) == [];
    }
  }

  /** A table without rows cannot be indexed for its header row. */
  lemma NormalizeEmptyTable(headerRowIndex: int)
    ensures Normalize(Some([]), headerRowIndex) == HeaderIndexError
  {
  }

  // ---------------------------------------------------------------------
  // The imperative procedure

  /** app.py:31-38: scan for the first row with a cell and take its cell count. */
  method ColumnCountOf(rows: seq<Row>) returns (numCols: nat)
    ensures numCols == ColumnCount(rows)
  {
    numCols := 0;
    for i := 0 to |rows|
      invariant numCols == 0
      invariant forall k :: 0 <= k < i ==> rows[k] == []
    {
      if |rows[i]| > 0 {
        numCols := |rows[i]|;
        ColumnCountIsFirstNonEmpty(rows, i);
        break;
      }
    }
  }

  /**
   * app.py:51-59: pad or truncate each data row to `numCols` values and
   * append `dict(zip(headers, row_data))`.
   */
  method BuildRecords(headers: seq<string>, dataRows: seq<Row>, numCols: nat) returns (tableData: seq<Record>)
    ensures |tableData| == |dataRows|
    ensures tableData == RecordsOf(headers, dataRows, numCols)
  {
    tableData := [];
    for k := 0 to |dataRows|
      invariant tableData == RecordsOf(headers, dataRows[..k], numCols)
    {
      var rowData := dataRows[k];
      if |rowData| < numCols {
        rowData := rowData + Blanks(numCols - |rowData|);
      } else if |rowData| > numCols {
        rowData := rowData[..numCols];
      }
      assert rowData == Reconcile(dataRows[k], numCols);
      RecordsOfAppend(headers, dataRows, numCols, k);
      tableData := tableData + [FromPairs(Zip(headers, rowData))];
    }
    assert dataRows[..|dataRows|] == dataRows;
  }

  /** `html_table_to_json(html, header_row_index)` on the parsed table. */
  method HtmlTableToJson(table: Option<seq<Row>>, headerRowIndex: int) returns (out: Outcome)
    ensures out == Normalize(table, headerRowIndex)
  {
    if table.None? {
      return NoTable(NO_TABLE_MESSAGE);
    }
    var rows := table.value;
    var numCols := ColumnCountOf(rows);

    if !ValidIndex(|rows|, headerRowIndex) {
      return HeaderIndexError;
    }
    var rawHeaderCells := rows[Position(|rows|, headerRowIndex)];
    var headers: seq<string>;
    var dataRows: seq<Row>;
    if |rawHeaderCells| == numCols {
      headers := NamedHeaders(rawHeaderCells);
      dataRows := rows[SliceStart(|rows|, headerRowIndex + 1)..];
    } else {
      headers := DefaultHeaders(numCols);
      dataRows := rows;
    }
    assert ChooseLayout(rows, numCols, headerRowIndex) == Some(Layout(headers, dataRows));

    var tableData := BuildRecords(headers, dataRows, numCols);
    NormalizeOfLayout(rows, headerRowIndex, Layout(headers, dataRows));
    return Records(tableData);
  }
}
