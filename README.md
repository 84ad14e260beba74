# Pix2Table: the table normaliser and the upload filter

Pix2Table is a small web service. It takes an uploaded image of a table, runs
an external table-recognition model on it, and turns the model's HTML table
into a JSON list of records. The only logic written in the repository is in
`app.py`, and this project models both of its parts:

- `allowed_file` (`app.py:18-20`), the upload filter. A filename is accepted
  when it contains a dot and the text after its **last** dot, lower-cased, is
  `png`, `jpg` or `jpeg`. The model is module `Upload`. It makes `rsplit('.', 1)`
  and ASCII `lower()` explicit.
- `html_table_to_json` (`app.py:21-61`), the normaliser. It starts from a table
  that has already been parsed: `None` when the markup has no `<table>`,
  otherwise a list of rows, each holding its cells' stripped texts in document
  order. Module `TableJson` models it in four steps:
  1. The column count `num_cols` is the cell count of the first row that has a
     cell, or 0 if no row has one.
  2. The candidate header row is `rows[header_row_index]`. If its cell count is
     `num_cols`, its texts name the columns and a blank text becomes
     `Column<i+1>`. The data rows are then `rows[header_row_index+1:]`.
     Otherwise the names are `Column1..Column<num_cols>` and every row is data.
  3. Each data row is padded with `""` or truncated to `num_cols` values.
  4. Each row becomes `dict(zip(headers, row_data))`.

  `Normalize` is the function that states the result. The method
  `HtmlTableToJson` follows the source step by step: `ColumnCountOf` is the
  loop with `break`, and `BuildRecords` is the loop that pads or truncates each
  row and appends its record. The methods are proved equal to `Normalize`.

Supporting modules:

- `PyDict` models a Python dict built from pairs. It is a list of entries in
  insertion order. A repeated key keeps the position of its first insertion
  and takes the value of its last pair (last write wins).
- `Decimal` renders `i+1` in `f"Column{i+1}"`. It comes with a parser and a
  round-trip lemma, so that default names are provably distinct.
- `Wrappers` defines `Option`.

Outcomes of the normaliser (`TableJson.Outcome`):

- `NoTable("No table found in HTML")`: the error dict returned when there is no
  table.
- `HeaderIndexError`: the `IndexError` that `rows[header_row_index]` raises.
  This happens on an empty table or an index outside `-len(rows)..len(rows)-1`.
  As in Python, negative indices count from the end. The slice
  `rows[header_row_index+1:]` is clamped as Python clamps it, so index `-1`
  with a matching last row makes every row data (`DataRowsChoice`).
- `Records(records)`: the list of dicts.

Behaviours of the code that the model keeps:

- `app.py:53` strips data cells with `get_text(strip=True)` exactly as
  `app.py:44` strips header cells, so a row holds the same stripped texts
  whichever role it plays.
- An out-of-range header index raises `IndexError` at `app.py:42`, and a
  negative index counts from the end.
- A `<table>` without any `<tr>` is not reported as a missing table: with the
  default index 0, `rows[0]` at `app.py:42` raises `IndexError`
  (`NormalizeEmptyTable`).
- When no row has a cell, `num_cols` is 0, and the header row still matches
  with zero names. The result holds one empty dict `{}` per row after the
  header row (`NormalizeNoCells`).
- With the default index 0, a first row that has a cell always matches,
  because `num_cols` is taken from that same row (`app.py:34-38, 43`). Default
  names therefore need an empty first row. A one-cell title row names a
  single column, and every data row is truncated to one value
  (`FirstRowHeaderMatches`).

## Model

| member | source | states |
|---|---|---|
| Upload.Lower | app.py:20 | `lower()` on ASCII: same length, each letter A-Z mapped to a-z, other characters kept |
| Upload.LastIndexOf | app.py:20 | finds no position iff the character is absent; otherwise a position holding it with none after it |
| Upload.RSplitOnce | app.py:20 | `rsplit(sep, 1)` gives one part (the whole string) iff `sep` is absent; otherwise two parts that rejoin with `sep` to the input, the second without `sep` |
| Upload.LastDotIsUnique | app.py:20 | a dot with no later dot is the one the split uses |
| Upload.AllowedFile | app.py:18-20 | an accepted name has a dot, and the text after its last dot is 3 or 4 characters long (`AllowedFileIffExtension` states the full rule) |
| Upload.AllowedFileIffExtension | app.py:18-20 | a filename is accepted iff it has a dot with no later dot and the lower-cased text after it is png, jpg or jpeg (both directions) |
| Upload.RejectsMissingOrEmptyExtension | app.py:20 | a name without a dot, or ending in a dot, is rejected |
| Upload.ExtensionAfterLastDot | app.py:20 | the second part of `rsplit('.', 1)` is the text after the last dot |
| Upload.LowerKeepsLastDot | app.py:20 | lower-casing leaves the last dot at the same position |
| Upload.AllowedFileIgnoresCase | app.py:20 | a name and its lower-cased form are accepted or rejected alike |
| Upload.AcceptsUpperCaseExtension | app.py:18-20 | `photo.PNG` is accepted |
| Upload.RejectsInnerExtension | app.py:18-20 | `table.png.exe` is rejected: only the last extension counts |
| Decimal.NatToString | app.py:44-47 | the text of `i+1` in `f"Column{i+1}"` is non-empty, all digits, with no leading zero |
| Decimal.ValueOfNatToString | app.py:44-47 | reading the decimal text back gives the number |
| Decimal.NatToStringInjective | app.py:44-47 | distinct numbers have distinct decimal texts |
| PyDict.FindSpec | app.py:59 | a key lookup fails iff no entry carries the key, and otherwise finds the first entry carrying it |
| PyDict.Put | app.py:59 | a dict insertion adds at most one entry and removes none |
| PyDict.PutKeepsKeysDistinct | app.py:59 | a dict insertion keeps keys distinct and leaves every existing key at its position |
| PyDict.PutGet | app.py:59 | after `d[k] = v`, `k` holds `v` and every other key keeps its value |
| PyDict.Zip | app.py:59 | `zip` has the length of the shorter input |
| PyDict.ZipAt | app.py:59 | pair `i` of `zip(xs, ys)` is `(xs[i], ys[i])` |
| PyDict.FromPairs | app.py:59 | `dict(pairs)` has no more entries than there are pairs |
| PyDict.FromPairsKeysDistinct | app.py:59 | `dict(pairs)` has no key twice |
| PyDict.FromPairsPrefixKeys | app.py:59 | inserting more pairs never moves a key: every entry of the dict of a prefix keeps its position in the whole dict, so a repeated key stays where it was first inserted |
| PyDict.FromPairsLastWins | app.py:59 | a key holds the value of its last pair |
| PyDict.FromPairsAbsent | app.py:59 | a key that no pair carries is absent |
| PyDict.FromPairsOfDistinct | app.py:59 | with distinct keys, the dict holds every pair in order |
| TableJson.ColumnCount | app.py:31-38 | the column count is 0 iff every row is empty |
| TableJson.ColumnCountIsFirstNonEmpty | app.py:33-38 | the column count is the cell count of the first non-empty row |
| TableJson.ColumnCountIgnoresEmptyPrefix | app.py:34-38 | empty rows before the first non-empty row do not change the count |
| TableJson.ColumnCountOf | app.py:31-38 | the scan-and-break loop returns the column count |
| TableJson.Position | app.py:42 | the position read by `rows[i]` is in range: `i` itself for `i >= 0`, `len + i` for a negative `i` |
| TableJson.SliceStart | app.py:45 | `rows[start:]` starts at `start` when it is in range, at `len+start` for a negative start, and is clamped otherwise |
| TableJson.DefaultName | app.py:44-47 | `f"Column{i+1}"` starts with `Column`, and is followed by digits with no leading zero that read back as `i+1` |
| TableJson.DefaultNamesDistinct | app.py:44-47 | different columns get different `Column<i+1>` names |
| TableJson.DefaultNamesAllDistinct | app.py:47 | the names `Column1`..`Column<n>` are pairwise distinct |
| TableJson.NamedHeaders | app.py:44 | one name per header cell, never blank: a non-blank cell text is kept, and a blank cell gets `Column<i+1>` (`HeaderNaming`) |
| TableJson.DefaultHeaders | app.py:47 | exactly `n` names, pairwise distinct |
| TableJson.ChooseLayout | app.py:40-48 | faults iff the header index is invalid; otherwise there are exactly `num_cols` header names in both branches, and the data rows are a suffix of the table |
| TableJson.HeaderNaming | app.py:43-47 | header `i` is the candidate's cell `i` when the candidate matches and the cell is not blank, otherwise `Column<i+1>` |
| TableJson.FirstRowHeaderMatches | app.py:34-43 | with index 0, a first row that has a cell always matches as the header row |
| TableJson.DataRowsChoice | app.py:42-48 | data rows are the rows after a matching header row (all rows for index -1), or every row, the candidate included, when it does not match |
| TableJson.Reconcile | app.py:53-57 | a row becomes exactly `num_cols` values: its first `min(len, num_cols)` cells unchanged and in order, then `""` |
| TableJson.MakeRecord | app.py:59 | `dict(zip(headers, row_data))` has no key twice and at most one entry per header; `RecordValue` and `RecordAbsentKey` state its contents |
| TableJson.RecordValue | app.py:59 | in a record, a header name maps to the padded cell of the last column with that name |
| TableJson.RecordAbsentKey | app.py:59 | a name that heads no column is not a key of the record |
| TableJson.RecordOfDistinctHeaders | app.py:59 | with distinct headers, the record pairs each header with its column's value, in column order |
| TableJson.RecordsOf | app.py:51-59 | one record per data row, in data-row order, record `k` built from data row `k` |
| TableJson.RecordsOfAppend | app.py:51-59 | the records of one more data row are the earlier records followed by that row's record |
| TableJson.Normalize | app.py:21-61 | the no-table error comes back iff there is no table, with the message "No table found in HTML"; the index fault happens iff the header index is invalid; there are never more records than rows |
| TableJson.NormalizeOfLayout | app.py:50-61 | the result holds one record per data row, in data-row order, each built from the headers and that row |
| TableJson.NormalizeRecordValue | app.py:50-59 | record `k` maps each header (the last column with that name) to data row `k`'s cell or `""` |
| TableJson.DefaultHeadersRecord | app.py:47-59 | under synthetic headers, a record holds exactly `num_cols` entries `Column<i+1>` mapped to the row's padded value `i` |
| TableJson.NormalizeWithoutHeaderRow | app.py:46-59 | when the header row does not match, every row, the candidate included, yields such a record |
| TableJson.NormalizeWithHeaderRow | app.py:42-45 | a first row of non-blank names supplies the keys, and all later rows are the data rows |
| TableJson.RecordOfFullRow | app.py:53-59 | with distinct headers, a row exactly as wide as the headers becomes the record pairing header `i` with cell `i` |
| TableJson.NormalizeWellFormed | app.py:21-61 | a table with distinct non-blank names and uniform data rows yields, per data row, the names paired with the row's cells |
| TableJson.PaddingExample | app.py:54-55 | distinct non-blank headers a, b, c over cells x, y give {a: x, b: y, c: ""} |
| TableJson.TruncationExample | app.py:56-57 | distinct non-blank headers a, b over cells x, y, z give {a: x, b: y} |
| TableJson.DuplicateHeaderExample | app.py:59 | a non-blank header a used twice, over cells x, y, gives {a: y} |
| TableJson.NormalizeHeaderOnly | app.py:42-59 | a table holding only its header row gives an empty list, not an error |
| TableJson.NormalizeNoCells | app.py:31-59 | when no row has a cell, every row after the header row yields an empty record `{}` |
| TableJson.NormalizeEmptyTable | app.py:42 | a table without rows faults on the header index |
| TableJson.BuildRecords | app.py:50-59 | the data-row loop returns one record per data row, record `k` being `dict(zip(headers, reconciled row k))` |
| TableJson.HtmlTableToJson | app.py:21-61 | the whole procedure returns exactly `Normalize`'s outcome |

## Left out

- HTML parsing (`app.py:22-23, 28, 35, 42, 52`) is left out because BeautifulSoup is a foreign library. The model starts from the parsed table. It does not capture that `find_all("tr")` also returns rows of nested tables, or how `get_text(strip=True)` handles whitespace.
- `process_image` (`app.py:63-74`) is left out. It checks a file on disk and calls the external recognition model.
- The web endpoints (`app.py:75-101`) are left out. They cover templating, writing and deleting the uploaded file, the JSON envelope and the `datetime.now()` timestamp.
- The async structure is left out. Nothing in the modelled code is concurrent.
- Upload.Lower: does not model Python's full Unicode `str.lower()`, only ASCII letters, because Unicode case mapping tables are outside the model.
- Python's hash-table dict is modelled by its observable behaviour (insertion order, last write wins), not by its hashing.
- The `IndexError` that the source raises is returned as the outcome value `HeaderIndexError`; the model does not model exception propagation.
