/**
 * Tables as the viewer holds them after `pd.read_excel`, and the loader
 * `load_excel_from_gcs`: normalise the column names, insist on the three
 * required columns, and turn every failure into an empty table.
 */
module Tables {
  import opened Wrappers
  import opened Strings

  /** One spreadsheet cell: missing (pandas' NaN) or a value, held as its text. */
  datatype Cell = Blank | Text(text: string)

  /** `str(value)` after `astype(str)`: pandas writes a missing value as "nan". */
  function AsStr(c: Cell): string {
    match c
    case Blank => "nan"
    case Text(s) => s
  }

  /** One row, keyed by column name. A column a row does not have is NaN there,
      as it is after `pd.concat` of tables with different columns. */
  type Row = map<string, Cell>

  function Get(r: Row, column: string): Cell {
    if column in r then r[column] else Blank
  }

  datatype Table = Table(columns: seq<string>, rows: seq<Row>)

  /** `pd.DataFrame()` */
  const EmptyTable := Table([], [])

  /** `DataFrame.empty`: no rows or no columns. */
  predicate IsEmpty(t: Table) {
    |t.columns| == 0 || |t.rows| == 0
  }

  /** `pd.to_numeric(cell, errors='coerce')` for whole-number years: the
      stripped text read as an integer, anything else missing. */
  function NumericYear(c: Cell): Option<int> {
    match c
    case Blank => None
    case Text(s) => ParseInt(Strip(s))
  }

  /** The numeric year of a row's `AÑO` column. */
  function RowYear(r: Row): Option<int> {
    NumericYear(Get(r, "AÑO"))
  }

  /** A year written in decimal digits reads back as itself. */
  lemma NumericYearOfDecimal(n: nat)
    ensures NumericYear(Text(NatToDecimal(n))) == Some(n)
  {
    StripKeepsDecimal(NatToDecimal(n));
    ParseIntToDecimal(n);
  }

  /** Years in ascending order with the missing ones last (`na_position='last'`). */
  predicate YearLe(a: Option<int>, b: Option<int>) {
    match a
    case None => b.None?
    case Some(x) => b.None? || x <= b.value
  }

  /** The order of two rows by their numeric year, missing last. */
  predicate RowYearLe(a: Row, b: Row) {
    YearLe(RowYear(a), RowYear(b))
  }

  /** `f` applied to every element, in order. */
  function MapEach<A, B>(s: seq<A>, f: A -> B): (r: seq<B>)
    ensures |r| == |s| && forall i :: 0 <= i < |s| ==> r[i] == f(s[i])
  {
    seq(|s|, i requires 0 <= i < |s| => f(s[i]))
  }

  /** `pd.Index.union(other, sort=False)`: the columns of `cols`, then the new
      ones of `more` in their order. */
  function AppendNew(cols: seq<string>, more: seq<string>): (r: seq<string>)
    ensures forall c :: c in r <==> c in cols || c in more
    ensures |cols| <= |r| && r[..|cols|] == cols
    decreases more
  {
    if more == [] then cols
    else
      var next := if more[0] in cols then cols else cols + [more[0]];
      var r := AppendNew(next, more[1..]);
      assert r[..|next|][..|cols|] == r[..|cols|];
      r
  }

  /** `DataFrame.drop(columns=...)` on the column list. */
  function DropColumns(cols: seq<string>, dropped: set<string>): (r: seq<string>)
    ensures forall c :: c in r <==> c in cols && c !in dropped
  {
    if cols == [] then []
    else (if cols[0] in dropped then [] else [cols[0]]) + DropColumns(cols[1..], dropped)
  }

  // ---------------------------------------------------------------- loading

  const BucketName := "fotosfamilialfve"

  /** What the storage holds at a path: a spreadsheet that parses into a header
      row and data rows, or something that cannot be opened or parsed. */
  datatype Fetched = Unreadable | Sheet(header: seq<string>, body: seq<seq<Cell>>)

  /** The bucket's objects by path; a path that is absent is `FileNotFoundError`. */
  type Storage = map<string, Fetched>

  function ObjectPath(fileName: string): string {
    BucketName + "/" + fileName
  }

  /** Why a load gave an empty table (the loader reports it and returns `pd.DataFrame()`). */
  datatype LoadError =
    | NotFound(file: string)
    | ReadFailed(file: string)
    | MissingColumns(file: string, missing: seq<string>, found: seq<string>)

  const RequiredColumns: seq<string> := ["DESCRIPCION", "AÑO", "NOMBRE"]

  /** `df.columns.str.strip().str.upper()` for one name. */
  function NormalizeColumn(name: string): string {
    Upper(Strip(name))
  }

  /** Two header names normalise to the same column exactly when, once
      stripped, they differ at most in case. */
  lemma NormalizeColumnSameIff(a: string, b: string)
    ensures NormalizeColumn(a) == NormalizeColumn(b) <==> Fold(Strip(a)) == Fold(Strip(b))
  {
    UpperSameIff(Strip(a), Strip(b));
  }

  /** A header typed " Año " names the required column `AÑO`. */
  lemma NormalizeYearHeader()
    ensures NormalizeColumn(" Año ") == "AÑO"
  {
    StripPaddedYear();
    UpperYear();
  }

  /** Stripping drops the one blank on either side of the year header. */
  lemma StripPaddedYear()
    ensures Strip(" Año ") == "Año"
  {
    assert " Año "[1..] == "Año ";
    assert TrimStart(" Año ") == TrimStart("Año ");
    assert !IsSpace('A');
    assert TrimStart("Año ") == "Año ";
    assert "Año "[..3] == "Año";
    assert TrimEnd("Año ") == TrimEnd("Año");
    assert !IsSpace('o');
  }

  /** `upper()` turns the `ñ` of the year header into `Ñ`. */
  lemma UpperYear()
    ensures Upper("Año") == "AÑO"
  {
    var u := Upper("Año");
    assert u[0] == 'A' && u[1] == 'Ñ' && u[2] == 'O';
  }

  /** The header, each name normalised in place. */
  function NormalizeColumns(header: seq<string>): (r: seq<string>)
    ensures |r| == |header|
    ensures forall i :: 0 <= i < |header| ==> r[i] == NormalizeColumn(header[i])
  {
    seq(|header|, i requires 0 <= i < |header| => NormalizeColumn(header[i]))
  }

  /** Where a column name first appears among the columns. */
  function FirstIndex(columns: seq<string>, c: string): (k: nat)
    requires c in columns
    ensures k < |columns| && columns[k] == c && c !in columns[..k]
  {
    if columns[0] == c then 0
    else
      var k := FirstIndex(columns[1..], c) + 1;
      assert columns[..k] == [columns[0]] + columns[1..][..k - 1];
      k
  }

  /** A data row keyed by the (normalised) column names; a short row is padded
      with NaN, and of two columns with the same name the first is read. */
  function RowOf(columns: seq<string>, cells: seq<Cell>): (r: Row)
    ensures r.Keys == set c | c in columns
    ensures forall i :: 0 <= i < |columns| && columns[i] !in columns[..i] ==>
      r[columns[i]] == (if i < |cells| then cells[i] else Blank)
  {
    var r := map c | c in columns :: var k := FirstIndex(columns, c); if k < |cells| then cells[k] else Blank;
    forall i | 0 <= i < |columns| && columns[i] !in columns[..i]
      ensures FirstIndex(columns, columns[i]) == i
    {
      var k := FirstIndex(columns, columns[i]);
      assert columns[..i] <= columns[..k] || columns[..k] <= columns[..i];
    }
    r
  }

  /** `[col for col in required if col not in columns]` */
  function MissingOf(required: seq<string>, columns: seq<string>): (m: seq<string>)
    ensures forall c :: c in m <==> c in required && c !in columns
    ensures |m| <= |required|
  {
    if required == [] then []
    else (if required[0] in columns then [] else [required[0]]) + MissingOf(required[1..], columns)
  }

  /** One source table, or why it could not be had. */
  function Load(fileName: string, storage: Storage): (r: Result<Table, LoadError>)
    ensures r.Ok? <==>
      && ObjectPath(fileName) in storage
      && storage[ObjectPath(fileName)].Sheet?
      && forall c :: c in RequiredColumns ==> c in NormalizeColumns(storage[ObjectPath(fileName)].header)
    ensures r.Ok? ==> forall c :: c in RequiredColumns ==> c in r.value.columns
    ensures r.Ok? ==>
      var sheet := storage[ObjectPath(fileName)];
      && r.value.columns == NormalizeColumns(sheet.header)
      && |r.value.rows| == |sheet.body|
      && forall i :: 0 <= i < |sheet.body| ==> r.value.rows[i] == RowOf(r.value.columns, sheet.body[i])
    ensures r.Err? ==> r.error.file == fileName
    ensures (r.Err? && r.error.NotFound?) <==> ObjectPath(fileName) !in storage
    ensures (r.Err? && r.error.ReadFailed?) <==>
      ObjectPath(fileName) in storage && storage[ObjectPath(fileName)].Unreadable?
    ensures (r.Err? && r.error.MissingColumns?) <==>
      && ObjectPath(fileName) in storage
      && storage[ObjectPath(fileName)].Sheet?
      && exists c :: c in RequiredColumns && c !in NormalizeColumns(storage[ObjectPath(fileName)].header)
    ensures r.Err? && r.error.MissingColumns? ==>
      && ObjectPath(fileName) in storage && storage[ObjectPath(fileName)].Sheet?
      && r.error.found == NormalizeColumns(storage[ObjectPath(fileName)].header)
      && r.error.missing != []
      && forall c :: c in r.error.missing <==> c in RequiredColumns && c !in r.error.found
  {
    var path := ObjectPath(fileName);
    if path !in storage then Err(NotFound(fileName))
    else match storage[path]
      case Unreadable => Err(ReadFailed(fileName))
      case Sheet(header, body) =>
        var columns := NormalizeColumns(header);
        var missing := MissingOf(RequiredColumns, columns);
        if missing != [] then
          assert missing[0] in missing;
          Err(MissingColumns(fileName, missing, columns))
        else
          assert forall c :: c in RequiredColumns ==> c in columns by {
            forall c | c in RequiredColumns ensures c in columns {
              assert c !in columns ==> c in missing;
            }
          }
          Ok(Table(columns, seq(|body|, i requires 0 <= i < |body| => RowOf(columns, body[i]))))
  }

  /** `load_excel_from_gcs`: the table, or an empty table on any failure. */
  function LoadExcel(fileName: string, storage: Storage): (t: Table)
    ensures ObjectPath(fileName) !in storage ==> t == EmptyTable
    ensures ObjectPath(fileName) in storage && storage[ObjectPath(fileName)].Unreadable? ==> t == EmptyTable
    ensures (&& ObjectPath(fileName) in storage
             && storage[ObjectPath(fileName)].Sheet?
             && exists c :: c in RequiredColumns && c !in NormalizeColumns(storage[ObjectPath(fileName)].header))
            ==> t == EmptyTable
    ensures t == EmptyTable || forall c :: c in RequiredColumns ==> c in t.columns
    ensures Load(fileName, storage).Ok? ==> t == Load(fileName, storage).value
  {
    match Load(fileName, storage)
    case Ok(table) => table
    case Err(_) => EmptyTable
  }

  /** A table that did load keeps every row of the sheet, and every row has
      the required columns. */
  lemma LoadKeepsRows(fileName: string, storage: Storage)
    requires Load(fileName, storage).Ok?
    ensures var t := LoadExcel(fileName, storage);
      && |t.rows| == |storage[ObjectPath(fileName)].body|
      && forall i, c :: 0 <= i < |t.rows| && c in RequiredColumns ==> c in t.rows[i]
  {
    var t := LoadExcel(fileName, storage);
    forall i, c | 0 <= i < |t.rows| && c in RequiredColumns ensures c in t.rows[i] {
      assert c in t.columns;
    }
  }
}
