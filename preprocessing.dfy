/** The effective `xml_to_excel` (Source/preprocessing.py, second cell): flat
    rows to a uniform table, value coercion, type-prefix stripping, timestamp
    parsing, derived calendar columns and `drop_duplicates()`.  File access,
    timing and printing are left out; the parsed document is a parameter. */
module Preprocessing {
  import opened Wrappers
  import opened Numbers
  import opened TypeLabels
  import opened Calendar
  import opened Timestamps
  import opened ElementTree
  import opened Extraction
  import opened Sequences

  /** One cell of the table.  Null stands for pandas' NaN, None and NaT. */
  datatype Cell =
    | Null
    | Text(text: string)
    | Num(number: Decimal)
    | Stamp(time: DateTime)
    | Int(whole: int)
    | Day(date: Date)

  type Row = map<string, Cell>

  /** The exceptions the pipeline can raise. */
  datatype Error =
    | MissingInputFilename                       // ValueError, input filename is None
    | MissingOutputFilename                      // ValueError, output filename is None
    | MissingColumns(columns: set<string>)       // selecting columns the frame lacks
    | TypeNotText                                // `.replace` on a null `type` cell
    | ValueNotText                               // `.replace` on a non-string `value` (first variant)
    | BadTimestamp(column: string, text: string) // `pd.to_datetime` cannot read a cell

  const RequiredColumns: set<string> := {"type", "value", "unit", "startDate", "endDate"}

  const StartColumns: seq<string> := ["syear", "smonth", "smonth_name", "sday", "sday_name", "sdate", "shour", "sminutes"]
  const EndColumns: seq<string> := ["eyear", "emonth", "emonth_name", "eday", "eday_name", "edate", "ehour", "eminutes"]

  /** Every row of the table has exactly the columns `cols`. */
  predicate HasColumns(table: seq<Row>, cols: set<string>) {
    forall i :: 0 <= i < |table| ==> table[i].Keys == cols
  }

  // ---------------------------------------------------------------------
  // Table materialisation: `pd.DataFrame(data)[list(all_columns)]`

  /** The columns of `pd.DataFrame(data)`: every key of every row. */
  function FrameColumns(rows: seq<FlatRow>): set<string>
  {
    set i, c | 0 <= i < |rows| && c in rows[i] :: c
  }

  /** A row with exactly the columns `cols`; a key the row lacks, or whose
      value is None, gives a null cell. */
  function Pad(row: FlatRow, cols: set<string>): (r: Row)
    ensures r.Keys == cols
  {
    map c | c in cols :: FlatCell(row, c)
  }

  /** The cell of column `c` before any conversion: its text, or null. */
  function FlatCell(row: FlatRow, c: string): Cell
  {
    if c in row && row[c].Some? then Text(row[c].value) else Null
  }

  /** Selecting the columns: fails when the frame lacks one of them. */
  function Materialize(rows: seq<FlatRow>, cols: set<string>): (r: Result<seq<Row>, Error>)
    ensures r.Failure? <==> !(cols <= FrameColumns(rows))
    ensures r.Failure? ==> r.error == MissingColumns(cols - FrameColumns(rows))
    ensures r.Success? ==> |r.value| == |rows| && HasColumns(r.value, cols)
    ensures r.Success? ==> forall i :: 0 <= i < |rows| ==> r.value[i] == Pad(rows[i], cols)
  {
    if !(cols <= FrameColumns(rows)) then Failure(MissingColumns(cols - FrameColumns(rows)))
    else Success(seq(|rows|, i requires 0 <= i < |rows| => Pad(rows[i], cols)))
  }

  // ---------------------------------------------------------------------
  // Per-cell normalisers

  /** The second variant's `convert_to_float_if_no_letters`: `float(value)`,
      or the value itself when `float` raises ValueError or TypeError. */
  function CoerceValue(c: Cell): (r: Cell)
    ensures r != c ==> c.Text? && r.Num? && ParseDecimal(c.text) == Some(r.number)
    ensures c.Text? ==> (r.Num? <==> ParseDecimal(c.text).Some?)
  {
    if c.Text? && ParseDecimal(c.text).Some? then Num(ParseDecimal(c.text).value) else c
  }

  /** A number written as text comes back as that number. */
  lemma CoerceRendered(d: Decimal)
    requires Canonical(d)
    ensures CoerceValue(Text(Render(d))) == Num(d)
  {
    RenderParse(d);
  }

  /** The `type` lambda on one cell: a null cell has no `.replace`. */
  function StripType(c: Cell): (r: Result<Cell, Error>)
    ensures r.Failure? <==> !c.Text?
    ensures r.Success? ==> r.value == Text(StripTypePrefixes(c.text))
  {
    if c.Text? then Success(Text(StripTypePrefixes(c.text))) else Failure(TypeNotText)
  }

  /** `pd.to_datetime(...).dt.tz_localize(None)` on one cell of `column`. */
  function ParseDateCell(column: string, c: Cell): (r: Result<Cell, Error>)
    ensures r.Success? ==> r.value.Null? || (r.value.Stamp? && ValidDateTime(r.value.time))
    ensures c.Null? ==> r == Success(Null)
    ensures c.Text? ==> (r.Success? <==> ParseTimestamp(c.text).Some?)
    ensures c.Text? && r.Success? ==> r.value == Stamp(ParseTimestamp(c.text).value)
    ensures !c.Null? && !c.Text? ==> r.Failure?
  {
    if c.Null? then Success(Null)
    else if !c.Text? then Failure(BadTimestamp(column, []))
    else if ParseTimestamp(c.text).Some? then Success(Stamp(ParseTimestamp(c.text).value))
    else Failure(BadTimestamp(column, c.text))
  }

  /** The eight calendar lambdas, in column order: year, month, month name,
      day, day name, date, hour, minute.  NaT gives a null cell. */
  function DerivedField(k: nat, c: Cell): (r: Cell)
    requires k < 8
    ensures !c.Stamp? ==> r.Null?
    ensures c.Stamp? && ValidDateTime(c.time) ==>
      var t := c.time;
      && (k == 0 ==> r == Int(t.date.year) && 1 <= r.whole <= 9999)
      && (k == 1 ==> r == Int(t.date.month) && 1 <= r.whole <= 12)
      && (k == 2 ==> r == Text(MonthNames[t.date.month - 1]))
      && (k == 3 ==> r == Int(t.date.day) && 1 <= r.whole <= DaysInMonth(t.date.year, t.date.month))
      && (k == 4 ==> r == Text(DayNames[Weekday(t.date)]))
      && (k == 5 ==> r == Day(t.date) && ValidDate(r.date))
      && (k == 6 ==> r == Int(t.hour) && 0 <= r.whole <= 23)
      && (k == 7 ==> r == Int(t.minute) && 0 <= r.whole <= 59)
  {
    match c
    case Stamp(t) =>
      if !ValidDateTime(t) then Null
      else if k == 0 then Int(t.date.year)
      else if k == 1 then Int(t.date.month)
      else if k == 2 then Text(MonthName(t.date.month))
      else if k == 3 then Int(t.date.day)
      else if k == 4 then Text(DayName(t.date))
      else if k == 5 then Day(t.date)
      else if k == 6 then Int(t.hour)
      else Int(t.minute)
    case _ => Null
  }

  // ---------------------------------------------------------------------
  // Whole-column steps

  /** `table[col].apply(f)` assigned back to `col`: the first failing cell's
      exception propagates. */
  function MapColumn(table: seq<Row>, col: string, f: Cell -> Result<Cell, Error>): (r: Result<seq<Row>, Error>)
    requires forall i :: 0 <= i < |table| ==> col in table[i]
    ensures r.Failure? <==> exists i :: 0 <= i < |table| && f(table[i][col]).Failure?
    ensures r.Failure? ==> exists i :: 0 <= i < |table| && f(table[i][col]) == Failure(r.error)
    ensures r.Success? ==> |r.value| == |table|
    ensures r.Success? ==> forall i :: 0 <= i < |table| ==> r.value[i] == table[i][col := f(table[i][col]).value]
    ensures r.Success? ==> forall i :: 0 <= i < |table| ==> r.value[i].Keys == table[i].Keys
  {
    if table == [] then Success([])
    else
      var head :- f(table[0][col]);
      var tail :- MapColumn(table[1..], col, f);
      Success([table[0][col := head]] + tail)
  }

  /** The `value` column after coercion; coercion never fails. */
  function CoerceValues(table: seq<Row>): (r: seq<Row>)
    requires forall i :: 0 <= i < |table| ==> "value" in table[i]
    ensures |r| == |table|
    ensures forall i :: 0 <= i < |table| ==> r[i] == table[i]["value" := CoerceValue(table[i]["value"])]
    ensures forall i :: 0 <= i < |table| ==> r[i].Keys == table[i].Keys
  {
    seq(|table|, i requires 0 <= i < |table| => table[i]["value" := CoerceValue(table[i]["value"])])
  }

  /** A timestamp cell `pd.to_datetime` accepts: null, or readable text. */
  predicate TimestampReadable(c: Cell) {
    c.Null? || (c.Text? && ParseTimestamp(c.text).Some?)
  }

  /** The `type` column with its prefixes stripped; fails on a null cell. */
  function StripTypes(table: seq<Row>): (r: Result<seq<Row>, Error>)
    requires forall i :: 0 <= i < |table| ==> "type" in table[i]
    ensures r.Failure? <==> exists i :: 0 <= i < |table| && !table[i]["type"].Text?
    ensures r.Success? ==> |r.value| == |table|
    ensures r.Success? ==> forall i :: 0 <= i < |table| ==>
      r.value[i] == table[i]["type" := Text(StripTypePrefixes(table[i]["type"].text))]
    ensures r.Success? ==> forall i :: 0 <= i < |table| ==> r.value[i].Keys == table[i].Keys
  {
    MapColumn(table, "type", StripType)
  }

  /** One timestamp column converted; fails on the first unreadable cell. */
  function ParseDates(table: seq<Row>, col: string): (r: Result<seq<Row>, Error>)
    requires forall i :: 0 <= i < |table| ==> col in table[i]
    ensures r.Failure? <==> exists i :: 0 <= i < |table| && !TimestampReadable(table[i][col])
    ensures r.Success? ==> |r.value| == |table|
    ensures r.Success? ==> forall i :: 0 <= i < |table| ==>
      r.value[i] == table[i][col := ParseDateCell(col, table[i][col]).value]
    ensures r.Success? ==> forall i :: 0 <= i < |table| ==> r.value[i].Keys == table[i].Keys
  {
    MapColumn(table, col, c => ParseDateCell(col, c))
  }

  /** The derived cells of one row, assigned one column at a time as the
      `for col, func in zip(...)` loop does. */
  function DerivedCells(c: Cell, names: seq<string>, n: nat): (m: map<string, Cell>)
    requires n <= |names| <= 8
    ensures m.Keys == set k | 0 <= k < n :: names[k]
  {
    if n == 0 then map[] else DerivedCells(c, names, n - 1)[names[n - 1] := DerivedField(n - 1, c)]
  }

  /** The table with the first n derived columns of `source` added. */
  function WithDerived(table: seq<Row>, source: string, names: seq<string>, n: nat): (r: seq<Row>)
    requires n <= |names| == 8
    requires forall i :: 0 <= i < |table| ==> source in table[i]
  {
    seq(|table|, i requires 0 <= i < |table| => table[i] + DerivedCells(table[i][source], names, n))
  }

  lemma WithDerivedZero(table: seq<Row>, source: string, names: seq<string>)
    requires |names| == 8
    requires forall i :: 0 <= i < |table| ==> source in table[i]
    ensures WithDerived(table, source, names, 0) == table
  {
    forall i | 0 <= i < |table|
      ensures WithDerived(table, source, names, 0)[i] == table[i]
    {
      assert table[i] + map[] == table[i];
    }
  }

  lemma WithDerivedStep(table: seq<Row>, source: string, names: seq<string>, k: nat)
    requires k < |names| == 8 && source !in names
    requires forall i :: 0 <= i < |table| ==> source in table[i]
    ensures var t := WithDerived(table, source, names, k);
      WithDerived(table, source, names, k + 1) ==
      seq(|t|, i requires 0 <= i < |t| => t[i][names[k] := DerivedField(k, t[i][source])])
  {
    var t := WithDerived(table, source, names, k);
    forall i | 0 <= i < |table|
      ensures t[i][source] == table[i][source]
      ensures WithDerived(table, source, names, k + 1)[i] == t[i][names[k] := DerivedField(k, t[i][source])]
    {
      var d := DerivedCells(table[i][source], names, k);
      assert source !in d;
      assert (table[i] + d)[names[k] := DerivedField(k, table[i][source])]
          == table[i] + d[names[k] := DerivedField(k, table[i][source])];
    }
  }

  /** Adding derived columns keeps every existing column and adds exactly
      the derived names. */
  lemma WithDerivedKeys(table: seq<Row>, source: string, names: seq<string>, n: nat)
    requires n <= |names| == 8
    requires forall i :: 0 <= i < |table| ==> source in table[i]
    ensures forall i :: 0 <= i < |table| ==>
      WithDerived(table, source, names, n)[i].Keys == table[i].Keys + set k | 0 <= k < n :: names[k]
  {
  }

  /** The derived column names are distinct from the timestamp columns. */
  lemma DerivedNamesFresh()
    ensures "startDate" !in StartColumns && "endDate" !in StartColumns
    ensures "startDate" !in EndColumns && "endDate" !in EndColumns
  {
  }

  /** The loop over the eight calendar columns of `source`:
      `health_data[col] = health_data[source].apply(func)`. */
  method AddDerivedColumns(table: seq<Row>, source: string, names: seq<string>) returns (t: seq<Row>)
    requires |names| == 8 && source !in names
    requires forall i :: 0 <= i < |table| ==> source in table[i]
    ensures t == WithDerived(table, source, names, 8)
  {
    t := table;
    var k := 0;
    WithDerivedZero(table, source, names);
    while k < 8
      invariant 0 <= k <= 8
      invariant t == WithDerived(table, source, names, k)
    {
      WithDerivedStep(table, source, names, k);
      t := seq(|t|, i requires 0 <= i < |t| => t[i][names[k] := DerivedField(k, t[i][source])]);
      k := k + 1;
    }
  }

  // ---------------------------------------------------------------------
  // The pipeline

  /** The columns of the result before the derived ones. */
  function AllColumns(metadataColumns: set<string>): set<string>
  {
    RequiredColumns + metadataColumns
  }

  /** The conversions after the `value` column: type stripping, then the
      two timestamp columns. */
  function ConvertRest(table: seq<Row>, cols: set<string>): (r: Result<seq<Row>, Error>)
    requires HasColumns(table, cols) && RequiredColumns <= cols
    ensures r.Success? ==> |r.value| == |table| && HasColumns(r.value, cols)
  {
    var t2 :- StripTypes(table);
    assert HasColumns(t2, cols);
    var t3 :- ParseDates(t2, "startDate");
    assert HasColumns(t3, cols);
    ParseDates(t3, "endDate")
  }

  /** The conversions on a selected table, in the order of the source:
      value coercion, then the rest. */
  function ConvertColumns(table: seq<Row>, cols: set<string>): (r: Result<seq<Row>, Error>)
    requires HasColumns(table, cols) && RequiredColumns <= cols
    ensures r.Success? ==> |r.value| == |table| && HasColumns(r.value, cols)
  {
    var t1 := CoerceValues(table);
    assert HasColumns(t1, cols);
    ConvertRest(t1, cols)
  }

  /** The column steps before the derived columns: selection, then the
      conversions. */
  function Normalize(rows: seq<FlatRow>, metadataColumns: set<string>): (r: Result<seq<Row>, Error>)
    ensures r.Success? ==> |r.value| == |rows| && HasColumns(r.value, AllColumns(metadataColumns))
  {
    var table :- Materialize(rows, AllColumns(metadataColumns));
    ConvertColumns(table, AllColumns(metadataColumns))
  }

  /** The table with the calendar columns of both timestamps added. */
  function Enriched(table: seq<Row>): seq<Row>
    requires forall i :: 0 <= i < |table| ==> "startDate" in table[i] && "endDate" in table[i]
  {
    DerivedNamesFresh();
    WithDerivedKeys(table, "startDate", StartColumns, 8);
    var t := WithDerived(table, "startDate", StartColumns, 8);
    WithDerived(t, "endDate", EndColumns, 8)
  }

  /** Everything after extraction, as a specification. */
  function Transform(rows: seq<FlatRow>, metadataColumns: set<string>): Result<seq<Row>, Error>
  {
    var table :- Normalize(rows, metadataColumns);
    Success(DropDuplicates(Enriched(table)))
  }

  /** `xml_to_excel(import_filename, output_filename)` on the parsed document. */
  function XmlToExcelSpec(importFilename: Option<string>, outputFilename: Option<string>, root: Element): Result<seq<Row>, Error>
  {
    if importFilename.None? then Failure(MissingInputFilename)
    else if outputFilename.None? then Failure(MissingOutputFilename)
    else Transform(FlatRows(Records(root)), MetadataColumns(Records(root)))
  }

  /** The pipeline as the source runs it: the extraction loop, the column
      steps, the two derived-column loops and deduplication. */
  method XmlToExcel(importFilename: Option<string>, outputFilename: Option<string>, root: Element)
    returns (result: Result<seq<Row>, Error>)
    ensures result == XmlToExcelSpec(importFilename, outputFilename, root)
  {
    if importFilename.None? {
      return Failure(MissingInputFilename);
    }
    if outputFilename.None? {
      return Failure(MissingOutputFilename);
    }
    var data, metadataColumns := ExtractRows(root);
    var normalized :- Normalize(data, metadataColumns);
    DerivedNamesFresh();
    var table := AddDerivedColumns(normalized, "startDate", StartColumns);
    WithDerivedKeys(normalized, "startDate", StartColumns, 8);
    table := AddDerivedColumns(table, "endDate", EndColumns);
    assert table == Enriched(normalized);
    result := Success(DropDuplicates(table));
  }
}
