/** What the effective `xml_to_excel` promises: when it fails, that it keeps
    one row per record until deduplication, which columns the result has,
    and that the calendar columns agree with the timestamps. */
module PreprocessingProperties {
  import opened Wrappers
  import opened Calendar
  import opened Timestamps
  import opened ElementTree
  import opened Extraction
  import opened Sequences
  import opened Preprocessing

  /** What the column steps need of the flat rows to run through. */
  predicate Loadable(rows: seq<FlatRow>) {
    && RequiredColumns <= FrameColumns(rows)
    && (forall i :: 0 <= i < |rows| ==> FlatCell(rows[i], "type").Text?)
    && (forall i :: 0 <= i < |rows| ==> TimestampReadable(FlatCell(rows[i], "startDate")))
    && (forall i :: 0 <= i < |rows| ==> TimestampReadable(FlatCell(rows[i], "endDate")))
  }

  /** Every metadata column is a key of some flat row, so selecting it
      never fails. */
  lemma MetadataColumnsPresent(records: seq<Element>)
    ensures MetadataColumns(records) <= FrameColumns(FlatRows(records))
  {
    if records != [] {
      var i :| 0 <= i < |records| && |Entries(records[i])| == MaxEntries(records);
      FlattenSpec(records[i]);
      var rows := FlatRows(records);
      forall c | c in MetadataColumns(records) ensures c in FrameColumns(rows) {
        assert c in rows[i];
      }
    }
  }

  /** The conversions after `value` succeed exactly when every `type`
      cell is text and every timestamp cell is readable. */
  lemma ConvertRestSucceeds(table: seq<Row>, cols: set<string>)
    requires HasColumns(table, cols) && RequiredColumns <= cols
    ensures ConvertRest(table, cols).Success? <==>
      forall i :: 0 <= i < |table| ==>
        && table[i]["type"].Text?
        && TimestampReadable(table[i]["startDate"])
        && TimestampReadable(table[i]["endDate"])
  {
    var t2 := StripTypes(table);
    if t2.Success? {
      assert HasColumns(t2.value, cols);
      DatesSucceed(t2.value);
    }
  }

  /** Both timestamp conversions succeed exactly when every timestamp cell
      is readable. */
  lemma DatesSucceed(table: seq<Row>)
    requires forall i :: 0 <= i < |table| ==> "startDate" in table[i] && "endDate" in table[i]
    ensures var t3 := ParseDates(table, "startDate");
      (t3.Success? && ParseDates(t3.value, "endDate").Success?) <==>
      forall i :: 0 <= i < |table| ==>
        TimestampReadable(table[i]["startDate"]) && TimestampReadable(table[i]["endDate"])
  {
    var t3 := ParseDates(table, "startDate");
    if t3.Success? {
      assert forall i :: 0 <= i < |table| ==> t3.value[i]["endDate"] == table[i]["endDate"];
    }
  }

  /** Cell by cell, what the conversions after `value` do to each row. */
  lemma ConvertRestCells(table: seq<Row>, cols: set<string>)
    requires HasColumns(table, cols) && RequiredColumns <= cols
    requires ConvertRest(table, cols).Success?
    ensures var r := ConvertRest(table, cols).value;
      forall i :: 0 <= i < |table| ==>
        && r[i]["type"] == Text(TypeLabels.StripTypePrefixes(table[i]["type"].text))
        && r[i]["value"] == table[i]["value"]
        && Success(r[i]["startDate"]) == ParseDateCell("startDate", table[i]["startDate"])
        && Success(r[i]["endDate"]) == ParseDateCell("endDate", table[i]["endDate"])
        && (forall c :: c in cols && c !in {"type", "startDate", "endDate"} ==> r[i][c] == table[i][c])
  {
    var t2 := StripTypes(table).value;
    var t3 := ParseDates(t2, "startDate").value;
    var t4 := ParseDates(t3, "endDate").value;
    assert t4 == ConvertRest(table, cols).value;
  }

  /** The conversions succeed exactly when every `type` cell is text and
      every timestamp cell is readable. */
  lemma ConvertSucceeds(table: seq<Row>, cols: set<string>)
    requires HasColumns(table, cols) && RequiredColumns <= cols
    ensures ConvertColumns(table, cols).Success? <==>
      forall i :: 0 <= i < |table| ==>
        && table[i]["type"].Text?
        && TimestampReadable(table[i]["startDate"])
        && TimestampReadable(table[i]["endDate"])
  {
    var t1 := CoerceValues(table);
    assert HasColumns(t1, cols);
    ConvertRestSucceeds(t1, cols);
  }

  /** Cell by cell, what the conversions do to each row. */
  lemma ConvertCells(table: seq<Row>, cols: set<string>)
    requires HasColumns(table, cols) && RequiredColumns <= cols
    requires ConvertColumns(table, cols).Success?
    ensures var r := ConvertColumns(table, cols).value;
      forall i :: 0 <= i < |table| ==>
        && r[i]["type"] == Text(TypeLabels.StripTypePrefixes(table[i]["type"].text))
        && r[i]["value"] == CoerceValue(table[i]["value"])
        && Success(r[i]["startDate"]) == ParseDateCell("startDate", table[i]["startDate"])
        && Success(r[i]["endDate"]) == ParseDateCell("endDate", table[i]["endDate"])
        && (forall c :: c in cols && c !in {"type", "value", "startDate", "endDate"} ==> r[i][c] == table[i][c])
  {
    var t1 := CoerceValues(table);
    assert HasColumns(t1, cols);
    ConvertRestCells(t1, cols);
  }

  /** A selected cell is the flat row's text for that column, or null. */
  lemma SelectedCells(rows: seq<FlatRow>, cols: set<string>)
    requires Materialize(rows, cols).Success?
    ensures forall i, c :: 0 <= i < |rows| && c in cols ==> Materialize(rows, cols).value[i][c] == FlatCell(rows[i], c)
  {
  }

  /** Selection fails, naming the missing required columns, exactly when a
      required column is absent from every flat row. */
  lemma NormalizeMissingColumns(rows: seq<FlatRow>, metadataColumns: set<string>)
    requires metadataColumns <= FrameColumns(rows)
    ensures !(RequiredColumns <= FrameColumns(rows)) ==>
      Normalize(rows, metadataColumns) == Failure(MissingColumns(RequiredColumns - FrameColumns(rows)))
    ensures RequiredColumns <= FrameColumns(rows) ==> Materialize(rows, AllColumns(metadataColumns)).Success?
  {
    var cols := AllColumns(metadataColumns);
    assert cols - FrameColumns(rows) == RequiredColumns - FrameColumns(rows);
  }

  /** The column steps succeed exactly when the required columns exist,
      every `type` is text and every timestamp is readable. */
  lemma NormalizeSucceeds(rows: seq<FlatRow>, metadataColumns: set<string>)
    requires metadataColumns <= FrameColumns(rows)
    ensures Normalize(rows, metadataColumns).Success? <==> Loadable(rows)
  {
    NormalizeMissingColumns(rows, metadataColumns);
    var cols := AllColumns(metadataColumns);
    var m := Materialize(rows, cols);
    if m.Success? {
      ConvertSucceeds(m.value, cols);
      SelectedCells(rows, cols);
    }
  }

  /** After the column steps the table is the conversion of the selected
      flat rows. */
  lemma NormalizeIsConvert(rows: seq<FlatRow>, metadataColumns: set<string>)
    requires Normalize(rows, metadataColumns).Success?
    ensures Materialize(rows, AllColumns(metadataColumns)).Success?
    ensures var m := Materialize(rows, AllColumns(metadataColumns)).value;
      && ConvertColumns(m, AllColumns(metadataColumns)).Success?
      && Normalize(rows, metadataColumns).value == ConvertColumns(m, AllColumns(metadataColumns)).value
  {
  }

  /** Cell by cell, the i-th row after the column steps is the i-th flat
      row: `type` stripped, `value` coerced, timestamps parsed. */
  lemma NormalizeCells(rows: seq<FlatRow>, metadataColumns: set<string>)
    requires Normalize(rows, metadataColumns).Success?
    ensures var table := Normalize(rows, metadataColumns).value;
      forall i :: 0 <= i < |rows| ==>
        && FlatCell(rows[i], "type").Text?
        && table[i]["type"] == Text(TypeLabels.StripTypePrefixes(FlatCell(rows[i], "type").text))
        && table[i]["value"] == CoerceValue(FlatCell(rows[i], "value"))
        && Success(table[i]["startDate"]) == ParseDateCell("startDate", FlatCell(rows[i], "startDate"))
        && Success(table[i]["endDate"]) == ParseDateCell("endDate", FlatCell(rows[i], "endDate"))
  {
    NormalizeIsConvert(rows, metadataColumns);
    var cols := AllColumns(metadataColumns);
    var m := Materialize(rows, cols).value;
    ConvertCells(m, cols);
    SelectedCells(rows, cols);
  }

  /** Every other selected column, `unit` and the metadata columns among
      them, is carried as the flat row's text or null. */
  lemma NormalizeCarries(rows: seq<FlatRow>, metadataColumns: set<string>)
    requires Normalize(rows, metadataColumns).Success?
    ensures var table := Normalize(rows, metadataColumns).value;
      forall i, c :: 0 <= i < |rows| && c in table[i] && c !in {"type", "value", "startDate", "endDate"} ==>
        table[i][c] == FlatCell(rows[i], c)
  {
    NormalizeIsConvert(rows, metadataColumns);
    var cols := AllColumns(metadataColumns);
    var m := Materialize(rows, cols).value;
    ConvertCells(m, cols);
    SelectedCells(rows, cols);
  }

  // ---------------------------------------------------------------------
  // The calendar columns

  /** The eight derived cells of `c`, looked up by name, are the eight
      calendar fields. */
  lemma {:induction false} DerivedCellsAt(c: Cell, names: seq<string>, n: nat, k: nat)
    requires k < n <= |names| == 8 && NoDuplicates(names)
    ensures names[k] in DerivedCells(c, names, n)
    ensures DerivedCells(c, names, n)[names[k]] == DerivedField(k, c)
  {
    if k < n - 1 {
      DerivedCellsAt(c, names, n - 1, k);
    }
  }

  /** The derived column names of the two timestamps are distinct from each
      other and from the timestamp columns. */
  lemma DerivedNamesDistinct()
    ensures NoDuplicates(StartColumns) && NoDuplicates(EndColumns)
    ensures forall k, j :: 0 <= k < 8 && 0 <= j < 8 ==> StartColumns[k] != EndColumns[j]
  {
  }

  /** A row whose calendar columns hold the eight fields of its own
      `startDate` and `endDate`, both of which are null or valid. */
  predicate CalendarConsistent(row: Row) {
    && "startDate" in row && "endDate" in row
    && TimestampCell(row["startDate"]) && TimestampCell(row["endDate"])
    && (forall k :: 0 <= k < 8 ==> StartColumns[k] in row && row[StartColumns[k]] == DerivedField(k, row["startDate"]))
    && (forall k :: 0 <= k < 8 ==> EndColumns[k] in row && row[EndColumns[k]] == DerivedField(k, row["endDate"]))
  }

  /** A parsed timestamp cell: NaT or a valid wall-clock time. */
  predicate TimestampCell(c: Cell) {
    c.Null? || (c.Stamp? && ValidDateTime(c.time))
  }

  /** The enriched table keeps one row per row and has the selected
      columns plus the sixteen calendar columns. */
  lemma EnrichedColumns(table: seq<Row>, cols: set<string>)
    requires HasColumns(table, cols) && "startDate" in cols && "endDate" in cols
    ensures |Enriched(table)| == |table|
    ensures HasColumns(Enriched(table), OutputColumns(cols))
  {
    DerivedNamesFresh();
    WithDerivedKeys(table, "startDate", StartColumns, 8);
    WithDerivedKeys(WithDerived(table, "startDate", StartColumns, 8), "endDate", EndColumns, 8);
  }

  /** One row extended first by the calendar cells of `s`, then by those of
      `e`: each name reads back its own field of its own timestamp. */
  lemma {:induction false} TwoStageLookup(base: Row, s: string, e: string, sn: seq<string>, en: seq<string>, k: nat)
    requires s in base && e in base && k < 8
    requires |sn| == |en| == 8 && NoDuplicates(sn) && NoDuplicates(en)
    requires s !in sn && e !in sn && s !in en && e !in en
    requires forall a, b :: 0 <= a < 8 && 0 <= b < 8 ==> sn[a] != en[b]
    ensures var mid := base + DerivedCells(base[s], sn, 8);
      var row := mid + DerivedCells(mid[e], en, 8);
      && row[s] == base[s] && row[e] == base[e]
      && sn[k] in row && row[sn[k]] == DerivedField(k, base[s])
      && en[k] in row && row[en[k]] == DerivedField(k, base[e])
  {
    var ds := DerivedCells(base[s], sn, 8);
    var mid := base + ds;
    var de := DerivedCells(mid[e], en, 8);
    DerivedCellsAt(base[s], sn, 8, k);
    DerivedCellsAt(mid[e], en, 8, k);
    assert e !in ds;
    assert sn[k] !in de;
  }

  /** Each row of the enriched table is calendar-consistent. */
  lemma EnrichedRowConsistent(table: seq<Row>, i: nat)
    requires i < |table|
    requires forall j :: 0 <= j < |table| ==> "startDate" in table[j] && "endDate" in table[j]
    requires TimestampCell(table[i]["startDate"]) && TimestampCell(table[i]["endDate"])
    ensures CalendarConsistent(Enriched(table)[i])
  {
    DerivedNamesFresh();
    DerivedNamesDistinct();
    var t := WithDerived(table, "startDate", StartColumns, 8);
    WithDerivedKeys(table, "startDate", StartColumns, 8);
    assert Enriched(table)[i] == t[i] + DerivedCells(t[i]["endDate"], EndColumns, 8);
    assert t[i] == table[i] + DerivedCells(table[i]["startDate"], StartColumns, 8);
    forall k | 0 <= k < 8 {
      TwoStageLookup(table[i], "startDate", "endDate", StartColumns, EndColumns, k);
    }
  }

  /** The columns of the result: the selected ones and the sixteen calendar
      columns. */
  function OutputColumns(cols: set<string>): (r: set<string>)
    ensures cols <= r
    ensures forall k :: 0 <= k < 8 ==> StartColumns[k] in r && EndColumns[k] in r
  {
    cols + (set k | 0 <= k < 8 :: StartColumns[k]) + (set k | 0 <= k < 8 :: EndColumns[k])
  }

  /** The calendar columns named `names` hold values in their ranges:
      months 1 to 12, days 1 to 31, hours 0 to 23, minutes 0 to 59, and
      English month and day names; each may also be null. */
  predicate CalendarBounded(row: Row, names: seq<string>)
    requires |names| == 8
  {
    && (forall k :: 0 <= k < 8 ==> names[k] in row)
    && (row[names[1]].Null? || (row[names[1]].Int? && 1 <= row[names[1]].whole <= 12))
    && (row[names[2]].Null? || (row[names[2]].Text? && row[names[2]].text in MonthNames))
    && (row[names[3]].Null? || (row[names[3]].Int? && 1 <= row[names[3]].whole <= 31))
    && (row[names[4]].Null? || (row[names[4]].Text? && row[names[4]].text in DayNames))
    && (row[names[6]].Null? || (row[names[6]].Int? && 0 <= row[names[6]].whole <= 23))
    && (row[names[7]].Null? || (row[names[7]].Int? && 0 <= row[names[7]].whole <= 59))
  }

  /** A calendar-consistent row is within the calendar's ranges. */
  lemma CalendarBounds(row: Row)
    requires CalendarConsistent(row)
    ensures CalendarBounded(row, StartColumns) && CalendarBounded(row, EndColumns)
  {
    var s := row["startDate"];
    var e := row["endDate"];
    if s.Stamp? {
      assert row[StartColumns[3]].whole <= DaysInMonth(s.time.date.year, s.time.date.month);
    }
    if e.Stamp? {
      assert row[EndColumns[3]].whole <= DaysInMonth(e.time.date.year, e.time.date.month);
    }
  }

  // ---------------------------------------------------------------------
  // The whole conversion

  /** A missing input filename is reported first, then a missing output
      filename; neither depends on the document. */
  lemma XmlToExcelFilenames(importFilename: Option<string>, outputFilename: Option<string>, root: Element)
    ensures importFilename.None? ==> XmlToExcelSpec(importFilename, outputFilename, root) == Failure(MissingInputFilename)
    ensures importFilename.Some? && outputFilename.None? ==>
      XmlToExcelSpec(importFilename, outputFilename, root) == Failure(MissingOutputFilename)
    ensures importFilename.Some? && outputFilename.Some? ==>
      XmlToExcelSpec(importFilename, outputFilename, root) == XmlToExcelSpec(Some([]), Some([]), root)
  {
  }

  /** Past the filename checks the conversion is `Transform` of the
      extracted rows and metadata columns. */
  lemma XmlToExcelIsTransform(importFilename: string, outputFilename: string, root: Element)
    ensures XmlToExcelSpec(Some(importFilename), Some(outputFilename), root)
         == Transform(FlatRows(Records(root)), MetadataColumns(Records(root)))
  {
  }

  /** The steps after extraction succeed exactly when the flat rows are
      loadable, and a required column absent from every row is reported
      before anything else. */
  lemma TransformSucceeds(rows: seq<FlatRow>, metadataColumns: set<string>)
    requires metadataColumns <= FrameColumns(rows)
    ensures Transform(rows, metadataColumns).Success? <==> Loadable(rows)
    ensures !(RequiredColumns <= FrameColumns(rows)) ==>
      Transform(rows, metadataColumns) == Failure(MissingColumns(RequiredColumns - FrameColumns(rows)))
  {
    NormalizeSucceeds(rows, metadataColumns);
    NormalizeMissingColumns(rows, metadataColumns);
  }

  /** With both filenames given, the conversion succeeds exactly when the
      flat rows are loadable, and a required column absent from every
      record is reported before anything else. */
  lemma XmlToExcelSucceeds(importFilename: string, outputFilename: string, root: Element)
    ensures var r := XmlToExcelSpec(Some(importFilename), Some(outputFilename), root);
      var rows := FlatRows(Records(root));
      && (r.Success? <==> Loadable(rows))
      && (!(RequiredColumns <= FrameColumns(rows)) ==> r == Failure(MissingColumns(RequiredColumns - FrameColumns(rows))))
  {
    var records := Records(root);
    MetadataColumnsPresent(records);
    XmlToExcelIsTransform(importFilename, outputFilename, root);
    TransformSucceeds(FlatRows(records), MetadataColumns(records));
  }

  /** The table the result is deduplicated from: one row per flat row, with
      the selected and calendar columns, each row calendar-consistent. */
  lemma EnrichedTable(rows: seq<FlatRow>, metadataColumns: set<string>)
    requires Normalize(rows, metadataColumns).Success?
    ensures var e := Enriched(Normalize(rows, metadataColumns).value);
      && |e| == |rows|
      && HasColumns(e, OutputColumns(AllColumns(metadataColumns)))
      && (forall i :: 0 <= i < |e| ==> CalendarConsistent(e[i]))
  {
    var table := Normalize(rows, metadataColumns).value;
    NormalizeTimestamps(rows, metadataColumns);
    EnrichedTableOf(table, AllColumns(metadataColumns));
  }

  /** Normalizing leaves a parsed timestamp or NaT in both date columns. */
  lemma NormalizeTimestamps(rows: seq<FlatRow>, metadataColumns: set<string>)
    requires Normalize(rows, metadataColumns).Success?
    ensures var table := Normalize(rows, metadataColumns).value;
      forall i :: 0 <= i < |table| ==> TimestampCell(table[i]["startDate"]) && TimestampCell(table[i]["endDate"])
  {
    NormalizeCells(rows, metadataColumns);
  }

  /** Enriching a table whose date columns hold timestamps keeps one row per
      row, adds the calendar columns and makes every row calendar-consistent. */
  lemma EnrichedTableOf(table: seq<Row>, cols: set<string>)
    requires HasColumns(table, cols) && "startDate" in cols && "endDate" in cols
    requires forall i :: 0 <= i < |table| ==> TimestampCell(table[i]["startDate"]) && TimestampCell(table[i]["endDate"])
    ensures |Enriched(table)| == |table|
    ensures HasColumns(Enriched(table), OutputColumns(cols))
    ensures forall i :: 0 <= i < |table| ==> CalendarConsistent(Enriched(table)[i])
  {
    EnrichedColumns(table, cols);
    forall i | 0 <= i < |table| ensures CalendarConsistent(Enriched(table)[i]) {
      EnrichedRowConsistent(table, i);
    }
  }

  /** The steps after extraction give each distinct row of the enriched
      table once, in order of first appearance: no two rows are equal,
      every row has the selected and calendar columns and is
      calendar-consistent. */
  lemma TransformResult(rows: seq<FlatRow>, metadataColumns: set<string>)
    requires Transform(rows, metadataColumns).Success?
    ensures var out := Transform(rows, metadataColumns).value;
      var e := Enriched(Normalize(rows, metadataColumns).value);
      && |e| == |rows|
      && NoDuplicates(out)
      && IsSubsequence(out, e)
      && (forall row :: row in out <==> row in e)
      && (forall row :: row in out ==> row.Keys == OutputColumns(AllColumns(metadataColumns)) && CalendarConsistent(row))
  {
    var e := Enriched(Normalize(rows, metadataColumns).value);
    EnrichedTable(rows, metadataColumns);
    DropDuplicatesSpec(e);
  }

  /** The same for the whole conversion: one row per record before
      deduplication, none repeated after it. */
  lemma XmlToExcelResult(importFilename: string, outputFilename: string, root: Element)
    requires XmlToExcelSpec(Some(importFilename), Some(outputFilename), root).Success?
    ensures var out := XmlToExcelSpec(Some(importFilename), Some(outputFilename), root).value;
      var records := Records(root);
      var mc := MetadataColumns(records);
      var e := Enriched(Normalize(FlatRows(records), mc).value);
      && |e| == |records|
      && NoDuplicates(out)
      && IsSubsequence(out, e)
      && (forall row :: row in out <==> row in e)
      && (forall row :: row in out ==> row.Keys == OutputColumns(AllColumns(mc)) && CalendarConsistent(row))
  {
    XmlToExcelIsTransform(importFilename, outputFilename, root);
    TransformResult(FlatRows(Records(root)), MetadataColumns(Records(root)));
  }
}
