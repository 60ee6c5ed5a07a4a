/** The first `xml_to_excel` (Source/preprocessing.py, first cell): attributes
    only, the five required columns only, the "digits after removing one
    dot" coercion, and an all-digit `value` column that makes it fail. */
module LegacyPreprocessing {
  import opened Wrappers
  import opened Digits
  import opened Numbers
  import opened ElementTree
  import opened Extraction
  import opened Sequences
  import opened Preprocessing
  import opened PreprocessingProperties

  /** A record's attributes as a flat row; attributes are never None. */
  function AttributeRow(record: Element): (row: FlatRow)
    ensures row.Keys == record.attrib.Keys
    ensures forall k :: k in row ==> row[k] == Some(record.attrib[k])
  {
    map k | k in record.attrib :: Some(record.attrib[k])
  }

  /** `[record.attrib for record in records]` */
  function AttributeRows(records: seq<Element>): (rows: seq<FlatRow>)
    ensures |rows| == |records|
    ensures forall i :: 0 <= i < |records| ==> rows[i] == AttributeRow(records[i])
  {
    seq(|records|, i requires 0 <= i < |records| => AttributeRow(records[i]))
  }

  /** `convert_to_float_if_no_letters` of the first variant: a null cell
      has no `.replace`; text that is digits once one dot is removed
      becomes a number, other text stays. */
  function LegacyCoerce(c: Cell): (r: Result<Cell, Error>)
    ensures r.Failure? <==> !c.Text?
    ensures r.Success? && r.value.Num? ==> LegacyNumeric(c.text) && ParseDecimal(c.text) == Some(r.value.number)
    ensures r.Success? && !r.value.Num? ==> r.value == c && !LegacyNumeric(c.text)
  {
    if !c.Text? then Failure(ValueNotText)
    else if LegacyNumeric(c.text) then
      LegacyNumericParses(c.text);
      Success(Num(ParseDecimal(c.text).value))
    else Success(c)
  }

  /** A text cell. */
  predicate IsText(c: Cell) {
    c.Text?
  }

  /** A text cell for which `str(x).isdigit()` holds. */
  predicate IsDigitText(c: Cell) {
    c.Text? && AllDigits(c.text)
  }

  /** `p` holds of column `c` of every flat row. */
  predicate EveryCell(rows: seq<FlatRow>, c: string, p: Cell -> bool) {
    forall i :: 0 <= i < |rows| ==> p(FlatCell(rows[i], c))
  }

  /** `p` holds of column `c` of every row of a table. */
  predicate EveryRow(table: seq<Row>, c: string, p: Cell -> bool)
    requires forall i :: 0 <= i < |table| ==> c in table[i]
  {
    forall i :: 0 <= i < |table| ==> p(table[i][c])
  }

  /** `str(x).isdigit()` held for every cell of the `value` column. */
  predicate AllDigitValues(table: seq<Row>)
    requires forall i :: 0 <= i < |table| ==> "value" in table[i]
  {
    EveryRow(table, "value", IsDigitText)
  }

  /** The `value` column of the first variant.  When every cell is digits
      the column is first cast to float, and the coercion then calls
      `.replace` on a float and fails. */
  function LegacyCoerceValues(table: seq<Row>): (r: Result<seq<Row>, Error>)
    requires forall i :: 0 <= i < |table| ==> "value" in table[i]
    ensures r.Failure? <==>
      (|table| > 0 && AllDigitValues(table)) || exists i :: 0 <= i < |table| && !table[i]["value"].Text?
    ensures r.Failure? ==> r.error == ValueNotText
    ensures r.Success? ==> |r.value| == |table|
    ensures r.Success? ==> forall i :: 0 <= i < |table| ==>
      r.value[i] == table[i]["value" := LegacyCoerce(table[i]["value"]).value]
  {
    if |table| > 0 && AllDigitValues(table) then Failure(ValueNotText)
    else MapColumn(table, "value", LegacyCoerce)
  }

  /** The conversions of the first variant: value, type, then timestamps. */
  function LegacyConvert(table: seq<Row>): (r: Result<seq<Row>, Error>)
    requires HasColumns(table, RequiredColumns)
    ensures r.Success? ==> |r.value| == |table| && HasColumns(r.value, RequiredColumns)
  {
    var t1 :- LegacyCoerceValues(table);
    assert HasColumns(t1, RequiredColumns);
    ConvertRest(t1, RequiredColumns)
  }

  /** Selection of the required columns, then the conversions. */
  function LegacyNormalize(rows: seq<FlatRow>): (r: Result<seq<Row>, Error>)
    ensures r.Success? ==> |r.value| == |rows| && HasColumns(r.value, RequiredColumns)
  {
    var table :- Materialize(rows, RequiredColumns);
    LegacyConvert(table)
  }

  /** Everything after collecting the attribute rows, as a specification. */
  function LegacyTransform(rows: seq<FlatRow>): Result<seq<Row>, Error>
  {
    var table :- LegacyNormalize(rows);
    Success(DropDuplicates(Enriched(table)))
  }

  /** The first `xml_to_excel` on the parsed document. */
  function LegacyXmlToExcelSpec(importFilename: Option<string>, outputFilename: Option<string>, root: Element): Result<seq<Row>, Error>
  {
    if importFilename.None? then Failure(MissingInputFilename)
    else if outputFilename.None? then Failure(MissingOutputFilename)
    else LegacyTransform(AttributeRows(Records(root)))
  }

  /** The loop appending each record's attributes to `data`. */
  method CollectAttributes(records: seq<Element>) returns (data: seq<FlatRow>)
    ensures data == AttributeRows(records)
  {
    data := [];
    var i := 0;
    while i < |records|
      invariant 0 <= i <= |records|
      invariant data == AttributeRows(records[..i])
    {
      data := data + [AttributeRow(records[i])];
      i := i + 1;
    }
    assert records[..i] == records;
  }

  /** The first variant as the source runs it: the loop appending each
      record's attributes, the column steps, the derived-column loops. */
  method LegacyXmlToExcel(importFilename: Option<string>, outputFilename: Option<string>, root: Element)
    returns (result: Result<seq<Row>, Error>)
    ensures result == LegacyXmlToExcelSpec(importFilename, outputFilename, root)
  {
    if importFilename.None? {
      return Failure(MissingInputFilename);
    }
    if outputFilename.None? {
      return Failure(MissingOutputFilename);
    }
    var data := CollectAttributes(Records(root));
    var converted :- LegacyNormalize(data);
    DerivedNamesFresh();
    var table := AddDerivedColumns(converted, "startDate", StartColumns);
    WithDerivedKeys(converted, "startDate", StartColumns, 8);
    table := AddDerivedColumns(table, "endDate", EndColumns);
    assert table == Enriched(converted);
    result := Success(DropDuplicates(table));
  }

  // ---------------------------------------------------------------------
  // Properties

  /** An all-digit text has no dot, so it is legacy-numeric and `float`
      reads it. */
  lemma DigitsAreNumeric(s: string)
    requires AllDigits(s)
    ensures LegacyNumeric(s) && ParseDecimal(s).Some?
  {
    assert '.' !in s by {
      forall i | 0 <= i < |s| ensures s[i] != '.' {
        assert IsDigit(s[i]);
      }
    }
    LegacyNumericParses(s);
  }

  /** Where the first variant converts a value, the second converts it to
      the same number; everything the first keeps as text, other than what
      the second reads as a number, it keeps too. */
  lemma LegacyCoerceRefined(c: Cell)
    requires c.Text?
    ensures LegacyCoerce(c).Success?
    ensures LegacyCoerce(c).value.Num? ==> LegacyCoerce(c).value == CoerceValue(c)
    ensures !CoerceValue(c).Num? ==> LegacyCoerce(c).value == CoerceValue(c)
  {
    if LegacyNumeric(c.text) {
      LegacyNumericParses(c.text);
    }
  }

  /** A signed number is where the two variants differ: the first keeps
      "-5" as text, the second reads it as the number -5. */
  lemma LegacyKeepsSignedText()
    ensures LegacyCoerce(Text("-5")) == Success(Text("-5"))
    ensures CoerceValue(Text("-5")) == Num(Decimal(-5, 0))
  {
    LegacyNumericRejects();
  }

  /** With the required columns present, selection succeeds on a
      non-empty table and the first variant goes on to its conversions. */
  lemma LegacySelected(rows: seq<FlatRow>)
    requires RequiredColumns <= FrameColumns(rows)
    ensures Materialize(rows, RequiredColumns).Success?
    ensures |Materialize(rows, RequiredColumns).value| > 0
    ensures LegacyNormalize(rows) == LegacyConvert(Materialize(rows, RequiredColumns).value)
  {
    assert "type" in FrameColumns(rows);
  }

  /** On a table of all-digit values the first variant's conversions
      fail: the column is cast to float and the coercion then calls
      `.replace` on a float. */
  lemma LegacyConvertDigits(table: seq<Row>)
    requires HasColumns(table, RequiredColumns) && |table| > 0
    requires AllDigitValues(table)
    ensures LegacyConvert(table) == Failure(ValueNotText)
  {
    assert LegacyCoerceValues(table) == Failure(ValueNotText);
  }

  /** Every selected value is digits when every record's value is. */
  lemma SelectedDigits(rows: seq<FlatRow>)
    requires RequiredColumns <= FrameColumns(rows)
    requires EveryCell(rows, "value", IsDigitText)
    ensures Materialize(rows, RequiredColumns).Success?
    ensures AllDigitValues(Materialize(rows, RequiredColumns).value)
  {
    TransferColumn(rows, RequiredColumns, "value", IsDigitText);
  }

  /** The first variant fails whenever every record's `value` is digits. */
  lemma LegacyDigitsFail(rows: seq<FlatRow>)
    requires RequiredColumns <= FrameColumns(rows)
    requires EveryCell(rows, "value", IsDigitText)
    ensures LegacyTransform(rows) == Failure(ValueNotText)
  {
    LegacySelected(rows);
    SelectedDigits(rows);
    LegacyConvertDigits(Materialize(rows, RequiredColumns).value);
  }

  /** The second variant reads every all-digit value as a number and never
      fails on the `value` column. */
  lemma CoerceDigits(table: seq<Row>)
    requires forall i :: 0 <= i < |table| ==> "value" in table[i]
    requires forall i :: 0 <= i < |table| ==> table[i]["value"].Text? && AllDigits(table[i]["value"].text)
    ensures forall i :: 0 <= i < |table| ==>
      CoerceValues(table)[i]["value"].Num? && ParseDecimal(table[i]["value"].text) == Some(CoerceValues(table)[i]["value"].number)
  {
    forall i | 0 <= i < |table| {
      DigitsAreNumeric(table[i]["value"].text);
    }
  }

  /** The value step of the first variant succeeds exactly when every
      value is text and not every value is digits. */
  lemma LegacyValuesSucceed(table: seq<Row>)
    requires HasColumns(table, RequiredColumns) && |table| > 0
    ensures LegacyCoerceValues(table).Success? <==>
      EveryRow(table, "value", IsText) && !AllDigitValues(table)
    ensures LegacyCoerceValues(table).Success? ==> forall i :: 0 <= i < |table| ==>
      && LegacyCoerceValues(table).value[i].Keys == table[i].Keys
      && LegacyCoerceValues(table).value[i]["type"] == table[i]["type"]
      && LegacyCoerceValues(table).value[i]["startDate"] == table[i]["startDate"]
      && LegacyCoerceValues(table).value[i]["endDate"] == table[i]["endDate"]
  {
  }

  /** The conversions of the first variant succeed exactly when every
      value and type is text, the values are not all digits, and every
      timestamp is readable. */
  lemma LegacyConvertSucceeds(table: seq<Row>)
    requires HasColumns(table, RequiredColumns) && |table| > 0
    ensures LegacyConvert(table).Success? <==>
      && EveryRow(table, "value", IsText)
      && !AllDigitValues(table)
      && EveryRow(table, "type", IsText)
      && EveryRow(table, "startDate", TimestampReadable)
      && EveryRow(table, "endDate", TimestampReadable)
  {
    LegacyValuesSucceed(table);
    var t1 := LegacyCoerceValues(table);
    if t1.Success? {
      assert HasColumns(t1.value, RequiredColumns);
      ConvertRestSucceeds(t1.value, RequiredColumns);
    }
  }

  /** A condition on one selected column holds of every row of the table
      exactly when it holds of every flat row's cell. */
  lemma TransferColumn(rows: seq<FlatRow>, cols: set<string>, c: string, p: Cell -> bool)
    requires Materialize(rows, cols).Success? && c in cols
    ensures EveryRow(Materialize(rows, cols).value, c, p) <==> EveryCell(rows, c, p)
  {
    SelectedCells(rows, cols);
  }

  /** A required column absent from every record is reported first. */
  lemma LegacyMissingColumns(rows: seq<FlatRow>)
    requires !(RequiredColumns <= FrameColumns(rows))
    ensures LegacyNormalize(rows) == Failure(MissingColumns(RequiredColumns - FrameColumns(rows)))
  {
  }
}
