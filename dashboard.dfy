/** The dashboard's data side (Source/main.py): the checkbox list of distinct
    record types, the default date range of the date picker, and the row
    filter the `update_output` callback applies to the loaded sheet.  The
    sheet is a parameter (reading the workbook is left out), as are the
    checkbox values and the picker's texts the browser sends. */
module Dashboard {
  import opened Wrappers
  import opened Calendar
  import opened Timestamps
  import opened Sequences
  import opened Preprocessing

  /** The loaded sheet: its column names and its rows. */
  datatype Frame = Frame(columns: set<string>, rows: seq<Row>)

  /** The exceptions of the data side. */
  datatype DashError =
    | KeyError(missing: set<string>) // selecting columns the sheet lacks
    | BadDate(text: string)          // `strptime` cannot read a picker date

  predicate WellFormed(f: Frame) {
    forall i :: 0 <= i < |f.rows| ==> f.rows[i].Keys == f.columns
  }

  /** The columns of the table shown before any filtering. */
  const DisplayColumns: set<string> := {"startDate", "endDate", "unit", "type", "value", "Metadata_0"}

  /** A cell of a column after `pd.to_datetime`: a timestamp, or NaT. */
  predicate StampOrNull(c: Cell) {
    c.Null? || (c.Stamp? && ValidDateTime(c.time))
  }

  /** The cells of column c, top to bottom (null where a row lacks c). */
  function Column(rows: seq<Row>, c: string): (r: seq<Cell>)
    ensures |r| == |rows|
    ensures forall i :: 0 <= i < |rows| ==> r[i] == if c in rows[i] then rows[i][c] else Null
  {
    seq(|rows|, i requires 0 <= i < |rows| => if c in rows[i] then rows[i][c] else Null)
  }

  /** The sheet as the module-level code leaves it when it gets past its
      column selections: uniform rows, the six shown columns present, and
      both date columns converted to timestamps. */
  predicate Loaded(f: Frame) {
    && WellFormed(f)
    && DisplayColumns <= f.columns
    && (forall i :: 0 <= i < |f.rows| ==> StampOrNull(f.rows[i]["startDate"]) && StampOrNull(f.rows[i]["endDate"]))
  }

  // ---------------------------------------------------------------------
  // The checkbox list

  predicate IsPresent(c: Cell) {
    !c.Null?
  }

  /** `dataset.drop_duplicates('type')['type'].dropna().tolist()`: the
      distinct types in order of first appearance, without NaN.  Selecting
      the `type` column of a sheet without one raises before the fallback to
      an empty list can be reached. */
  function TypeList(f: Frame): Result<seq<Cell>, DashError>
  {
    if "type" !in f.columns then Failure(KeyError({"type"}))
    else Success(Filter(DropDuplicates(Column(f.rows, "type")), IsPresent))
  }

  /** The checkbox list offers each non-null type of the sheet exactly once,
      in the order the types first appear. */
  lemma TypeListSpec(f: Frame)
    ensures TypeList(f).Failure? <==> "type" !in f.columns
    ensures TypeList(f).Success? ==>
      var types, column := TypeList(f).value, Column(f.rows, "type");
      && NoDuplicates(types)
      && (forall c :: c in types <==> c in column && c != Null)
      && IsSubsequence(types, column)
  {
    if "type" in f.columns {
      var column := Column(f.rows, "type");
      var distinct := DropDuplicates(column);
      DropDuplicatesSpec(column);
      FilterNoDuplicates(distinct, IsPresent);
      FilterSubsequence(distinct, IsPresent);
      SubsequenceTrans(Filter(distinct, IsPresent), distinct, column);
      FilterMembers(distinct, IsPresent);
    }
  }

  /** Appending a row to the sheet appends its type to the checkbox list
      exactly when that type is non-null and not seen before; otherwise the
      list is unchanged.  Together with the empty sheet's empty list, this
      fixes the list's order as the order of first appearance. */
  lemma TypeListSnoc(f: Frame, r: Row)
    requires "type" in f.columns
    ensures var cell := if "type" in r then r["type"] else Null;
      TypeList(Frame(f.columns, f.rows + [r])) ==
        if cell.Null? || cell in Column(f.rows, "type") then TypeList(f)
        else Success(TypeList(f).value + [cell])
  {
    var cell := if "type" in r then r["type"] else Null;
    var column := Column(f.rows, "type");
    assert Column(f.rows + [r], "type") == column + [cell];
    DropDuplicatesSnoc(column, cell);
    if cell !in column {
      var distinct := DropDuplicates(column);
      assert DropDuplicates(column + [cell]) == distinct + [cell];
      FilterSnoc(distinct, cell, IsPresent);
      if cell.Null? {
        assert Filter(distinct + [cell], IsPresent) == Filter(distinct, IsPresent) + [];
        assert Filter(distinct, IsPresent) + [] == Filter(distinct, IsPresent);
      }
    }
  }

  /** A sheet with a type column and no rows offers no types. */
  lemma TypeListEmpty(columns: set<string>)
    requires "type" in columns
    ensures TypeList(Frame(columns, [])) == Success([])
  {
    assert Column([], "type") == [];
  }

  /** `dataset[['startDate', 'endDate', 'unit', 'type', 'value', 'Metadata_0']]`:
      the table shown first, or the columns the sheet lacks. */
  function Display(f: Frame): Result<seq<Row>, DashError>
  {
    if !(DisplayColumns <= f.columns) then Failure(KeyError(DisplayColumns - f.columns))
    else Success(seq(|f.rows|, i requires 0 <= i < |f.rows| =>
                   map c | c in DisplayColumns && c in f.rows[i] :: f.rows[i][c]))
  }

  /** Showing the table fails exactly when a shown column is missing, and
      names the missing ones; otherwise each row keeps exactly the shown
      columns with their cells. */
  lemma DisplaySpec(f: Frame)
    requires WellFormed(f)
    ensures Display(f).Failure? <==> !(DisplayColumns <= f.columns)
    ensures Display(f).Failure? ==> Display(f).error == KeyError(DisplayColumns - f.columns) && Display(f).error.missing != {}
    ensures Display(f).Success? ==>
      var t := Display(f).value;
      && |t| == |f.rows|
      && forall i :: 0 <= i < |t| ==> t[i].Keys == DisplayColumns && forall c :: c in t[i] ==> t[i][c] == f.rows[i][c]
  {
    if !(DisplayColumns <= f.columns) {
      var c :| c in DisplayColumns && c !in f.columns;
      assert c in DisplayColumns - f.columns;
    }
  }

  /** A sheet that got through loading has a checkbox list and a table. */
  lemma LoadedStarts(f: Frame)
    requires Loaded(f)
    ensures TypeList(f).Success? && Display(f).Success?
  {
  }

  // ---------------------------------------------------------------------
  // The date picker's defaults

  /** `Series.min()` on a timestamp column: NaT is skipped; NaT (None) when
      the column holds no timestamp. */
  function MinStamp(cells: seq<Cell>): (r: Option<DateTime>)
    ensures r.None? <==> forall i :: 0 <= i < |cells| ==> !cells[i].Stamp?
    ensures r.Some? ==> Stamp(r.value) in cells
    decreases |cells|
  {
    if cells == [] then None
    else
      var rest := MinStamp(cells[1..]);
      if !cells[0].Stamp? then rest
      else if rest.None? || AtOrBefore(cells[0].time, rest.value) then Some(cells[0].time)
      else rest
  }

  /** The minimum is at or before every timestamp of the column. */
  lemma {:induction false} MinStampLeast(cells: seq<Cell>)
    ensures MinStamp(cells).Some? ==>
      forall i :: 0 <= i < |cells| && cells[i].Stamp? ==> AtOrBefore(MinStamp(cells).value, cells[i].time)
    decreases |cells|
  {
    if cells != [] {
      var rest := MinStamp(cells[1..]);
      MinStampLeast(cells[1..]);
      var m := MinStamp(cells);
      forall i | 0 <= i < |cells| && cells[i].Stamp? ensures AtOrBefore(m.value, cells[i].time) {
        if i == 0 {
          if m.value != cells[0].time {
            AtOrBeforeTotal(cells[0].time, rest.value);
          } else {
            AtOrBeforeTotal(m.value, m.value);
          }
        } else {
          assert cells[1..][i - 1] == cells[i];
          if m.value != rest.value {
            AtOrBeforeTrans(m.value, rest.value, cells[i].time);
          }
        }
      }
    }
  }

  /** `Series.max()` on a timestamp column, NaT skipped. */
  function MaxStamp(cells: seq<Cell>): (r: Option<DateTime>)
    ensures r.None? <==> forall i :: 0 <= i < |cells| ==> !cells[i].Stamp?
    ensures r.Some? ==> Stamp(r.value) in cells
    decreases |cells|
  {
    if cells == [] then None
    else
      var rest := MaxStamp(cells[1..]);
      if !cells[0].Stamp? then rest
      else if rest.None? || AtOrBefore(rest.value, cells[0].time) then Some(cells[0].time)
      else rest
  }

  /** The maximum is at or after every timestamp of the column. */
  lemma {:induction false} MaxStampGreatest(cells: seq<Cell>)
    ensures MaxStamp(cells).Some? ==>
      forall i :: 0 <= i < |cells| && cells[i].Stamp? ==> AtOrBefore(cells[i].time, MaxStamp(cells).value)
    decreases |cells|
  {
    if cells != [] {
      var rest := MaxStamp(cells[1..]);
      MaxStampGreatest(cells[1..]);
      var m := MaxStamp(cells);
      forall i | 0 <= i < |cells| && cells[i].Stamp? ensures AtOrBefore(cells[i].time, m.value) {
        if i == 0 {
          if m.value != cells[0].time {
            AtOrBeforeTotal(cells[0].time, rest.value);
          } else {
            AtOrBeforeTotal(m.value, m.value);
          }
        } else {
          assert cells[1..][i - 1] == cells[i];
          if m.value != rest.value {
            AtOrBeforeTrans(cells[i].time, rest.value, m.value);
          }
        }
      }
    }
  }

  /** `dataset['startDate'].min().date()`: the picker's first day. */
  function DefaultStart(f: Frame): Option<Date>
  {
    var m := MinStamp(Column(f.rows, "startDate"));
    if m.Some? then Some(m.value.date) else None
  }

  /** `dataset['endDate'].max().date()`: the picker's last day. */
  function DefaultEnd(f: Frame): Option<Date>
  {
    var m := MaxStamp(Column(f.rows, "endDate"));
    if m.Some? then Some(m.value.date) else None
  }

  /** The default first day is the day of the earliest start, so every start
      is at or after its midnight; and it is the day of some row's start. */
  lemma DefaultStartSpec(f: Frame, lo: Date)
    requires Loaded(f) && DefaultStart(f) == Some(lo)
    ensures exists i :: 0 <= i < |f.rows| && f.rows[i]["startDate"].Stamp? && f.rows[i]["startDate"].time.date == lo
    ensures forall i :: 0 <= i < |f.rows| && f.rows[i]["startDate"].Stamp? ==>
              AtOrBefore(Midnight(lo), f.rows[i]["startDate"].time)
  {
    var column := Column(f.rows, "startDate");
    var m := MinStamp(column).value;
    MinStampLeast(column);
    var k :| 0 <= k < |column| && column[k] == Stamp(m);
    MidnightBefore(m);
    forall i | 0 <= i < |f.rows| && f.rows[i]["startDate"].Stamp?
      ensures AtOrBefore(Midnight(lo), f.rows[i]["startDate"].time)
    {
      assert column[i] == f.rows[i]["startDate"];
      AtOrBeforeTrans(Midnight(lo), m, f.rows[i]["startDate"].time);
    }
  }

  /** The default last day is the day of the latest end: every end falls on
      or before it, and it is the day of some row's end. */
  lemma DefaultEndSpec(f: Frame, hi: Date)
    requires Loaded(f) && DefaultEnd(f) == Some(hi)
    ensures exists i :: 0 <= i < |f.rows| && f.rows[i]["endDate"].Stamp? && f.rows[i]["endDate"].time.date == hi
    ensures forall i :: 0 <= i < |f.rows| && f.rows[i]["endDate"].Stamp? ==>
              DayAtOrBefore(f.rows[i]["endDate"].time.date, hi)
  {
    var column := Column(f.rows, "endDate");
    var m := MaxStamp(column).value;
    MaxStampGreatest(column);
    var k :| 0 <= k < |column| && column[k] == Stamp(m);
    forall i | 0 <= i < |f.rows| && f.rows[i]["endDate"].Stamp?
      ensures DayAtOrBefore(f.rows[i]["endDate"].time.date, hi)
    {
      assert column[i] == f.rows[i]["endDate"];
      AtOrBeforeDay(f.rows[i]["endDate"].time, m);
    }
  }

  // ---------------------------------------------------------------------
  // The callback's filter

  /** The value of one checkbox: None before it is first touched, else the
      checked options. */
  function Chosen(o: Option<seq<Cell>>): seq<Cell>
  {
    if o.Some? then o.value else []
  }

  /** `[item for sublist in args[:-2] if sublist for item in sublist]`: the
      checked items of all checkboxes, in checkbox order, repeats kept. */
  function Selected(selections: seq<Option<seq<Cell>>>): seq<Cell>
    decreases |selections|
  {
    if selections == [] then [] else Chosen(selections[0]) + Selected(selections[1..])
  }

  /** Flattening distributes over the checkboxes: the items of a longer list
      of checkboxes come after those of a shorter one. */
  lemma {:induction false} SelectedAppend(a: seq<Option<seq<Cell>>>, b: seq<Option<seq<Cell>>>)
    ensures Selected(a + b) == Selected(a) + Selected(b)
    decreases |a|
  {
    if a == [] {
      assert a + b == b;
    } else {
      assert (a + b)[0] == a[0] && (a + b)[1..] == a[1..] + b;
      SelectedAppend(a[1..], b);
      assert Selected(a + b) == Chosen(a[0]) + (Selected(a[1..]) + Selected(b));
    }
  }

  /** An item is selected exactly when some checkbox has it checked. */
  lemma {:induction false} SelectedMembers(selections: seq<Option<seq<Cell>>>)
    ensures forall x :: x in Selected(selections) <==>
              exists i :: 0 <= i < |selections| && selections[i].Some? && x in selections[i].value
    decreases |selections|
  {
    if selections != [] {
      SelectedMembers(selections[1..]);
      forall x | x in Selected(selections)
        ensures exists i :: 0 <= i < |selections| && selections[i].Some? && x in selections[i].value
      {
        if x !in Chosen(selections[0]) {
          assert x in Selected(selections[1..]);
          var j :| 0 <= j < |selections[1..]| && selections[1..][j].Some? && x in selections[1..][j].value;
          assert selections[j + 1] == selections[1..][j];
        }
      }
      forall x, i | 0 <= i < |selections| && selections[i].Some? && x in selections[i].value
        ensures x in Selected(selections)
      {
        if i > 0 {
          assert selections[1..][i - 1] == selections[i];
        }
      }
    }
  }

  /** Nothing is selected exactly when every checkbox is untouched or empty. */
  lemma SelectedEmpty(selections: seq<Option<seq<Cell>>>)
    ensures Selected(selections) == [] <==> forall i :: 0 <= i < |selections| ==> Chosen(selections[i]) == []
  {
    SelectedMembers(selections);
    if Selected(selections) != [] {
      var x := Selected(selections)[0];
      assert x in Selected(selections);
    }
  }

  /** `filtered_df['type'].isin(selected_items)` for one row. */
  predicate TypeMatches(selected: seq<Cell>, r: Row) {
    "type" in r && r["type"] in selected
  }

  /** Python's truthiness of a picker value: given and not empty. */
  predicate Given(o: Option<string>) {
    o.Some? && o.value != ""
  }

  /** `datetime.strptime(text, '%Y-%m-%d')`, or the ValueError it raises. */
  function ParsePickerDate(text: string): (r: Result<Date, DashError>)
    ensures r.Success? <==> ParseDay(text).Some?
    ensures r.Success? ==> r.value == ParseDay(text).value
    ensures r.Failure? ==> r.error == BadDate(text)
  {
    match ParseDay(text)
    case Some(d) => Success(d)
    case None => Failure(BadDate(text))
  }

  /** The date mask for one row: the start at or after the first day's
      midnight, and the end at or before the last day's midnight; NaT
      compares false.  With `wholeLastDay` the end may fall anywhere on the
      last day instead (the bound the picker evidently means). */
  predicate InRange(lo: Date, hi: Date, wholeLastDay: bool, r: Row) {
    && "startDate" in r && r["startDate"].Stamp?
    && AtOrBefore(Midnight(lo), r["startDate"].time)
    && "endDate" in r && r["endDate"].Stamp?
    && (if wholeLastDay then DayAtOrBefore(r["endDate"].time.date, hi)
        else AtOrBefore(r["endDate"].time, Midnight(hi)))
  }

  /** The rows the callback keeps: the type filter when something is
      selected, then the date filter when both picker dates are given. */
  function FilterRows(f: Frame, selections: seq<Option<seq<Cell>>>, startText: Option<string>,
                      endText: Option<string>, wholeLastDay: bool): Result<seq<Row>, DashError>
  {
    var selected := Selected(selections);
    var byType := if selected != [] then Filter(f.rows, r => TypeMatches(selected, r)) else f.rows;
    if Given(startText) && Given(endText) then
      var lo :- ParsePickerDate(startText.value);
      var hi :- ParsePickerDate(endText.value);
      Success(Filter(byType, r => InRange(lo, hi, wholeLastDay, r)))
    else Success(byType)
  }

  /** The table data `update_output` returns, as the source compares dates. */
  function UpdateOutput(f: Frame, selections: seq<Option<seq<Cell>>>, startText: Option<string>,
                        endText: Option<string>): Result<seq<Row>, DashError>
  {
    FilterRows(f, selections, startText, endText, false)
  }

  /** The same with the last picker day included in full. */
  function UpdateOutputWholeLastDay(f: Frame, selections: seq<Option<seq<Cell>>>, startText: Option<string>,
                                    endText: Option<string>): Result<seq<Row>, DashError>
  {
    FilterRows(f, selections, startText, endText, true)
  }

  /** The callback fails exactly when both dates are given and one of them
      is not a "YYYY-MM-DD" date, and then names the first bad one. */
  lemma FilterRowsFails(f: Frame, selections: seq<Option<seq<Cell>>>, startText: Option<string>,
                        endText: Option<string>, wholeLastDay: bool)
    ensures var r := FilterRows(f, selections, startText, endText, wholeLastDay);
      && (r.Failure? <==> Given(startText) && Given(endText)
                          && (ParseDay(startText.value).None? || ParseDay(endText.value).None?))
      && (r.Failure? ==> r.error == BadDate(if ParseDay(startText.value).None? then startText.value else endText.value))
  {
  }

  /** Filtering only drops rows: the result keeps the sheet's order, and the
      sheet itself is left as it was (the callback works on a copy). */
  lemma FilterRowsSubsequence(f: Frame, selections: seq<Option<seq<Cell>>>, startText: Option<string>,
                              endText: Option<string>, wholeLastDay: bool)
    requires FilterRows(f, selections, startText, endText, wholeLastDay).Success?
    ensures IsSubsequence(FilterRows(f, selections, startText, endText, wholeLastDay).value, f.rows)
  {
    var selected := Selected(selections);
    var byType := if selected != [] then Filter(f.rows, r => TypeMatches(selected, r)) else f.rows;
    if selected != [] {
      FilterSubsequence(f.rows, r => TypeMatches(selected, r));
    } else {
      SubsequenceRefl(f.rows);
    }
    if Given(startText) && Given(endText) {
      var lo := ParseDay(startText.value).value;
      var hi := ParseDay(endText.value).value;
      var p := r => InRange(lo, hi, wholeLastDay, r);
      FilterSubsequence(byType, p);
      SubsequenceTrans(Filter(byType, p), byType, f.rows);
    }
  }

  /** A row is kept exactly when it is in the sheet, matches the selection
      (or nothing is selected), and lies in the picked range (or a picker
      date is missing). */
  lemma FilterRowsMembers(f: Frame, selections: seq<Option<seq<Cell>>>, startText: Option<string>,
                          endText: Option<string>, wholeLastDay: bool)
    requires FilterRows(f, selections, startText, endText, wholeLastDay).Success?
    ensures var selected := Selected(selections);
      forall r :: r in FilterRows(f, selections, startText, endText, wholeLastDay).value <==>
        && r in f.rows
        && (selected == [] || TypeMatches(selected, r))
        && (Given(startText) && Given(endText) ==>
              InRange(ParseDay(startText.value).value, ParseDay(endText.value).value, wholeLastDay, r))
  {
    var selected := Selected(selections);
    var byType := if selected != [] then Filter(f.rows, r => TypeMatches(selected, r)) else f.rows;
    if selected != [] {
      FilterMembers(f.rows, r => TypeMatches(selected, r));
    }
    if Given(startText) && Given(endText) {
      var lo := ParseDay(startText.value).value;
      var hi := ParseDay(endText.value).value;
      FilterMembers(byType, r => InRange(lo, hi, wholeLastDay, r));
    }
  }

  /** With nothing selected and a picker date missing, the whole sheet is
      returned unchanged. */
  lemma FilterRowsNoFilter(f: Frame, selections: seq<Option<seq<Cell>>>, startText: Option<string>,
                           endText: Option<string>, wholeLastDay: bool)
    requires forall i :: 0 <= i < |selections| ==> Chosen(selections[i]) == []
    requires !Given(startText) || !Given(endText)
    ensures FilterRows(f, selections, startText, endText, wholeLastDay) == Success(f.rows)
  {
    SelectedEmpty(selections);
  }

  /** Picking the days lo and hi in the date picker filters by exactly
      that range. */
  lemma PickedRange(f: Frame, selections: seq<Option<seq<Cell>>>, lo: Date, hi: Date, wholeLastDay: bool)
    requires ValidDate(lo) && ValidDate(hi)
    ensures FilterRows(f, selections, Some(DateText(lo)), Some(DateText(hi)), wholeLastDay).Success?
    ensures var selected := Selected(selections);
      forall r :: r in FilterRows(f, selections, Some(DateText(lo)), Some(DateText(hi)), wholeLastDay).value <==>
        r in f.rows && (selected == [] || TypeMatches(selected, r)) && InRange(lo, hi, wholeLastDay, r)
  {
    ParseDateText(lo);
    ParseDateText(hi);
    assert DateText(lo) != "" && DateText(hi) != "";
    FilterRowsMembers(f, selections, Some(DateText(lo)), Some(DateText(hi)), wholeLastDay);
  }

  /** As written, the last picker day ends at its midnight: with the default
      range, the row holding the latest end is dropped whenever that end is
      later than midnight of its day. */
  lemma DefaultRangeDropsLatestEnd(f: Frame, lo: Date, hi: Date, selections: seq<Option<seq<Cell>>>, i: nat)
    requires Loaded(f) && DefaultStart(f) == Some(lo) && DefaultEnd(f) == Some(hi)
    requires i < |f.rows| && f.rows[i]["endDate"] == Stamp(MaxStamp(Column(f.rows, "endDate")).value)
    requires f.rows[i]["endDate"].time != Midnight(hi)
    ensures UpdateOutput(f, selections, Some(DateText(lo)), Some(DateText(hi))).Success?
    ensures f.rows[i] !in UpdateOutput(f, selections, Some(DateText(lo)), Some(DateText(hi))).value
  {
    PickedRange(f, selections, lo, hi, false);
    var e := f.rows[i]["endDate"].time;
    AfterMidnight(e);
  }

  /** With the whole last day included, the default range keeps every row
      that has both a start and an end: filtering by the defaults only
      applies the type selection. */
  lemma DefaultRangeKeepsAll(f: Frame, lo: Date, hi: Date, selections: seq<Option<seq<Cell>>>)
    requires Loaded(f) && DefaultStart(f) == Some(lo) && DefaultEnd(f) == Some(hi)
    ensures UpdateOutputWholeLastDay(f, selections, Some(DateText(lo)), Some(DateText(hi))).Success?
    ensures var selected := Selected(selections);
      forall i :: 0 <= i < |f.rows| && f.rows[i]["startDate"].Stamp? && f.rows[i]["endDate"].Stamp? ==>
        (f.rows[i] in UpdateOutputWholeLastDay(f, selections, Some(DateText(lo)), Some(DateText(hi))).value
         <==> selected == [] || TypeMatches(selected, f.rows[i]))
  {
    PickedRange(f, selections, lo, hi, true);
    forall i | 0 <= i < |f.rows| && f.rows[i]["startDate"].Stamp? && f.rows[i]["endDate"].Stamp?
      ensures InRange(lo, hi, true, f.rows[i])
    {
      DefaultRangeInRange(f, lo, hi, i);
    }
  }

  /** Every row with a start and an end lies in the default range once the
      last day counts in full. */
  lemma DefaultRangeInRange(f: Frame, lo: Date, hi: Date, i: nat)
    requires Loaded(f) && DefaultStart(f) == Some(lo) && DefaultEnd(f) == Some(hi)
    requires i < |f.rows| && f.rows[i]["startDate"].Stamp? && f.rows[i]["endDate"].Stamp?
    ensures InRange(lo, hi, true, f.rows[i])
  {
    DefaultStartSpec(f, lo);
    DefaultEndSpec(f, hi);
  }
}
