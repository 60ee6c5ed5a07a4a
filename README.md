# Apple Health export to table, and the dashboard filter

This project models, in Dafny, the data side of a small tool that converts an
Apple Health XML export into a flat table and shows it in a dashboard.

**The pipeline.** `xml_to_excel` in `Source/preprocessing.py` does the following:
- It takes every `Record` element of the document.
- It merges the record's attributes with the `value` attributes of its `MetadataEntry`
  descendants, under the synthetic keys `Metadata_0`, `Metadata_1`, …
- It selects the five required columns plus every metadata column.
- It turns numeric `value` text into numbers.
- It strips the `HKQuantityTypeIdentifier` and `HKCategoryTypeIdentifier` prefixes from `type`.
- It parses `startDate` and `endDate` as wall-clock timestamps, dropping the UTC offset.
- It adds eight calendar columns per timestamp:
  - year, month, month name;
  - day, day name;
  - date, hour, minute.
- It drops duplicate rows, keeping the first.

The file defines the function twice. The second definition is the one that runs (`Preprocessing`).
The first is modelled as a variant (`LegacyPreprocessing`). It checks the required columns explicitly and raises `ValueError` instead of `KeyError`, under the same condition, and it uses a different numeric test.

**The dashboard.** `Source/main.py` builds:
- the checkbox list of distinct record types;
- the default range of the date picker;
- the row filter that the `update_output` callback applies (`Dashboard`).

**Inputs as parameters.** The parsed document is a parameter, and so is the loaded sheet.
The checkbox values and the picker texts that the browser sends are parameters too.

**Modules:**
- `Wrappers`: Option and Result.
- `Digits`: digit strings and numbers.
- `ElementTree`: elements, `get`, `findall('.//tag')`.
- `Extraction`: flat rows and metadata columns.
- `Numbers`: the decimal subset of `float()`, and the first variant's numeric test.
- `TypeLabels`: `str.replace` and prefix stripping.
- `Calendar`: the proleptic Gregorian calendar, day names, month names.
- `Timestamps`: timestamp parsing, time order, `strptime('%Y-%m-%d')`.
- `Sequences`: `drop_duplicates`, boolean-mask filtering, subsequences.
- `Preprocessing` and `PreprocessingProperties`: the effective pipeline and what it guarantees.
- `LegacyPreprocessing`: the first variant.
- `Dashboard`: the dashboard's data side.

Where the source loops, the model does too. There are three such methods:
- `Extraction.ExtractRows`: the record loop.
- `Preprocessing.AddDerivedColumns`: the derived-column loops.
- `LegacyPreprocessing.CollectAttributes`.

Each one is proved equal to a specification function, and the properties are proved about those functions.

**Behaviour the model keeps exactly as the code has it:**
- Only a `None` filename raises. An empty string gets through the checks at `Source/preprocessing.py:123-126`.
- Stripping type prefixes is not idempotent. `TypeLabels.StripNotIdempotent` exhibits an input where a second pass changes the label.
- The dashboard appears meant to keep the rows whose dates lie within the picked days. Its date filter instead stops at midnight at the start of the last picked day (see Findings).

## Model

| member | source | states |
|---|---|---|
| ElementTree.FindAllSpec | Source/preprocessing.py:142-150 | `findall('.//tag')` finds exactly the descendants with that tag, never the start element |
| ElementTree.WithTagMembers | Source/preprocessing.py:142-150 | selecting by tag keeps exactly the elements with that tag |
| Extraction.MetadataValues | Source/preprocessing.py:151 | the metadata map has exactly the keys `Metadata_0`… `Metadata_{n-1}`; key i holds entry i's `value` attribute or None |
| Extraction.MetaKeyInjective | Source/preprocessing.py:151 | distinct entry positions get distinct `Metadata_i` names |
| Extraction.FlattenSpec | Source/preprocessing.py:157-158 | a flat row has the record's attributes plus the metadata keys; metadata overrides a same-named attribute; every other attribute keeps its value |
| Extraction.MaxEntries | Source/preprocessing.py:154 | the result bounds every record's entry count and equals one of them (0 with no records) |
| Extraction.ExtractRows | Source/preprocessing.py:142-160 | the extraction loop yields exactly the flat rows and the metadata-column set that the specification functions define |
| Extraction.MetadataColumnsIsUnion | Source/preprocessing.py:154 | the accumulated metadata columns are exactly the union of every row's metadata keys |
| Extraction.MetadataColumnsGrow | Source/preprocessing.py:154 | processing more records never removes a metadata column |
| PreprocessingProperties.MetadataColumnsPresent | Source/preprocessing.py:154-172 | every metadata column is a key of some flat row, so selecting it never fails |
| PreprocessingProperties.SelectedCells | Source/preprocessing.py:172 | each selected cell is the record's text for that column, or null |
| Numbers.ParseDecimal | Source/preprocessing.py:175-179 | a successful `float()` reading is a canonical decimal |
| Numbers.RenderParse | Source/preprocessing.py:175-179 | reading back a written decimal gives the same decimal |
| Numbers.CanonicalUnique | Source/preprocessing.py:208 | canonical decimals are equal exactly when they denote the same number, so equality of cells is equality of numbers |
| Numbers.NormalizeSameValue | Source/preprocessing.py:177 | normalising keeps the number a decimal denotes |
| Numbers.Normalize | Source/preprocessing.py:177 | normalising gives the canonical form and keeps the sign |
| Numbers.ParseDotted | Source/preprocessing.py:177 | digits, a point and digits read as the number they spell |
| Numbers.ParseNegated | Source/preprocessing.py:177 | a leading minus negates the number the rest denotes |
| Numbers.IndexOf | Source/preprocessing.py:63 | the result is the first position of the character, or None exactly when it does not occur |
| Numbers.RemoveFirstDot | Source/preprocessing.py:63 | `replace('.', '', 1)` deletes exactly the first '.', keeping the text before and after it, and leaves a text without a point unchanged |
| Numbers.LegacyNumericParses | Source/preprocessing.py:62-69 | for ASCII digit text, every text that passes the first variant's test is accepted by `float`, so its `except ValueError` branch is never taken |
| Numbers.DottedNumeric | Source/preprocessing.py:63 | digits, one point and digits (not all empty) pass the first variant's test |
| Numbers.NoDotNotNumeric | Source/preprocessing.py:63 | without a point, a single non-digit makes the test fail |
| Numbers.LegacyNumericAccepts | Source/preprocessing.py:63 | "12.5" and ".5" pass the test |
| Numbers.LegacyNumericRejects | Source/preprocessing.py:62-69 | "-5", "1e3", "1.2.3" and "" fail the test, although `float` reads "-5" |
| Preprocessing.CoerceValue | Source/preprocessing.py:175-179 | a cell changes only when it is text that `float` reads, and then it becomes that number; text becomes a number exactly when `float` reads it |
| Preprocessing.CoerceRendered | Source/preprocessing.py:175-179 | a written decimal is coerced back to that number |
| TypeLabels.RemoveAll | Source/preprocessing.py:187 | `str.replace(pat, '')` never lengthens the text |
| TypeLabels.RemoveAllAbsent | Source/preprocessing.py:187 | replacing a pattern that does not occur changes nothing |
| TypeLabels.RemoveAllFront | Source/preprocessing.py:187 | a leading occurrence is removed and scanning resumes after it |
| TypeLabels.RemoveAllSkip | Source/preprocessing.py:187 | a prefix free of the pattern's first character is kept unchanged |
| TypeLabels.StripTypePrefixes | Source/preprocessing.py:187 | stripping never lengthens a label |
| TypeLabels.StripWithoutPrefixes | Source/preprocessing.py:187 | a label without either prefix is unchanged |
| TypeLabels.StripIdentifier | Source/preprocessing.py:187 | an identifier made of a prefix and a prefix-free name strips to that name, and stripping it again changes nothing |
| TypeLabels.StripStepCount | Source/preprocessing.py:187 | "HKQuantityTypeIdentifierStepCount" strips to "StepCount" |
| TypeLabels.StripNotIdempotent | Source/preprocessing.py:187 | a label with one prefix nested inside the other strips to a prefix, which a second pass strips to "" |
| Preprocessing.StripTypes | Source/preprocessing.py:186-187 | the column step fails exactly when some `type` cell is null; otherwise every row's `type` is stripped and nothing else changes |
| Timestamps.ParseTimestamp | Source/preprocessing.py:190-193 | a successful reading is a valid wall-clock time |
| Timestamps.ParseLayout | Source/preprocessing.py:190-193 | each written timestamp is read back as that time, whatever the separator and offset; the offset is dropped |
| Timestamps.Field | Source/preprocessing.py:190-193 | a numeric field read from w digits is below 10^w |
| Preprocessing.ParseDateCell | Source/preprocessing.py:190-193 | null becomes NaT; text succeeds exactly when it is a readable timestamp, and then gives that timestamp; any other cell fails; a success is NaT or a valid time |
| Preprocessing.ParseDates | Source/preprocessing.py:190-193 | the column step fails exactly when some cell is unreadable; otherwise only that column changes |
| Preprocessing.MapColumn | Source/preprocessing.py:183-193 | applying a cell function to a column fails exactly when it fails on some row, with that row's error; otherwise only that column changes |
| Calendar.DaysInMonth | Source/preprocessing.py:200-205 | months have 28 to 31 days; February has 29 exactly in leap years |
| Calendar.DaysInYear | Source/preprocessing.py:200-205 | a year's months add up to 365 days, or 366 in a leap year |
| Calendar.DaysBeforeNextYear | Source/preprocessing.py:200-205 | the year offset of the ordinal advances by the length of the year |
| Calendar.OrdinalNextDay | Source/preprocessing.py:200-205 | the day ordinal of the next day is one more |
| Calendar.WeekdayNextDay | Source/preprocessing.py:200-205 | the weekday advances by one, modulo 7, from each day to the next |
| Calendar.WeekdayExamples | Source/preprocessing.py:200-205 | 2024-01-01 is a Monday, 2000-02-29 a Tuesday, and 1900-02-29 does not exist |
| Calendar.NextDay | Source/preprocessing.py:200-205 | the day after a valid date is valid |
| Preprocessing.DerivedField | Source/preprocessing.py:200-205 | each of the eight derived fields of a time is its year, month, month name, day, day name, date, hour or minute, each within its range; NaT gives null |
| Preprocessing.DerivedCells | Source/preprocessing.py:200-205 | the derived cells have exactly the given column names |
| Preprocessing.WithDerivedStep | Source/preprocessing.py:200-201 | each loop pass adds one derived column computed from the source column |
| Preprocessing.WithDerivedKeys | Source/preprocessing.py:199-205 | after n passes each row has its old columns plus the first n derived names |
| Preprocessing.AddDerivedColumns | Source/preprocessing.py:199-205 | the derived-column loop builds exactly the table the specification function defines |
| PreprocessingProperties.DerivedCellsAt | Source/preprocessing.py:200-205 | derived column k holds derived field k of the source time |
| PreprocessingProperties.TwoStageLookup | Source/preprocessing.py:199-205 | after both loops, each start field and each end field comes from its own timestamp, and the timestamps are unchanged |
| PreprocessingProperties.EnrichedColumns | Source/preprocessing.py:199-205 | enrichment keeps one row per row and adds exactly the sixteen calendar columns |
| PreprocessingProperties.EnrichedRowConsistent | Source/preprocessing.py:199-205 | in every enriched row, the calendar columns agree with the row's start and end times |
| PreprocessingProperties.EnrichedTableOf | Source/preprocessing.py:199-205 | enriching a table of parsed timestamps gives the output columns and calendar-consistent rows |
| PreprocessingProperties.OutputColumns | Source/preprocessing.py:196-205 | the output columns include the selected ones and all sixteen derived names |
| PreprocessingProperties.CalendarBounds | Source/preprocessing.py:200-205 | the derived year, month, day, hour and minute of a consistent row are within their ranges |
| Preprocessing.ConvertRest | Source/preprocessing.py:186-193 | the type and timestamp steps keep the row count and the columns |
| Preprocessing.ConvertColumns | Source/preprocessing.py:182-193 | the column conversions keep the row count and the columns |
| PreprocessingProperties.ConvertRestSucceeds | Source/preprocessing.py:186-193 | the type and timestamp steps succeed exactly when every type is text and every start and end is readable |
| PreprocessingProperties.DatesSucceed | Source/preprocessing.py:190-193 | both timestamp steps succeed exactly when every start and end cell is readable |
| PreprocessingProperties.ConvertRestCells | Source/preprocessing.py:186-193 | after the type and timestamp steps, each converted cell is its conversion and every other cell is unchanged |
| PreprocessingProperties.ConvertSucceeds | Source/preprocessing.py:182-193 | the column conversions succeed exactly when every type is text and every timestamp is readable |
| PreprocessingProperties.ConvertCells | Source/preprocessing.py:182-193 | each converted cell is its conversion of the original, and every other cell is unchanged |
| Preprocessing.Normalize | Source/preprocessing.py:163-193 | a normalised table has one row per record and exactly the selected columns |
| PreprocessingProperties.NormalizeMissingColumns | Source/preprocessing.py:166-172 | a frame lacking a required column fails with exactly the missing ones |
| PreprocessingProperties.NormalizeSucceeds | Source/preprocessing.py:163-193 | normalisation succeeds exactly when the required columns exist, every type is text and every timestamp is readable |
| PreprocessingProperties.NormalizeCells | Source/preprocessing.py:172-193 | each normalised cell is the conversion of the record's text for that column |
| PreprocessingProperties.NormalizeCarries | Source/preprocessing.py:172 | unconverted columns (unit, metadata) carry the record's text or null |
| PreprocessingProperties.NormalizeTimestamps | Source/preprocessing.py:190-193 | after normalisation every start and end cell is NaT or a valid time |
| Sequences.DropDuplicatesSpec | Source/preprocessing.py:208 | `drop_duplicates()` leaves no duplicates, keeps every distinct row, and keeps the original order |
| Sequences.DropDuplicatesFromSpec | Source/preprocessing.py:208 | scanning with a set of seen rows keeps exactly the unseen rows, once each, in order |
| Sequences.DropDuplicatesSnoc | Source/preprocessing.py:208 | a row is kept exactly when no equal row comes before it (first occurrence wins) |
| Sequences.DropDuplicatesIdempotent | Source/preprocessing.py:208 | deduplicating twice equals deduplicating once |
| Sequences.DropDuplicatesFromDistinct | Source/preprocessing.py:208 | a duplicate-free sequence is left unchanged |
| PreprocessingProperties.EnrichedTable | Source/preprocessing.py:163-205 | the enriched table has one row per record, the output columns, and calendar-consistent rows |
| PreprocessingProperties.TransformSucceeds | Source/preprocessing.py:163-208 | the pipeline after extraction succeeds exactly when the sheet is loadable, and fails with the missing columns otherwise |
| PreprocessingProperties.TransformResult | Source/preprocessing.py:163-208 | the output has no duplicate rows and is an order-preserving selection containing every enriched row; each row has the output columns and consistent calendar fields |
| Preprocessing.XmlToExcel | Source/preprocessing.py:121-208 | the imperative pipeline computes exactly the specification function |
| PreprocessingProperties.XmlToExcelFilenames | Source/preprocessing.py:123-126 | a None input filename raises first, then a None output filename; otherwise the names do not matter |
| PreprocessingProperties.XmlToExcelSucceeds | Source/preprocessing.py:121-208 | the conversion succeeds exactly when the records are loadable, and names the missing required columns otherwise |
| PreprocessingProperties.XmlToExcelResult | Source/preprocessing.py:121-208 | a successful conversion has one enriched row per record before deduplication, no duplicates, the original order, and consistent calendar fields |
| LegacyPreprocessing.CollectAttributes | Source/preprocessing.py:40-45 | the legacy record loop yields one row per record, in document order, each holding exactly that record's attributes and no other key |
| LegacyPreprocessing.LegacyNormalize | Source/preprocessing.py:48-80 | a legacy success has one row per record and exactly the five required columns |
| LegacyPreprocessing.LegacyMissingColumns | Source/preprocessing.py:51-53 | a frame without the required columns fails with the missing ones |
| LegacyPreprocessing.LegacySelected | Source/preprocessing.py:48-55 | with the required columns present, the frame is not empty, selecting them succeeds, and the legacy pipeline converts that selection |
| LegacyPreprocessing.TransferColumn | Source/preprocessing.py:55 | a property holds of a column of the selected table exactly when it holds of the flat rows' cells |
| LegacyPreprocessing.LegacyCoerce | Source/preprocessing.py:62-69 | a cell fails exactly when it is not text (no `replace`); it becomes a number only when it passes the test and `float` reads it, and stays as it was otherwise |
| LegacyPreprocessing.LegacyCoerceValues | Source/preprocessing.py:58-72 | the value step fails exactly when every value is a digit string (turned into floats first) or some value is not text; otherwise each value is coerced |
| LegacyPreprocessing.LegacyValuesSucceed | Source/preprocessing.py:58-72 | the value step succeeds exactly when all values are text and not all of them are digit strings; then type and timestamps are untouched |
| LegacyPreprocessing.LegacyConvert | Source/preprocessing.py:58-80 | the legacy conversions keep the row count and the required columns |
| LegacyPreprocessing.LegacyConvertSucceeds | Source/preprocessing.py:58-80 | the legacy conversions succeed exactly when values, types and timestamps are usable and the values are not all digit strings |
| LegacyPreprocessing.LegacyConvertDigits | Source/preprocessing.py:58-72 | a non-empty table whose values are all digit strings fails with the value error |
| LegacyPreprocessing.SelectedDigits | Source/preprocessing.py:55-58 | selecting columns keeps the all-digit property of the value column |
| LegacyPreprocessing.LegacyDigitsFail | Source/preprocessing.py:51-72 | records whose values are all digit strings make the first variant fail |
| LegacyPreprocessing.LegacyCoerceRefined | Source/preprocessing.py:62-69 | on text, the first variant's coercion agrees with the effective one whenever either yields a number, and otherwise keeps the text |
| LegacyPreprocessing.LegacyKeepsSignedText | Source/preprocessing.py:62-69 | "-5" stays text in the first variant but becomes -5 in the effective one |
| LegacyPreprocessing.DigitsAreNumeric | Source/preprocessing.py:58-63 | every digit string passes the first variant's test and is read by `float` |
| LegacyPreprocessing.CoerceDigits | Source/preprocessing.py:175-183 | the effective coercion turns a column of digit strings into the numbers they spell |
| LegacyPreprocessing.LegacyXmlToExcel | Source/preprocessing.py:19-93 | the legacy imperative pipeline computes exactly its specification function |
| Dashboard.TypeListSpec | Source/main.py:21-28 | the checkbox list fails exactly without a `type` column; otherwise it has no repeats, holds exactly the non-null types, and is a subsequence of the type column |
| Dashboard.TypeListSnoc | Source/main.py:21-28 | one more row appends its type to the checkbox list exactly when the type is non-null and new, and otherwise leaves the list unchanged, so the list is in order of first appearance |
| Sequences.FilterSnoc | Source/main.py:26 | filtering one more element appends it exactly when it passes the mask |
| Dashboard.DisplaySpec | Source/main.py:22 | the shown table fails exactly when a shown column is missing, naming the missing ones; otherwise each row keeps exactly the six columns with their cells |
| Dashboard.LoadedStarts | Source/main.py:19-28 | a loaded sheet gets its checkbox list and its table |
| Dashboard.MinStamp | Source/main.py:55 | the minimum is NaT exactly when the column has no timestamp, and is otherwise one of its timestamps |
| Dashboard.MinStampLeast | Source/main.py:55 | the minimum is at or before every timestamp of the column |
| Dashboard.MaxStamp | Source/main.py:56 | the maximum is NaT exactly when the column has no timestamp, and is otherwise one of its timestamps |
| Dashboard.MaxStampGreatest | Source/main.py:56 | the maximum is at or after every timestamp of the column |
| Dashboard.DefaultStartSpec | Source/main.py:55 | the default first day is the day of some row's start, and every start is at or after its midnight |
| Dashboard.DefaultEndSpec | Source/main.py:56 | the default last day is the day of some row's end, and every end falls on or before that day |
| Dashboard.SelectedAppend | Source/main.py:112 | flattening the checkboxes distributes over concatenation, so items come in checkbox order with repeats kept |
| Dashboard.SelectedMembers | Source/main.py:112 | an item is selected exactly when some checkbox has it checked |
| Dashboard.SelectedEmpty | Source/main.py:112-118 | nothing is selected exactly when every checkbox is untouched or empty |
| Timestamps.ParseDay | Source/main.py:121-122 | an accepted picker date is a valid date |
| Timestamps.ParseDateText | Source/main.py:121-122 | the picker's text for a date is read back as that date |
| Timestamps.AtOrBeforeTotal | Source/main.py:124-125 | any two times are ordered one way or the other, and only equal times are ordered both ways |
| Timestamps.AtOrBeforeTrans | Source/main.py:124-125 | time order is transitive |
| Timestamps.MidnightBefore | Source/main.py:121-124 | a time is at or after midnight of its own day |
| Timestamps.AfterMidnight | Source/main.py:122-125 | a time later than midnight of its day is not at or before that midnight |
| Timestamps.AtOrBeforeDay | Source/main.py:124-125 | a time at or before another falls on the same day or an earlier one |
| Dashboard.FilterRowsFails | Source/main.py:120-122 | the callback fails exactly when both dates are given and one is not a padded date, and names the first bad one |
| Dashboard.FilterRowsSubsequence | Source/main.py:117-126 | the filtered rows are a subsequence of the sheet, in the sheet's order |
| Dashboard.FilterRowsMembers | Source/main.py:117-126 | a row is kept exactly when it is in the sheet, matches the selection (if any), and lies in the picked range (if both dates are given) |
| Dashboard.FilterRowsNoFilter | Source/main.py:117-120 | with nothing selected and a date missing, the whole sheet comes back unchanged |
| Dashboard.PickedRange | Source/main.py:120-126 | picking days lo and hi keeps exactly the selected rows that start at or after lo's midnight and end within the bound for hi |
| Dashboard.DefaultRangeDropsLatestEnd | Source/main.py:120-126 | with the default range, the row holding the latest end is dropped whenever that end is after midnight of its day |
| Dashboard.DefaultRangeKeepsAll | Source/main.py:120-126 | with the whole last day counted, the default range keeps every row that has both times, so only the type selection applies |
| Dashboard.DefaultRangeInRange | Source/main.py:120-126 | every row with both times lies in the default range once the last day counts in full |

## Left out

- File access, ET parsing and writing are not modelled. The model starts from an element tree and ends at the table.
  - `os.path.getsize` and `ET.parse` at `Source/preprocessing.py:27-37` and `129-139`.
  - `to_excel` at `Source/preprocessing.py:96` and `211`.
  - `read_excel` at `Source/main.py:18`.
  - The timing and size prints at `Source/preprocessing.py:27-33`, `97-104`, `130-135` and `212-219`.
  - The module-level calls at `Source/preprocessing.py:107` and `222`.
- XML lexing itself is not modelled.
- The Excel round trip between the two programs is not modelled. `Dashboard.Loaded` assumes the sheet comes back as written: uniform rows, with `pd.to_datetime` (`Source/main.py:19-20`) leaving timestamps or NaT.
- The Dash layout, the checkbox components, callback wiring, the Plotly figure and its trace loop, and the server run (`Source/main.py:7-15`, `30-110`, `128-156`) are UI glue and are not modelled.
- The browser's serialisation of the picker's default dates is not modelled. The lemmas assume the text is the zero-padded "YYYY-MM-DD" form (`Timestamps.DateText`).
- `Numbers.ParseDecimal` models only a decimal subset of `float()`:
  - an optional sign, digits, and at most one point;
  - no exponents, inf/nan, whitespace, underscores or non-ASCII digits;
  - values are exact decimals, not IEEE-754 doubles, so rounding and -0.0 are not modelled.
- `Timestamps.ParseTimestamp` reads one fixed layout rather than pandas' format inference:
  - "YYYY-MM-DD HH:MM:SS" or "YYYY-MM-DDTHH:MM:SS", then nothing, "Z", or a numeric offset with an optional space;
  - mixed offsets within one column and the nanosecond range limits are not modelled.
- `Timestamps.ParseDay` accepts only zero-padded dates. `strptime` also accepts "2024-1-1".
- `Digits.AllDigits` is ASCII only. `str.isdigit` also accepts other Unicode digits.
- Column order from `list(set)` depends on string hashing, so columns are a set.
- `astype('category')` only changes the representation and is not modelled.
- Python's `KeyError` and `ValueError` for missing columns are both modelled as `MissingColumns`.
- `LegacyPreprocessing.LegacyConvertSucceeds`: the exact success condition of the first variant is stated for the selected table, not for the flat rows. For flat rows the model proves only the two failure paths: `LegacyMissingColumns` and `LegacyDigitsFail`.
- `Dashboard.TypeList`: `drop_duplicates('type')` runs on whole rows but is modelled on the `type` column alone. The resulting type column is the same.
- `Dashboard.TypeList`: the fallback to an empty list at `Source/main.py:27-28` is unreachable, because line 21 already raises without a `type` column. The model returns that error.

## Findings

| source | as written | input that shows it | evidently intended | confidence | as-written member | corrected member |
|---|---|---|---|---|---|---|
| Source/preprocessing.py:58-72 | when every value is a digit string, the column is turned into floats, and then `value.replace` is called on a float and raises | records whose `value` attributes are all digit strings, e.g. a single record with value "60" | digit strings become numbers like any other numeric text | not executed; high | LegacyPreprocessing.LegacyCoerceValues (shown by LegacyPreprocessing.LegacyDigitsFail) | Preprocessing.CoerceValues (shown by LegacyPreprocessing.CoerceDigits) |
| Source/main.py:120-126 | the end bound is midnight at the start of the last picked day, so records ending later that day are dropped, even with the default range | a sheet whose latest record ends at 2024-01-01 09:00; the default range is 2024-01-01 to 2024-01-01, and that record is filtered out | rows whose dates fall within the picked days, the last day included | not executed; medium | Dashboard.UpdateOutput (shown by Dashboard.DefaultRangeDropsLatestEnd) | Dashboard.UpdateOutputWholeLastDay (shown by Dashboard.DefaultRangeKeepsAll) |
