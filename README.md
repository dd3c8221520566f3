# GetExcelUtil4 — a Dafny model of the spreadsheet-to-entity reader

GetExcelUtil4 reads a table from an uploaded Excel workbook into a list of values.
A value is either a base-type value (String, Integer, Double, Object or Long), one per
row or column, or an entity whose declared fields are filled cell by cell.
Each field's annotations decide how its cell is checked:
`NotNull`, `ExcelDateFormat`, `ExcelNumberFormat` (with an optional `when` guard),
`ValueLimit` and, in 4.2 only, `Transform` and `DynamicRank`.
A table is read either horizontally (one entity per row) or vertically (one entity per
column). The reader stops at an end tag, may require a start tag in a cell comment, and
(4.2 only) can reject duplicate entries.

The project models two versions of the engine and the `FieldType` enum:

- **4.2 engine** (`4.2/getexcelutil/GetExcelUtil4.java`):
  - modules `Validation42`, `Scan42` and `Util42`;
  - readers that stop at an empty cell, row or column;
  - `Transform` rules, `DynamicRank` list fields and duplicate checks;
  - error messages that name columns by letters (`numberToAlphabet`, module `ColumnLabel`).
- **4.1 engine** (`getexcelutil/GetExcelUtil4.java`):
  - modules `Validation41`, `Scan41` and `Util41`;
  - readers that take a fixed window of `cellNum` cells per entity;
  - no emptiness exit;
  - `setField` runs every check that is present, in turn;
  - messages cite column numbers.
- **`FieldType`** (`getexcelutil/enums/FieldType.java`): module `FieldTypes`.

Shared modules model what both engines do alike:

- `Sheets`: cells, rows, sheets, comments, `getCellVal` and the emptiness tests;
- `Schema`: annotations, fields, records, settings and exceptions;
- `Guards`: parsing a `when` guard and finding the getter it names;
- `JavaText`: `String.trim`, `indexOf` and `contains`;
- `Workbooks`: `initialize`;
- `Duplicates`: the duplicate search;
- `Wrappers`: `Option` and `Result`.

Each exception the source throws is a `Failure` value of `Schema.Error`. A
`NullPointerException` is `NullPointer(site)`, so no operation requires more of its caller
than the source does. The only precondition is a sheet number of at least 1, because
`sheets[sheetNo - 1]` fails otherwise.

`GetExcelUtil4` is a class in both `Util41` and `Util42`. It holds the configuration fields
and the loaded sheets, and the setters update them in place. Each reader loop is a method.
Its postcondition ties the result to a function of the same inputs in `Scan41` or `Scan42`, and
lemmas state what those functions read: which rows, columns and cells; where each reader
stops; which errors it raises; and, with the duplicate check on, that the list it returns
holds no repeated entry.

The date and number routines of the Java library are a `Library` value passed as a
parameter. An upload is its file name, its detected format and its sheets.

## Model

| member | source | states |
|---|---|---|
| JavaText.Lead | 4.2/getexcelutil/GetExcelUtil4.java:743-744 | the number of leading characters trim() strips: every one of them is at most U+0020 and the next is not |
| JavaText.TrailEnd | 4.2/getexcelutil/GetExcelUtil4.java:743-744 | where trim() cuts the tail: every character after it is at most U+0020 and the one before it is not |
| JavaText.Trim | 4.2/getexcelutil/GetExcelUtil4.java:743-744 | the result of trim() has no strippable character at either end |
| JavaText.TrimMeaning | 4.2/getexcelutil/GetExcelUtil4.java:743-744 | trim() returns the middle of the string: only strippable characters are dropped, at the front and at the back |
| JavaText.TrimIdempotent | 4.2/getexcelutil/GetExcelUtil4.java:743-744 | trimming twice is trimming once |
| JavaText.TrimOfTrimmed | 4.2/getexcelutil/GetExcelUtil4.java:743-744 | a string with no strippable ends is returned unchanged |
| JavaText.IndexOfFrom | 4.2/getexcelutil/GetExcelUtil4.java:743-744 | indexOf from position i finds the first occurrence at or after i, and None means there is none |
| JavaText.ContainsIff | 4.2/getexcelutil/GetExcelUtil4.java:739 | contains holds exactly when the separator occurs at some position |
| JavaText.SplitAtFirst | 4.2/getexcelutil/GetExcelUtil4.java:743-744 | the split around the first separator fails exactly when it is absent, and both trimmed halves have no strippable ends |
| JavaText.IndexOfAfterPrefix | 4.2/getexcelutil/GetExcelUtil4.java:743 | in a + sep + b, with sep's first character absent from a, indexOf(sep) is the length of a |
| JavaText.SplitJoin | 4.2/getexcelutil/GetExcelUtil4.java:743-744 | splitting a + sep + b at the first sep gives (trim(a), trim(b)) when sep's first character is absent from a |
| Duplicates.FirstIndex | 4.2/getexcelutil/GetExcelUtil4.java:277-281 | the first index holding an equal entry; None exactly when no entry is equal |
| Duplicates.FindEqual | 4.2/getexcelutil/GetExcelUtil4.java:277-281 | the duplicate search loop returns the first earlier index whose entry equals the new one |
| Duplicates.AppendKeepsDistinct | 4.2/getexcelutil/GetExcelUtil4.java:276-284 | adding an entry the search did not find keeps the list free of duplicates |
| ColumnLabel.Label | 4.2/getexcelutil/GetExcelUtil4.java:866-878 | definition: the bijective base-26 numeral numberToAlphabet builds, most significant letter first (its meaning is in LabelIsLabel, ValueOfLabel and LabelOfValue) |
| ColumnLabel.LabelOf | 4.2/getexcelutil/GetExcelUtil4.java:866-878 | definition: numberToAlphabet's result, null for a number that is not positive |
| ColumnLabel.Letter | 4.2/getexcelutil/GetExcelUtil4.java:873-874 | the letter for a remainder 0..25 is one of A..Z |
| ColumnLabel.Value | 4.2/getexcelutil/GetExcelUtil4.java:866-878 | the inverse reading of a column label gives a number of at least 1 |
| ColumnLabel.LabelIsLabel | 4.2/getexcelutil/GetExcelUtil4.java:866-878 | every number from 1 gets a non-empty label of upper-case letters |
| ColumnLabel.ValueOfLabel | 4.2/getexcelutil/GetExcelUtil4.java:866-878 | reading back the label of n gives n |
| ColumnLabel.LabelAppend | 4.2/getexcelutil/GetExcelUtil4.java:871-876 | label(26v + d) is label(v) followed by the d-th letter |
| ColumnLabel.LabelOfLetter | 4.2/getexcelutil/GetExcelUtil4.java:866-878 | a single letter labels its own number |
| ColumnLabel.LabelOfValue | 4.2/getexcelutil/GetExcelUtil4.java:866-878 | every label is the label of its value, so labels and numbers from 1 are in one-to-one correspondence |
| ColumnLabel.LabelInjective | 4.2/getexcelutil/GetExcelUtil4.java:866-878 | different numbers get different labels |
| ColumnLabel.LabelSurjective | 4.2/getexcelutil/GetExcelUtil4.java:866-878 | every label is the label of some number |
| ColumnLabel.LabelExamples | 4.2/getexcelutil/GetExcelUtil4.java:866-878 | 1, 26, 27, 52, 53, 702 and 703 are labelled A, Z, AA, AZ, BA, ZZ and AAA |
| ColumnLabel.EmittedReversed | 4.2/getexcelutil/GetExcelUtil4.java:870-877 | the letters the loop appends, reversed, are the bijective base-26 label |
| ColumnLabel.NumberToAlphabet | 4.2/getexcelutil/GetExcelUtil4.java:866-878 | numberToAlphabet returns null for numbers up to 0 and the column label otherwise |
| FieldTypes.TypeName | getexcelutil/enums/FieldType.java:9-29 | definition: the string each constant is constructed with (properties in TypeNameInjective, TypeNameStartsLower) |
| FieldTypes.Match | getexcelutil/enums/FieldType.java:31-38 | definition: match(type) returns the first constant whose string equals type, else the IllegalArgumentException message (properties in MatchRoundTrip, MatchFailsIffUnknown) |
| FieldTypes.Ordinal | getexcelutil/enums/FieldType.java:9-22 | each constant's position in values() |
| FieldTypes.MatchFrom | getexcelutil/enums/FieldType.java:31-38 | the scan from position i returns a constant whose type string is the argument, or the "Invalid Field Type" error when none from i on has it |
| FieldTypes.TypeNameInjective | getexcelutil/enums/FieldType.java:9-22 | no two constants share a type string |
| FieldTypes.MatchRoundTrip | getexcelutil/enums/FieldType.java:31-38 | match(getType()) returns the constant itself |
| FieldTypes.MatchFailsIffUnknown | getexcelutil/enums/FieldType.java:31-38 | match throws exactly when no constant has the given type string |
| FieldTypes.TypeNameStartsLower | getexcelutil/enums/FieldType.java:9-22 | every type string begins with a lower-case letter |
| FieldTypes.MatchIsCaseSensitive | getexcelutil/enums/FieldType.java:33 | match compares exactly: "Int" and "String" are rejected |
| Schema.IsBaseType | 4.2/getexcelutil/GetExcelUtil4.java:858-864 | definition: isBaseType holds for String, Integer, Double, Object and Long only |
| Guards.ParseGuard | 4.2/getexcelutil/GetExcelUtil4.java:739-751 | a parsed guard has a non-empty, trimmed name and literal; each failure is a guard error; the missing "==" error occurs exactly when the guard has no "==" |
| Guards.ParseGuardOf | 4.2/getexcelutil/GetExcelUtil4.java:739-751 | for a + "==" + b with no '=' in a, the guard is (trim(a), trim(b)), or the empty-name or empty-value error |
| Guards.ParseGuardRoundTrip | 4.2/getexcelutil/GetExcelUtil4.java:739-751 | writing name + "==" + literal and parsing it gives (name, literal) back |
| Guards.Capitalize | getexcelutil/GetExcelUtil4.java:426 | definition: the property name with its first letter upper-cased, as in the getter name "get" + name |
| Guards.GetterValue | getexcelutil/GetExcelUtil4.java:434-440 | definition: what the getter returns on the entity under construction, null for a property not assigned yet |
| Guards.Accessor | getexcelutil/GetExcelUtil4.java:426-432 | the getter for a guard name is found exactly when some declared field has the same capitalised name |
| Sheets.Comment | 4.2/getexcelutil/GetExcelUtil4.java:208-214 | definition: the comment text at a 1-based position, null where there is none |
| Sheets.IsEmptyCell | 4.2/getexcelutil/GetExcelUtil4.java:854-856 | definition: isEmptyCell holds for a missing cell or a BLANK cell |
| Sheets.EmptyRow | 4.2/getexcelutil/GetExcelUtil4.java:834-843 | definition: a missing row, or one all of whose cells are empty (IsEmptyRow is proved to compute it) |
| Sheets.EmptyColumn | 4.2/getexcelutil/GetExcelUtil4.java:845-852 | definition: isEmptyColumn, which throws at the first missing row (its meaning is in EmptyColumnFromMeaning) |
| Sheets.NumericText | 4.2/getexcelutil/GetExcelUtil4.java:799-813 | definition: the NUMERIC/FORMULA branch: dates with the field's or the session pattern, numbers with the session format, and a date-annotated field without ExcelNumberFormat throws |
| Sheets.CellValue | 4.2/getexcelutil/GetExcelUtil4.java:788-832 | definition: getCellVal by cell type (properties in CellValueByKind, NumberFormatOverrideNeverApplies, DateFieldWithPlainNumberThrows) |
| Sheets.LastPresent | 4.2/getexcelutil/GetExcelUtil4.java:267 | getLastRowNum or getLastCellNum: the index of the last present entry, or -1; nothing after it is present |
| Sheets.CellAtPos | getexcelutil/GetExcelUtil4.java:321 | sheet.getRow(r - 1).getCell(c - 1): fails exactly when the row is missing, and otherwise gives the (possibly absent) cell |
| Sheets.IsEmptyRow | 4.2/getexcelutil/GetExcelUtil4.java:834-843 | the loop answers whether the row is missing or holds only missing or blank cells |
| Sheets.EmptyColumnFromMeaning | 4.2/getexcelutil/GetExcelUtil4.java:845-852 | the column is empty exactly when every row up to the last one exists and has no value in it, and non-empty only when some row has one |
| Sheets.IsEmptyColumn | 4.2/getexcelutil/GetExcelUtil4.java:845-852 | the loop computes the column emptiness test, including the exception raised by a missing row |
| Sheets.PlainCellValue | 4.2/getexcelutil/GetExcelUtil4.java:784-786 | getCellVal(cell) without a field never throws on the cells the model represents, and its result is trimmed |
| Sheets.CellValueByKind | 4.2/getexcelutil/GetExcelUtil4.java:788-832 | every value getCellVal returns is trimmed, and cells that are neither numeric nor formulas never throw |
| Sheets.NumberFormatOverrideNeverApplies | 4.2/getexcelutil/GetExcelUtil4.java:808-811 | a plain number in a field with ExcelNumberFormat and no ExcelDateFormat is formatted with the session number format, not the field's |
| Sheets.DateFieldWithPlainNumberThrows | 4.2/getexcelutil/GetExcelUtil4.java:808-811 | a plain number in a field with ExcelDateFormat and no ExcelNumberFormat throws a NullPointerException |
| Workbooks.Opened | 4.2/getexcelutil/GetExcelUtil4.java:91-118 | definition: initialize's checks in order: no file, bad extension, unknown content, negative or too large sheetNum, hidden sheet; else the first sheetNum sheets |
| Workbooks.OpenSheets | 4.2/getexcelutil/GetExcelUtil4.java:91-118 | the loading loop returns the function of the upload: the first sheetNum sheets, or the first exception in source order |
| Workbooks.OpenedSheets | 4.2/getexcelutil/GetExcelUtil4.java:98-115 | a successful load had an .xls/.xlsx name, a recognised format, at least sheetNum sheets, and returns exactly the first sheetNum, none hidden |
| Workbooks.HiddenSheetRejected | 4.2/getexcelutil/GetExcelUtil4.java:109-113 | a hidden sheet among the first sheetNum makes the load fail |
| Workbooks.ExcelNamesAccepted | 4.2/getexcelutil/GetExcelUtil4.java:98 | any non-empty single-line stem with extension xls or xlsx, in any letter case, is accepted |
| Workbooks.OtherNamesRejected | 4.2/getexcelutil/GetExcelUtil4.java:98 | a bare ".xls", .xlsm, .csv and a name that spans two lines are rejected |
| Validation42.IsWhen | 4.2/getexcelutil/GetExcelUtil4.java:738-763 | definition: isWhen parses the guard and compares the literal with the property's current value; an unknown property reads as "" (properties in IsWhenOnProperty, IsWhenOnUnknownProperty) |
| Validation42.Transformed | 4.2/getexcelutil/GetExcelUtil4.java:717-733 | definition: the Transform rules applied in order (properties in TransformFailsIffMalformed, TransformChains, TransformPassThrough) |
| Validation42.FormatChecked | 4.2/getexcelutil/GetExcelUtil4.java:684-714 | definition: only the first of ExcelDateFormat, ExcelNumberFormat and ValueLimit present is checked (properties in ChecksAreExclusive, EmptyDateIsRejected, EmptyNumberIsZero, GuardGatesNumberCheck, ValueLimitVerdict) |
| Validation42.VerifiedValue | 4.2/getexcelutil/GetExcelUtil4.java:671-736 | definition: getVerifiedCellVal: NotNull first, then the format check, then the transforms (properties in RequiredComesFirst, AcceptedValues and the rows below) |
| Validation42.IsWhenOnProperty | 4.2/getexcelutil/GetExcelUtil4.java:738-763 | a guard naming a property with a getter holds exactly when that property currently holds the literal |
| Validation42.IsWhenOnUnknownProperty | 4.2/getexcelutil/GetExcelUtil4.java:754-762 | a guard naming no property is false (the lookup error is logged and swallowed) |
| Validation42.SplitRule | 4.2/getexcelutil/GetExcelUtil4.java:722-727 | a transform expression splits exactly when it contains "->" |
| Validation42.TransformFailsIffMalformed | 4.2/getexcelutil/GetExcelUtil4.java:717-733 | the transform fails exactly when some expression lacks "->" |
| Validation42.TransformNamesFirstMalformed | 4.2/getexcelutil/GetExcelUtil4.java:721-724 | the failure names the first expression without "->", and every earlier one had it |
| Validation42.TransformPassThrough | 4.2/getexcelutil/GetExcelUtil4.java:721-732 | a value matching no rule comes back unchanged |
| Validation42.OneRule | 4.2/getexcelutil/GetExcelUtil4.java:726-731 | the single rule from->to maps from to to |
| Validation42.TransformChains | 4.2/getexcelutil/GetExcelUtil4.java:721-732 | rules apply in order to the value so far: a->b then b->c maps a to c |
| Validation42.ApplyTransforms | 4.2/getexcelutil/GetExcelUtil4.java:717-733 | the rule loop computes the transform function |
| Validation42.GetVerifiedCellVal | 4.2/getexcelutil/GetExcelUtil4.java:671-736 | getVerifiedCellVal computes the validator function |
| Validation42.RequiredComesFirst | 4.2/getexcelutil/GetExcelUtil4.java:676-681 | an empty value in a NotNull field fails with the NotNull message at the lettered column before any other check |
| Validation42.RequiredFieldIsFilled | 4.2/getexcelutil/GetExcelUtil4.java:676-681 | a NotNull field without Transform never receives an empty value |
| Validation42.ChecksAreExclusive | 4.2/getexcelutil/GetExcelUtil4.java:684-714 | only one format check applies: a date format hides the number format and value limit, and a number format hides the value limit |
| Validation42.EmptyDateIsRejected | 4.2/getexcelutil/GetExcelUtil4.java:684-691 | an empty value in a date field is rejected with the date message |
| Validation42.EmptyNumberIsZero | 4.2/getexcelutil/GetExcelUtil4.java:692-694 | an empty value in a number field becomes "0" without any check |
| Validation42.GuardGatesNumberCheck | 4.2/getexcelutil/GetExcelUtil4.java:692-706 | with no guard or a true guard, a non-empty value passes exactly when it formats as a number; a false guard lets it pass; a malformed guard throws |
| Validation42.ValueLimitVerdict | 4.2/getexcelutil/GetExcelUtil4.java:707-714 | a value-limited field accepts exactly the listed values, and otherwise fails with its message |
| Validation42.AcceptedValues | 4.2/getexcelutil/GetExcelUtil4.java:671-736 | an accepted value without Transform meets the check that applied: a date, "0" or a number, or a listed value |
| Validation42.MessageNamesColumnLetters | 4.2/getexcelutil/GetExcelUtil4.java:674-680 | messages name the column by its letters: column 28 is AB |
| Scan42.ElementFrom | 4.2/getexcelutil/GetExcelUtil4.java:413-424 | definition: the element loop of a dynamic reader pairs the element's fields with the header and data cells in order (properties in ElementFromFills, ElementReadsTwoFields) |
| Scan42.Element | 4.2/getexcelutil/GetExcelUtil4.java:407-424 | definition: one element read from a fresh entity |
| Scan42.HDynamic | 4.2/getexcelutil/GetExcelUtil4.java:391-439 | definition: getHorizontalDynamicRank: one element per header cell from the block's column on, duplicates rejected when checked (meaning in HDynamicFromMeaning) |
| Scan42.VDynamic | 4.2/getexcelutil/GetExcelUtil4.java:596-643 | definition: getVerticalDynamicRank: one element per row while the title column has a cell (meaning in VDynamicFromMeaning) |
| Scan42.HAssign | 4.2/getexcelutil/GetExcelUtil4.java:353-378 | setHorizontalField yields a list exactly for a DynamicRank field, and the number of cells it used is that list's length, or 1 |
| Scan42.VAssign | 4.2/getexcelutil/GetExcelUtil4.java:558-583 | setVerticalField yields a list exactly for a DynamicRank field, and the number of cells it used is that list's length, or 1 |
| Scan42.FieldLoop | 4.2/getexcelutil/GetExcelUtil4.java:306-319 | definition: the field loop shared by both directions: skip ignored fields, assign the others at the cursor, advance the cursor by the cells taken |
| Scan42.HFields | 4.2/getexcelutil/GetExcelUtil4.java:306-319 | definition: the horizontal field loop over one row (meaning in HFieldsFills) |
| Scan42.VFields | 4.2/getexcelutil/GetExcelUtil4.java:512-524 | definition: the vertical field loop over one column, which fetches each row it reads (meaning in VFieldsFills) |
| Scan42.LoopKeys | 4.2/getexcelutil/GetExcelUtil4.java:306-319 | the field loop gives a value to exactly the fields not ignored, besides the keys it started with |
| Scan42.LoopKeep | 4.2/getexcelutil/GetExcelUtil4.java:306-319 | proof step: a key the loop never assigns keeps its value |
| Scan42.LoopPast | 4.2/getexcelutil/GetExcelUtil4.java:306-319 | proof step: with distinct names, the loop assigned field k the value the result holds for it, and moved the cursor by that value's width |
| Scan42.LoopCursor | 4.2/getexcelutil/GetExcelUtil4.java:306-319 | proof step: the loop resumed at field j, its cursor past the earlier fields' widths and its entity holding their values, ends with the same entity |
| Scan42.LoopRead | 4.2/getexcelutil/GetExcelUtil4.java:306-319 | with distinct names, each field not ignored is assigned at start plus the widths of the earlier fields not ignored, on the entity as it stood then |
| Scan42.NameNotLater | 4.2/getexcelutil/GetExcelUtil4.java:306-319 | proof step: with distinct names, field k's name is not among those of later fields |
| Scan42.HFieldRead | 4.2/getexcelutil/GetExcelUtil4.java:306-319 | proof step: LoopRead for setHorizontalField |
| Scan42.VFieldRead | 4.2/getexcelutil/GetExcelUtil4.java:512-524 | proof step: LoopRead for setVerticalField |
| Scan42.HFieldsFills | 4.2/getexcelutil/GetExcelUtil4.java:306-319 | a row's entity has a value for exactly the fields not ignored; with distinct names, field j's value is what setHorizontalField computes at column columnNum plus the cells the earlier fields not ignored took (a dynamic field its list's length, any other 1), on the entity built so far |
| Scan42.VFieldsFills | 4.2/getexcelutil/GetExcelUtil4.java:512-524 | a column's entity has a value for exactly the fields not ignored; with distinct names, field j's value is what setVerticalField computes at row rowNum plus the cells the earlier fields not ignored took, the row existing |
| Scan42.TextAt | 4.2/getexcelutil/GetExcelUtil4.java:273 | definition: getCellVal of a row's cell, by 1-based column |
| Scan42.HScalarsFrom | 4.2/getexcelutil/GetExcelUtil4.java:267-285 | definition: the base-type row loop: a missing row throws, an empty leading cell stops, a duplicate throws when checked (meaning in HScalarsFromMeaning) |
| Scan42.HRecordsFrom | 4.2/getexcelutil/GetExcelUtil4.java:287-331 | definition: the entity row loop: an empty row or the end tag stops, each row is filled by HFields, a duplicate throws when checked (meaning in HRecordsFromMeaning) |
| Scan42.VScalarsFrom | 4.2/getexcelutil/GetExcelUtil4.java:474-492 | definition: the base-type header loop: an empty header cell stops (meaning in VScalarsFromMeaning) |
| Scan42.VRecordsFrom | 4.2/getexcelutil/GetExcelUtil4.java:495-536 | definition: the entity column loop: a column empty in the whole sheet or the end tag stops, each column is filled by VFields (meaning in VRecordsFromMeaning) |
| Scan42.HorizontalStartMatches | 4.2/getexcelutil/GetExcelUtil4.java:253-261 | definition: the horizontal start check on the header cell's comment |
| Scan42.HorizontalData | 4.2/getexcelutil/GetExcelUtil4.java:248-339 | definition: getHorizontalData on the loaded sheets (properties in HorizontalScalars, HorizontalEntities, HorizontalNeedsHeaderComment, ReadersNeverReturnEmpty) |
| Scan42.VerticalData | 4.2/getexcelutil/GetExcelUtil4.java:461-544 | definition: getVerticalData on the loaded sheets (properties in VerticalScalars, VerticalEntities, VerticalStartTagInverted) |
| Scan42.NonEmpty | 4.2/getexcelutil/GetExcelUtil4.java:334-336 | a reader fails with the empty-data exception exactly when it read nothing |
| Scan42.Scalars | 4.2/getexcelutil/GetExcelUtil4.java:284 | the returned list holds the values read, in order |
| Scan42.Composites | 4.2/getexcelutil/GetExcelUtil4.java:330 | the returned list holds the entities read, in order |
| Scan42.ElementFromFills | 4.2/getexcelutil/GetExcelUtil4.java:413-424 | the dynamic element loop keeps what it had and adds exactly the fields it reaches and does not skip |
| Scan42.ElementReadsTwoFields | 4.2/getexcelutil/GetExcelUtil4.java:414-424 | a dynamic element gets values only among its first two declared fields, and gets every one that is not ignored |
| Scan42.HScalarsStep | 4.2/getexcelutil/GetExcelUtil4.java:267-285 | proof step: a base-type row read that goes on appends the row's leading cell, which (with the check on) is not yet in the list |
| Scan42.HScalarsEnded | 4.2/getexcelutil/GetExcelUtil4.java:267-271 | proof step: a base-type row read that stops returns what it has, at the last row or an empty leading cell |
| Scan42.HScalarsFromMeaning | 4.2/getexcelutil/GetExcelUtil4.java:266-285 | entry i is the leading cell of row startRow + i, which is not empty; the read stops at the first empty cell or the last row; with the check on, the entries are distinct |
| Scan42.VScalarsFromMeaning | 4.2/getexcelutil/GetExcelUtil4.java:473-492 | entry i is header cell startColumn + i, which is not empty; the read stops at the first empty cell or the last one; with the check on, the entries are distinct |
| Scan42.HRecordsStop | 4.2/getexcelutil/GetExcelUtil4.java:287-298 | proof step: an entity row read returns what it has at the last row, an empty row or the end tag |
| Scan42.HRecordsFail | 4.2/getexcelutil/GetExcelUtil4.java:309-319 | proof step: an entity row read fails with the exception of the row's field loop |
| Scan42.HRecordsNext | 4.2/getexcelutil/GetExcelUtil4.java:321-330 | proof step: an entity equal to an earlier one raises a duplicate error citing both rows; otherwise it is appended |
| Scan42.HRecordsStep | 4.2/getexcelutil/GetExcelUtil4.java:287-331 | proof step: an entity row read that goes on appends the row's entity, which (with the check on) is new |
| Scan42.HRecordsFromMeaning | 4.2/getexcelutil/GetExcelUtil4.java:287-331 | entry i is the field loop's entity for row startRow + i; the read stops at an empty row, the end tag or the last row; with the check on, the entries are distinct |
| Scan42.HRecordKeys | 4.2/getexcelutil/GetExcelUtil4.java:306-319 | each entity of a horizontal read has a value for exactly the fields not ignored |
| Scan42.VRecordsStep | 4.2/getexcelutil/GetExcelUtil4.java:495-535 | proof step: an entity column read that goes on appends the column's entity, which (with the check on) is new |
| Scan42.VRecordsEnded | 4.2/getexcelutil/GetExcelUtil4.java:495-502 | proof step: an entity column read that stops returns what it has |
| Scan42.VRecordsFromMeaning | 4.2/getexcelutil/GetExcelUtil4.java:495-536 | entry i is the field loop's entity for column startColumn + i; the read stops at an empty column, the end tag or the header's last cell; with the check on, the entries are distinct |
| Scan42.VRecordKeys | 4.2/getexcelutil/GetExcelUtil4.java:512-524 | each entity of a vertical read has a value for exactly the fields not ignored |
| Scan42.HDynamicFromMeaning | 4.2/getexcelutil/GetExcelUtil4.java:391-439 | element i of a horizontal dynamic block is read from column startColumn + i of the header row and of the data row, up to the first empty header cell; with the check on, the elements are distinct |
| Scan42.VDynamicFromMeaning | 4.2/getexcelutil/GetExcelUtil4.java:596-643 | element i of a vertical dynamic block is read from row startRow + i of the header column and of the data column, up to the first empty header cell; with the check on, the elements are distinct |
| Scan42.VScalarsStop | 4.2/getexcelutil/GetExcelUtil4.java:474-478 | proof step: a header-row read stops at the header's end or an empty header cell |
| Scan42.VScalarsNext | 4.2/getexcelutil/GetExcelUtil4.java:478-491 | proof step: a header value equal to an earlier one raises a duplicate error citing both column letters; otherwise it is appended |
| Scan42.VRecordsStop | 4.2/getexcelutil/GetExcelUtil4.java:497-502 | proof step: an entity column read stops at a column empty in every row or at the end tag |
| Scan42.VRecordsFail | 4.2/getexcelutil/GetExcelUtil4.java:497-524 | proof step: an entity column read fails where the emptiness test or the field loop throws |
| Scan42.VRecordsNext | 4.2/getexcelutil/GetExcelUtil4.java:526-535 | proof step: an entity equal to an earlier one raises a duplicate error citing both column letters; otherwise it is appended |
| Scan42.HDynamicStop | 4.2/getexcelutil/GetExcelUtil4.java:402-404 | proof step: a horizontal dynamic block stops at the header's end or an empty header cell |
| Scan42.HDynamicNext | 4.2/getexcelutil/GetExcelUtil4.java:404-435 | proof step: a horizontal dynamic element fails, duplicates an earlier element (error citing both column letters), or is appended |
| Scan42.VDynamicStopped | 4.2/getexcelutil/GetExcelUtil4.java:603-607 | proof step: a vertical dynamic block stops past the last row or at an empty header cell |
| Scan42.VDynamicNext | 4.2/getexcelutil/GetExcelUtil4.java:607-639 | proof step: a vertical dynamic element fails, duplicates an earlier element (error citing both rows), or is appended |
| Scan42.HScalarsUncheckedNeverDuplicate | 4.2/getexcelutil/GetExcelUtil4.java:267-285 | with the check off, a base-type row read can only fail on a missing row |
| Scan42.VScalarsUncheckedSucceed | 4.2/getexcelutil/GetExcelUtil4.java:474-492 | with the check off, a base-type header read always succeeds |
| Scan42.HScalarsDuplicateRow | 4.2/getexcelutil/GetExcelUtil4.java:271-279 | a reported duplicate comes from a non-empty leading cell of an existing row |
| Scan42.HScalarsDuplicateStep | 4.2/getexcelutil/GetExcelUtil4.java:276-284 | proof step: a duplicate is reported at this row with the first equal earlier row, or later in the read |
| Scan42.HScalarDuplicateCitesEqualRows | 4.2/getexcelutil/GetExcelUtil4.java:276-281 | a duplicate error cites two rows a < b of the table whose leading cells read the same value |
| Scan42.ReadersNeverReturnEmpty | 4.2/getexcelutil/GetExcelUtil4.java:334-336 | a successful read, horizontal or vertical, returns at least one entry |
| Scan42.HorizontalNeedsHeaderComment | 4.2/getexcelutil/GetExcelUtil4.java:253-261 | a missing comment on the cell above the start, or one that differs from a set start tag, rejects a horizontal read |
| Scan42.VerticalStartTagInverted | 4.2/getexcelutil/GetExcelUtil4.java:466-468 | a vertical read is rejected when the start cell's comment EQUALS the start tag, and throws when that cell has no comment |
| Scan42.HorizontalScalars | 4.2/getexcelutil/GetExcelUtil4.java:266-285 | a base-type horizontal read returns the leading cells of consecutive rows from startRow up to the first empty one; with the check on they are distinct |
| Scan42.HorizontalEntities | 4.2/getexcelutil/GetExcelUtil4.java:286-332 | an entity horizontal read returns the entity of each consecutive row from startRow up to an empty row or the end tag, each with a value for exactly the fields not ignored; with the check on they are distinct |
| Scan42.VerticalScalars | 4.2/getexcelutil/GetExcelUtil4.java:473-492 | a base-type vertical read returns the header cells from startColumn up to the first empty one; with the check on they are distinct |
| Scan42.VerticalEntities | 4.2/getexcelutil/GetExcelUtil4.java:493-537 | an entity vertical read returns the entity of each consecutive column up to an empty column or the end tag, each with a value for exactly the fields not ignored; with the check on they are distinct |
| Util42.FillElement | 4.2/getexcelutil/GetExcelUtil4.java:413-424 | the dynamic element loop computes the element function |
| Util42.HorizontalDynamicStep | 4.2/getexcelutil/GetExcelUtil4.java:402-435 | one column of the horizontal dynamic loop: it finishes with the block's result, or goes on with the same result from the next column |
| Util42.GetHorizontalDynamicRank | 4.2/getexcelutil/GetExcelUtil4.java:391-439 | getHorizontalDynamicRank computes the horizontal dynamic block |
| Util42.VerticalDynamicStep | 4.2/getexcelutil/GetExcelUtil4.java:603-640 | one row of the vertical dynamic loop: it finishes with the block's result, or goes on with the same result from the next row |
| Util42.GetVerticalDynamicRank | 4.2/getexcelutil/GetExcelUtil4.java:596-643 | getVerticalDynamicRank computes the vertical dynamic block |
| Util42.SetHorizontalField | 4.2/getexcelutil/GetExcelUtil4.java:353-378 | setHorizontalField computes the horizontal field assignment |
| Util42.SetVerticalField | 4.2/getexcelutil/GetExcelUtil4.java:558-583 | setVerticalField computes the vertical field assignment |
| Util42.FillHorizontalFields | 4.2/getexcelutil/GetExcelUtil4.java:306-319 | the horizontal field loop computes HFields on the row; by HFieldsFills its entity has a value for exactly the fields not ignored, each read at startColumn plus the cells the earlier fields took |
| Util42.FillVerticalFields | 4.2/getexcelutil/GetExcelUtil4.java:512-524 | the vertical field loop computes VFields on the column; by VFieldsFills its entity has a value for exactly the fields not ignored, each read at startRow plus the cells the earlier fields took |
| Util42.ReadHorizontalScalars | 4.2/getexcelutil/GetExcelUtil4.java:267-285 | the base-type row loop computes the row read |
| Util42.HorizontalRecordStep | 4.2/getexcelutil/GetExcelUtil4.java:287-331 | one row of the entity loop: it finishes with the read's result, or goes on with the same result from the next row |
| Util42.ReadHorizontalRecords | 4.2/getexcelutil/GetExcelUtil4.java:287-331 | the entity row loop computes the row read |
| Util42.VerticalScalarStep | 4.2/getexcelutil/GetExcelUtil4.java:474-492 | one column of the base-type header loop: it finishes with the read's result, or goes on with the same result from the next column |
| Util42.ReadVerticalScalars | 4.2/getexcelutil/GetExcelUtil4.java:474-492 | the base-type header loop computes the header read |
| Util42.VerticalRecordStep | 4.2/getexcelutil/GetExcelUtil4.java:495-536 | one column of the entity loop: it finishes with the read's result, or goes on with the same result from the next column |
| Util42.ReadVerticalRecords | 4.2/getexcelutil/GetExcelUtil4.java:495-536 | the entity column loop computes the column read |
| Util42.GetExcelUtil4.constructor | 4.2/getexcelutil/GetExcelUtil4.java:75-79 | a new reader has date pattern yyyy/MM/dd, number format #.##, no tags and no sheets |
| Util42.GetExcelUtil4.Initialize | 4.2/getexcelutil/GetExcelUtil4.java:91-118 | initialize stores the loaded sheets and returns the reader, or throws and keeps the old sheets; the settings are unchanged |
| Util42.GetExcelUtil4.SetDatePattern | 4.2/getexcelutil/GetExcelUtil4.java:138-141 | only the date pattern changes, and the reader is returned |
| Util42.GetExcelUtil4.SetNumberFormat | 4.2/getexcelutil/GetExcelUtil4.java:150-153 | only the number format changes, and the reader is returned |
| Util42.GetExcelUtil4.SetStartTag | 4.2/getexcelutil/GetExcelUtil4.java:161-164 | only the start tag changes, and the reader is returned |
| Util42.GetExcelUtil4.SetEndTag | 4.2/getexcelutil/GetExcelUtil4.java:172-175 | only the end tag changes, and the reader is returned |
| Util42.GetExcelUtil4.GetSheetName | 4.2/getexcelutil/GetExcelUtil4.java:183-188 | the name of sheet sheetNo; out of range or before initialize, the exception |
| Util42.GetExcelUtil4.GetHorizontalData | 4.2/getexcelutil/GetExcelUtil4.java:248-339 | getHorizontalData computes the horizontal read on the loaded sheets with the current settings |
| Util42.GetExcelUtil4.GetVerticalData | 4.2/getexcelutil/GetExcelUtil4.java:461-544 | getVerticalData computes the vertical read on the loaded sheets with the current settings |
| Validation41.IsWhen | getexcelutil/GetExcelUtil4.java:411-443 | definition: isWhen parses the guard and compares the literal with the property's current value; an unknown property throws (properties in IsWhenOnProperty, IsWhenOnUnknownProperty) |
| Validation41.Checked | getexcelutil/GetExcelUtil4.java:371-406 | definition: setField's checks in turn (NotNull, date, number when its guard allows, value limit), every one that is present, the first failure thrown |
| Validation41.VerifiedValue | getexcelutil/GetExcelUtil4.java:369-409 | definition: setField's value: the coerced cell, then Checked (properties in AcceptedIffEveryCheckPasses, FailuresCiteColumnNumber) |
| Validation41.IsWhenOnProperty | getexcelutil/GetExcelUtil4.java:411-443 | a guard naming a property with a getter holds exactly when that property currently holds the literal |
| Validation41.IsWhenOnUnknownProperty | getexcelutil/GetExcelUtil4.java:426-432 | a guard naming a property without a getter throws "unknown field" with that name |
| Validation41.IsWhenAcrossVersions | getexcelutil/GetExcelUtil4.java:426-432 | 4.1 and 4.2 read guards alike, except a property without a getter: 4.1 throws where 4.2 answers false |
| Validation41.NumberCheckApplies | getexcelutil/GetExcelUtil4.java:386-389 | the number check applies only to a field with ExcelNumberFormat |
| Validation41.AcceptedIffEveryCheckPasses | getexcelutil/GetExcelUtil4.java:369-409 | a value is accepted exactly when every check present passes (NotNull, date, guarded number, value limit), and it is stored as read |
| Validation41.FailuresCiteColumnNumber | getexcelutil/GetExcelUtil4.java:369-406 | every rejection cites the sheet, the row and the column NUMBER, or is a guard error |
| Validation41.DateDoesNotShadowLimit | getexcelutil/GetExcelUtil4.java:377-406 | a valid date outside the value limit is rejected by 4.1 but accepted by 4.2 |
| Validation41.EmptyNumberAcrossVersions | getexcelutil/GetExcelUtil4.java:386-397 | an empty cell in an unguarded number field is rejected by 4.1, while 4.2 stores "0" |
| Validation41.GuardGatesNumberCheck | getexcelutil/GetExcelUtil4.java:386-397 | a true guard requires a number, a false guard lets the value pass, and a malformed or unknown guard throws |
| Scan41.WindowLoop | getexcelutil/GetExcelUtil4.java:236-247 | definition: the 4.1 field loop: one cell of the cellNum window per field not ignored, and a loop with no cell left never ends |
| Scan41.FieldsFrom | getexcelutil/GetExcelUtil4.java:236-247 | definition: the field loop reading setField's value along one row (column) (meaning in FieldsFromFills, HangsIffWindowTooSmall) |
| Scan41.HScalarsFrom | getexcelutil/GetExcelUtil4.java:209-214 | definition: the base-type row loop reads every row from startRow to the last row at startColumn, with no end-tag test; a missing row throws (meaning in HScalarsFromMeaning) |
| Scan41.HRecordsFrom | getexcelutil/GetExcelUtil4.java:216-254 | definition: the entity row loop up to the end tag or the last row, empty rows included (meaning in HRecordsFromMeaning) |
| Scan41.VScalarsFrom | getexcelutil/GetExcelUtil4.java:288-294 | definition: the base-type header loop up to the header's last cell (meaning in VScalarsFromMeaning) |
| Scan41.VRecordsFrom | getexcelutil/GetExcelUtil4.java:297-332 | definition: the entity column loop up to the end tag or the header's last cell (meaning in VRecordsFromMeaning) |
| Scan41.HorizontalData | getexcelutil/GetExcelUtil4.java:196-262 | definition: 4.1 getHorizontalData (properties in HorizontalScalars, HorizontalEntities, HorizontalRecords, StartTagChecks) |
| Scan41.VerticalData | getexcelutil/GetExcelUtil4.java:275-340 | definition: 4.1 getVerticalData (properties in VerticalScalars, VerticalEntities, VerticalRecords) |
| Scan41.SlotValue | getexcelutil/GetExcelUtil4.java:241-246 | setField on a window cell: a missing row throws, and it never stalls |
| Scan41.EndTagIn | getexcelutil/GetExcelUtil4.java:219-222 | without an end tag no row ends the read |
| Scan41.CellComment | getexcelutil/GetExcelUtil4.java:351-356 | getComment returns the cell's comment; a missing row, cell or comment throws |
| Scan41.HangsIffWindowTooSmall | getexcelutil/GetExcelUtil4.java:236-247 | the field loop stalls only when more fields are left than window cells, and with more fields than cells it never returns an entity |
| Scan41.WindowKeys | getexcelutil/GetExcelUtil4.java:236-247 | the 4.1 field loop gives a value to exactly the fields not ignored, besides the keys it started with |
| Scan41.WindowLarge | getexcelutil/GetExcelUtil4.java:236-247 | a 4.1 field loop that returns had a cell of the window for each field not ignored |
| Scan41.HangsOnlyWhenTooSmall | getexcelutil/GetExcelUtil4.java:236-247 | with a cell reader that never stalls, the field loop stalls only when more fields not ignored than cells are left |
| Scan41.TooSmallFails | getexcelutil/GetExcelUtil4.java:236-247 | with more fields not ignored than cells left, the field loop never returns an entity |
| Scan41.FieldsFromFills | getexcelutil/GetExcelUtil4.java:236-247 | a returned entity has a value for exactly the fields not ignored, and the window had a cell for each; with unique names, the n-th field not ignored holds setField's text for the window cell at start + n (column start + n of the row, or row start + n of the column), read with the entity as the earlier fields left it |
| Scan41.WindowKeep | getexcelutil/GetExcelUtil4.java:236-247 | proof step: an entry no later field is named after keeps its value to the end of the field loop |
| Scan41.WindowPast | getexcelutil/GetExcelUtil4.java:236-247 | proof step: a field not ignored reads the cell at the current position, inside the window, keeps that text, and the loop goes on one cell further; an ignored field moves nothing |
| Scan41.PriorNext | getexcelutil/GetExcelUtil4.java:236-247 | proof step: one field further on, the position grows by one and the entity gains that field's value exactly when the field is not ignored |
| Scan41.WindowCursor | getexcelutil/GetExcelUtil4.java:236-247 | when the field loop reaches field j it stands one cell further on for each field in between not ignored, with the entity those fields left |
| Scan41.WindowRead | getexcelutil/GetExcelUtil4.java:236-247 | the n-th field not ignored reads window position pos + n, which lies inside the window, and holds the text read there |
| Scan41.FieldRead | getexcelutil/GetExcelUtil4.java:236-247 | for setField's reader: field j not ignored holds setField's text for the cell at its window position |
| Scan41.HScalarsFromMeaning | getexcelutil/GetExcelUtil4.java:209-214 | the base-type row read succeeds exactly when every row to the last exists; entry i is the leading cell of row startRow + i, empty or not |
| Scan41.VScalarsFromMeaning | getexcelutil/GetExcelUtil4.java:288-294 | the base-type header read never fails and returns every header cell from startColumn to the last, empty or not |
| Scan41.HRecordsStep | getexcelutil/GetExcelUtil4.java:216-254 | proof step: an entity row read that goes on appends the row's entity |
| Scan41.HRecordsEnded | getexcelutil/GetExcelUtil4.java:219-222 | proof step: an entity row read that stops returns what it has, at the end tag or past the last row |
| Scan41.HRecordsFromMeaning | getexcelutil/GetExcelUtil4.java:216-254 | entry i is the field loop's entity for row startRow + i; the read stops only at the end tag or the last row |
| Scan41.EntityWindow | getexcelutil/GetExcelUtil4.java:236-247 | an entity is read only when the class has no more fields not ignored than cellNum |
| Scan41.VRecordsStep | getexcelutil/GetExcelUtil4.java:297-332 | proof step: an entity column read that goes on appends the column's entity |
| Scan41.VRecordsEnded | getexcelutil/GetExcelUtil4.java:297-301 | proof step: an entity column read stops at the end tag or past the header's last cell |
| Scan41.VRecordsFromMeaning | getexcelutil/GetExcelUtil4.java:297-332 | entry i is the field loop's entity for column startColumn + i; the read stops only at the end tag or the header's last cell |
| Scan41.EmptyRowIsRead | getexcelutil/GetExcelUtil4.java:249-253 | an empty row is read as an entity by 4.1, where 4.2 ends the table there |
| Scan41.ReadersNeverReturnEmpty | getexcelutil/GetExcelUtil4.java:257-259 | a successful read returns at least one entry, and a sheet number past the loaded sheets fails |
| Scan41.StartTagChecks | getexcelutil/GetExcelUtil4.java:201-203 | with a start tag set, the start cell's comment is required; a horizontal read is rejected when it differs, a vertical one when it is equal |
| Scan41.HorizontalScalars | getexcelutil/GetExcelUtil4.java:208-214 | a base-type horizontal read returns the leading cell of every row from startRow to the last row |
| Scan41.VerticalScalars | getexcelutil/GetExcelUtil4.java:287-294 | a base-type vertical read returns every header cell from startColumn to the last |
| Scan41.HorizontalRecords | getexcelutil/GetExcelUtil4.java:215-261 | a successful horizontal entity read returns the non-empty list of its row loop |
| Scan41.VerticalRecords | getexcelutil/GetExcelUtil4.java:295-339 | a successful vertical entity read returns the non-empty list of its column loop |
| Scan41.HorizontalEntities | getexcelutil/GetExcelUtil4.java:215-254 | an entity horizontal read returns one entity per row up to the end tag, or to the last row when no end tag is set, and the class has no more fields than cellNum |
| Scan41.VerticalEntities | getexcelutil/GetExcelUtil4.java:295-332 | an entity vertical read returns one entity per column up to the end tag or the header's last cell, and the class has no more fields than cellNum |
| Util41.FillFields | getexcelutil/GetExcelUtil4.java:236-247 | the field loop computes the window function, returning Hangs where the source loops forever |
| Util41.ReadHorizontalScalars | getexcelutil/GetExcelUtil4.java:209-214 | the base-type row loop computes the row read |
| Util41.ReadHorizontalRecords | getexcelutil/GetExcelUtil4.java:216-254 | the entity row loop computes the row read |
| Util41.ReadVerticalScalars | getexcelutil/GetExcelUtil4.java:288-294 | the base-type header loop computes the header read |
| Util41.ReadVerticalRecords | getexcelutil/GetExcelUtil4.java:297-332 | the entity column loop computes the column read |
| Util41.GetExcelUtil4.constructor | getexcelutil/GetExcelUtil4.java:61-65 | a new reader has date pattern yyyy/MM/dd, number format #.##, no tags and no sheets |
| Util41.GetExcelUtil4.Initialize | getexcelutil/GetExcelUtil4.java:77-104 | initialize stores the loaded sheets and returns the reader, or throws and keeps the old sheets; the settings are unchanged |
| Util41.GetExcelUtil4.SetDatePattern | getexcelutil/GetExcelUtil4.java:124-127 | only the date pattern changes, and the reader is returned |
| Util41.GetExcelUtil4.SetNumberFormat | getexcelutil/GetExcelUtil4.java:136-139 | only the number format changes, and the reader is returned |
| Util41.GetExcelUtil4.SetStartTag | getexcelutil/GetExcelUtil4.java:147-150 | only the start tag changes, and the reader is returned |
| Util41.GetExcelUtil4.SetEndTag | getexcelutil/GetExcelUtil4.java:158-161 | only the end tag changes, and the reader is returned |
| Util41.GetExcelUtil4.GetSheetName | getexcelutil/GetExcelUtil4.java:169-174 | the name of sheet sheetNo; out of range or before initialize, the exception |
| Util41.GetExcelUtil4.GetHorizontalData | getexcelutil/GetExcelUtil4.java:196-262 | getHorizontalData computes the 4.1 horizontal read on the loaded sheets with the current settings |
| Util41.GetExcelUtil4.GetVerticalData | getexcelutil/GetExcelUtil4.java:275-340 | getVerticalData computes the 4.1 vertical read on the loaded sheets with the current settings |

## Behaviour of the code worth noting

The model follows the code in each of these cases.

- **Transform rules.** In 4.2 (lines 721-732) every rule is tried in turn on the value
  so far, so rules chain: `a->b` followed by `b->c` turns `a` into `c`
  (`Validation42.TransformChains`).
- **Fields after a `DynamicRank` field.** In 4.2 the column (row) cursor moves past the
  dynamic block (lines 316-317 and 521-522), so the following fields are read from the
  cells after the block (`Scan42.HFieldsFills`, `Scan42.VFieldsFills`).
- **Duplicate elements inside a dynamic block.** These errors cite absolute column letters
  or row numbers (`i + startColumn` and `i + startRow`, lines 430 and 634). They are not
  positions within the block.
- **The 4.1 empty-entity exit** (lines 250-252 and 328-330). `ObjectUtils.anyNotNull(t)`
  tests the entity object itself, which is never null, so the exit never fires. An empty
  row or column is read as an entity (`Scan41.EmptyRowIsRead`), and the model has no
  emptiness exit in 4.1.
- **The 4.1 field loop** (lines 236-247 and 314-325). When a field is left after the
  `cellNum`-cell window is used up, neither index moves and the loop never ends. The model
  returns the error `Hangs` at that point (`Scan41.HangsIffWindowTooSmall`).
- **The 4.2 horizontal start check** (lines 253-261). It reads the comment of the cell one
  row ABOVE `startRow`, and a missing comment is rejected even when no start tag is set
  (`Scan42.HorizontalNeedsHeaderComment`).
- **The vertical start check** (4.2 line 466, 4.1 line 280). It rejects the table when the
  comment EQUALS the start tag (`Scan42.VerticalStartTagInverted`, `Scan41.StartTagChecks`).
- **The override in `getCellVal`** (4.2 lines 810-811, 4.1 lines 498-499). It tests for
  `ExcelDateFormat` but reads `ExcelNumberFormat`.
  - A field with a number format still gets the session number format
    (`Sheets.NumberFormatOverrideNeverApplies`).
  - A date field holding a plain number throws a NullPointerException
    (`Sheets.DateFieldWithPlainNumberThrows`).

## Left out

- **Workbook bytes.** Parsing (POI's `XSSFWorkbook` / `HSSFWorkbook`, `FileMagic`),
  streams and `ZipSecureFile` are not modelled. An upload is given as its name, its
  detected format and its sheets. `createWorkbook` is reduced to that format value.
- Workbooks.Opened: the uploaded file is taken to have a name. `getOriginalFilename()` can
  return null; then the `assert fileName != null` (4.2 line 96, 4.1 line 82) throws an
  AssertionError when assertions are enabled, and otherwise `fileName.matches` (4.2 line 98,
  4.1 line 84) throws a NullPointerException. The model has no such upload.
- Util42.GetExcelUtil4.Initialize: when a hidden sheet makes `initialize` throw, the source
  has already replaced the sheets array with a partly filled one (lines 108-114). The model
  keeps the previous sheets instead.
- Util41.GetExcelUtil4.Initialize: the same for 4.1 (lines 94-100).
- Sheets.CellValue and Sheets.PlainCellValue: a formula cell always carries a numeric
  cached result. A formula whose cached result is text, a boolean or an error makes POI's
  `isCellDateFormatted` / `getNumericCellValue` throw IllegalStateException (4.2 lines
  801-813, 4.1 lines 489-501). The model does not represent such a cell, so
  PlainCellValue's "never throws" holds only for the cells it represents.
- **Date and number formatting and parsing.** `SimpleDateFormat` and `DecimalFormat` (and
  `BigDecimal`) are the function-valued `Library` parameter, not implementations. Invalid
  or null patterns are not modelled. The one fixed fact kept is that an empty string never
  parses as a date or a number.
- **`ConvertUtils.convert`.** It is taken as the identity on strings: base-type values and
  entity fields hold the cell text. Conversion to Integer, Double or Long, and its
  failures, are not modelled.
- **Reflection.** An entity class is its ordered field list.
  - Every declared field is assumed to have a getter and a setter, so the
    RuntimeExceptions of `setFieldValue` and `newInstance` do not arise.
  - `equals` is assumed to compare fields one by one; the duplicate check compares records.
- Scan42.HRecordsFrom, Scan42.VRecordsFrom, Scan42.ElementFrom, Scan41.HRecordsFrom and
  Scan41.VRecordsFrom: each entity starts as the empty record, every property null.
  `clazz.newInstance()` (4.2 lines 302, 408, 506 and 611; 4.1 lines 226 and 305) runs the class's field
  initialisers, which the model does not know.
- Validation42.IsWhen and Validation41.IsWhen: a guard on a property that is read before
  it is assigned sees null in the model. The source sees that property's initial value,
  which may equal the literal.
- **Guard properties that are not strings.** The `(String)` cast in `isWhen` can throw a
  ClassCastException. This is not modelled: every field value is text or a list.
- **Capitalisation and case folding.** `Guards.Capitalize`, used to find getters, folds
  ASCII letters only. The `(?i)` match of file names also folds ASCII letters only, as Java
  does without UNICODE_CASE.
- **Logging** (`logger.error`) is not modelled.
- Util42.GetExcelUtil4.GetSheetName, Util42.GetExcelUtil4.GetHorizontalData and
  Util42.GetExcelUtil4.GetVerticalData require `sheetNo >= 1`. The source throws Java's
  ArrayIndexOutOfBoundsException for a smaller `sheetNo`.
- Util41.GetExcelUtil4.GetSheetName, Util41.GetExcelUtil4.GetHorizontalData and
  Util41.GetExcelUtil4.GetVerticalData: the same for 4.1.
- **Columns left of column 1.** Such a column is read as an absent cell; POI's
  `getCell(-1)` exception is not modelled.
- **Default-argument overloads.** The 4.2 overloads without `enableDuplicateCheck`
  (lines 221-223 and 446-448) are the modelled readers with the check off. They are not
  separate members.
- **`numberToAlphabet`'s do-while loop.** It is written as a while loop whose first pass is
  taken because the number is at least 1 (`ColumnLabel.NumberToAlphabet`).
- **`FieldType.getType`.** It is the function `FieldTypes.TypeName`, whose properties are
  the injectivity and round-trip lemmas. It has no contract of its own.
- **`DynamicRank`, `Transform` and the duplicate check in 4.1.** 4.1 has none of them.
  Its target classes are modelled with those annotations absent, and its readers ignore
  them.
