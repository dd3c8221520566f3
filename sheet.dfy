/**
 * The spreadsheet as the engine sees it: sparse rows of sparse, typed cells,
 * the cell comments, and the cell value coercer (getCellVal) with the
 * emptiness tests (isEmptyCell, isEmptyRow, isEmptyColumn).
 */
module Sheets {
  import opened Wrappers
  import opened JavaText
  import opened Schema

  /**
   * A cell by its type. Numeric and formula cells carry their (last computed)
   * value and whether their style is a date format (HSSFDateUtil.isCellDateFormatted);
   * a formula is taken to have a numeric cached result. NoneCell is the remaining,
   * unknown type.
   */
  datatype Cell =
    | NumericCell(number: real, dateFormatted: bool)
    | StringCell(text: string)
    | FormulaCell(number: real, dateFormatted: bool)
    | BooleanCell(flag: bool)
    | BlankCell
    | ErrorCell
    | NoneCell

  /** A row: cell j is the cell of 0-based column j, None where no cell exists. */
  datatype Row = Row(cells: seq<Option<Cell>>)

  /** A sheet: row i is the 0-based row i, None where no row exists; comments by 1-based (row, column). */
  datatype Sheet = Sheet(name: string, rows: seq<Option<Row>>, comments: map<(int, int), string>)

  /**
   * The date and number routines of the Java library: SimpleDateFormat.format,
   * DecimalFormat.format, whether SimpleDateFormat.parse succeeds, and whether
   * DecimalFormat.format(new BigDecimal(s)) succeeds.
   */
  datatype Library = Library(
    formatDate: (real, string) -> string,
    formatNumber: (real, string) -> string,
    parsesAsDate: (string, string) -> bool,
    formatsAsNumber: (string, string) -> bool)

  /** new BigDecimal("") always throws, whatever the library does with other strings. */
  predicate IsNumber(lib: Library, s: string, format: string) {
    s != "" && lib.formatsAsNumber(s, format)
  }

  /** SimpleDateFormat.parse("") always throws, whatever the library does with other strings. */
  predicate IsDate(lib: Library, s: string, pattern: string) {
    s != "" && lib.parsesAsDate(s, pattern)
  }

  /** Index of the last element present, or -1. */
  function LastPresent<T>(s: seq<Option<T>>): (k: int)
    ensures -1 <= k < |s|
    ensures k >= 0 ==> s[k].Some?
    ensures forall i :: k < i < |s| ==> s[i].None?
  {
    if s == [] then -1
    else if s[|s| - 1].Some? then |s| - 1
    else LastPresent(s[..|s| - 1])
  }

  /** Sheet.getLastRowNum(): 0-based index of the last row, 0 for a sheet without rows. */
  function LastRowNum(sheet: Sheet): int {
    var k := LastPresent(sheet.rows);
    if k < 0 then 0 else k
  }

  /** Row.getLastCellNum(): one past the 0-based index of the last cell, -1 for a row without cells. */
  function LastCellNum(row: Row): int {
    var k := LastPresent(row.cells);
    if k < 0 then -1 else k + 1
  }

  /** Sheet.getRow(i), 0-based. */
  function RowAt(sheet: Sheet, i: int): Option<Row> {
    if 0 <= i < |sheet.rows| then sheet.rows[i] else None
  }

  /** Row.getCell(j), 0-based. */
  function CellAt(row: Row, j: int): Option<Cell> {
    if 0 <= j < |row.cells| then row.cells[j] else None
  }

  /** sheet.getRow(rowNo - 1).getCell(columnNo - 1), 1-based; a missing row throws. */
  function CellAtPos(sheet: Sheet, rowNo: int, columnNo: int): (r: Result<Option<Cell>, Error>)
    ensures r.Failure? <==> RowAt(sheet, rowNo - 1).None?
    ensures r.Success? ==> r.value == CellAt(RowAt(sheet, rowNo - 1).value, columnNo - 1)
  {
    match RowAt(sheet, rowNo - 1)
    case None => Failure(NullPointer(AbsentRow(rowNo)))
    case Some(row) => Success(CellAt(row, columnNo - 1))
  }

  /** The comment text at 1-based (rowNo, columnNo), if any. */
  function Comment(sheet: Sheet, rowNo: int, columnNo: int): Option<string> {
    if (rowNo, columnNo) in sheet.comments then Some(sheet.comments[(rowNo, columnNo)]) else None
  }

  // ----- Emptiness -----

  /** isEmptyCell: no cell, or a cell of type BLANK. */
  predicate IsEmptyCell(cell: Option<Cell>) {
    cell.None? || cell.value.BlankCell?
  }

  /** No row, or a row all of whose cells are empty. */
  predicate EmptyRow(row: Option<Row>) {
    row.None? || forall j :: 0 <= j < |row.value.cells| ==> IsEmptyCell(row.value.cells[j])
  }

  /** isEmptyRow: walks the cells the row holds and stops at the first non-empty one. */
  method IsEmptyRow(row: Option<Row>) returns (b: bool)
    ensures b == EmptyRow(row)
  {
    if row.Some? {
      var cells := row.value.cells;
      var j := 0;
      while j < |cells|
        invariant 0 <= j <= |cells|
        invariant forall k :: 0 <= k < j ==> IsEmptyCell(cells[k])
      {
        if cells[j].Some? && !IsEmptyCell(cells[j]) {
          return false;
        }
        j := j + 1;
      }
    }
    return true;
  }

  /** The loop of isEmptyColumn from 0-based row i on; a missing row throws. */
  function EmptyColumnFrom(sheet: Sheet, columnNum: int, i: nat): Result<bool, Error>
    decreases LastRowNum(sheet) + 1 - i
  {
    if i > LastRowNum(sheet) then Success(true)
    else match RowAt(sheet, i)
      case None => Failure(NullPointer(AbsentRow(i + 1)))
      case Some(row) =>
        if !IsEmptyCell(CellAt(row, columnNum - 1)) then Success(false)
        else EmptyColumnFrom(sheet, columnNum, i + 1)
  }

  /** isEmptyColumn: the 1-based column is empty in every row of the sheet, header rows included. */
  function EmptyColumn(sheet: Sheet, columnNum: int): Result<bool, Error> {
    EmptyColumnFrom(sheet, columnNum, 0)
  }

  /** isEmptyColumn says "empty" exactly when every row up to the last exists and is empty in that column. */
  lemma {:induction false} EmptyColumnFromMeaning(sheet: Sheet, columnNum: int, i: nat)
    ensures EmptyColumnFrom(sheet, columnNum, i) == Success(true) <==>
      forall k :: i <= k <= LastRowNum(sheet) ==>
        RowAt(sheet, k).Some? && IsEmptyCell(CellAt(RowAt(sheet, k).value, columnNum - 1))
    ensures EmptyColumnFrom(sheet, columnNum, i) == Success(false) ==>
      exists k :: i <= k <= LastRowNum(sheet) &&
        RowAt(sheet, k).Some? && !IsEmptyCell(CellAt(RowAt(sheet, k).value, columnNum - 1))
    decreases LastRowNum(sheet) + 1 - i
  {
    if i <= LastRowNum(sheet) && RowAt(sheet, i).Some? && IsEmptyCell(CellAt(RowAt(sheet, i).value, columnNum - 1)) {
      EmptyColumnFromMeaning(sheet, columnNum, i + 1);
    }
  }

  method IsEmptyColumn(sheet: Sheet, columnNum: int) returns (r: Result<bool, Error>)
    ensures r == EmptyColumn(sheet, columnNum)
  {
    var i := 0;
    while i <= LastRowNum(sheet)
      invariant 0 <= i
      invariant EmptyColumn(sheet, columnNum) == EmptyColumnFrom(sheet, columnNum, i)
      decreases LastRowNum(sheet) + 1 - i
    {
      var row := RowAt(sheet, i);
      if row.None? {
        return Failure(NullPointer(AbsentRow(i + 1)));
      }
      if !IsEmptyCell(CellAt(row.value, columnNum - 1)) {
        return Success(false);
      }
      i := i + 1;
    }
    return Success(true);
  }

  // ----- Cell value coercer -----

  /**
   * The NUMERIC / FORMULA branch of getCellVal. A date is formatted with the field's
   * ExcelDateFormat pattern, else the session pattern. A number is formatted with
   * the session format unless the field carries ExcelDateFormat, in which case the
   * ExcelNumberFormat annotation is read, and a field without one throws.
   */
  function NumericText(x: real, isDate: bool, field: Option<Field>, cfg: Settings, lib: Library): Result<string, Error> {
    if isDate then
      var pattern := if field.Some? && field.value.dateFormat.Some? then field.value.dateFormat.value.pattern else cfg.datePattern;
      Success(Trim(lib.formatDate(x, pattern)))
    else if field.Some? && field.value.dateFormat.Some? then
      if field.value.numberFormat.None? then Failure(NullPointer(AbsentNumberFormat))
      else Success(Trim(lib.formatNumber(x, field.value.numberFormat.value.format)))
    else
      Success(Trim(lib.formatNumber(x, cfg.numberFormat)))
  }

  /** getCellVal(cell, field): the cell as a trimmed string. */
  function CellValue(cell: Option<Cell>, field: Option<Field>, cfg: Settings, lib: Library): Result<string, Error> {
    match cell
    case None => Success("")
    case Some(c) =>
      match c
      case StringCell(t) => Success(Trim(t))
      case NumericCell(x, isDate) => NumericText(x, isDate, field, cfg, lib)
      case FormulaCell(x, isDate) => NumericText(x, isDate, field, cfg, lib)
      // the fixed strings below have nothing for trim() to strip
      case BooleanCell(b) => Success(if b then "true" else "false")
      case BlankCell => Success("")
      case ErrorCell => Success("")
      case NoneCell => Success("ERROR")
  }

  /** getCellVal(cell): the same without a field, which never throws. */
  function PlainCellValue(cell: Option<Cell>, cfg: Settings, lib: Library): (s: string)
    ensures CellValue(cell, None, cfg, lib) == Success(s)
    ensures IsTrimmed(s)
  {
    match CellValue(cell, None, cfg, lib)
    case Success(s) => s
    case Failure(_) => assert false; ""
  }

  /** Every kind of cell maps to a trimmed string, and only numeric and formula cells can throw. */
  lemma CellValueByKind(cell: Option<Cell>, field: Option<Field>, cfg: Settings, lib: Library)
    ensures CellValue(cell, field, cfg, lib).Success? ==> IsTrimmed(CellValue(cell, field, cfg, lib).value)
    ensures cell.Some? && !cell.value.NumericCell? && !cell.value.FormulaCell? ==> CellValue(cell, field, cfg, lib).Success?
  {
  }

  /**
   * The per-field number format never reaches the coercer: a field annotated with
   * ExcelNumberFormat alone gets the session format for a plain number.
   */
  lemma NumberFormatOverrideNeverApplies(x: real, field: Field, cfg: Settings, lib: Library)
    requires field.numberFormat.Some? && field.dateFormat.None?
    ensures CellValue(Some(NumericCell(x, false)), Some(field), cfg, lib) == Success(Trim(lib.formatNumber(x, cfg.numberFormat)))
    ensures CellValue(Some(FormulaCell(x, false)), Some(field), cfg, lib) == Success(Trim(lib.formatNumber(x, cfg.numberFormat)))
  {
  }

  /** A field annotated with ExcelDateFormat but not ExcelNumberFormat throws on a plain number. */
  lemma DateFieldWithPlainNumberThrows(x: real, field: Field, cfg: Settings, lib: Library)
    requires field.dateFormat.Some? && field.numberFormat.None?
    ensures CellValue(Some(NumericCell(x, false)), Some(field), cfg, lib) == Failure(NullPointer(AbsentNumberFormat))
  {
  }

  /** What a scan reads from: the session settings, the library, the sheet and its 1-based number. */
  datatype Env = Env(cfg: Settings, lib: Library, sheet: Sheet, sheetNo: int)
}
