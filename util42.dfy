/**
 * The 4.2 engine as it runs: the GetExcelUtil4 object with its configuration
 * fields and loaded sheets, and the loops of its readers, each proved to compute
 * the function of the same name in Scan42.
 */
module Util42 {
  import opened Wrappers
  import opened ColumnLabel
  import opened Schema
  import opened Sheets
  import opened Duplicates
  import opened Validation42
  import opened Scan42
  import opened Workbooks

  // ----- Dynamic-rank readers -----

  /** The inner loop of a dynamic-rank reader: one element from its header and data cells. */
  method FillElement(env: Env, fields: seq<Field>, slots: seq<(int, int)>) returns (r: Result<Record, Error>)
    ensures r == Element(env, fields, slots)
  {
    var o: Record := map[];
    var fieldIndex := 0;
    while fieldIndex < |slots|
      invariant 0 <= fieldIndex <= |slots|
      invariant ElementFrom(env, fields, slots, fieldIndex, o) == Element(env, fields, slots)
      decreases |slots| - fieldIndex
    {
      if fieldIndex >= |fields| {
        return Success(o);
      }
      if fields[fieldIndex].ignored {
        fieldIndex := fieldIndex + 1;
        continue;
      }
      var (rowNo, columnNo) := slots[fieldIndex];
      var cell :- CellAtPos(env.sheet, rowNo, columnNo);
      var v :- GetVerifiedCellVal(env.cfg, env.lib, fields, o, fields[fieldIndex], cell, env.sheetNo, rowNo, columnNo);
      o := o[fields[fieldIndex].name := Text(v)];
      fieldIndex := fieldIndex + 1;
    }
    return Success(o);
  }

  /**
   * One column of getHorizontalDynamicRank's loop: `done` with the reader's outcome when
   * the block ends, fails or repeats an element at this column, otherwise the list
   * extended by this column's element.
   */
  method HorizontalDynamicStep(env: Env, rank: DynamicRank, header: Row, rowNum: int, startColumn: int,
                               columnNum: int, list: seq<Record>)
    returns (done: bool, r: Result<seq<Record>, Error>)
    ensures done ==> r == HDynamicFrom(env, rank, header, rowNum, startColumn, columnNum, list)
    ensures !done ==> r.Success? && HDynamicFrom(env, rank, header, rowNum, startColumn, columnNum, list)
                                    == HDynamicFrom(env, rank, header, rowNum, startColumn, columnNum + 1, r.value)
  {
    if columnNum > LastCellNum(header) || IsEmptyCell(CellAt(header, columnNum - 1)) {
      HDynamicStop(env, rank, header, rowNum, startColumn, columnNum, list);
      return true, Success(list);
    }
    var o := FillElement(env, rank.element, [(rank.titleRank, columnNum), (rowNum, columnNum)]);
    var earlier: Option<nat> := None;
    if o.Success? && rank.enableDuplicateCheck && |list| > 0 {
      earlier := FindEqual(list, o.value);
    }
    HDynamicNext(env, rank, header, rowNum, startColumn, columnNum, list, o, earlier);
    if o.Failure? {
      return true, Failure(o.error);
    }
    if earlier.Some? {
      var earlierLabel := NumberToAlphabet(earlier.value + startColumn);
      var laterLabel := NumberToAlphabet(columnNum);
      return true, Failure(Duplicate(env.sheetNo, AtColumn(earlierLabel), AtColumn(laterLabel)));
    }
    return false, Success(list + [o.value]);
  }

  /** getHorizontalDynamicRank: one element per column of the header row `titleRank`, from `startColumn` on. */
  method GetHorizontalDynamicRank(env: Env, rank: DynamicRank, rowNum: int, startColumn: int)
    returns (r: Result<seq<Record>, Error>)
    ensures r == HDynamic(env, rank, rowNum, startColumn)
  {
    var header := RowAt(env.sheet, rank.titleRank - 1);
    if header.None? {
      return Failure(NullPointer(AbsentRow(rank.titleRank)));
    }
    ghost var goal := HDynamic(env, rank, rowNum, startColumn);
    var list: seq<Record> := [];
    var columnNum := startColumn;
    while columnNum <= LastCellNum(header.value)
      invariant HDynamicFrom(env, rank, header.value, rowNum, startColumn, columnNum, list) == goal
      decreases LastCellNum(header.value) + 1 - columnNum
    {
      var done, next := HorizontalDynamicStep(env, rank, header.value, rowNum, startColumn, columnNum, list);
      if done {
        return next;
      }
      list := next.value;
      columnNum := columnNum + 1;
    }
    HDynamicStop(env, rank, header.value, rowNum, startColumn, columnNum, list);
    return Success(list);
  }

  /**
   * One row of getVerticalDynamicRank's loop: `done` with the reader's outcome when the
   * block ends, fails or repeats an element at this row, otherwise the list extended by
   * this row's element.
   */
  method VerticalDynamicStep(env: Env, rank: DynamicRank, columnNum: int, startRow: int, rowNum: int, list: seq<Record>)
    returns (done: bool, r: Result<seq<Record>, Error>)
    ensures done ==> r == VDynamicFrom(env, rank, columnNum, startRow, rowNum, list)
    ensures !done ==> r.Success? && VDynamicFrom(env, rank, columnNum, startRow, rowNum, list)
                                    == VDynamicFrom(env, rank, columnNum, startRow, rowNum + 1, r.value)
  {
    if rowNum > LastRowNum(env.sheet) + 1 {
      VDynamicStopped(env, rank, columnNum, startRow, rowNum, list);
      return true, Success(list);
    }
    var row := RowAt(env.sheet, rowNum - 1);
    if row.None? {
      return true, Failure(NullPointer(AbsentRow(rowNum)));
    }
    if IsEmptyCell(CellAt(row.value, rank.titleRank - 1)) {
      VDynamicStopped(env, rank, columnNum, startRow, rowNum, list);
      return true, Success(list);
    }
    var o := FillElement(env, rank.element, [(rowNum, rank.titleRank), (rowNum, columnNum)]);
    var earlier: Option<nat> := None;
    if o.Success? && rank.enableDuplicateCheck && |list| > 0 {
      earlier := FindEqual(list, o.value);
    }
    VDynamicNext(env, rank, columnNum, startRow, rowNum, list, o, earlier);
    if o.Failure? {
      return true, Failure(o.error);
    }
    if earlier.Some? {
      return true, Failure(Duplicate(env.sheetNo, AtRow(earlier.value + startRow), AtRow(rowNum)));
    }
    return false, Success(list + [o.value]);
  }

  /** getVerticalDynamicRank: one element per row while the header column `titleRank` has a cell, from `startRow` on. */
  method GetVerticalDynamicRank(env: Env, rank: DynamicRank, columnNum: int, startRow: int)
    returns (r: Result<seq<Record>, Error>)
    ensures r == VDynamic(env, rank, columnNum, startRow)
  {
    ghost var goal := VDynamic(env, rank, columnNum, startRow);
    var list: seq<Record> := [];
    var rowNum := startRow;
    while rowNum <= LastRowNum(env.sheet) + 1
      invariant VDynamicFrom(env, rank, columnNum, startRow, rowNum, list) == goal
      decreases LastRowNum(env.sheet) + 2 - rowNum
    {
      var done, next := VerticalDynamicStep(env, rank, columnNum, startRow, rowNum, list);
      if done {
        return next;
      }
      list := next.value;
      rowNum := rowNum + 1;
    }
    VDynamicStopped(env, rank, columnNum, startRow, rowNum, list);
    return Success(list);
  }

  // ----- Record mappers -----

  /** setHorizontalField: the value taken to a field and the number of columns it used up. */
  method SetHorizontalField(env: Env, fields: seq<Field>, rec: Record, field: Field, cell: Option<Cell>,
                            rowNum: int, columnNum: int) returns (r: Result<(FieldValue, nat), Error>)
    ensures r == HAssign(env, fields, rec, field, cell, rowNum, columnNum)
  {
    if field.dynamicRank.Some? {
      var list :- GetHorizontalDynamicRank(env, field.dynamicRank.value, rowNum, columnNum);
      return Success((Items(list), |list|));
    }
    var v :- GetVerifiedCellVal(env.cfg, env.lib, fields, rec, field, cell, env.sheetNo, rowNum, columnNum);
    return Success((Text(v), 1));
  }

  /** setVerticalField: the value taken to a field and the number of rows it used up. */
  method SetVerticalField(env: Env, fields: seq<Field>, rec: Record, field: Field, cell: Option<Cell>,
                          rowNum: int, columnNum: int) returns (r: Result<(FieldValue, nat), Error>)
    ensures r == VAssign(env, fields, rec, field, cell, rowNum, columnNum)
  {
    if field.dynamicRank.Some? {
      var list :- GetVerticalDynamicRank(env, field.dynamicRank.value, columnNum, rowNum);
      return Success((Items(list), |list|));
    }
    var v :- GetVerifiedCellVal(env.cfg, env.lib, fields, rec, field, cell, env.sheetNo, rowNum, columnNum);
    return Success((Text(v), 1));
  }

  /** The field loop of getHorizontalData: one entity from row `rowNum`, starting at `startColumn`. */
  method FillHorizontalFields(env: Env, fields: seq<Field>, row: Row, rowNum: int, startColumn: int)
    returns (r: Result<Record, Error>)
    ensures r == HFields(env, fields, row, rowNum, 0, startColumn, map[])
  {
    var t: Record := map[];
    var fieldIndex := 0;
    var columnNum := startColumn;
    while fieldIndex < |fields|
      invariant 0 <= fieldIndex <= |fields|
      invariant HFields(env, fields, row, rowNum, fieldIndex, columnNum, t) == HFields(env, fields, row, rowNum, 0, startColumn, map[])
      decreases |fields| - fieldIndex
    {
      if fields[fieldIndex].ignored {
        fieldIndex := fieldIndex + 1;
        continue;
      }
      var taken :- SetHorizontalField(env, fields, t, fields[fieldIndex], CellAt(row, columnNum - 1), rowNum, columnNum);
      t := t[fields[fieldIndex].name := taken.0];
      columnNum := columnNum + taken.1;
      fieldIndex := fieldIndex + 1;
    }
    return Success(t);
  }

  /** The field loop of getVerticalData: one entity from column `columnNum`, starting at `startRow`. */
  method FillVerticalFields(env: Env, fields: seq<Field>, columnNum: int, startRow: int)
    returns (r: Result<Record, Error>)
    ensures r == VFields(env, fields, columnNum, 0, startRow, map[])
  {
    var t: Record := map[];
    var fieldIndex := 0;
    var rowNum := startRow;
    while fieldIndex < |fields|
      invariant 0 <= fieldIndex <= |fields|
      invariant VFields(env, fields, columnNum, fieldIndex, rowNum, t) == VFields(env, fields, columnNum, 0, startRow, map[])
      decreases |fields| - fieldIndex
    {
      if fields[fieldIndex].ignored {
        fieldIndex := fieldIndex + 1;
        continue;
      }
      var cell := CellAtPos(env.sheet, rowNum, columnNum);
      if cell.Failure? {
        assert VAssigner(env, fields, columnNum)(fields[fieldIndex], rowNum, t) == Failure(cell.error);
        return Failure(cell.error);
      }
      var taken :- SetVerticalField(env, fields, t, fields[fieldIndex], cell.value, rowNum, columnNum);
      t := t[fields[fieldIndex].name := taken.0];
      rowNum := rowNum + taken.1;
      fieldIndex := fieldIndex + 1;
    }
    return Success(t);
  }

  // ----- Table loops -----

  /** The base-type loop of getHorizontalData: one value per row until the first empty leading cell. */
  method ReadHorizontalScalars(env: Env, startRow: int, startColumn: int, dedupe: bool)
    returns (r: Result<seq<string>, Error>)
    ensures r == HScalarsFrom(env, startRow, startColumn, dedupe, startRow, [])
  {
    var list: seq<string> := [];
    var rowNum := startRow;
    while rowNum <= LastRowNum(env.sheet) + 1
      invariant HScalarsFrom(env, startRow, startColumn, dedupe, rowNum, list) == HScalarsFrom(env, startRow, startColumn, dedupe, startRow, [])
      decreases LastRowNum(env.sheet) + 2 - rowNum
    {
      var row := RowAt(env.sheet, rowNum - 1);
      if row.None? {
        return Failure(NullPointer(AbsentRow(rowNum)));
      }
      var cell := CellAt(row.value, startColumn - 1);
      if IsEmptyCell(cell) {
        return Success(list);
      }
      var cellVal := PlainCellValue(cell, env.cfg, env.lib);
      if dedupe && |list| > 0 {
        var i := FindEqual(list, cellVal);
        if i.Some? {
          return Failure(Duplicate(env.sheetNo, AtRow(i.value + startRow), AtRow(rowNum)));
        }
      }
      list := list + [cellVal];
      rowNum := rowNum + 1;
    }
    return Success(list);
  }

  /**
   * One row of the entity loop of getHorizontalData: `done` with the reader's outcome
   * when the table ends, fails or repeats an entity at this row, otherwise the list
   * extended by this row's entity.
   */
  method HorizontalRecordStep(env: Env, fields: seq<Field>, startRow: int, startColumn: int, dedupe: bool,
                              rowNum: int, list: seq<Record>)
    returns (done: bool, r: Result<seq<Record>, Error>)
    requires rowNum <= LastRowNum(env.sheet) + 1
    ensures done ==> r == HRecordsFrom(env, fields, startRow, startColumn, dedupe, rowNum, list)
    ensures !done ==> r.Success? && HRecordsFrom(env, fields, startRow, startColumn, dedupe, rowNum, list)
                                    == HRecordsFrom(env, fields, startRow, startColumn, dedupe, rowNum + 1, r.value)
  {
    var row := RowAt(env.sheet, rowNum - 1);
    var empty := IsEmptyRow(row);
    if empty || (env.cfg.endTag != "" && env.cfg.endTag == PlainCellValue(CellAt(row.value, startColumn - 1), env.cfg, env.lib)) {
      HRecordsStop(env, fields, startRow, startColumn, dedupe, rowNum, list);
      return true, Success(list);
    }
    var fill := FillHorizontalFields(env, fields, row.value, rowNum, startColumn);
    if fill.Failure? {
      HRecordsFail(env, fields, startRow, startColumn, dedupe, rowNum, list);
      return true, Failure(fill.error);
    }
    var t := fill.value;
    var earlier: Option<nat> := None;
    if dedupe && |list| > 0 {
      earlier := FindEqual(list, t);
    }
    HRecordsNext(env, fields, startRow, startColumn, dedupe, rowNum, list, t, earlier);
    if earlier.Some? {
      return true, Failure(Duplicate(env.sheetNo, AtRow(earlier.value + startRow), AtRow(rowNum)));
    }
    return false, Success(list + [t]);
  }

  /** The entity loop of getHorizontalData: one entity per row until an empty row or the end tag. */
  method ReadHorizontalRecords(env: Env, fields: seq<Field>, startRow: int, startColumn: int, dedupe: bool)
    returns (r: Result<seq<Record>, Error>)
    ensures r == HRecordsFrom(env, fields, startRow, startColumn, dedupe, startRow, [])
  {
    var list: seq<Record> := [];
    var rowNum := startRow;
    while rowNum <= LastRowNum(env.sheet) + 1
      invariant HRecordsFrom(env, fields, startRow, startColumn, dedupe, rowNum, list)
             == HRecordsFrom(env, fields, startRow, startColumn, dedupe, startRow, [])
      decreases LastRowNum(env.sheet) + 2 - rowNum
    {
      var done, next := HorizontalRecordStep(env, fields, startRow, startColumn, dedupe, rowNum, list);
      if done {
        return next;
      }
      list := next.value;
      rowNum := rowNum + 1;
    }
    HRecordsStop(env, fields, startRow, startColumn, dedupe, rowNum, list);
    return Success(list);
  }

  /**
   * One column of the base-type loop of getVerticalData: `done` with the reader's outcome
   * when the header row ends or repeats a value at this column, otherwise the list
   * extended by this column's value.
   */
  method VerticalScalarStep(env: Env, header: Row, startColumn: int, dedupe: bool, columnNum: int, list: seq<string>)
    returns (done: bool, r: Result<seq<string>, Error>)
    ensures done ==> r == VScalarsFrom(env, header, startColumn, dedupe, columnNum, list)
    ensures !done ==> r.Success? && VScalarsFrom(env, header, startColumn, dedupe, columnNum, list)
                                    == VScalarsFrom(env, header, startColumn, dedupe, columnNum + 1, r.value)
  {
    if columnNum > LastCellNum(header) || IsEmptyCell(CellAt(header, columnNum - 1)) {
      VScalarsStop(env, header, startColumn, dedupe, columnNum, list);
      return true, Success(list);
    }
    var cellVal := PlainCellValue(CellAt(header, columnNum - 1), env.cfg, env.lib);
    var earlier: Option<nat> := None;
    if dedupe && |list| > 0 {
      earlier := FindEqual(list, cellVal);
    }
    VScalarsNext(env, header, startColumn, dedupe, columnNum, list, cellVal, earlier);
    if earlier.Some? {
      var earlierLabel := NumberToAlphabet(earlier.value + startColumn);
      var laterLabel := NumberToAlphabet(columnNum);
      return true, Failure(Duplicate(env.sheetNo, AtColumn(earlierLabel), AtColumn(laterLabel)));
    }
    return false, Success(list + [cellVal]);
  }

  /** The base-type loop of getVerticalData: one value per header cell until the first empty one. */
  method ReadVerticalScalars(env: Env, header: Row, startColumn: int, dedupe: bool)
    returns (r: Result<seq<string>, Error>)
    ensures r == VScalarsFrom(env, header, startColumn, dedupe, startColumn, [])
  {
    ghost var goal := VScalarsFrom(env, header, startColumn, dedupe, startColumn, []);
    var list: seq<string> := [];
    var columnNum := startColumn;
    while columnNum <= LastCellNum(header)
      invariant VScalarsFrom(env, header, startColumn, dedupe, columnNum, list) == goal
      decreases LastCellNum(header) + 1 - columnNum
    {
      var done, next := VerticalScalarStep(env, header, startColumn, dedupe, columnNum, list);
      if done {
        return next;
      }
      list := next.value;
      columnNum := columnNum + 1;
    }
    VScalarsStop(env, header, startColumn, dedupe, columnNum, list);
    return Success(list);
  }

  /**
   * One column of the entity loop of getVerticalData: `done` with the reader's outcome
   * when the table ends, fails or repeats an entity at this column, otherwise the list
   * extended by this column's entity.
   */
  method VerticalRecordStep(env: Env, header: Row, fields: seq<Field>, startRow: int, startColumn: int, dedupe: bool,
                            columnNum: int, list: seq<Record>)
    returns (done: bool, r: Result<seq<Record>, Error>)
    requires columnNum <= LastCellNum(header)
    ensures done ==> r == VRecordsFrom(env, header, fields, startRow, startColumn, dedupe, columnNum, list)
    ensures !done ==> r.Success? && VRecordsFrom(env, header, fields, startRow, startColumn, dedupe, columnNum, list)
                                    == VRecordsFrom(env, header, fields, startRow, startColumn, dedupe, columnNum + 1, r.value)
  {
    VRecordsFail(env, header, fields, startRow, startColumn, dedupe, columnNum, list);
    var empty := IsEmptyColumn(env.sheet, columnNum);
    if empty.Failure? {
      return true, Failure(empty.error);
    }
    if empty.value || (env.cfg.endTag != "" && env.cfg.endTag == PlainCellValue(CellAt(header, columnNum - 1), env.cfg, env.lib)) {
      VRecordsStop(env, header, fields, startRow, startColumn, dedupe, columnNum, list);
      return true, Success(list);
    }
    var fill := FillVerticalFields(env, fields, columnNum, startRow);
    if fill.Failure? {
      return true, Failure(fill.error);
    }
    var t := fill.value;
    var earlier: Option<nat> := None;
    if dedupe && |list| > 0 {
      earlier := FindEqual(list, t);
    }
    VRecordsNext(env, header, fields, startRow, startColumn, dedupe, columnNum, list, t, earlier);
    if earlier.Some? {
      var earlierLabel := NumberToAlphabet(earlier.value + startColumn);
      var laterLabel := NumberToAlphabet(columnNum);
      return true, Failure(Duplicate(env.sheetNo, AtColumn(earlierLabel), AtColumn(laterLabel)));
    }
    return false, Success(list + [t]);
  }

  /** The entity loop of getVerticalData: one entity per column until an empty column or the end tag. */
  method ReadVerticalRecords(env: Env, header: Row, fields: seq<Field>, startRow: int, startColumn: int, dedupe: bool)
    returns (r: Result<seq<Record>, Error>)
    ensures r == VRecordsFrom(env, header, fields, startRow, startColumn, dedupe, startColumn, [])
  {
    ghost var goal := VRecordsFrom(env, header, fields, startRow, startColumn, dedupe, startColumn, []);
    var list: seq<Record> := [];
    var columnNum := startColumn;
    while columnNum <= LastCellNum(header)
      invariant VRecordsFrom(env, header, fields, startRow, startColumn, dedupe, columnNum, list) == goal
      decreases LastCellNum(header) + 1 - columnNum
    {
      var done, next := VerticalRecordStep(env, header, fields, startRow, startColumn, dedupe, columnNum, list);
      if done {
        return next;
      }
      list := next.value;
      columnNum := columnNum + 1;
    }
    return Success(list);
  }

  // ----- The utility object -----

  /** The reader object: its configuration fields and the sheets initialize loaded (None until then). */
  class GetExcelUtil4 {
    var datePattern: string
    var numberFormat: string
    var sheets: Option<seq<Sheet>>
    var startTag: string
    var endTag: string

    /** A fresh object: default date and number formats, no tags, no sheets. */
    constructor ()
      ensures Config() == DefaultSettings && sheets.None?
    {
      datePattern := DefaultDatePattern;
      numberFormat := DefaultNumberFormat;
      sheets := None;
      startTag := "";
      endTag := "";
    }

    /** The configuration fields as one value. */
    function Config(): Settings
      reads this
    {
      Settings(datePattern, numberFormat, startTag, endTag)
    }

    /** initialize: loads the first `sheetNum` sheets of the upload, or throws and keeps the old sheets. */
    method Initialize(file: Option<Upload>, sheetNum: int) returns (r: Result<GetExcelUtil4, Error>)
      modifies this
      ensures Config() == old(Config())
      ensures Opened(file, sheetNum).Success? ==> r == Success(this) && sheets == Some(Opened(file, sheetNum).value)
      ensures Opened(file, sheetNum).Failure? ==> r == Failure(Opened(file, sheetNum).error) && sheets == old(sheets)
    {
      var loaded := OpenSheets(file, sheetNum);
      if loaded.Failure? {
        return Failure(loaded.error);
      }
      sheets := Some(loaded.value);
      return Success(this);
    }

    method SetDatePattern(pattern: string) returns (r: GetExcelUtil4)
      modifies this
      ensures r == this && Config() == old(Config()).(datePattern := pattern) && sheets == old(sheets)
    {
      datePattern := pattern;
      return this;
    }

    method SetNumberFormat(format: string) returns (r: GetExcelUtil4)
      modifies this
      ensures r == this && Config() == old(Config()).(numberFormat := format) && sheets == old(sheets)
    {
      numberFormat := format;
      return this;
    }

    method SetStartTag(tag: string) returns (r: GetExcelUtil4)
      modifies this
      ensures r == this && Config() == old(Config()).(startTag := tag) && sheets == old(sheets)
    {
      startTag := tag;
      return this;
    }

    method SetEndTag(tag: string) returns (r: GetExcelUtil4)
      modifies this
      ensures r == this && Config() == old(Config()).(endTag := tag) && sheets == old(sheets)
    {
      endTag := tag;
      return this;
    }

    /** getSheetName: the name of the 1-based sheet, if it was loaded. */
    method GetSheetName(sheetNo: int) returns (r: Result<string, Error>)
      requires sheetNo >= 1
      ensures sheets.None? ==> r == Failure(NullPointer(NoSheets))
      ensures sheets.Some? && sheetNo > |sheets.value| ==> r == Failure(SheetNoOutOfBounds)
      ensures sheets.Some? && sheetNo <= |sheets.value| ==> r == Success(sheets.value[sheetNo - 1].name)
    {
      if sheets.None? {
        return Failure(NullPointer(NoSheets));
      }
      if sheetNo > |sheets.value| {
        return Failure(SheetNoOutOfBounds);
      }
      return Success(sheets.value[sheetNo - 1].name);
    }

    /**
     * getHorizontalData(sheetNo, startRow, startColumn, clazz, enableDuplicateCheck);
     * the overload without the flag passes false.
     */
    method GetHorizontalData(lib: Library, sheetNo: int, startRow: int, startColumn: int, target: Target, dedupe: bool)
      returns (r: Result<seq<Entry>, Error>)
      requires sheetNo >= 1
      ensures sheets.None? ==> r == Failure(NullPointer(NoSheets))
      ensures sheets.Some? ==> r == HorizontalData(Config(), lib, sheets.value, sheetNo, startRow, startColumn, target, dedupe)
    {
      if sheets.None? {
        return Failure(NullPointer(NoSheets));
      }
      if sheetNo > |sheets.value| {
        return Failure(SheetNoOutOfBounds);
      }
      var env := Env(Config(), lib, sheets.value[sheetNo - 1], sheetNo);
      var startComment := Comment(env.sheet, startRow - 1, startColumn);
      if startComment.None? {
        return Failure(StartMismatch);
      }
      if startTag != "" && startTag != startComment.value {
        return Failure(StartMismatch);
      }
      var list: seq<Entry>;
      if IsBaseType(target.cls) {
        var values :- ReadHorizontalScalars(env, startRow, startColumn, dedupe);
        list := Scalars(values);
      } else {
        var records :- ReadHorizontalRecords(env, target.fields, startRow, startColumn, dedupe);
        list := Composites(records);
      }
      if |list| == 0 {
        return Failure(EmptyData);
      }
      return Success(list);
    }

    /**
     * getVerticalData(sheetNo, startRow, startColumn, clazz, enableDuplicateCheck);
     * the overload without the flag passes false.
     */
    method GetVerticalData(lib: Library, sheetNo: int, startRow: int, startColumn: int, target: Target, dedupe: bool)
      returns (r: Result<seq<Entry>, Error>)
      requires sheetNo >= 1
      ensures sheets.None? ==> r == Failure(NullPointer(NoSheets))
      ensures sheets.Some? ==> r == VerticalData(Config(), lib, sheets.value, sheetNo, startRow, startColumn, target, dedupe)
    {
      if sheets.None? {
        return Failure(NullPointer(NoSheets));
      }
      if sheetNo > |sheets.value| {
        return Failure(SheetNoOutOfBounds);
      }
      var env := Env(Config(), lib, sheets.value[sheetNo - 1], sheetNo);
      if startTag != "" {
        var comment := Comment(env.sheet, startRow, startColumn);
        if comment.None? {
          return Failure(NullPointer(AbsentComment(startRow, startColumn)));
        }
        if startTag == comment.value {
          return Failure(StartMismatch);
        }
      }
      var header := RowAt(env.sheet, startRow - 1);
      if header.None? {
        return Failure(NullPointer(AbsentRow(startRow)));
      }
      var list: seq<Entry>;
      if IsBaseType(target.cls) {
        var values :- ReadVerticalScalars(env, header.value, startColumn, dedupe);
        list := Scalars(values);
      } else {
        var records :- ReadVerticalRecords(env, header.value, target.fields, startRow, startColumn, dedupe);
        list := Composites(records);
      }
      if |list| == 0 {
        return Failure(EmptyData);
      }
      return Success(list);
    }
  }
}
