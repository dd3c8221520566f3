/**
 * The 4.1 engine as it runs: the GetExcelUtil4 object with its configuration
 * fields and loaded sheets, and the loops of its readers, each proved to compute
 * the function of the same name in Scan41.
 */
module Util41 {
  import opened Wrappers
  import opened Schema
  import opened Sheets
  import opened Validation41
  import opened Scan41
  import opened Workbooks
  import Scan42

  /**
   * The field loop of getHorizontalData (horizontal) or getVerticalData: one entity
   * from the window of `cellNum` cells starting at `start`. Where the source spins
   * forever, on a field left after the window is used up, Hangs is returned.
   */
  method FillFields(env: Env, fields: seq<Field>, horizontal: bool, fixed: int, start: int, cellNum: int)
    returns (r: Result<Record, Error>)
    ensures r == FieldsFrom(env, fields, horizontal, fixed, start, cellNum, 0, start, map[])
  {
    var t: Record := map[];
    var fieldIndex := 0;
    var pos := start;
    while fieldIndex < |fields|
      invariant 0 <= fieldIndex <= |fields|
      invariant FieldsFrom(env, fields, horizontal, fixed, start, cellNum, fieldIndex, pos, t)
             == FieldsFrom(env, fields, horizontal, fixed, start, cellNum, 0, start, map[])
      decreases |fields| - fieldIndex
    {
      if fields[fieldIndex].ignored {
        fieldIndex := fieldIndex + 1;
        continue;
      }
      if pos >= start + cellNum {
        return Failure(Hangs);
      }
      var v :- SlotValue(env, fields, t, fields[fieldIndex], Slot(horizontal, fixed, pos));
      t := t[fields[fieldIndex].name := Text(v)];
      pos := pos + 1;
      fieldIndex := fieldIndex + 1;
    }
    return Success(t);
  }

  /** The base-type loop of getHorizontalData: one value per row to the last row. */
  method ReadHorizontalScalars(env: Env, startRow: int, startColumn: int) returns (r: Result<seq<string>, Error>)
    ensures r == HScalarsFrom(env, startColumn, startRow, [])
  {
    var list: seq<string> := [];
    var rowNum := startRow;
    while rowNum <= LastRowNum(env.sheet) + 1
      invariant HScalarsFrom(env, startColumn, rowNum, list) == HScalarsFrom(env, startColumn, startRow, [])
      decreases LastRowNum(env.sheet) + 2 - rowNum
    {
      var row := RowAt(env.sheet, rowNum - 1);
      if row.None? {
        return Failure(NullPointer(AbsentRow(rowNum)));
      }
      var cellVal := PlainCellValue(CellAt(row.value, startColumn - 1), env.cfg, env.lib);
      list := list + [cellVal];
      rowNum := rowNum + 1;
    }
    return Success(list);
  }

  /** The entity loop of getHorizontalData: one entity per row until the end tag or the last row. */
  method ReadHorizontalRecords(env: Env, fields: seq<Field>, startColumn: int, cellNum: int, startRow: int)
    returns (r: Result<seq<Record>, Error>)
    ensures r == HRecordsFrom(env, fields, startColumn, cellNum, startRow, [])
  {
    var list: seq<Record> := [];
    var rowNum := startRow;
    while rowNum <= LastRowNum(env.sheet) + 1
      invariant HRecordsFrom(env, fields, startColumn, cellNum, rowNum, list)
             == HRecordsFrom(env, fields, startColumn, cellNum, startRow, [])
      decreases LastRowNum(env.sheet) + 2 - rowNum
    {
      var row := RowAt(env.sheet, rowNum - 1);
      var atEnd :- EndTagIn(env, row, rowNum, startColumn);
      if atEnd {
        return Success(list);
      }
      var t :- FillFields(env, fields, true, rowNum, startColumn, cellNum);
      list := list + [t];
      rowNum := rowNum + 1;
    }
    return Success(list);
  }

  /** The base-type loop of getVerticalData: one value per header cell to the last one. */
  method ReadVerticalScalars(env: Env, header: Row, startColumn: int) returns (r: seq<string>)
    ensures Success(r) == VScalarsFrom(env, header, startColumn, [])
  {
    var list: seq<string> := [];
    var columnNum := startColumn;
    while columnNum <= LastCellNum(header)
      invariant VScalarsFrom(env, header, columnNum, list) == VScalarsFrom(env, header, startColumn, [])
      decreases LastCellNum(header) + 1 - columnNum
    {
      var cellVal := PlainCellValue(CellAt(header, columnNum - 1), env.cfg, env.lib);
      list := list + [cellVal];
      columnNum := columnNum + 1;
    }
    return list;
  }

  /** The entity loop of getVerticalData: one entity per column until the end tag or the header's last cell. */
  method ReadVerticalRecords(env: Env, header: Row, fields: seq<Field>, startRow: int, cellNum: int, startColumn: int)
    returns (r: Result<seq<Record>, Error>)
    ensures r == VRecordsFrom(env, header, fields, startRow, cellNum, startColumn, [])
  {
    var list: seq<Record> := [];
    var columnNum := startColumn;
    while columnNum <= LastCellNum(header)
      invariant VRecordsFrom(env, header, fields, startRow, cellNum, columnNum, list)
             == VRecordsFrom(env, header, fields, startRow, cellNum, startColumn, [])
      decreases LastCellNum(header) + 1 - columnNum
    {
      var cellVal := PlainCellValue(CellAt(header, columnNum - 1), env.cfg, env.lib);
      if env.cfg.endTag != "" && env.cfg.endTag == cellVal {
        return Success(list);
      }
      var t :- FillFields(env, fields, false, columnNum, startRow, cellNum);
      list := list + [t];
      columnNum := columnNum + 1;
    }
    return Success(list);
  }

  class GetExcelUtil4 {
    var datePattern: string
    var numberFormat: string
    var sheets: Option<seq<Sheet>>
    var startTag: string
    var endTag: string

    /** A fresh object: default date and number formats, no tags, no sheets. */
    constructor ()
      ensures Config() == DefaultSettings && sheets.None?
    {
      datePattern := DefaultDatePattern;
      numberFormat := DefaultNumberFormat;
      sheets := None;
      startTag := "";
      endTag := "";
    }

    /** The configuration fields as one value. */
    function Config(): Settings
      reads this
    {
      Settings(datePattern, numberFormat, startTag, endTag)
    }

    /** initialize: loads the first `sheetNum` sheets of the upload, or throws and keeps the old sheets. */
    method Initialize(file: Option<Upload>, sheetNum: int) returns (r: Result<GetExcelUtil4, Error>)
      modifies this
      ensures Config() == old(Config())
      ensures Opened(file, sheetNum).Success? ==> r == Success(this) && sheets == Some(Opened(file, sheetNum).value)
      ensures Opened(file, sheetNum).Failure? ==> r == Failure(Opened(file, sheetNum).error) && sheets == old(sheets)
    {
      var loaded := OpenSheets(file, sheetNum);
      if loaded.Failure? {
        return Failure(loaded.error);
      }
      sheets := Some(loaded.value);
      return Success(this);
    }

    method SetDatePattern(pattern: string) returns (r: GetExcelUtil4)
      modifies this
      ensures r == this && Config() == old(Config()).(datePattern := pattern) && sheets == old(sheets)
    {
      datePattern := pattern;
      return this;
    }

    method SetNumberFormat(format: string) returns (r: GetExcelUtil4)
      modifies this
      ensures r == this && Config() == old(Config()).(numberFormat := format) && sheets == old(sheets)
    {
      numberFormat := format;
      return this;
    }

    method SetStartTag(tag: string) returns (r: GetExcelUtil4)
      modifies this
      ensures r == this && Config() == old(Config()).(startTag := tag) && sheets == old(sheets)
    {
      startTag := tag;
      return this;
    }

    method SetEndTag(tag: string) returns (r: GetExcelUtil4)
      modifies this
      ensures r == this && Config() == old(Config()).(endTag := tag) && sheets == old(sheets)
    {
      endTag := tag;
      return this;
    }

    /** getSheetName: the name of the 1-based sheet, if it was loaded. */
    method GetSheetName(sheetNo: int) returns (r: Result<string, Error>)
      requires sheetNo >= 1
      ensures sheets.None? ==> r == Failure(NullPointer(NoSheets))
      ensures sheets.Some? && sheetNo > |sheets.value| ==> r == Failure(SheetNoOutOfBounds)
      ensures sheets.Some? && sheetNo <= |sheets.value| ==> r == Success(sheets.value[sheetNo - 1].name)
    {
      if sheets.None? {
        return Failure(NullPointer(NoSheets));
      }
      if sheetNo > |sheets.value| {
        return Failure(SheetNoOutOfBounds);
      }
      return Success(sheets.value[sheetNo - 1].name);
    }

    /** getHorizontalData(sheetNo, startRow, startColumn, cellNum, clazz). */
    method GetHorizontalData(lib: Library, sheetNo: int, startRow: int, startColumn: int, cellNum: int, target: Target)
      returns (r: Result<seq<Entry>, Error>)
      requires sheetNo >= 1
      ensures sheets.None? ==> r == Failure(NullPointer(NoSheets))
      ensures sheets.Some? ==> r == HorizontalData(Config(), lib, sheets.value, sheetNo, startRow, startColumn, cellNum, target)
    {
      if sheets.None? {
        return Failure(NullPointer(NoSheets));
      }
      if sheetNo > |sheets.value| {
        return Failure(SheetNoOutOfBounds);
      }
      var env := Env(Config(), lib, sheets.value[sheetNo - 1], sheetNo);
      if startTag != "" {
        var comment :- CellComment(env.sheet, startRow, startColumn);
        if startTag != comment {
          return Failure(StartMismatch);
        }
      }
      var list: seq<Entry>;
      if IsBaseType(target.cls) {
        var values :- ReadHorizontalScalars(env, startRow, startColumn);
        list := Scan42.Scalars(values);
      } else {
        var records :- ReadHorizontalRecords(env, target.fields, startColumn, cellNum, startRow);
        list := Scan42.Composites(records);
      }
      if |list| == 0 {
        return Failure(EmptyData);
      }
      return Success(list);
    }

    /** getVerticalData(sheetNo, startRow, startColumn, cellNum, clazz). */
    method GetVerticalData(lib: Library, sheetNo: int, startRow: int, startColumn: int, cellNum: int, target: Target)
      returns (r: Result<seq<Entry>, Error>)
      requires sheetNo >= 1
      ensures sheets.None? ==> r == Failure(NullPointer(NoSheets))
      ensures sheets.Some? ==> r == VerticalData(Config(), lib, sheets.value, sheetNo, startRow, startColumn, cellNum, target)
    {
      if sheets.None? {
        return Failure(NullPointer(NoSheets));
      }
      if sheetNo > |sheets.value| {
        return Failure(SheetNoOutOfBounds);
      }
      var env := Env(Config(), lib, sheets.value[sheetNo - 1], sheetNo);
      if startTag != "" {
        var comment :- CellComment(env.sheet, startRow, startColumn);
        if startTag == comment {
          return Failure(StartMismatch);
        }
      }
      var header := RowAt(env.sheet, startRow - 1);
      if header.None? {
        return Failure(NullPointer(AbsentRow(startRow)));
      }
      var list: seq<Entry>;
      if IsBaseType(target.cls) {
        var values := ReadVerticalScalars(env, header.value, startColumn);
        list := Scan42.Scalars(values);
      } else {
        var records :- ReadVerticalRecords(env, header.value, target.fields, startRow, cellNum, startColumn);
        list := Scan42.Composites(records);
      }
      if |list| == 0 {
        return Failure(EmptyData);
      }
      return Success(list);
    }
  }
}
