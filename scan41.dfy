/**
 * What the 4.1 table readers compute, as functions: getHorizontalData and
 * getVerticalData with their fixed window of `cellNum` cells per entity. Each
 * loop is a function of its cursor and of the list read so far; the field loop
 * that would spin forever yields Hangs.
 */
module Scan41 {
  import opened Wrappers
  import opened Schema
  import opened Sheets
  import opened Validation41
  import Scan42

  // ----- One entity -----

  /** The cell at window position `pos`: (fixed row, column pos) horizontally, (row pos, fixed column) vertically. */
  function Slot(horizontal: bool, fixed: int, pos: int): (int, int) {
    if horizontal then (fixed, pos) else (pos, fixed)
  }

  /** Reading one field's cell: given the field, its window position and the entity so far, the value or the exception. */
  type SlotReader = (Field, int, Record) -> Result<string, Error>

  /**
   * The field loop of a 4.1 reader from field k at window position `pos`: ignored
   * fields are skipped; every other field takes the next cell of the window
   * [start, start + cellNum); a field left when the window is used up stalls the loop.
   */
  function WindowLoop(read: SlotReader, fields: seq<Field>, start: int, cellNum: int, k: nat, pos: int, rec: Record): Result<Record, Error>
    decreases |fields| - k
  {
    if k >= |fields| then Success(rec)
    else if fields[k].ignored then WindowLoop(read, fields, start, cellNum, k + 1, pos, rec)
    else if pos >= start + cellNum then Failure(Hangs)
    else
      var v :- read(fields[k], pos, rec);
      WindowLoop(read, fields, start, cellNum, k + 1, pos + 1, rec[fields[k].name := Text(v)])
  }

  /** setField on the cell at `at`: reading a missing row throws, and nothing here stalls. */
  function SlotValue(env: Env, fields: seq<Field>, rec: Record, field: Field, at: (int, int)): (r: Result<string, Error>)
    ensures r.Failure? ==> r.error != Hangs
  {
    var cell :- CellAtPos(env.sheet, at.0, at.1);
    VerifiedValue(env.cfg, env.lib, fields, rec, field, cell, env.sheetNo, at.0, at.1)
  }

  /** setField on the window's cells along row `fixed` (horizontally) or column `fixed` (vertically). */
  function SlotReaderOf(env: Env, fields: seq<Field>, horizontal: bool, fixed: int): SlotReader {
    (field: Field, pos: int, before: Record) => SlotValue(env, fields, before, field, Slot(horizontal, fixed, pos))
  }

  /** The field loop of a 4.1 reader along row (column) `fixed`. */
  function FieldsFrom(env: Env, fields: seq<Field>, horizontal: bool, fixed: int, start: int, cellNum: int,
                      k: nat, pos: int, rec: Record): Result<Record, Error>
  {
    WindowLoop(SlotReaderOf(env, fields, horizontal, fixed), fields, start, cellNum, k, pos, rec)
  }

  /** The number of fields from k on that are not ignored. */
  function Counted(fields: seq<Field>, k: nat): nat
    decreases |fields| - k
  {
    if k >= |fields| then 0
    else (if fields[k].ignored then 0 else 1) + Counted(fields, k + 1)
  }

  function Max0(n: int): nat {
    if n < 0 then 0 else n
  }

  /** The number of fields from k up to (not including) j that are not ignored: the window cells they take. */
  function Preceding(fields: seq<Field>, k: nat, j: nat): nat
  {
    if j <= k || j > |fields| then 0
    else Preceding(fields, k, j - 1) + (if fields[j - 1].ignored then 0 else 1)
  }

  /** The entity as it stood when field j was reached from field k: `rec` with r's values for the fields in between not ignored. */
  function Prior(fields: seq<Field>, r: Record, k: nat, j: nat, rec: Record): Record
  {
    if j <= k || j > |fields| then rec
    else
      var b := Prior(fields, r, k, j - 1, rec);
      if fields[j - 1].ignored || fields[j - 1].name !in r then b else b[fields[j - 1].name := r[fields[j - 1].name]]
  }

  // ----- The loops -----

  /** Whether the end tag is set and the leading cell of the row equals it; reading a missing row throws. */
  function EndTagIn(env: Env, row: Option<Row>, rowNum: int, startColumn: int): (r: Result<bool, Error>)
    ensures env.cfg.endTag == "" ==> r == Success(false)
  {
    if env.cfg.endTag == "" then Success(false)
    else if row.None? then Failure(NullPointer(AbsentRow(rowNum)))
    else Success(Scan42.AtEndTag(env, Scan42.TextAt(env, row.value, startColumn)))
  }

  /** getHorizontalData for a base type, from row `rowNum`: one value per row up to the last one, empty or not. */
  function HScalarsFrom(env: Env, startColumn: int, rowNum: int, acc: seq<string>): Result<seq<string>, Error>
    decreases LastRowNum(env.sheet) + 2 - rowNum
  {
    if rowNum > LastRowNum(env.sheet) + 1 then Success(acc)
    else match RowAt(env.sheet, rowNum - 1)
      case None => Failure(NullPointer(AbsentRow(rowNum)))
      case Some(row) => HScalarsFrom(env, startColumn, rowNum + 1, acc + [Scan42.TextAt(env, row, startColumn)])
  }

  /** getHorizontalData for an entity class, from row `rowNum`: one entity per row until the end tag or the last row. */
  function HRecordsFrom(env: Env, fields: seq<Field>, startColumn: int, cellNum: int,
                        rowNum: int, acc: seq<Record>): Result<seq<Record>, Error>
    decreases LastRowNum(env.sheet) + 2 - rowNum
  {
    if rowNum > LastRowNum(env.sheet) + 1 then Success(acc)
    else
      var atEnd :- EndTagIn(env, RowAt(env.sheet, rowNum - 1), rowNum, startColumn);
      if atEnd then Success(acc)
      else
        var t :- FieldsFrom(env, fields, true, rowNum, startColumn, cellNum, 0, startColumn, map[]);
        HRecordsFrom(env, fields, startColumn, cellNum, rowNum + 1, acc + [t])
  }

  /** getVerticalData for a base type, from column `columnNum`: one value per header cell up to the last one. */
  function VScalarsFrom(env: Env, header: Row, columnNum: int, acc: seq<string>): Result<seq<string>, Error>
    decreases LastCellNum(header) + 1 - columnNum
  {
    if columnNum > LastCellNum(header) then Success(acc)
    else VScalarsFrom(env, header, columnNum + 1, acc + [Scan42.TextAt(env, header, columnNum)])
  }

  /** getVerticalData for an entity class, from column `columnNum`: one entity per column until the end tag or the header's last cell. */
  function VRecordsFrom(env: Env, header: Row, fields: seq<Field>, startRow: int, cellNum: int,
                        columnNum: int, acc: seq<Record>): Result<seq<Record>, Error>
    decreases LastCellNum(header) + 1 - columnNum
  {
    if columnNum > LastCellNum(header) then Success(acc)
    else if Scan42.AtEndTag(env, Scan42.TextAt(env, header, columnNum)) then Success(acc)
    else
      var t :- FieldsFrom(env, fields, false, columnNum, startRow, cellNum, 0, startRow, map[]);
      VRecordsFrom(env, header, fields, startRow, cellNum, columnNum + 1, acc + [t])
  }

  // ----- The public readers -----

  /** getComment: the comment of the cell at 1-based (rowNo, columnNo); a missing row, cell or comment throws. */
  function CellComment(sheet: Sheet, rowNo: int, columnNo: int): (r: Result<string, Error>)
    ensures r.Success? ==> Comment(sheet, rowNo, columnNo) == Some(r.value)
  {
    match RowAt(sheet, rowNo - 1)
    case None => Failure(NullPointer(AbsentRow(rowNo)))
    case Some(row) =>
      if CellAt(row, columnNo - 1).None? then Failure(NullPointer(AbsentCell(rowNo, columnNo)))
      else match Comment(sheet, rowNo, columnNo)
        case None => Failure(NullPointer(AbsentComment(rowNo, columnNo)))
        case Some(c) => Success(c)
  }

  /** getHorizontalData(sheetNo, startRow, startColumn, cellNum, clazz) on the loaded sheets. */
  function HorizontalData(cfg: Settings, lib: Library, sheets: seq<Sheet>, sheetNo: int, startRow: int, startColumn: int,
                          cellNum: int, target: Target): Result<seq<Entry>, Error>
    requires sheetNo >= 1
  {
    if sheetNo > |sheets| then Failure(SheetNoOutOfBounds)
    else
      var env := Env(cfg, lib, sheets[sheetNo - 1], sheetNo);
      var comment := CellComment(env.sheet, startRow, startColumn);
      if cfg.startTag != "" && comment.Failure? then Failure(comment.error)
      else if cfg.startTag != "" && cfg.startTag != comment.value then Failure(StartMismatch)
      else if IsBaseType(target.cls) then
        var values :- HScalarsFrom(env, startColumn, startRow, []);
        Scan42.NonEmpty(Scan42.Scalars(values))
      else
        var records :- HRecordsFrom(env, target.fields, startColumn, cellNum, startRow, []);
        Scan42.NonEmpty(Scan42.Composites(records))
  }

  /**
   * getVerticalData(sheetNo, startRow, startColumn, cellNum, clazz). The start check
   * rejects the table when the comment EQUALS the start tag.
   */
  function VerticalData(cfg: Settings, lib: Library, sheets: seq<Sheet>, sheetNo: int, startRow: int, startColumn: int,
                        cellNum: int, target: Target): Result<seq<Entry>, Error>
    requires sheetNo >= 1
  {
    if sheetNo > |sheets| then Failure(SheetNoOutOfBounds)
    else
      var env := Env(cfg, lib, sheets[sheetNo - 1], sheetNo);
      var comment := CellComment(env.sheet, startRow, startColumn);
      if cfg.startTag != "" && comment.Failure? then Failure(comment.error)
      else if cfg.startTag != "" && cfg.startTag == comment.value then Failure(StartMismatch)
      else match RowAt(env.sheet, startRow - 1)
        case None => Failure(NullPointer(AbsentRow(startRow)))
        case Some(header) =>
          if IsBaseType(target.cls) then
            var values :- VScalarsFrom(env, header, startColumn, []);
            Scan42.NonEmpty(Scan42.Scalars(values))
          else
            var records :- VRecordsFrom(env, header, target.fields, startRow, cellNum, startColumn, []);
            Scan42.NonEmpty(Scan42.Composites(records))
  }

  // ----- The field loop -----

  /** A reader that never reports a stall itself. */
  ghost predicate NeverHangs(read: SlotReader) {
    forall field, pos, before :: read(field, pos, before).Failure? ==> read(field, pos, before).error != Hangs
  }

  /** The field loop stalls only when more fields not ignored than cells are left. */
  lemma {:induction false} HangsOnlyWhenTooSmall(read: SlotReader, fields: seq<Field>, start: int, cellNum: int,
                                                 k: nat, pos: int, rec: Record)
    requires NeverHangs(read)
    requires WindowLoop(read, fields, start, cellNum, k, pos, rec) == Failure(Hangs)
    ensures Counted(fields, k) > Max0(start + cellNum - pos)
    decreases |fields| - k
  {
    if fields[k].ignored {
      HangsOnlyWhenTooSmall(read, fields, start, cellNum, k + 1, pos, rec);
    } else if pos < start + cellNum {
      var v := read(fields[k], pos, rec);
      HangsOnlyWhenTooSmall(read, fields, start, cellNum, k + 1, pos + 1, rec[fields[k].name := Text(v.value)]);
    }
  }

  /** With more fields not ignored than cells left, the field loop never returns an entity. */
  lemma {:induction false} TooSmallFails(read: SlotReader, fields: seq<Field>, start: int, cellNum: int,
                                         k: nat, pos: int, rec: Record)
    requires Counted(fields, k) > Max0(start + cellNum - pos)
    ensures WindowLoop(read, fields, start, cellNum, k, pos, rec).Failure?
    decreases |fields| - k
  {
    if fields[k].ignored {
      TooSmallFails(read, fields, start, cellNum, k + 1, pos, rec);
    } else if pos < start + cellNum {
      var v := read(fields[k], pos, rec);
      if v.Success? {
        TooSmallFails(read, fields, start, cellNum, k + 1, pos + 1, rec[fields[k].name := Text(v.value)]);
      }
    }
  }

  /**
   * The field loop stalls exactly when the window runs out: Hangs only when more
   * fields than cells are left, and with more fields than cells left it never
   * returns an entity.
   */
  lemma HangsIffWindowTooSmall(env: Env, fields: seq<Field>, horizontal: bool, fixed: int, start: int,
                               cellNum: int, k: nat, pos: int, rec: Record)
    ensures FieldsFrom(env, fields, horizontal, fixed, start, cellNum, k, pos, rec) == Failure(Hangs) ==>
      Counted(fields, k) > Max0(start + cellNum - pos)
    ensures Counted(fields, k) > Max0(start + cellNum - pos) ==>
      FieldsFrom(env, fields, horizontal, fixed, start, cellNum, k, pos, rec).Failure?
  {
    var read := SlotReaderOf(env, fields, horizontal, fixed);
    if FieldsFrom(env, fields, horizontal, fixed, start, cellNum, k, pos, rec) == Failure(Hangs) {
      assert NeverHangs(read);
      HangsOnlyWhenTooSmall(read, fields, start, cellNum, k, pos, rec);
    }
    if Counted(fields, k) > Max0(start + cellNum - pos) {
      TooSmallFails(read, fields, start, cellNum, k, pos, rec);
    }
  }

  /** The keys an entity gains in the field loop are the names of the fields not ignored. */
  lemma {:induction false} WindowKeys(read: SlotReader, fields: seq<Field>, start: int, cellNum: int,
                                      k: nat, pos: int, rec: Record)
    requires WindowLoop(read, fields, start, cellNum, k, pos, rec).Success?
    ensures WindowLoop(read, fields, start, cellNum, k, pos, rec).value.Keys == rec.Keys + Scan42.Names(fields, k)
    decreases |fields| - k
  {
    if k < |fields| {
      if fields[k].ignored {
        WindowKeys(read, fields, start, cellNum, k + 1, pos, rec);
      } else {
        var v := read(fields[k], pos, rec).value;
        WindowKeys(read, fields, start, cellNum, k + 1, pos + 1, rec[fields[k].name := Text(v)]);
      }
    }
  }

  /** A field loop that succeeds had a cell of the window for each field not ignored. */
  lemma {:induction false} WindowLarge(read: SlotReader, fields: seq<Field>, start: int, cellNum: int,
                                       k: nat, pos: int, rec: Record)
    requires WindowLoop(read, fields, start, cellNum, k, pos, rec).Success?
    ensures Counted(fields, k) <= Max0(start + cellNum - pos)
    decreases |fields| - k
  {
    if k < |fields| {
      if fields[k].ignored {
        WindowLarge(read, fields, start, cellNum, k + 1, pos, rec);
      } else {
        var v := read(fields[k], pos, rec).value;
        WindowLarge(read, fields, start, cellNum, k + 1, pos + 1, rec[fields[k].name := Text(v)]);
      }
    }
  }

  /** An entry of the entity that no field from k on is named after keeps its value. */
  lemma {:induction false} WindowKeep(read: SlotReader, fields: seq<Field>, start: int, cellNum: int,
                                      k: nat, pos: int, rec: Record, r: Record, n: string)
    requires WindowLoop(read, fields, start, cellNum, k, pos, rec) == Success(r)
    requires n in rec && n !in Scan42.Names(fields, k)
    ensures n in r && r[n] == rec[n]
    decreases |fields| - k
  {
    if k < |fields| {
      if fields[k].ignored {
        WindowKeep(read, fields, start, cellNum, k + 1, pos, rec, r, n);
      } else {
        var v := read(fields[k], pos, rec).value;
        WindowKeep(read, fields, start, cellNum, k + 1, pos + 1, rec[fields[k].name := Text(v)], r, n);
      }
    }
  }

  /**
   * Past field k, the field loop's window position stands one cell further on when
   * the field is not ignored, with the text it read from the cell at `pos` in the entity.
   */
  lemma WindowPast(read: SlotReader, fields: seq<Field>, start: int, cellNum: int,
                   k: nat, pos: int, rec: Record, r: Record)
    requires Scan42.UniqueNames(fields) && k < |fields|
    requires WindowLoop(read, fields, start, cellNum, k, pos, rec) == Success(r)
    ensures !fields[k].ignored ==>
      && pos < start + cellNum
      && read(fields[k], pos, rec).Success?
      && fields[k].name in r && r[fields[k].name] == Text(read(fields[k], pos, rec).value)
    ensures var skip := fields[k].ignored;
      WindowLoop(read, fields, start, cellNum, k + 1, if skip then pos else pos + 1,
                 if skip then rec else rec[fields[k].name := r[fields[k].name]]) == Success(r)
  {
    if !fields[k].ignored {
      var v := read(fields[k], pos, rec).value;
      Scan42.NameNotLater(fields, k, k + 1);
      WindowKeep(read, fields, start, cellNum, k + 1, pos + 1, rec[fields[k].name := Text(v)], r, fields[k].name);
    }
  }

  /** Preceding and Prior one field further on: field j adds a cell and its value, unless it is ignored. */
  lemma PriorNext(fields: seq<Field>, r: Record, k: nat, j: nat, rec: Record)
    requires k <= j < |fields|
    ensures Preceding(fields, k, j + 1) == Preceding(fields, k, j) + (if fields[j].ignored then 0 else 1)
    ensures Prior(fields, r, k, j + 1, rec)
            == (if fields[j].ignored || fields[j].name !in r then Prior(fields, r, k, j, rec)
                else Prior(fields, r, k, j, rec)[fields[j].name := r[fields[j].name]])
  {
  }

  /**
   * The window position of the field loop: when it reaches field j, it stands one
   * cell further on for each field in between not ignored, with the entity as those
   * fields left it.
   */
  lemma {:induction false} WindowCursor(read: SlotReader, fields: seq<Field>, start: int, cellNum: int,
                                        k: nat, pos: int, rec: Record, r: Record, j: nat)
    requires Scan42.UniqueNames(fields) && k <= j <= |fields|
    requires WindowLoop(read, fields, start, cellNum, k, pos, rec) == Success(r)
    ensures WindowLoop(read, fields, start, cellNum, j, pos + Preceding(fields, k, j), Prior(fields, r, k, j, rec)) == Success(r)
  {
    if j > k {
      var i := j - 1;
      var at, b := pos + Preceding(fields, k, i), Prior(fields, r, k, i, rec);
      WindowCursor(read, fields, start, cellNum, k, pos, rec, r, i);
      PriorNext(fields, r, k, i, rec);
      WindowPast(read, fields, start, cellNum, i, at, b, r);
      if fields[i].ignored {
        assert pos + Preceding(fields, k, j) == at;
        assert Prior(fields, r, k, j, rec) == b;
      } else {
        assert pos + Preceding(fields, k, j) == at + 1;
        assert Prior(fields, r, k, j, rec) == b[fields[i].name := r[fields[i].name]];
      }
    }
  }

  /**
   * The n-th field not ignored from k on reads the cell at window position pos + n,
   * which lies inside the window, and holds the text read there.
   */
  lemma WindowRead(read: SlotReader, fields: seq<Field>, start: int, cellNum: int,
                   k: nat, pos: int, rec: Record, r: Record, j: nat)
    requires Scan42.UniqueNames(fields) && k <= j < |fields| && !fields[j].ignored
    requires WindowLoop(read, fields, start, cellNum, k, pos, rec) == Success(r)
    ensures pos + Preceding(fields, k, j) < start + cellNum
    ensures read(fields[j], pos + Preceding(fields, k, j), Prior(fields, r, k, j, rec)).Success?
    ensures fields[j].name in r
    ensures r[fields[j].name] == Text(read(fields[j], pos + Preceding(fields, k, j), Prior(fields, r, k, j, rec)).value)
  {
    WindowCursor(read, fields, start, cellNum, k, pos, rec, r, j);
    WindowPast(read, fields, start, cellNum, j, pos + Preceding(fields, k, j), Prior(fields, r, k, j, rec), r);
  }

  /**
   * Field j of an entity r the 4.1 field loop built from field k at window position
   * `pos`: it read the cell at pos plus the fields in between not ignored, inside the
   * window, and holds setField's text for it, given the entity as the earlier fields left it.
   */
  predicate WindowFilled(env: Env, fields: seq<Field>, horizontal: bool, fixed: int, start: int, cellNum: int,
                         k: nat, pos: int, rec: Record, r: Record, j: int)
    requires 0 <= j < |fields|
  {
    var at := pos + Preceding(fields, k, j);
    var got := SlotValue(env, fields, Prior(fields, r, k, j, rec), fields[j], Slot(horizontal, fixed, at));
    && at < start + cellNum
    && got.Success?
    && fields[j].name in r
    && r[fields[j].name] == Text(got.value)
  }

  /** Where the 4.1 field loop reads field j not ignored, names being unique. */
  lemma FieldRead(env: Env, fields: seq<Field>, horizontal: bool, fixed: int, start: int,
                  cellNum: int, k: nat, pos: int, rec: Record, r: Record, j: nat)
    requires Scan42.UniqueNames(fields) && k <= j < |fields| && !fields[j].ignored
    requires FieldsFrom(env, fields, horizontal, fixed, start, cellNum, k, pos, rec) == Success(r)
    ensures WindowFilled(env, fields, horizontal, fixed, start, cellNum, k, pos, rec, r, j)
  {
    WindowRead(SlotReaderOf(env, fields, horizontal, fixed), fields, start, cellNum, k, pos, rec, r, j);
  }

  /** An entity is read only when the window holds a cell for each field not ignored. */
  lemma EntityWindow(env: Env, fields: seq<Field>, horizontal: bool, fixed: int, start: int, cellNum: int, t: Record)
    requires FieldsFrom(env, fields, horizontal, fixed, start, cellNum, 0, start, map[]) == Success(t)
    ensures Counted(fields, 0) <= Max0(cellNum)
  {
    WindowLarge(SlotReaderOf(env, fields, horizontal, fixed), fields, start, cellNum, 0, start, map[]);
  }

  /**
   * An entity the field loop returns has a value for exactly the fields not ignored
   * (besides those it started with), and the window held a cell for each. With
   * unique names (as in a class), the n-th field not ignored from k on holds
   * setField's text for the window cell at pos + n.
   */
  lemma FieldsFromFills(env: Env, fields: seq<Field>, horizontal: bool, fixed: int, start: int,
                        cellNum: int, k: nat, pos: int, rec: Record)
    requires FieldsFrom(env, fields, horizontal, fixed, start, cellNum, k, pos, rec).Success?
    ensures FieldsFrom(env, fields, horizontal, fixed, start, cellNum, k, pos, rec).value.Keys == rec.Keys + Scan42.Names(fields, k)
    ensures Counted(fields, k) <= Max0(start + cellNum - pos)
    ensures var r := FieldsFrom(env, fields, horizontal, fixed, start, cellNum, k, pos, rec).value;
      Scan42.UniqueNames(fields) ==>
        forall j {:trigger WindowFilled(env, fields, horizontal, fixed, start, cellNum, k, pos, rec, r, j)} ::
          k <= j < |fields| && !fields[j].ignored ==> WindowFilled(env, fields, horizontal, fixed, start, cellNum, k, pos, rec, r, j)
  {
    var r := FieldsFrom(env, fields, horizontal, fixed, start, cellNum, k, pos, rec).value;
    WindowKeys(SlotReaderOf(env, fields, horizontal, fixed), fields, start, cellNum, k, pos, rec);
    WindowLarge(SlotReaderOf(env, fields, horizontal, fixed), fields, start, cellNum, k, pos, rec);
    if Scan42.UniqueNames(fields) {
      forall j | k <= j < |fields| && !fields[j].ignored {
        FieldRead(env, fields, horizontal, fixed, start, cellNum, k, pos, rec, r, j);
      }
    }
  }

  // ----- What the loops read -----

  /** Entry i of a horizontal base-type scan: the leading cell of row startRow + i, which exists. */
  predicate HScalarAt(env: Env, startRow: int, startColumn: int, i: int, v: string) {
    RowAt(env.sheet, startRow + i - 1).Some? && v == Scan42.TextAt(env, RowAt(env.sheet, startRow + i - 1).value, startColumn)
  }

  /**
   * A horizontal base-type scan reads every row to the last one, empty or not, and
   * throws exactly when one of them is missing.
   */
  lemma {:induction false} HScalarsFromMeaning(env: Env, startRow: int, startColumn: int, rowNum: int, acc: seq<string>)
    requires rowNum == startRow + |acc|
    ensures var r := HScalarsFrom(env, startColumn, rowNum, acc);
      && (r.Success? <==> forall j :: rowNum - 1 <= j <= LastRowNum(env.sheet) ==> RowAt(env.sheet, j).Some?)
      && (r.Success? ==> |r.value| == |acc| + Max0(LastRowNum(env.sheet) + 2 - rowNum) && r.value[..|acc|] == acc
                         && forall i :: |acc| <= i < |r.value| ==> HScalarAt(env, startRow, startColumn, i, r.value[i]))
    decreases LastRowNum(env.sheet) + 2 - rowNum
  {
    if rowNum <= LastRowNum(env.sheet) + 1 && RowAt(env.sheet, rowNum - 1).Some? {
      var v := Scan42.TextAt(env, RowAt(env.sheet, rowNum - 1).value, startColumn);
      assert HScalarsFrom(env, startColumn, rowNum, acc) == HScalarsFrom(env, startColumn, rowNum + 1, acc + [v]);
      HScalarsFromMeaning(env, startRow, startColumn, rowNum + 1, acc + [v]);
      var r := HScalarsFrom(env, startColumn, rowNum, acc);
      if r.Success? {
        Scan42.PrefixExtends(acc, v, r.value);
        forall i | |acc| <= i < |r.value|
          ensures HScalarAt(env, startRow, startColumn, i, r.value[i])
        {
          if i == |acc| {
            assert HScalarAt(env, startRow, startColumn, |acc|, v);
          }
        }
      }
    }
  }

  /** A vertical base-type scan never fails: it reads every header cell from `columnNum` to the last one. */
  lemma {:induction false} VScalarsFromMeaning(env: Env, header: Row, startColumn: int, columnNum: int, acc: seq<string>)
    requires columnNum == startColumn + |acc|
    ensures var r := VScalarsFrom(env, header, columnNum, acc);
      && r.Success? && |r.value| == |acc| + Max0(LastCellNum(header) + 1 - columnNum) && r.value[..|acc|] == acc
      && forall i :: |acc| <= i < |r.value| ==> r.value[i] == Scan42.TextAt(env, header, startColumn + i)
    decreases LastCellNum(header) + 1 - columnNum
  {
    if columnNum <= LastCellNum(header) {
      var v := Scan42.TextAt(env, header, columnNum);
      VScalarsFromMeaning(env, header, startColumn, columnNum + 1, acc + [v]);
      Scan42.PrefixExtends(acc, v, VScalarsFrom(env, header, columnNum + 1, acc + [v]).value);
    }
  }

  /** The row that ends a horizontal entity scan: past the last row, or the end tag (never an empty row). */
  predicate HRecordStop(env: Env, startColumn: int, rowNum: int) {
    rowNum > LastRowNum(env.sheet) + 1 || EndTagIn(env, RowAt(env.sheet, rowNum - 1), rowNum, startColumn) == Success(true)
  }

  /** Entry i of a horizontal entity scan: the field loop's result on row startRow + i, which is not the end tag. */
  predicate HRecordAt(env: Env, fields: seq<Field>, startRow: int, startColumn: int, cellNum: int, i: int, t: Record) {
    var rowNum := startRow + i;
    rowNum <= LastRowNum(env.sheet) + 1 && EndTagIn(env, RowAt(env.sheet, rowNum - 1), rowNum, startColumn) == Success(false)
    && FieldsFrom(env, fields, true, rowNum, startColumn, cellNum, 0, startColumn, map[]) == Success(t)
  }


  /** Without an end tag, the scan whose last entity is entry i and which then stops has read every row to the last. */
  lemma HRecordsToLastRow(env: Env, fields: seq<Field>, startRow: int, startColumn: int, cellNum: int, i: int, t: Record)
    requires env.cfg.endTag == ""
    requires HRecordAt(env, fields, startRow, startColumn, cellNum, i, t)
    requires HRecordStop(env, startColumn, startRow + i + 1)
    ensures i + 1 == LastRowNum(env.sheet) + 2 - startRow
  {
  }

  /** A horizontal entity scan that succeeds, at a row that goes on: the row's entity is read and appended. */
  lemma HRecordsStep(env: Env, fields: seq<Field>, startColumn: int, cellNum: int, rowNum: int, acc: seq<Record>)
    requires HRecordsFrom(env, fields, startColumn, cellNum, rowNum, acc).Success?
    requires rowNum <= LastRowNum(env.sheet) + 1
    requires EndTagIn(env, RowAt(env.sheet, rowNum - 1), rowNum, startColumn) == Success(false)
    ensures FieldsFrom(env, fields, true, rowNum, startColumn, cellNum, 0, startColumn, map[]).Success?
    ensures HRecordsFrom(env, fields, startColumn, cellNum, rowNum, acc)
         == HRecordsFrom(env, fields, startColumn, cellNum, rowNum + 1,
                         acc + [FieldsFrom(env, fields, true, rowNum, startColumn, cellNum, 0, startColumn, map[]).value])
  {
  }

  /** A horizontal entity scan that does not go on at this row returns what it has read, and stops there. */
  lemma HRecordsEnded(env: Env, fields: seq<Field>, startColumn: int, cellNum: int, rowNum: int, acc: seq<Record>, r: seq<Record>)
    requires HRecordsFrom(env, fields, startColumn, cellNum, rowNum, acc) == Success(r)
    requires !(rowNum <= LastRowNum(env.sheet) + 1
               && EndTagIn(env, RowAt(env.sheet, rowNum - 1), rowNum, startColumn) == Success(false))
    ensures r == acc && HRecordStop(env, startColumn, rowNum)
  {
  }

  /** A horizontal entity scan appends one entity per consecutive row up to the end tag or the last row. */
  lemma {:induction false} HRecordsFromMeaning(env: Env, fields: seq<Field>, startRow: int, startColumn: int, cellNum: int,
                                               rowNum: int, acc: seq<Record>, r: seq<Record>)
    requires rowNum == startRow + |acc|
    requires HRecordsFrom(env, fields, startColumn, cellNum, rowNum, acc) == Success(r)
    ensures |acc| <= |r| && r[..|acc|] == acc
    ensures forall i :: |acc| <= i < |r| ==> HRecordAt(env, fields, startRow, startColumn, cellNum, i, r[i])
    ensures HRecordStop(env, startColumn, startRow + |r|)
    decreases LastRowNum(env.sheet) + 2 - rowNum
  {
    if rowNum <= LastRowNum(env.sheet) + 1 && EndTagIn(env, RowAt(env.sheet, rowNum - 1), rowNum, startColumn) == Success(false) {
      HRecordsStep(env, fields, startColumn, cellNum, rowNum, acc);
      var t := FieldsFrom(env, fields, true, rowNum, startColumn, cellNum, 0, startColumn, map[]).value;
      HRecordsFromMeaning(env, fields, startRow, startColumn, cellNum, rowNum + 1, acc + [t], r);
      Scan42.PrefixExtends(acc, t, r);
      forall i | |acc| <= i < |r|
        ensures HRecordAt(env, fields, startRow, startColumn, cellNum, i, r[i])
      {
        if i == |acc| {
          assert HRecordAt(env, fields, startRow, startColumn, cellNum, |acc|, t);
        }
      }
    } else {
      HRecordsEnded(env, fields, startColumn, cellNum, rowNum, acc, r);
    }
  }

  /** The column that ends a vertical entity scan: past the header's last cell, or the end tag in the header row. */
  predicate VRecordStop(env: Env, header: Row, columnNum: int) {
    columnNum > LastCellNum(header) || Scan42.AtEndTag(env, Scan42.TextAt(env, header, columnNum))
  }

  /** Entry i of a vertical entity scan: the field loop's result on column startColumn + i, which does not end the scan. */
  predicate VRecordAt(env: Env, header: Row, fields: seq<Field>, startRow: int, startColumn: int, cellNum: int, i: int, t: Record) {
    !VRecordStop(env, header, startColumn + i)
    && FieldsFrom(env, fields, false, startColumn + i, startRow, cellNum, 0, startRow, map[]) == Success(t)
  }


  /** A vertical entity scan that succeeds, at a column that goes on: the column's entity is read and appended. */
  lemma VRecordsStep(env: Env, header: Row, fields: seq<Field>, startRow: int, cellNum: int, columnNum: int, acc: seq<Record>)
    requires VRecordsFrom(env, header, fields, startRow, cellNum, columnNum, acc).Success?
    requires !VRecordStop(env, header, columnNum)
    ensures FieldsFrom(env, fields, false, columnNum, startRow, cellNum, 0, startRow, map[]).Success?
    ensures VRecordsFrom(env, header, fields, startRow, cellNum, columnNum, acc)
         == VRecordsFrom(env, header, fields, startRow, cellNum, columnNum + 1,
                         acc + [FieldsFrom(env, fields, false, columnNum, startRow, cellNum, 0, startRow, map[]).value])
  {
  }

  /** A vertical entity scan at the column that ends it returns what it has read. */
  lemma VRecordsEnded(env: Env, header: Row, fields: seq<Field>, startRow: int, cellNum: int, columnNum: int, acc: seq<Record>)
    requires VRecordStop(env, header, columnNum)
    ensures VRecordsFrom(env, header, fields, startRow, cellNum, columnNum, acc) == Success(acc)
  {
  }

  /** A vertical entity scan appends one entity per consecutive column up to the end tag or the header's last cell. */
  lemma {:induction false} VRecordsFromMeaning(env: Env, header: Row, fields: seq<Field>, startRow: int, startColumn: int, cellNum: int,
                                               columnNum: int, acc: seq<Record>, r: seq<Record>)
    requires columnNum == startColumn + |acc|
    requires VRecordsFrom(env, header, fields, startRow, cellNum, columnNum, acc) == Success(r)
    ensures |acc| <= |r| && r[..|acc|] == acc
    ensures forall i :: |acc| <= i < |r| ==> VRecordAt(env, header, fields, startRow, startColumn, cellNum, i, r[i])
    ensures VRecordStop(env, header, startColumn + |r|)
    decreases LastCellNum(header) + 1 - columnNum
  {
    if !VRecordStop(env, header, columnNum) {
      VRecordsStep(env, header, fields, startRow, cellNum, columnNum, acc);
      var t := FieldsFrom(env, fields, false, columnNum, startRow, cellNum, 0, startRow, map[]).value;
      VRecordsFromMeaning(env, header, fields, startRow, startColumn, cellNum, columnNum + 1, acc + [t], r);
      Scan42.PrefixExtends(acc, t, r);
      forall i | |acc| <= i < |r|
        ensures VRecordAt(env, header, fields, startRow, startColumn, cellNum, i, r[i])
      {
        if i == |acc| {
          assert VRecordAt(env, header, fields, startRow, startColumn, cellNum, |acc|, t);
        }
      }
    } else {
      VRecordsEnded(env, header, fields, startRow, cellNum, columnNum, acc);
    }
  }

  /**
   * The all-empty test of 4.1 looks at the entity object, which is never null: an
   * empty row is read as an entity, where 4.2 ends the table there.
   */
  lemma EmptyRowIsRead(env: Env, fields: seq<Field>, startRow: int, startColumn: int, cellNum: int, dedupe: bool,
                       rowNum: int, acc: seq<Record>, t: Record)
    requires rowNum <= LastRowNum(env.sheet) + 1 && RowAt(env.sheet, rowNum - 1).Some? && EmptyRow(RowAt(env.sheet, rowNum - 1))
    requires EndTagIn(env, RowAt(env.sheet, rowNum - 1), rowNum, startColumn) == Success(false)
    requires FieldsFrom(env, fields, true, rowNum, startColumn, cellNum, 0, startColumn, map[]) == Success(t)
    ensures HRecordsFrom(env, fields, startColumn, cellNum, rowNum, acc) == HRecordsFrom(env, fields, startColumn, cellNum, rowNum + 1, acc + [t])
    ensures Scan42.HRecordsFrom(env, fields, startRow, startColumn, dedupe, rowNum, acc) == Success(acc)
  {
  }

  // ----- The public readers -----

  /** A reader that succeeds returns at least one entry, and a sheet number past the loaded sheets fails. */
  lemma ReadersNeverReturnEmpty(cfg: Settings, lib: Library, sheets: seq<Sheet>, sheetNo: int, startRow: int, startColumn: int,
                                cellNum: int, target: Target)
    requires sheetNo >= 1
    ensures HorizontalData(cfg, lib, sheets, sheetNo, startRow, startColumn, cellNum, target).Success? ==>
      HorizontalData(cfg, lib, sheets, sheetNo, startRow, startColumn, cellNum, target).value != []
    ensures VerticalData(cfg, lib, sheets, sheetNo, startRow, startColumn, cellNum, target).Success? ==>
      VerticalData(cfg, lib, sheets, sheetNo, startRow, startColumn, cellNum, target).value != []
    ensures sheetNo > |sheets| ==>
      HorizontalData(cfg, lib, sheets, sheetNo, startRow, startColumn, cellNum, target) == Failure(SheetNoOutOfBounds)
      && VerticalData(cfg, lib, sheets, sheetNo, startRow, startColumn, cellNum, target) == Failure(SheetNoOutOfBounds)
  {
  }

  /**
   * The start tag, when set, is compared with the comment of the first data cell:
   * horizontally a different comment rejects the table, vertically an equal one does;
   * a missing row, cell or comment throws.
   */
  lemma StartTagChecks(cfg: Settings, lib: Library, sheets: seq<Sheet>, sheetNo: int, startRow: int, startColumn: int,
                       cellNum: int, target: Target)
    requires 1 <= sheetNo <= |sheets| && cfg.startTag != ""
    ensures var c := CellComment(sheets[sheetNo - 1], startRow, startColumn);
      && (c.Failure? ==>
            HorizontalData(cfg, lib, sheets, sheetNo, startRow, startColumn, cellNum, target) == Failure(c.error)
            && VerticalData(cfg, lib, sheets, sheetNo, startRow, startColumn, cellNum, target) == Failure(c.error))
      && (c.Success? && c.value != cfg.startTag ==>
            HorizontalData(cfg, lib, sheets, sheetNo, startRow, startColumn, cellNum, target) == Failure(StartMismatch))
      && (c == Success(cfg.startTag) ==>
            VerticalData(cfg, lib, sheets, sheetNo, startRow, startColumn, cellNum, target) == Failure(StartMismatch))
  {
  }

  /**
   * getHorizontalData for a base type returns the leading cell of every row from
   * `startRow` to the last row, empty ones included.
   */
  lemma HorizontalScalars(cfg: Settings, lib: Library, sheets: seq<Sheet>, sheetNo: int, startRow: int, startColumn: int,
                          cellNum: int, target: Target)
    requires sheetNo >= 1 && IsBaseType(target.cls)
    requires HorizontalData(cfg, lib, sheets, sheetNo, startRow, startColumn, cellNum, target).Success?
    ensures sheetNo <= |sheets|
    ensures var list := HorizontalData(cfg, lib, sheets, sheetNo, startRow, startColumn, cellNum, target).value;
      var env := Env(cfg, lib, sheets[sheetNo - 1], sheetNo);
      && |list| == LastRowNum(env.sheet) + 2 - startRow
      && forall i :: 0 <= i < |list| ==> list[i].Scalar? && HScalarAt(env, startRow, startColumn, i, list[i].value)
  {
    var env := Env(cfg, lib, sheets[sheetNo - 1], sheetNo);
    HScalarsFromMeaning(env, startRow, startColumn, startRow, []);
  }

  /**
   * getVerticalData for a base type returns every cell of the header row from
   * `startColumn` to its last cell, empty ones included.
   */
  lemma VerticalScalars(cfg: Settings, lib: Library, sheets: seq<Sheet>, sheetNo: int, startRow: int, startColumn: int,
                        cellNum: int, target: Target)
    requires sheetNo >= 1 && IsBaseType(target.cls)
    requires VerticalData(cfg, lib, sheets, sheetNo, startRow, startColumn, cellNum, target).Success?
    ensures sheetNo <= |sheets| && RowAt(sheets[sheetNo - 1], startRow - 1).Some?
    ensures var list := VerticalData(cfg, lib, sheets, sheetNo, startRow, startColumn, cellNum, target).value;
      var env := Env(cfg, lib, sheets[sheetNo - 1], sheetNo);
      var header := RowAt(sheets[sheetNo - 1], startRow - 1).value;
      && |list| == LastCellNum(header) + 1 - startColumn
      && forall i :: 0 <= i < |list| ==> list[i] == Scalar(Scan42.TextAt(env, header, startColumn + i))
  {
    var env := Env(cfg, lib, sheets[sheetNo - 1], sheetNo);
    var header := RowAt(sheets[sheetNo - 1], startRow - 1).value;
    VScalarsFromMeaning(env, header, startColumn, startColumn, []);
  }

  /** A successful horizontal entity read returns the non-empty list of its row loop. */
  lemma HorizontalRecords(cfg: Settings, lib: Library, sheets: seq<Sheet>, sheetNo: int, startRow: int, startColumn: int,
                          cellNum: int, target: Target)
    requires sheetNo >= 1 && !IsBaseType(target.cls)
    requires HorizontalData(cfg, lib, sheets, sheetNo, startRow, startColumn, cellNum, target).Success?
    ensures sheetNo <= |sheets|
    ensures var records := HRecordsFrom(Env(cfg, lib, sheets[sheetNo - 1], sheetNo), target.fields, startColumn, cellNum, startRow, []);
      && records.Success? && records.value != []
      && HorizontalData(cfg, lib, sheets, sheetNo, startRow, startColumn, cellNum, target).value == Scan42.Composites(records.value)
  {
  }

  /** A successful vertical entity read returns the non-empty list of its column loop along the header row. */
  lemma VerticalRecords(cfg: Settings, lib: Library, sheets: seq<Sheet>, sheetNo: int, startRow: int, startColumn: int,
                        cellNum: int, target: Target)
    requires sheetNo >= 1 && !IsBaseType(target.cls)
    requires VerticalData(cfg, lib, sheets, sheetNo, startRow, startColumn, cellNum, target).Success?
    ensures sheetNo <= |sheets| && RowAt(sheets[sheetNo - 1], startRow - 1).Some?
    ensures var records := VRecordsFrom(Env(cfg, lib, sheets[sheetNo - 1], sheetNo), RowAt(sheets[sheetNo - 1], startRow - 1).value,
                                        target.fields, startRow, cellNum, startColumn, []);
      && records.Success? && records.value != []
      && VerticalData(cfg, lib, sheets, sheetNo, startRow, startColumn, cellNum, target).value == Scan42.Composites(records.value)
  {
  }

  /**
   * getHorizontalData for an entity class returns one entity per row from `startRow`
   * up to the end tag, or to the last row when no end tag is set; every entity read
   * means the class has no more fields to fill than `cellNum`.
   */
  lemma HorizontalEntities(cfg: Settings, lib: Library, sheets: seq<Sheet>, sheetNo: int, startRow: int, startColumn: int,
                           cellNum: int, target: Target)
    requires sheetNo >= 1 && !IsBaseType(target.cls)
    requires HorizontalData(cfg, lib, sheets, sheetNo, startRow, startColumn, cellNum, target).Success?
    ensures sheetNo <= |sheets|
    ensures var list := HorizontalData(cfg, lib, sheets, sheetNo, startRow, startColumn, cellNum, target).value;
      var env := Env(cfg, lib, sheets[sheetNo - 1], sheetNo);
      && (forall i :: 0 <= i < |list| ==> list[i].Composite? && HRecordAt(env, target.fields, startRow, startColumn, cellNum, i, list[i].record))
      && HRecordStop(env, startColumn, startRow + |list|)
      && (cfg.endTag == "" ==> |list| == LastRowNum(env.sheet) + 2 - startRow)
      && Counted(target.fields, 0) <= Max0(cellNum)
  {
    HorizontalRecords(cfg, lib, sheets, sheetNo, startRow, startColumn, cellNum, target);
    var env := Env(cfg, lib, sheets[sheetNo - 1], sheetNo);
    var records := HRecordsFrom(env, target.fields, startColumn, cellNum, startRow, []).value;
    HRecordsFromMeaning(env, target.fields, startRow, startColumn, cellNum, startRow, [], records);
    assert HRecordAt(env, target.fields, startRow, startColumn, cellNum, 0, records[0]);
    EntityWindow(env, target.fields, true, startRow, startColumn, cellNum, records[0]);
    if cfg.endTag == "" {
      HRecordsToLastRow(env, target.fields, startRow, startColumn, cellNum, |records| - 1, records[|records| - 1]);
    }
  }

  /**
   * getVerticalData for an entity class returns one entity per column from
   * `startColumn` up to the end tag or the header's last cell; every entity read
   * means the class has no more fields to fill than `cellNum`.
   */
  lemma VerticalEntities(cfg: Settings, lib: Library, sheets: seq<Sheet>, sheetNo: int, startRow: int, startColumn: int,
                         cellNum: int, target: Target)
    requires sheetNo >= 1 && !IsBaseType(target.cls)
    requires VerticalData(cfg, lib, sheets, sheetNo, startRow, startColumn, cellNum, target).Success?
    ensures sheetNo <= |sheets| && RowAt(sheets[sheetNo - 1], startRow - 1).Some?
    ensures var list := VerticalData(cfg, lib, sheets, sheetNo, startRow, startColumn, cellNum, target).value;
      var env := Env(cfg, lib, sheets[sheetNo - 1], sheetNo);
      var header := RowAt(sheets[sheetNo - 1], startRow - 1).value;
      && (forall i :: 0 <= i < |list| ==> list[i].Composite? && VRecordAt(env, header, target.fields, startRow, startColumn, cellNum, i, list[i].record))
      && VRecordStop(env, header, startColumn + |list|)
      && Counted(target.fields, 0) <= Max0(cellNum)
  {
    VerticalRecords(cfg, lib, sheets, sheetNo, startRow, startColumn, cellNum, target);
    var env := Env(cfg, lib, sheets[sheetNo - 1], sheetNo);
    var header := RowAt(sheets[sheetNo - 1], startRow - 1).value;
    var records := VRecordsFrom(env, header, target.fields, startRow, cellNum, startColumn, []).value;
    VRecordsFromMeaning(env, header, target.fields, startRow, startColumn, cellNum, startColumn, [], records);
    assert VRecordAt(env, header, target.fields, startRow, startColumn, cellNum, 0, records[0]);
    EntityWindow(env, target.fields, false, startColumn, startRow, cellNum, records[0]);
  }
}
