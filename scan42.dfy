/**
 * What the 4.2 table readers compute, as functions: getHorizontalData and
 * getVerticalData with their per-field dispatch (setHorizontalField,
 * setVerticalField) and the dynamic-rank readers. Each loop is a function of its
 * cursor and of the list read so far.
 */
module Scan42 {
  import opened Wrappers
  import opened ColumnLabel
  import opened Schema
  import opened Sheets
  import opened Duplicates
  import opened Validation42

  // ----- Dynamic-rank elements -----

  /**
   * The inner loop of a dynamic-rank reader: the element's declared fields are
   * paired with the two cells (header cell, data cell) of one column (row), in
   * order; an ignored field uses up its cell, and fields beyond the second are never read.
   */
  function ElementFrom(env: Env, fields: seq<Field>, slots: seq<(int, int)>, k: nat, rec: Record): Result<Record, Error>
    decreases |slots| - k
  {
    if k >= |slots| || k >= |fields| then Success(rec)
    else if fields[k].ignored then ElementFrom(env, fields, slots, k + 1, rec)
    else
      var rowNo := slots[k].0;
      var columnNo := slots[k].1;
      var cell :- CellAtPos(env.sheet, rowNo, columnNo);
      var v :- VerifiedValue(env.cfg, env.lib, fields, rec, fields[k], cell, env.sheetNo, rowNo, columnNo);
      ElementFrom(env, fields, slots, k + 1, rec[fields[k].name := Text(v)])
  }

  /** One element read from the given cells, starting from an entity with every field null. */
  function Element(env: Env, fields: seq<Field>, slots: seq<(int, int)>): Result<Record, Error> {
    ElementFrom(env, fields, slots, 0, map[])
  }

  /**
   * getHorizontalDynamicRank from column `columnNum` on: one element per column while
   * the header row has a cell there; `startColumn` is where the block began.
   */
  function HDynamicFrom(env: Env, rank: DynamicRank, header: Row, rowNum: int, startColumn: int,
                        columnNum: int, acc: seq<Record>): Result<seq<Record>, Error>
    decreases LastCellNum(header) + 1 - columnNum
  {
    if columnNum > LastCellNum(header) || IsEmptyCell(CellAt(header, columnNum - 1)) then Success(acc)
    else
      var o :- Element(env, rank.element, [(rank.titleRank, columnNum), (rowNum, columnNum)]);
      match (if rank.enableDuplicateCheck then FirstIndex(acc, o) else None)
      case Some(i) => Failure(Duplicate(env.sheetNo, AtColumn(LabelOf(i + startColumn)), AtColumn(LabelOf(columnNum))))
      case None => HDynamicFrom(env, rank, header, rowNum, startColumn, columnNum + 1, acc + [o])
  }

  /** getHorizontalDynamicRank: the list a dynamic field of row `rowNum` receives, its block starting at `startColumn`. */
  function HDynamic(env: Env, rank: DynamicRank, rowNum: int, startColumn: int): Result<seq<Record>, Error> {
    match RowAt(env.sheet, rank.titleRank - 1)
    case None => Failure(NullPointer(AbsentRow(rank.titleRank)))
    case Some(header) => HDynamicFrom(env, rank, header, rowNum, startColumn, startColumn, [])
  }

  /**
   * getVerticalDynamicRank from row `rowNum` on: one element per row while the
   * header column `titleRank` has a cell there; `startRow` is where the block began.
   */
  function VDynamicFrom(env: Env, rank: DynamicRank, columnNum: int, startRow: int,
                        rowNum: int, acc: seq<Record>): Result<seq<Record>, Error>
    decreases LastRowNum(env.sheet) + 2 - rowNum
  {
    if rowNum > LastRowNum(env.sheet) + 1 then Success(acc)
    else match RowAt(env.sheet, rowNum - 1)
      case None => Failure(NullPointer(AbsentRow(rowNum)))
      case Some(row) =>
        if IsEmptyCell(CellAt(row, rank.titleRank - 1)) then Success(acc)
        else
          var o :- Element(env, rank.element, [(rowNum, rank.titleRank), (rowNum, columnNum)]);
          match (if rank.enableDuplicateCheck then FirstIndex(acc, o) else None)
          case Some(i) => Failure(Duplicate(env.sheetNo, AtRow(i + startRow), AtRow(rowNum)))
          case None => VDynamicFrom(env, rank, columnNum, startRow, rowNum + 1, acc + [o])
  }

  /** getVerticalDynamicRank: the list a dynamic field of column `columnNum` receives, its block starting at `startRow`. */
  function VDynamic(env: Env, rank: DynamicRank, columnNum: int, startRow: int): Result<seq<Record>, Error> {
    VDynamicFrom(env, rank, columnNum, startRow, startRow, [])
  }

  // ----- One entity -----

  /**
   * setHorizontalField: the value a field of row `rowNum` receives, with the number of
   * cells it uses up: a plain field takes its one cell, a dynamic field the list read
   * from column `columnNum` on, and as many columns as the list has elements.
   */
  function HAssign(env: Env, fields: seq<Field>, rec: Record, field: Field, cell: Option<Cell>,
                   rowNum: int, columnNum: int): (r: Result<(FieldValue, nat), Error>)
    ensures r.Success? ==> (r.value.0.Items? <==> field.dynamicRank.Some?)
    ensures r.Success? ==> r.value.1 == if r.value.0.Items? then |r.value.0.items| else 1
  {
    match field.dynamicRank
    case Some(rank) =>
      var items :- HDynamic(env, rank, rowNum, columnNum);
      Success((Items(items), |items|))
    case None =>
      var v :- VerifiedValue(env.cfg, env.lib, fields, rec, field, cell, env.sheetNo, rowNum, columnNum);
      Success((Text(v), 1))
  }

  /** Assigning one field: given the field, the cursor and the entity so far, its value and the cells it takes up. */
  type Assigner = (Field, int, Record) -> Result<(FieldValue, nat), Error>

  /**
   * The field loop of getHorizontalData and getVerticalData from field k, the cursor
   * at `at`: each field not ignored is assigned at the cursor, which then moves on
   * by the cells the field took up; ignored fields take none.
   */
  function FieldLoop(assign: Assigner, fields: seq<Field>, k: nat, at: int, rec: Record): Result<Record, Error>
    decreases |fields| - k
  {
    if k >= |fields| then Success(rec)
    else if fields[k].ignored then FieldLoop(assign, fields, k + 1, at, rec)
    else
      var taken :- assign(fields[k], at, rec);
      FieldLoop(assign, fields, k + 1, at + taken.1, rec[fields[k].name := taken.0])
  }

  /** setHorizontalField on row `rowNum`, the cursor being the column whose cell the field reads. */
  function HAssigner(env: Env, fields: seq<Field>, row: Row, rowNum: int): Assigner {
    (field: Field, at: int, before: Record) => HAssign(env, fields, before, field, CellAt(row, at - 1), rowNum, at)
  }

  /** The field loop of getHorizontalData over row `rowNum`, from field k at column `columnNum`. */
  function HFields(env: Env, fields: seq<Field>, row: Row, rowNum: int, k: nat, columnNum: int, rec: Record): Result<Record, Error> {
    FieldLoop(HAssigner(env, fields, row, rowNum), fields, k, columnNum, rec)
  }

  /**
   * setVerticalField: the value a field of column `columnNum` receives, with the number
   * of cells it uses up: one for a plain field, the list's length for a dynamic field
   * read from row `rowNum` on.
   */
  function VAssign(env: Env, fields: seq<Field>, rec: Record, field: Field, cell: Option<Cell>,
                   rowNum: int, columnNum: int): (r: Result<(FieldValue, nat), Error>)
    ensures r.Success? ==> (r.value.0.Items? <==> field.dynamicRank.Some?)
    ensures r.Success? ==> r.value.1 == if r.value.0.Items? then |r.value.0.items| else 1
  {
    match field.dynamicRank
    case Some(rank) =>
      var items :- VDynamic(env, rank, columnNum, rowNum);
      Success((Items(items), |items|))
    case None =>
      var v :- VerifiedValue(env.cfg, env.lib, fields, rec, field, cell, env.sheetNo, rowNum, columnNum);
      Success((Text(v), 1))
  }

  /**
   * setVerticalField on column `columnNum`, the cursor being the row whose cell the
   * field reads: that row is fetched first, and a missing row throws.
   */
  function VAssigner(env: Env, fields: seq<Field>, columnNum: int): Assigner {
    (field: Field, at: int, before: Record) =>
      var cell :- CellAtPos(env.sheet, at, columnNum);
      VAssign(env, fields, before, field, cell, at, columnNum)
  }

  /** The field loop of getVerticalData over column `columnNum`, from field k at row `rowNum`. */
  function VFields(env: Env, fields: seq<Field>, columnNum: int, k: nat, rowNum: int, rec: Record): Result<Record, Error> {
    FieldLoop(VAssigner(env, fields, columnNum), fields, k, rowNum, rec)
  }

  /** The names of the fields from k on that are not ignored. */
  function Names(fields: seq<Field>, k: nat): set<string>
    decreases |fields| - k
  {
    if k >= |fields| then {}
    else (if fields[k].ignored then {} else {fields[k].name}) + Names(fields, k + 1)
  }

  /** A class declares each field name once. */
  predicate UniqueNames(fields: seq<Field>) {
    forall i, j :: 0 <= i < j < |fields| ==> fields[i].name != fields[j].name
  }

  /** The cells a field's value takes up: a list its length, a single value one. */
  function Width(v: FieldValue): nat {
    if v.Items? then |v.items| else 1
  }

  /** The cells that the fields before field j that are not ignored take up in the built entity r; ignored fields take none. */
  function Span(fields: seq<Field>, r: Record, j: nat): nat
  {
    if j == 0 || j > |fields| then 0
    else Span(fields, r, j - 1) + (if fields[j - 1].ignored || fields[j - 1].name !in r then 0 else Width(r[fields[j - 1].name]))
  }

  /** The entity as it stood when field j was reached: `rec` with the values r holds for the earlier fields not ignored. */
  function Before(fields: seq<Field>, r: Record, j: nat, rec: Record): Record
  {
    if j == 0 || j > |fields| then rec
    else
      var b := Before(fields, r, j - 1, rec);
      if fields[j - 1].ignored || fields[j - 1].name !in r then b else b[fields[j - 1].name := r[fields[j - 1].name]]
  }

  // ----- The table loops -----

  /** The plain text of the cell in 0-based column `columnNum - 1` of a row. */
  function TextAt(env: Env, row: Row, columnNum: int): string {
    PlainCellValue(CellAt(row, columnNum - 1), env.cfg, env.lib)
  }

  /** Whether the end tag is set and equals the given text. */
  predicate AtEndTag(env: Env, text: string) {
    env.cfg.endTag != "" && env.cfg.endTag == text
  }

  /** getHorizontalData for a base type, from row `rowNum`: one value per row until the first empty cell. */
  function HScalarsFrom(env: Env, startRow: int, startColumn: int, dedupe: bool, rowNum: int, acc: seq<string>): Result<seq<string>, Error>
    decreases LastRowNum(env.sheet) + 2 - rowNum
  {
    if rowNum > LastRowNum(env.sheet) + 1 then Success(acc)
    else match RowAt(env.sheet, rowNum - 1)
      case None => Failure(NullPointer(AbsentRow(rowNum)))
      case Some(row) =>
        if IsEmptyCell(CellAt(row, startColumn - 1)) then Success(acc)
        else
          var v := TextAt(env, row, startColumn);
          match (if dedupe then FirstIndex(acc, v) else None)
          case Some(i) => Failure(Duplicate(env.sheetNo, AtRow(i + startRow), AtRow(rowNum)))
          case None => HScalarsFrom(env, startRow, startColumn, dedupe, rowNum + 1, acc + [v])
  }

  /** getHorizontalData for an entity class, from row `rowNum`: one entity per row until an empty row or the end tag. */
  function HRecordsFrom(env: Env, fields: seq<Field>, startRow: int, startColumn: int, dedupe: bool,
                        rowNum: int, acc: seq<Record>): Result<seq<Record>, Error>
    decreases LastRowNum(env.sheet) + 2 - rowNum
  {
    if rowNum > LastRowNum(env.sheet) + 1 then Success(acc)
    else
      var row := RowAt(env.sheet, rowNum - 1);
      if EmptyRow(row) || AtEndTag(env, TextAt(env, row.value, startColumn)) then Success(acc)
      else
        var t :- HFields(env, fields, row.value, rowNum, 0, startColumn, map[]);
        match (if dedupe then FirstIndex(acc, t) else None)
        case Some(i) => Failure(Duplicate(env.sheetNo, AtRow(i + startRow), AtRow(rowNum)))
        case None => HRecordsFrom(env, fields, startRow, startColumn, dedupe, rowNum + 1, acc + [t])
  }

  /** getVerticalData for a base type, from column `columnNum`: one value per cell of the header row until an empty one. */
  function VScalarsFrom(env: Env, header: Row, startColumn: int, dedupe: bool, columnNum: int, acc: seq<string>): Result<seq<string>, Error>
    decreases LastCellNum(header) + 1 - columnNum
  {
    if columnNum > LastCellNum(header) || IsEmptyCell(CellAt(header, columnNum - 1)) then Success(acc)
    else
      var v := TextAt(env, header, columnNum);
      match (if dedupe then FirstIndex(acc, v) else None)
      case Some(i) => Failure(Duplicate(env.sheetNo, AtColumn(LabelOf(i + startColumn)), AtColumn(LabelOf(columnNum))))
      case None => VScalarsFrom(env, header, startColumn, dedupe, columnNum + 1, acc + [v])
  }

  /**
   * getVerticalData for an entity class, from column `columnNum`: one entity per
   * column until a column empty in the whole sheet, or the end tag in the header row.
   */
  function VRecordsFrom(env: Env, header: Row, fields: seq<Field>, startRow: int, startColumn: int, dedupe: bool,
                        columnNum: int, acc: seq<Record>): Result<seq<Record>, Error>
    decreases LastCellNum(header) + 1 - columnNum
  {
    if columnNum > LastCellNum(header) then Success(acc)
    else
      var empty :- EmptyColumn(env.sheet, columnNum);
      if empty || AtEndTag(env, TextAt(env, header, columnNum)) then Success(acc)
      else
        var t :- VFields(env, fields, columnNum, 0, startRow, map[]);
        match (if dedupe then FirstIndex(acc, t) else None)
        case Some(i) => Failure(Duplicate(env.sheetNo, AtColumn(LabelOf(i + startColumn)), AtColumn(LabelOf(columnNum))))
        case None => VRecordsFrom(env, header, fields, startRow, startColumn, dedupe, columnNum + 1, acc + [t])
  }

  // ----- The public readers -----

  /** The list a reader returns, or EmptyData when nothing was read. */
  function NonEmpty(list: seq<Entry>): (r: Result<seq<Entry>, Error>)
    ensures r.Success? <==> list != []
  {
    if list == [] then Failure(EmptyData) else Success(list)
  }

  function Scalars(values: seq<string>): (r: seq<Entry>)
    ensures |r| == |values| && forall i :: 0 <= i < |r| ==> r[i] == Scalar(values[i])
  {
    seq(|values|, i requires 0 <= i < |values| => Scalar(values[i]))
  }

  function Composites(records: seq<Record>): (r: seq<Entry>)
    ensures |r| == |records| && forall i :: 0 <= i < |r| ==> r[i] == Composite(records[i])
  {
    seq(|records|, i requires 0 <= i < |records| => Composite(records[i]))
  }

  /**
   * The horizontal start check: the comment above the first data row (the header's
   * comment) must exist, and equal the start tag when one is set.
   */
  predicate HorizontalStartMatches(cfg: Settings, sheet: Sheet, startRow: int, startColumn: int) {
    var comment := Comment(sheet, startRow - 1, startColumn);
    comment.Some? && (cfg.startTag == "" || cfg.startTag == comment.value)
  }

  /** getHorizontalData(sheetNo, startRow, startColumn, clazz, enableDuplicateCheck) on the loaded sheets. */
  function HorizontalData(cfg: Settings, lib: Library, sheets: seq<Sheet>, sheetNo: int, startRow: int, startColumn: int,
                          target: Target, dedupe: bool): Result<seq<Entry>, Error>
    requires sheetNo >= 1
  {
    if sheetNo > |sheets| then Failure(SheetNoOutOfBounds)
    else
      var env := Env(cfg, lib, sheets[sheetNo - 1], sheetNo);
      if !HorizontalStartMatches(cfg, env.sheet, startRow, startColumn) then Failure(StartMismatch)
      else if IsBaseType(target.cls) then
        var values :- HScalarsFrom(env, startRow, startColumn, dedupe, startRow, []);
        NonEmpty(Scalars(values))
      else
        var records :- HRecordsFrom(env, target.fields, startRow, startColumn, dedupe, startRow, []);
        NonEmpty(Composites(records))
  }

  /**
   * getVerticalData(sheetNo, startRow, startColumn, clazz, enableDuplicateCheck). The
   * start check reads the comment at the first data cell only when a start tag is set,
   * and rejects the table when the comment EQUALS the tag; a missing comment throws.
   */
  function VerticalData(cfg: Settings, lib: Library, sheets: seq<Sheet>, sheetNo: int, startRow: int, startColumn: int,
                        target: Target, dedupe: bool): Result<seq<Entry>, Error>
    requires sheetNo >= 1
  {
    if sheetNo > |sheets| then Failure(SheetNoOutOfBounds)
    else
      var env := Env(cfg, lib, sheets[sheetNo - 1], sheetNo);
      var comment := Comment(env.sheet, startRow, startColumn);
      if cfg.startTag != "" && comment.None? then Failure(NullPointer(AbsentComment(startRow, startColumn)))
      else if cfg.startTag != "" && cfg.startTag == comment.value then Failure(StartMismatch)
      else match RowAt(env.sheet, startRow - 1)
        case None => Failure(NullPointer(AbsentRow(startRow)))
        case Some(header) =>
          if IsBaseType(target.cls) then
            var values :- VScalarsFrom(env, header, startColumn, dedupe, startColumn, []);
            NonEmpty(Scalars(values))
          else
            var records :- VRecordsFrom(env, header, target.fields, startRow, startColumn, dedupe, startColumn, []);
            NonEmpty(Composites(records))
  }

  // ----- What the loops read -----

  /** A list read past `acc` by one entry `t` still starts with `acc`, and holds `t` right after it. */
  lemma PrefixExtends<T>(acc: seq<T>, t: T, r: seq<T>)
    requires |acc| + 1 <= |r| && r[..|acc| + 1] == acc + [t]
    ensures r[..|acc|] == acc && r[|acc|] == t
  {
    assert r[|acc|] == r[..|acc| + 1][|acc|];
    assert r[..|acc| + 1][..|acc|] == r[..|acc|];
  }

  /** Whether field i of an element is one the inner loop reaches and assigns. */
  predicate Assigned(fields: seq<Field>, slots: seq<(int, int)>, i: int) {
    0 <= i < |slots| && i < |fields| && !fields[i].ignored
  }

  /** Where the inner loop of a dynamic-rank reader may write: only the first fields, one per cell. */
  lemma {:induction false} ElementFromFills(env: Env, fields: seq<Field>, slots: seq<(int, int)>, k: nat, rec: Record)
    requires ElementFrom(env, fields, slots, k, rec).Success?
    ensures var r := ElementFrom(env, fields, slots, k, rec).value;
      && (forall key :: key in rec ==> key in r)
      && (forall key :: key in r ==> key in rec || exists i :: k <= i && Assigned(fields, slots, i) && fields[i].name == key)
      && (forall i :: k <= i && Assigned(fields, slots, i) ==> fields[i].name in r)
    decreases |slots| - k
  {
    if k < |slots| && k < |fields| {
      if fields[k].ignored {
        ElementFromFills(env, fields, slots, k + 1, rec);
      } else {
        var cell := CellAtPos(env.sheet, slots[k].0, slots[k].1).value;
        var v := VerifiedValue(env.cfg, env.lib, fields, rec, fields[k], cell, env.sheetNo, slots[k].0, slots[k].1).value;
        var rec' := rec[fields[k].name := Text(v)];
        assert ElementFrom(env, fields, slots, k, rec) == ElementFrom(env, fields, slots, k + 1, rec');
        ElementFromFills(env, fields, slots, k + 1, rec');
        var r := ElementFrom(env, fields, slots, k, rec).value;
        forall key | key in r && key !in rec
          ensures exists i :: k <= i && Assigned(fields, slots, i) && fields[i].name == key
        {
          if key == fields[k].name {
            assert Assigned(fields, slots, k);
          }
        }
      }
    }
  }

  /** A dynamic-rank element has at most its first two declared fields assigned, and every one of them that is not ignored. */
  lemma ElementReadsTwoFields(env: Env, fields: seq<Field>, header: (int, int), data: (int, int))
    requires Element(env, fields, [header, data]).Success?
    ensures var r := Element(env, fields, [header, data]).value;
      && (forall key :: key in r ==> exists i :: 0 <= i < 2 && i < |fields| && !fields[i].ignored && fields[i].name == key)
      && (forall i :: 0 <= i < 2 && i < |fields| && !fields[i].ignored ==> fields[i].name in r)
  {
    ElementFromFills(env, fields, [header, data], 0, map[]);
    var r := Element(env, fields, [header, data]).value;
    forall i | 0 <= i < 2 && i < |fields| && !fields[i].ignored ensures fields[i].name in r {
      assert Assigned(fields, [header, data], i);
    }
  }

  /**
   * Field j of an entity the horizontal field loop built from column `columnNum`:
   * it holds what setHorizontalField gives for the cell at the column the cursor
   * reached (columnNum plus the cells the earlier fields took up), given the entity
   * as the earlier fields left it.
   */
  predicate HFilled(env: Env, fields: seq<Field>, row: Row, rowNum: int, columnNum: int, r: Record, j: int)
    requires 0 <= j < |fields|
  {
    var at := columnNum + Span(fields, r, j);
    && fields[j].name in r
    && HAssign(env, fields, Before(fields, r, j, map[]), fields[j], CellAt(row, at - 1), rowNum, at)
       == Success((r[fields[j].name], Width(r[fields[j].name])))
  }

  /**
   * Field j of an entity the vertical field loop built from row `rowNum`: the row
   * the cursor reached exists, and the field holds what setVerticalField gives for
   * its cell, given the entity as the earlier fields left it.
   */
  predicate VFilled(env: Env, fields: seq<Field>, columnNum: int, rowNum: int, r: Record, j: int)
    requires 0 <= j < |fields|
  {
    var at := rowNum + Span(fields, r, j);
    && fields[j].name in r
    && CellAtPos(env.sheet, at, columnNum).Success?
    && VAssign(env, fields, Before(fields, r, j, map[]), fields[j], CellAtPos(env.sheet, at, columnNum).value, at, columnNum)
       == Success((r[fields[j].name], Width(r[fields[j].name])))
  }

  /** Span and Before one field further on: field j's share is added, unless it is ignored. */
  lemma SpanBeforeNext(fields: seq<Field>, r: Record, j: nat, rec0: Record)
    requires j < |fields|
    ensures var skip := fields[j].ignored || fields[j].name !in r;
      && Span(fields, r, j + 1) == Span(fields, r, j) + (if skip then 0 else Width(r[fields[j].name]))
      && Before(fields, r, j + 1, rec0) == (if skip then Before(fields, r, j, rec0) else Before(fields, r, j, rec0)[fields[j].name := r[fields[j].name]])
  {
  }

  /** With unique names, a field's name is not among the names of the fields after it. */
  lemma {:induction false} NameNotLater(fields: seq<Field>, k: nat, m: nat)
    requires UniqueNames(fields) && k < m
    ensures k < |fields| ==> fields[k].name !in Names(fields, m)
    decreases |fields| - m
  {
    if m < |fields| {
      NameNotLater(fields, k, m + 1);
    }
  }

  /** An assigner whose cell count is the width of the value it gives, as setHorizontalField's and setVerticalField's are. */
  ghost predicate Widths(assign: Assigner) {
    forall field: Field, at: int, before: Record :: assign(field, at, before).Success? ==>
      assign(field, at, before).value.1 == Width(assign(field, at, before).value.0)
  }

  /** One field of the field loop that is not ignored: it is assigned, and the loop goes on past its cells. */
  lemma LoopStep(assign: Assigner, fields: seq<Field>, k: nat, at: int, rec: Record)
    requires FieldLoop(assign, fields, k, at, rec).Success?
    requires k < |fields| && !fields[k].ignored
    ensures var taken := assign(fields[k], at, rec);
      && taken.Success?
      && FieldLoop(assign, fields, k, at, rec)
         == FieldLoop(assign, fields, k + 1, at + taken.value.1, rec[fields[k].name := taken.value.0])
  {
  }

  /** The field loop gives a value to every field not ignored and to nothing else. */
  lemma {:induction false} LoopKeys(assign: Assigner, fields: seq<Field>, k: nat, at: int, rec: Record, r: Record)
    requires FieldLoop(assign, fields, k, at, rec) == Success(r)
    ensures r.Keys == rec.Keys + Names(fields, k)
    decreases |fields| - k
  {
    if k < |fields| {
      if fields[k].ignored {
        LoopKeys(assign, fields, k + 1, at, rec, r);
      } else {
        LoopStep(assign, fields, k, at, rec);
        var taken := assign(fields[k], at, rec).value;
        LoopKeys(assign, fields, k + 1, at + taken.1, rec[fields[k].name := taken.0], r);
      }
    }
  }

  /** An entry of the entity that no field from k on is named after keeps its value. */
  lemma {:induction false} LoopKeep(assign: Assigner, fields: seq<Field>, k: nat, at: int, rec: Record, r: Record, n: string)
    requires FieldLoop(assign, fields, k, at, rec) == Success(r)
    requires n in rec && n !in Names(fields, k)
    ensures n in r && r[n] == rec[n]
    decreases |fields| - k
  {
    if k < |fields| {
      if fields[k].ignored {
        LoopKeep(assign, fields, k + 1, at, rec, r, n);
      } else {
        LoopStep(assign, fields, k, at, rec);
        var taken := assign(fields[k], at, rec).value;
        LoopKeep(assign, fields, k + 1, at + taken.1, rec[fields[k].name := taken.0], r, n);
      }
    }
  }

  /**
   * Past field k, the field loop's cursor stands as many cells further on as the
   * value field k holds in the result takes up, with that value in the entity.
   */
  lemma LoopPast(assign: Assigner, fields: seq<Field>, k: nat, at: int, rec: Record, r: Record)
    requires Widths(assign) && UniqueNames(fields) && k < |fields|
    requires FieldLoop(assign, fields, k, at, rec) == Success(r)
    ensures !fields[k].ignored ==> fields[k].name in r && assign(fields[k], at, rec) == Success((r[fields[k].name], Width(r[fields[k].name])))
    ensures var skip := fields[k].ignored;
      FieldLoop(assign, fields, k + 1, if skip then at else at + Width(r[fields[k].name]),
                if skip then rec else rec[fields[k].name := r[fields[k].name]]) == Success(r)
  {
    if !fields[k].ignored {
      LoopStep(assign, fields, k, at, rec);
      var taken := assign(fields[k], at, rec).value;
      NameNotLater(fields, k, k + 1);
      LoopKeep(assign, fields, k + 1, at + taken.1, rec[fields[k].name := taken.0], r, fields[k].name);
    }
  }

  /**
   * The cursor of the field loop: when it reaches field j, it stands at `start` plus
   * the cells the earlier fields took up, with the entity as those fields left it.
   */
  lemma {:induction false} LoopCursor(assign: Assigner, fields: seq<Field>, start: int, r: Record, j: nat)
    requires Widths(assign) && UniqueNames(fields) && j <= |fields|
    requires FieldLoop(assign, fields, 0, start, map[]) == Success(r)
    ensures FieldLoop(assign, fields, j, start + Span(fields, r, j), Before(fields, r, j, map[])) == Success(r)
  {
    if j > 0 {
      LoopCursor(assign, fields, start, r, j - 1);
      SpanBeforeNext(fields, r, j - 1, map[]);
      LoopPast(assign, fields, j - 1, start + Span(fields, r, j - 1), Before(fields, r, j - 1, map[]), r);
    }
  }

  /** Field j not ignored is assigned where the cursor has reached, and keeps the value it gets. */
  lemma LoopRead(assign: Assigner, fields: seq<Field>, start: int, r: Record, j: nat)
    requires Widths(assign) && UniqueNames(fields) && j < |fields| && !fields[j].ignored
    requires FieldLoop(assign, fields, 0, start, map[]) == Success(r)
    ensures fields[j].name in r
    ensures assign(fields[j], start + Span(fields, r, j), Before(fields, r, j, map[]))
            == Success((r[fields[j].name], Width(r[fields[j].name])))
  {
    LoopCursor(assign, fields, start, r, j);
    LoopPast(assign, fields, j, start + Span(fields, r, j), Before(fields, r, j, map[]), r);
  }

  /** Where the horizontal field loop reads field j not ignored, names being unique. */
  lemma HFieldRead(env: Env, fields: seq<Field>, row: Row, rowNum: int, columnNum: int, r: Record, j: nat)
    requires UniqueNames(fields) && j < |fields| && !fields[j].ignored
    requires HFields(env, fields, row, rowNum, 0, columnNum, map[]) == Success(r)
    ensures HFilled(env, fields, row, rowNum, columnNum, r, j)
  {
    assert Widths(HAssigner(env, fields, row, rowNum));
    LoopRead(HAssigner(env, fields, row, rowNum), fields, columnNum, r, j);
  }

  /**
   * What getHorizontalData's field loop builds from column `columnNum` of a row:
   * exactly the fields not ignored get a value, and (names being unique, as in a
   * class) each is read at the column the cursor has reached, which moves on by one
   * for a plain field, by the list's length for a dynamic field and not at all for
   * an ignored one; a guard sees the entity as the earlier fields left it.
   */
  lemma HFieldsFills(env: Env, fields: seq<Field>, row: Row, rowNum: int, columnNum: int, r: Record)
    requires HFields(env, fields, row, rowNum, 0, columnNum, map[]) == Success(r)
    ensures r.Keys == Names(fields, 0)
    ensures UniqueNames(fields) ==> forall j {:trigger HFilled(env, fields, row, rowNum, columnNum, r, j)} ::
      0 <= j < |fields| && !fields[j].ignored ==> HFilled(env, fields, row, rowNum, columnNum, r, j)
  {
    LoopKeys(HAssigner(env, fields, row, rowNum), fields, 0, columnNum, map[], r);
    if UniqueNames(fields) {
      forall j | 0 <= j < |fields| && !fields[j].ignored {
        HFieldRead(env, fields, row, rowNum, columnNum, r, j);
      }
    }
  }

  /** Where the vertical field loop reads field j not ignored, names being unique. */
  lemma VFieldRead(env: Env, fields: seq<Field>, columnNum: int, rowNum: int, r: Record, j: nat)
    requires UniqueNames(fields) && j < |fields| && !fields[j].ignored
    requires VFields(env, fields, columnNum, 0, rowNum, map[]) == Success(r)
    ensures VFilled(env, fields, columnNum, rowNum, r, j)
  {
    assert Widths(VAssigner(env, fields, columnNum));
    LoopRead(VAssigner(env, fields, columnNum), fields, rowNum, r, j);
  }

  /**
   * What getVerticalData's field loop builds from row `rowNum` of a column: exactly
   * the fields not ignored get a value, and (names being unique) each is read at the
   * row the cursor has reached, which must exist and moves down by the cells each field takes up.
   */
  lemma VFieldsFills(env: Env, fields: seq<Field>, columnNum: int, rowNum: int, r: Record)
    requires VFields(env, fields, columnNum, 0, rowNum, map[]) == Success(r)
    ensures r.Keys == Names(fields, 0)
    ensures UniqueNames(fields) ==> forall j {:trigger VFilled(env, fields, columnNum, rowNum, r, j)} ::
      0 <= j < |fields| && !fields[j].ignored ==> VFilled(env, fields, columnNum, rowNum, r, j)
  {
    LoopKeys(VAssigner(env, fields, columnNum), fields, 0, rowNum, map[], r);
    if UniqueNames(fields) {
      forall j | 0 <= j < |fields| && !fields[j].ignored {
        VFieldRead(env, fields, columnNum, rowNum, r, j);
      }
    }
  }

  /** Entry i of a horizontal base-type scan: the leading cell of row startRow + i, which exists and is not empty. */
  predicate HScalarAt(env: Env, startRow: int, startColumn: int, i: int, v: string) {
    var row := RowAt(env.sheet, startRow + i - 1);
    row.Some? && !IsEmptyCell(CellAt(row.value, startColumn - 1)) && v == TextAt(env, row.value, startColumn)
  }

  /** The row that ends a horizontal base-type scan: past the last row, or an empty leading cell. */
  predicate HScalarStop(env: Env, startColumn: int, rowNum: int) {
    rowNum > LastRowNum(env.sheet) + 1 ||
    (RowAt(env.sheet, rowNum - 1).Some? && IsEmptyCell(CellAt(RowAt(env.sheet, rowNum - 1).value, startColumn - 1)))
  }

  /** One step of a horizontal base-type scan that goes on. */
  lemma HScalarsStep(env: Env, startRow: int, startColumn: int, dedupe: bool, rowNum: int, acc: seq<string>)
    requires HScalarsFrom(env, startRow, startColumn, dedupe, rowNum, acc).Success?
    requires rowNum <= LastRowNum(env.sheet) + 1 && RowAt(env.sheet, rowNum - 1).Some?
    requires !IsEmptyCell(CellAt(RowAt(env.sheet, rowNum - 1).value, startColumn - 1))
    ensures var v := TextAt(env, RowAt(env.sheet, rowNum - 1).value, startColumn);
      && (dedupe ==> v !in acc)
      && HScalarsFrom(env, startRow, startColumn, dedupe, rowNum, acc)
         == HScalarsFrom(env, startRow, startColumn, dedupe, rowNum + 1, acc + [v])
  {
  }

  /** A horizontal base-type scan that does not go on at this row returns what it has read, and stops there. */
  lemma HScalarsEnded(env: Env, startRow: int, startColumn: int, dedupe: bool, rowNum: int, acc: seq<string>, r: seq<string>)
    requires HScalarsFrom(env, startRow, startColumn, dedupe, rowNum, acc) == Success(r)
    requires !(rowNum <= LastRowNum(env.sheet) + 1 && RowAt(env.sheet, rowNum - 1).Some?
               && !IsEmptyCell(CellAt(RowAt(env.sheet, rowNum - 1).value, startColumn - 1)))
    ensures r == acc && HScalarStop(env, startColumn, rowNum)
  {
  }

  /**
   * A horizontal base-type scan appends the leading cells of consecutive rows, each
   * existing and non-empty, up to the row that ends it; with the check on, no two are equal.
   */
  lemma {:induction false} HScalarsFromMeaning(env: Env, startRow: int, startColumn: int, dedupe: bool, rowNum: int, acc: seq<string>, r: seq<string>)
    requires rowNum == startRow + |acc|
    requires HScalarsFrom(env, startRow, startColumn, dedupe, rowNum, acc) == Success(r)
    ensures |acc| <= |r| && r[..|acc|] == acc
    ensures forall i :: |acc| <= i < |r| ==> HScalarAt(env, startRow, startColumn, i, r[i])
    ensures HScalarStop(env, startColumn, startRow + |r|)
    ensures dedupe && Distinct(acc) ==> Distinct(r)
    decreases LastRowNum(env.sheet) + 2 - rowNum
  {
    if rowNum <= LastRowNum(env.sheet) + 1 && RowAt(env.sheet, rowNum - 1).Some?
       && !IsEmptyCell(CellAt(RowAt(env.sheet, rowNum - 1).value, startColumn - 1)) {
      var v := TextAt(env, RowAt(env.sheet, rowNum - 1).value, startColumn);
      HScalarsStep(env, startRow, startColumn, dedupe, rowNum, acc);
      HScalarsFromMeaning(env, startRow, startColumn, dedupe, rowNum + 1, acc + [v], r);
      assert r[|acc|] == r[..|acc| + 1][|acc|] == v;
      forall i | |acc| <= i < |r|
        ensures HScalarAt(env, startRow, startColumn, i, r[i])
      {
        if i == |acc| {
          assert HScalarAt(env, startRow, startColumn, |acc|, v);
        }
      }
      if dedupe && Distinct(acc) {
        AppendKeepsDistinct(acc, v);
      }
      assert r[..|acc| + 1][..|acc|] == r[..|acc|];
    } else {
      HScalarsEnded(env, startRow, startColumn, dedupe, rowNum, acc, r);
    }
  }

  /** Entry i of a vertical base-type scan: the header-row cell of column startColumn + i, which exists and is not empty. */
  predicate VScalarAt(env: Env, header: Row, startColumn: int, i: int, v: string) {
    startColumn + i <= LastCellNum(header) && !IsEmptyCell(CellAt(header, startColumn + i - 1))
    && v == TextAt(env, header, startColumn + i)
  }

  /** The column that ends a scan along a header row: past its last cell, or an empty header cell. */
  predicate HeaderStop(header: Row, columnNum: int) {
    columnNum > LastCellNum(header) || IsEmptyCell(CellAt(header, columnNum - 1))
  }

  /** A vertical base-type scan appends the cells of the header row, left to right, up to the first empty one. */
  lemma {:induction false} VScalarsFromMeaning(env: Env, header: Row, startColumn: int, dedupe: bool, columnNum: int, acc: seq<string>, r: seq<string>)
    requires columnNum == startColumn + |acc|
    requires VScalarsFrom(env, header, startColumn, dedupe, columnNum, acc) == Success(r)
    ensures |acc| <= |r| && r[..|acc|] == acc
    ensures forall i :: |acc| <= i < |r| ==> VScalarAt(env, header, startColumn, i, r[i])
    ensures HeaderStop(header, startColumn + |r|)
    ensures dedupe && Distinct(acc) ==> Distinct(r)
    decreases LastCellNum(header) + 1 - columnNum
  {
    if !HeaderStop(header, columnNum) {
      var v := TextAt(env, header, columnNum);
      assert VScalarsFrom(env, header, startColumn, dedupe, columnNum, acc)
          == VScalarsFrom(env, header, startColumn, dedupe, columnNum + 1, acc + [v]);
      VScalarsFromMeaning(env, header, startColumn, dedupe, columnNum + 1, acc + [v], r);
      assert r[|acc|] == r[..|acc| + 1][|acc|] == v;
      forall i | |acc| <= i < |r|
        ensures VScalarAt(env, header, startColumn, i, r[i])
      {
        if i == |acc| {
          assert VScalarAt(env, header, startColumn, |acc|, v);
        }
      }
      if dedupe && Distinct(acc) {
        AppendKeepsDistinct(acc, v);
      }
      assert r[..|acc| + 1][..|acc|] == r[..|acc|];
    }
  }

  /** The row that ends a horizontal entity scan: past the last row, an empty row, or the end tag. */
  predicate HRecordStop(env: Env, startColumn: int, rowNum: int) {
    rowNum > LastRowNum(env.sheet) + 1 ||
    EmptyRow(RowAt(env.sheet, rowNum - 1)) ||
    AtEndTag(env, TextAt(env, RowAt(env.sheet, rowNum - 1).value, startColumn))
  }

  /** Entry i of a horizontal entity scan: the field loop's result on row startRow + i, which does not end the scan. */
  predicate HRecordAt(env: Env, fields: seq<Field>, startRow: int, startColumn: int, i: int, t: Record) {
    !HRecordStop(env, startColumn, startRow + i)
    && HFields(env, fields, RowAt(env.sheet, startRow + i - 1).value, startRow + i, 0, startColumn, map[]) == Success(t)
  }
  /** Every entity a horizontal scan reads has a value for exactly the fields not ignored. */
  lemma HRecordKeys(env: Env, fields: seq<Field>, startRow: int, startColumn: int, i: int, t: Record)
    requires HRecordAt(env, fields, startRow, startColumn, i, t)
    ensures t.Keys == Names(fields, 0)
  {
    HFieldsFills(env, fields, RowAt(env.sheet, startRow + i - 1).value, startRow + i, startColumn, t);
  }


  /** A horizontal entity scan at the row that ends it returns what it has read. */
  lemma HRecordsStop(env: Env, fields: seq<Field>, startRow: int, startColumn: int, dedupe: bool,
                     rowNum: int, acc: seq<Record>)
    requires HRecordStop(env, startColumn, rowNum)
    ensures HRecordsFrom(env, fields, startRow, startColumn, dedupe, rowNum, acc) == Success(acc)
  {
  }

  /** A horizontal entity scan at a row whose field loop throws fails with that exception. */
  lemma HRecordsFail(env: Env, fields: seq<Field>, startRow: int, startColumn: int, dedupe: bool,
                     rowNum: int, acc: seq<Record>)
    requires !HRecordStop(env, startColumn, rowNum)
    requires HFields(env, fields, RowAt(env.sheet, rowNum - 1).value, rowNum, 0, startColumn, map[]).Failure?
    ensures HRecordsFrom(env, fields, startRow, startColumn, dedupe, rowNum, acc)
         == Failure(HFields(env, fields, RowAt(env.sheet, rowNum - 1).value, rowNum, 0, startColumn, map[]).error)
  {
  }

  /**
   * A horizontal entity scan at a row that does not end it, whose entity `t` the
   * duplicate check matched with entry `earlier` (None when it found none or is off).
   */
  lemma HRecordsNext(env: Env, fields: seq<Field>, startRow: int, startColumn: int, dedupe: bool,
                     rowNum: int, acc: seq<Record>, t: Record, earlier: Option<nat>)
    requires !HRecordStop(env, startColumn, rowNum)
    requires HFields(env, fields, RowAt(env.sheet, rowNum - 1).value, rowNum, 0, startColumn, map[]) == Success(t)
    requires earlier == if dedupe then FirstIndex(acc, t) else None
    ensures earlier.Some? ==>
      HRecordsFrom(env, fields, startRow, startColumn, dedupe, rowNum, acc)
      == Failure(Duplicate(env.sheetNo, AtRow(earlier.value + startRow), AtRow(rowNum)))
    ensures earlier.None? ==>
      HRecordsFrom(env, fields, startRow, startColumn, dedupe, rowNum, acc)
      == HRecordsFrom(env, fields, startRow, startColumn, dedupe, rowNum + 1, acc + [t])
  {
  }

  /** One step of a horizontal entity scan that goes on. */
  lemma HRecordsStep(env: Env, fields: seq<Field>, startRow: int, startColumn: int, dedupe: bool,
                     rowNum: int, acc: seq<Record>)
    requires HRecordsFrom(env, fields, startRow, startColumn, dedupe, rowNum, acc).Success?
    requires !HRecordStop(env, startColumn, rowNum)
    ensures HFields(env, fields, RowAt(env.sheet, rowNum - 1).value, rowNum, 0, startColumn, map[]).Success?
    ensures var t := HFields(env, fields, RowAt(env.sheet, rowNum - 1).value, rowNum, 0, startColumn, map[]).value;
      && (dedupe ==> t !in acc)
      && HRecordsFrom(env, fields, startRow, startColumn, dedupe, rowNum, acc)
         == HRecordsFrom(env, fields, startRow, startColumn, dedupe, rowNum + 1, acc + [t])
  {
  }

  /**
   * A horizontal entity scan appends one entity per consecutive row, each the field
   * loop's result on that row, up to the row that ends it; with the check on, no two are equal.
   */
  lemma {:induction false} HRecordsFromMeaning(env: Env, fields: seq<Field>, startRow: int, startColumn: int, dedupe: bool,
                                               rowNum: int, acc: seq<Record>, r: seq<Record>)
    requires rowNum == startRow + |acc|
    requires HRecordsFrom(env, fields, startRow, startColumn, dedupe, rowNum, acc) == Success(r)
    ensures |acc| <= |r| && r[..|acc|] == acc
    ensures forall i :: |acc| <= i < |r| ==> HRecordAt(env, fields, startRow, startColumn, i, r[i])
    ensures HRecordStop(env, startColumn, startRow + |r|)
    ensures dedupe && Distinct(acc) ==> Distinct(r)
    decreases LastRowNum(env.sheet) + 2 - rowNum
  {
    if !HRecordStop(env, startColumn, rowNum) {
      var t := HFields(env, fields, RowAt(env.sheet, rowNum - 1).value, rowNum, 0, startColumn, map[]).value;
      HRecordsStep(env, fields, startRow, startColumn, dedupe, rowNum, acc);
      HRecordsFromMeaning(env, fields, startRow, startColumn, dedupe, rowNum + 1, acc + [t], r);
      assert r[|acc|] == r[..|acc| + 1][|acc|] == t;
      forall i | |acc| <= i < |r|
        ensures HRecordAt(env, fields, startRow, startColumn, i, r[i])
      {
        if i == |acc| {
          assert HRecordAt(env, fields, startRow, startColumn, |acc|, t);
        }
      }
      if dedupe && Distinct(acc) {
        AppendKeepsDistinct(acc, t);
      }
      assert r[..|acc| + 1][..|acc|] == r[..|acc|];
    } else {
      HRecordsStop(env, fields, startRow, startColumn, dedupe, rowNum, acc);
    }
  }

  /** The column that ends a vertical entity scan: past the header's last cell, a column empty in every row, or the end tag. */
  predicate VRecordStop(env: Env, header: Row, columnNum: int) {
    columnNum > LastCellNum(header) ||
    EmptyColumn(env.sheet, columnNum) == Success(true) ||
    AtEndTag(env, TextAt(env, header, columnNum))
  }

  /** Entry i of a vertical entity scan: the field loop's result on column startColumn + i, which does not end the scan. */
  predicate VRecordAt(env: Env, header: Row, fields: seq<Field>, startRow: int, startColumn: int, i: int, t: Record) {
    !VRecordStop(env, header, startColumn + i)
    && VFields(env, fields, startColumn + i, 0, startRow, map[]) == Success(t)
  }
  /** Every entity a vertical scan reads has a value for exactly the fields not ignored. */
  lemma VRecordKeys(env: Env, header: Row, fields: seq<Field>, startRow: int, startColumn: int, i: int, t: Record)
    requires VRecordAt(env, header, fields, startRow, startColumn, i, t)
    ensures t.Keys == Names(fields, 0)
  {
    VFieldsFills(env, fields, startColumn + i, startRow, t);
  }


  /** One step of a vertical entity scan that goes on. */
  lemma VRecordsStep(env: Env, header: Row, fields: seq<Field>, startRow: int, startColumn: int, dedupe: bool,
                     columnNum: int, acc: seq<Record>)
    requires VRecordsFrom(env, header, fields, startRow, startColumn, dedupe, columnNum, acc).Success?
    requires !VRecordStop(env, header, columnNum)
    ensures VFields(env, fields, columnNum, 0, startRow, map[]).Success?
    ensures var t := VFields(env, fields, columnNum, 0, startRow, map[]).value;
      && (dedupe ==> t !in acc)
      && VRecordsFrom(env, header, fields, startRow, startColumn, dedupe, columnNum, acc)
         == VRecordsFrom(env, header, fields, startRow, startColumn, dedupe, columnNum + 1, acc + [t])
  {
  }

  /** A vertical entity scan that stops at this column returns what it has read. */
  lemma VRecordsEnded(env: Env, header: Row, fields: seq<Field>, startRow: int, startColumn: int, dedupe: bool,
                      columnNum: int, acc: seq<Record>, r: seq<Record>)
    requires VRecordStop(env, header, columnNum)
    requires VRecordsFrom(env, header, fields, startRow, startColumn, dedupe, columnNum, acc) == Success(r)
    ensures r == acc
  {
  }

  /** A vertical entity scan appends one entity per consecutive column, each the field loop's result on that column. */
  lemma {:induction false} VRecordsFromMeaning(env: Env, header: Row, fields: seq<Field>, startRow: int, startColumn: int, dedupe: bool,
                                               columnNum: int, acc: seq<Record>, r: seq<Record>)
    requires columnNum == startColumn + |acc|
    requires VRecordsFrom(env, header, fields, startRow, startColumn, dedupe, columnNum, acc) == Success(r)
    ensures |acc| <= |r| && r[..|acc|] == acc
    ensures forall i :: |acc| <= i < |r| ==> VRecordAt(env, header, fields, startRow, startColumn, i, r[i])
    ensures VRecordStop(env, header, startColumn + |r|)
    ensures dedupe && Distinct(acc) ==> Distinct(r)
    decreases LastCellNum(header) + 1 - columnNum
  {
    if !VRecordStop(env, header, columnNum) {
      var t := VFields(env, fields, columnNum, 0, startRow, map[]).value;
      VRecordsStep(env, header, fields, startRow, startColumn, dedupe, columnNum, acc);
      VRecordsFromMeaning(env, header, fields, startRow, startColumn, dedupe, columnNum + 1, acc + [t], r);
      PrefixExtends(acc, t, r);
      forall i | |acc| <= i < |r|
        ensures VRecordAt(env, header, fields, startRow, startColumn, i, r[i])
      {
        if i == |acc| {
          assert VRecordAt(env, header, fields, startRow, startColumn, |acc|, t);
        }
      }
      if dedupe && Distinct(acc) {
        AppendKeepsDistinct(acc, t);
      }
    } else {
      VRecordsEnded(env, header, fields, startRow, startColumn, dedupe, columnNum, acc, r);
    }
  }

  /** Element i of a horizontal dynamic block: read from column startColumn + i of the header row and of the data row. */
  predicate HElementAt(env: Env, rank: DynamicRank, header: Row, rowNum: int, startColumn: int, i: int, o: Record) {
    !HeaderStop(header, startColumn + i)
    && Element(env, rank.element, [(rank.titleRank, startColumn + i), (rowNum, startColumn + i)]) == Success(o)
  }

  /**
   * A horizontal dynamic block has one element per column of the header row from its
   * first column up to the header's first empty cell; with the check on, no two are equal.
   */
  lemma {:induction false} HDynamicFromMeaning(env: Env, rank: DynamicRank, header: Row, rowNum: int, startColumn: int,
                                               columnNum: int, acc: seq<Record>, r: seq<Record>)
    requires columnNum == startColumn + |acc|
    requires HDynamicFrom(env, rank, header, rowNum, startColumn, columnNum, acc) == Success(r)
    ensures |acc| <= |r| && r[..|acc|] == acc
    ensures forall i :: |acc| <= i < |r| ==> HElementAt(env, rank, header, rowNum, startColumn, i, r[i])
    ensures HeaderStop(header, startColumn + |r|)
    ensures rank.enableDuplicateCheck && Distinct(acc) ==> Distinct(r)
    decreases LastCellNum(header) + 1 - columnNum
  {
    if !HeaderStop(header, columnNum) {
      var o := Element(env, rank.element, [(rank.titleRank, columnNum), (rowNum, columnNum)]).value;
      assert HDynamicFrom(env, rank, header, rowNum, startColumn, columnNum, acc)
          == HDynamicFrom(env, rank, header, rowNum, startColumn, columnNum + 1, acc + [o]);
      HDynamicFromMeaning(env, rank, header, rowNum, startColumn, columnNum + 1, acc + [o], r);
      assert r[|acc|] == r[..|acc| + 1][|acc|] == o;
      forall i | |acc| <= i < |r|
        ensures HElementAt(env, rank, header, rowNum, startColumn, i, r[i])
      {
        if i == |acc| {
          assert HElementAt(env, rank, header, rowNum, startColumn, |acc|, o);
        }
      }
      if rank.enableDuplicateCheck && Distinct(acc) {
        AppendKeepsDistinct(acc, o);
      }
      assert r[..|acc| + 1][..|acc|] == r[..|acc|];
    }
  }

  /** The row that ends a vertical dynamic block: past the last row, or an empty cell in the header column. */
  predicate VDynamicStop(env: Env, rank: DynamicRank, rowNum: int) {
    rowNum > LastRowNum(env.sheet) + 1 ||
    (RowAt(env.sheet, rowNum - 1).Some? && IsEmptyCell(CellAt(RowAt(env.sheet, rowNum - 1).value, rank.titleRank - 1)))
  }

  /** Element i of a vertical dynamic block: read from row startRow + i, in the header column and in the data column. */
  predicate VElementAt(env: Env, rank: DynamicRank, columnNum: int, startRow: int, i: int, o: Record) {
    startRow + i <= LastRowNum(env.sheet) + 1
    && RowAt(env.sheet, startRow + i - 1).Some?
    && !IsEmptyCell(CellAt(RowAt(env.sheet, startRow + i - 1).value, rank.titleRank - 1))
    && Element(env, rank.element, [(startRow + i, rank.titleRank), (startRow + i, columnNum)]) == Success(o)
  }

  /** A vertical dynamic block has one element per row from its first row down to the first empty cell of the header column. */
  lemma {:induction false} VDynamicFromMeaning(env: Env, rank: DynamicRank, columnNum: int, startRow: int,
                                               rowNum: int, acc: seq<Record>, r: seq<Record>)
    requires rowNum == startRow + |acc|
    requires VDynamicFrom(env, rank, columnNum, startRow, rowNum, acc) == Success(r)
    ensures |acc| <= |r| && r[..|acc|] == acc
    ensures forall i :: |acc| <= i < |r| ==> VElementAt(env, rank, columnNum, startRow, i, r[i])
    ensures VDynamicStop(env, rank, startRow + |r|)
    ensures rank.enableDuplicateCheck && Distinct(acc) ==> Distinct(r)
    decreases LastRowNum(env.sheet) + 2 - rowNum
  {
    if rowNum <= LastRowNum(env.sheet) + 1 && RowAt(env.sheet, rowNum - 1).Some?
       && !IsEmptyCell(CellAt(RowAt(env.sheet, rowNum - 1).value, rank.titleRank - 1)) {
      var o := Element(env, rank.element, [(rowNum, rank.titleRank), (rowNum, columnNum)]).value;
      assert VDynamicFrom(env, rank, columnNum, startRow, rowNum, acc)
          == VDynamicFrom(env, rank, columnNum, startRow, rowNum + 1, acc + [o]);
      VDynamicFromMeaning(env, rank, columnNum, startRow, rowNum + 1, acc + [o], r);
      assert r[|acc|] == r[..|acc| + 1][|acc|] == o;
      forall i | |acc| <= i < |r|
        ensures VElementAt(env, rank, columnNum, startRow, i, r[i])
      {
        if i == |acc| {
          assert VElementAt(env, rank, columnNum, startRow, |acc|, o);
        }
      }
      if rank.enableDuplicateCheck && Distinct(acc) {
        AppendKeepsDistinct(acc, o);
      }
      assert r[..|acc| + 1][..|acc|] == r[..|acc|];
    }
  }

  // ----- One step of each loop -----

  /** A scan along the header row stops at its end or at an empty header cell. */
  lemma VScalarsStop(env: Env, header: Row, startColumn: int, dedupe: bool, columnNum: int, acc: seq<string>)
    requires HeaderStop(header, columnNum)
    ensures VScalarsFrom(env, header, startColumn, dedupe, columnNum, acc) == Success(acc)
  {
  }

  /** A scan along the header row at a non-empty cell: a duplicate, or on to the next column. */
  lemma VScalarsNext(env: Env, header: Row, startColumn: int, dedupe: bool, columnNum: int, acc: seq<string>,
                     v: string, earlier: Option<nat>)
    requires !HeaderStop(header, columnNum) && v == TextAt(env, header, columnNum)
    requires earlier == if dedupe then FirstIndex(acc, v) else None
    ensures earlier.Some? ==>
      VScalarsFrom(env, header, startColumn, dedupe, columnNum, acc)
      == Failure(Duplicate(env.sheetNo, AtColumn(LabelOf(earlier.value + startColumn)), AtColumn(LabelOf(columnNum))))
    ensures earlier.None? ==>
      VScalarsFrom(env, header, startColumn, dedupe, columnNum, acc)
      == VScalarsFrom(env, header, startColumn, dedupe, columnNum + 1, acc + [v])
  {
  }

  /** A vertical entity scan ends at a column empty in the whole sheet or at the end tag. */
  lemma VRecordsStop(env: Env, header: Row, fields: seq<Field>, startRow: int, startColumn: int, dedupe: bool,
                     columnNum: int, acc: seq<Record>)
    requires columnNum <= LastCellNum(header) && EmptyColumn(env.sheet, columnNum).Success?
    requires VRecordStop(env, header, columnNum)
    ensures VRecordsFrom(env, header, fields, startRow, startColumn, dedupe, columnNum, acc) == Success(acc)
  {
  }

  /** A vertical entity scan fails where its emptiness test or its field loop throws. */
  lemma VRecordsFail(env: Env, header: Row, fields: seq<Field>, startRow: int, startColumn: int, dedupe: bool,
                     columnNum: int, acc: seq<Record>)
    requires columnNum <= LastCellNum(header)
    ensures EmptyColumn(env.sheet, columnNum).Failure? ==>
      VRecordsFrom(env, header, fields, startRow, startColumn, dedupe, columnNum, acc) == Failure(EmptyColumn(env.sheet, columnNum).error)
    ensures !VRecordStop(env, header, columnNum) && EmptyColumn(env.sheet, columnNum).Success?
            && VFields(env, fields, columnNum, 0, startRow, map[]).Failure? ==>
      VRecordsFrom(env, header, fields, startRow, startColumn, dedupe, columnNum, acc)
      == Failure(VFields(env, fields, columnNum, 0, startRow, map[]).error)
  {
  }

  /** A vertical entity scan at a column that does not end it: a duplicate, or on to the next column. */
  lemma VRecordsNext(env: Env, header: Row, fields: seq<Field>, startRow: int, startColumn: int, dedupe: bool,
                     columnNum: int, acc: seq<Record>, t: Record, earlier: Option<nat>)
    requires columnNum <= LastCellNum(header) && EmptyColumn(env.sheet, columnNum).Success?
    requires !VRecordStop(env, header, columnNum)
    requires VFields(env, fields, columnNum, 0, startRow, map[]) == Success(t)
    requires earlier == if dedupe then FirstIndex(acc, t) else None
    ensures earlier.Some? ==>
      VRecordsFrom(env, header, fields, startRow, startColumn, dedupe, columnNum, acc)
      == Failure(Duplicate(env.sheetNo, AtColumn(LabelOf(earlier.value + startColumn)), AtColumn(LabelOf(columnNum))))
    ensures earlier.None? ==>
      VRecordsFrom(env, header, fields, startRow, startColumn, dedupe, columnNum, acc)
      == VRecordsFrom(env, header, fields, startRow, startColumn, dedupe, columnNum + 1, acc + [t])
  {
  }

  /** A horizontal dynamic block stops at the end of its header row or at an empty header cell. */
  lemma HDynamicStop(env: Env, rank: DynamicRank, header: Row, rowNum: int, startColumn: int, columnNum: int, acc: seq<Record>)
    requires HeaderStop(header, columnNum)
    ensures HDynamicFrom(env, rank, header, rowNum, startColumn, columnNum, acc) == Success(acc)
  {
  }

  /** A horizontal dynamic block at a non-empty header cell: its element fails, is a duplicate, or is added. */
  lemma HDynamicNext(env: Env, rank: DynamicRank, header: Row, rowNum: int, startColumn: int, columnNum: int, acc: seq<Record>,
                     o: Result<Record, Error>, earlier: Option<nat>)
    requires !HeaderStop(header, columnNum)
    requires o == Element(env, rank.element, [(rank.titleRank, columnNum), (rowNum, columnNum)])
    requires o.Success? ==> earlier == if rank.enableDuplicateCheck then FirstIndex(acc, o.value) else None
    ensures o.Failure? ==> HDynamicFrom(env, rank, header, rowNum, startColumn, columnNum, acc) == Failure(o.error)
    ensures o.Success? && earlier.Some? ==>
      HDynamicFrom(env, rank, header, rowNum, startColumn, columnNum, acc)
      == Failure(Duplicate(env.sheetNo, AtColumn(LabelOf(earlier.value + startColumn)), AtColumn(LabelOf(columnNum))))
    ensures o.Success? && earlier.None? ==>
      HDynamicFrom(env, rank, header, rowNum, startColumn, columnNum, acc)
      == HDynamicFrom(env, rank, header, rowNum, startColumn, columnNum + 1, acc + [o.value])
  {
  }

  /** A vertical dynamic block stops past the last row or at an empty cell of its header column. */
  lemma VDynamicStopped(env: Env, rank: DynamicRank, columnNum: int, startRow: int, rowNum: int, acc: seq<Record>)
    requires VDynamicStop(env, rank, rowNum)
    ensures VDynamicFrom(env, rank, columnNum, startRow, rowNum, acc) == Success(acc)
  {
  }

  /** A vertical dynamic block at a non-empty header cell: its element fails, is a duplicate, or is added. */
  lemma VDynamicNext(env: Env, rank: DynamicRank, columnNum: int, startRow: int, rowNum: int, acc: seq<Record>,
                     o: Result<Record, Error>, earlier: Option<nat>)
    requires rowNum <= LastRowNum(env.sheet) + 1 && RowAt(env.sheet, rowNum - 1).Some? && !VDynamicStop(env, rank, rowNum)
    requires o == Element(env, rank.element, [(rowNum, rank.titleRank), (rowNum, columnNum)])
    requires o.Success? ==> earlier == if rank.enableDuplicateCheck then FirstIndex(acc, o.value) else None
    ensures o.Failure? ==> VDynamicFrom(env, rank, columnNum, startRow, rowNum, acc) == Failure(o.error)
    ensures o.Success? && earlier.Some? ==>
      VDynamicFrom(env, rank, columnNum, startRow, rowNum, acc)
      == Failure(Duplicate(env.sheetNo, AtRow(earlier.value + startRow), AtRow(rowNum)))
    ensures o.Success? && earlier.None? ==>
      VDynamicFrom(env, rank, columnNum, startRow, rowNum, acc)
      == VDynamicFrom(env, rank, columnNum, startRow, rowNum + 1, acc + [o.value])
  {
  }

  // ----- The duplicate check -----

  /** With the check off, a base-type row scan can only fail on a missing row; it never reports a duplicate. */
  lemma {:induction false} HScalarsUncheckedNeverDuplicate(env: Env, startRow: int, startColumn: int, rowNum: int, acc: seq<string>)
    ensures HScalarsFrom(env, startRow, startColumn, false, rowNum, acc).Success?
            || HScalarsFrom(env, startRow, startColumn, false, rowNum, acc).error.NullPointer?
    decreases LastRowNum(env.sheet) + 2 - rowNum
  {
    if rowNum <= LastRowNum(env.sheet) + 1 && RowAt(env.sheet, rowNum - 1).Some?
       && !IsEmptyCell(CellAt(RowAt(env.sheet, rowNum - 1).value, startColumn - 1)) {
      var v := TextAt(env, RowAt(env.sheet, rowNum - 1).value, startColumn);
      HScalarsUncheckedNeverDuplicate(env, startRow, startColumn, rowNum + 1, acc + [v]);
    }
  }

  /** With the check off, a base-type scan along the header row always succeeds. */
  lemma {:induction false} VScalarsUncheckedSucceed(env: Env, header: Row, startColumn: int, columnNum: int, acc: seq<string>)
    ensures VScalarsFrom(env, header, startColumn, false, columnNum, acc).Success?
    decreases LastCellNum(header) + 1 - columnNum
  {
    if !HeaderStop(header, columnNum) {
      VScalarsUncheckedSucceed(env, header, startColumn, columnNum + 1, acc + [TextAt(env, header, columnNum)]);
    }
  }

  /** A base-type row scan that reports a duplicate has read a non-empty leading cell at this row. */
  lemma HScalarsDuplicateRow(env: Env, startRow: int, startColumn: int, rowNum: int, acc: seq<string>, a: int, b: int)
    requires HScalarsFrom(env, startRow, startColumn, true, rowNum, acc) == Failure(Duplicate(env.sheetNo, AtRow(a), AtRow(b)))
    ensures rowNum <= LastRowNum(env.sheet) + 1 && RowAt(env.sheet, rowNum - 1).Some?
    ensures !IsEmptyCell(CellAt(RowAt(env.sheet, rowNum - 1).value, startColumn - 1))
  {
  }

  /** Where a base-type row scan that reports a duplicate finds it: at this row's value, or further down. */
  lemma HScalarsDuplicateStep(env: Env, startRow: int, startColumn: int, rowNum: int, acc: seq<string>, a: int, b: int, v: string)
    requires rowNum <= LastRowNum(env.sheet) + 1 && RowAt(env.sheet, rowNum - 1).Some?
    requires !IsEmptyCell(CellAt(RowAt(env.sheet, rowNum - 1).value, startColumn - 1))
    requires v == TextAt(env, RowAt(env.sheet, rowNum - 1).value, startColumn)
    requires HScalarsFrom(env, startRow, startColumn, true, rowNum, acc) == Failure(Duplicate(env.sheetNo, AtRow(a), AtRow(b)))
    ensures FirstIndex(acc, v).Some? ==> a == FirstIndex(acc, v).value + startRow && b == rowNum
    ensures FirstIndex(acc, v).None? ==>
      HScalarsFrom(env, startRow, startColumn, true, rowNum + 1, acc + [v]) == Failure(Duplicate(env.sheetNo, AtRow(a), AtRow(b)))
  {
  }

  /**
   * A duplicate reported by a base-type row scan cites two rows of the table, the
   * earlier first, whose leading cells read the same.
   */
  lemma {:induction false} HScalarDuplicateCitesEqualRows(env: Env, startRow: int, startColumn: int, rowNum: int, acc: seq<string>,
                                                          a: int, b: int)
    requires rowNum == startRow + |acc|
    requires forall i :: 0 <= i < |acc| ==> HScalarAt(env, startRow, startColumn, i, acc[i])
    requires HScalarsFrom(env, startRow, startColumn, true, rowNum, acc) == Failure(Duplicate(env.sheetNo, AtRow(a), AtRow(b)))
    ensures startRow <= a < b
    ensures RowAt(env.sheet, b - 1).Some?
    ensures var v := TextAt(env, RowAt(env.sheet, b - 1).value, startColumn);
      HScalarAt(env, startRow, startColumn, a - startRow, v) && HScalarAt(env, startRow, startColumn, b - startRow, v)
    decreases LastRowNum(env.sheet) + 2 - rowNum
  {
    HScalarsDuplicateRow(env, startRow, startColumn, rowNum, acc, a, b);
    var v := TextAt(env, RowAt(env.sheet, rowNum - 1).value, startColumn);
    HScalarsDuplicateStep(env, startRow, startColumn, rowNum, acc, a, b, v);
    assert HScalarAt(env, startRow, startColumn, |acc|, v);
    var earlier := FirstIndex(acc, v);
    if earlier.Some? {
      assert a - startRow == earlier.value && b - startRow == |acc|;
      HScalarDuplicateHere(env, startRow, startColumn, acc, v, a, b);
    } else {
      HScalarsAppend(env, startRow, startColumn, acc, v);
      HScalarDuplicateCitesEqualRows(env, startRow, startColumn, rowNum + 1, acc + [v], a, b);
    }
  }

  /** A value equal to entry `a - startRow` and read at the next row `b`: both rows read it. */
  lemma HScalarDuplicateHere(env: Env, startRow: int, startColumn: int, acc: seq<string>, v: string, a: int, b: int)
    requires startRow <= a < startRow + |acc| && b == startRow + |acc| && acc[a - startRow] == v
    requires HScalarAt(env, startRow, startColumn, a - startRow, acc[a - startRow])
    requires HScalarAt(env, startRow, startColumn, b - startRow, v)
    ensures RowAt(env.sheet, b - 1).Some?
    ensures var w := TextAt(env, RowAt(env.sheet, b - 1).value, startColumn);
      HScalarAt(env, startRow, startColumn, a - startRow, w) && HScalarAt(env, startRow, startColumn, b - startRow, w)
  {
  }

  /** Appending the value read at the next row keeps every entry the reading of its row. */
  lemma HScalarsAppend(env: Env, startRow: int, startColumn: int, acc: seq<string>, v: string)
    requires forall i :: 0 <= i < |acc| ==> HScalarAt(env, startRow, startColumn, i, acc[i])
    requires HScalarAt(env, startRow, startColumn, |acc|, v)
    ensures forall i :: 0 <= i < |acc + [v]| ==> HScalarAt(env, startRow, startColumn, i, (acc + [v])[i])
  {
    forall i | 0 <= i < |acc + [v]|
      ensures HScalarAt(env, startRow, startColumn, i, (acc + [v])[i])
    {
      if i < |acc| {
        assert (acc + [v])[i] == acc[i];
      }
    }
  }

  // ----- The public readers -----

  /** A reader that succeeds returns at least one entry. */
  lemma ReadersNeverReturnEmpty(cfg: Settings, lib: Library, sheets: seq<Sheet>, sheetNo: int, startRow: int, startColumn: int,
                                target: Target, dedupe: bool)
    requires sheetNo >= 1
    ensures HorizontalData(cfg, lib, sheets, sheetNo, startRow, startColumn, target, dedupe).Success? ==>
      HorizontalData(cfg, lib, sheets, sheetNo, startRow, startColumn, target, dedupe).value != []
    ensures VerticalData(cfg, lib, sheets, sheetNo, startRow, startColumn, target, dedupe).Success? ==>
      VerticalData(cfg, lib, sheets, sheetNo, startRow, startColumn, target, dedupe).value != []
  {
  }

  /**
   * The horizontal start check reads the comment of the header cell above the first
   * data row even when no start tag is set: a table without that comment is rejected.
   */
  lemma HorizontalNeedsHeaderComment(cfg: Settings, lib: Library, sheets: seq<Sheet>, sheetNo: int, startRow: int, startColumn: int,
                                     target: Target, dedupe: bool)
    requires 1 <= sheetNo <= |sheets|
    requires Comment(sheets[sheetNo - 1], startRow - 1, startColumn).None?
      || (cfg.startTag != "" && Comment(sheets[sheetNo - 1], startRow - 1, startColumn) != Some(cfg.startTag))
    ensures HorizontalData(cfg, lib, sheets, sheetNo, startRow, startColumn, target, dedupe) == Failure(StartMismatch)
  {
  }

  /**
   * The vertical start check is inverted: a set start tag EQUAL to the comment at the
   * first data cell rejects the table, and a missing comment throws.
   */
  lemma VerticalStartTagInverted(cfg: Settings, lib: Library, sheets: seq<Sheet>, sheetNo: int, startRow: int, startColumn: int,
                                 target: Target, dedupe: bool)
    requires 1 <= sheetNo <= |sheets| && cfg.startTag != ""
    ensures Comment(sheets[sheetNo - 1], startRow, startColumn) == Some(cfg.startTag) ==>
      VerticalData(cfg, lib, sheets, sheetNo, startRow, startColumn, target, dedupe) == Failure(StartMismatch)
    ensures Comment(sheets[sheetNo - 1], startRow, startColumn).None? ==>
      VerticalData(cfg, lib, sheets, sheetNo, startRow, startColumn, target, dedupe) == Failure(NullPointer(AbsentComment(startRow, startColumn)))
  {
  }

  /**
   * getHorizontalData for a base type returns the leading cells of the rows from
   * `startRow` down to the first empty one (or the last row); with the check on, all distinct.
   */
  lemma HorizontalScalars(cfg: Settings, lib: Library, sheets: seq<Sheet>, sheetNo: int, startRow: int, startColumn: int,
                          target: Target, dedupe: bool)
    requires sheetNo >= 1 && IsBaseType(target.cls)
    requires HorizontalData(cfg, lib, sheets, sheetNo, startRow, startColumn, target, dedupe).Success?
    ensures sheetNo <= |sheets| && HorizontalStartMatches(cfg, sheets[sheetNo - 1], startRow, startColumn)
    ensures var list := HorizontalData(cfg, lib, sheets, sheetNo, startRow, startColumn, target, dedupe).value;
      var env := Env(cfg, lib, sheets[sheetNo - 1], sheetNo);
      && (forall i :: 0 <= i < |list| ==> list[i].Scalar? && HScalarAt(env, startRow, startColumn, i, list[i].value))
      && HScalarStop(env, startColumn, startRow + |list|)
      && (dedupe ==> Distinct(list))
  {
    var env := Env(cfg, lib, sheets[sheetNo - 1], sheetNo);
    var values := HScalarsFrom(env, startRow, startColumn, dedupe, startRow, []).value;
    HScalarsFromMeaning(env, startRow, startColumn, dedupe, startRow, [], values);
  }

  /**
   * getHorizontalData for an entity class returns one entity per row from `startRow`
   * down to the first empty row or end-tag row (or the last row); with the check on, all distinct.
   */
  lemma HorizontalEntities(cfg: Settings, lib: Library, sheets: seq<Sheet>, sheetNo: int, startRow: int, startColumn: int,
                           target: Target, dedupe: bool)
    requires sheetNo >= 1 && !IsBaseType(target.cls)
    requires HorizontalData(cfg, lib, sheets, sheetNo, startRow, startColumn, target, dedupe).Success?
    ensures sheetNo <= |sheets| && HorizontalStartMatches(cfg, sheets[sheetNo - 1], startRow, startColumn)
    ensures var list := HorizontalData(cfg, lib, sheets, sheetNo, startRow, startColumn, target, dedupe).value;
      var env := Env(cfg, lib, sheets[sheetNo - 1], sheetNo);
      && (forall i :: 0 <= i < |list| ==> list[i].Composite? && HRecordAt(env, target.fields, startRow, startColumn, i, list[i].record))
      && (forall i :: 0 <= i < |list| ==> list[i].Composite? && list[i].record.Keys == Names(target.fields, 0))
      && HRecordStop(env, startColumn, startRow + |list|)
      && (dedupe ==> Distinct(list))
  {
    var env := Env(cfg, lib, sheets[sheetNo - 1], sheetNo);
    var records := HRecordsFrom(env, target.fields, startRow, startColumn, dedupe, startRow, []).value;
    HRecordsFromMeaning(env, target.fields, startRow, startColumn, dedupe, startRow, [], records);
    forall i | 0 <= i < |records| ensures records[i].Keys == Names(target.fields, 0) {
      HRecordKeys(env, target.fields, startRow, startColumn, i, records[i]);
    }
  }

  /**
   * getVerticalData for a base type returns the cells of the header row from
   * `startColumn` to the first empty one; with the check on, all distinct.
   */
  lemma VerticalScalars(cfg: Settings, lib: Library, sheets: seq<Sheet>, sheetNo: int, startRow: int, startColumn: int,
                        target: Target, dedupe: bool)
    requires sheetNo >= 1 && IsBaseType(target.cls)
    requires VerticalData(cfg, lib, sheets, sheetNo, startRow, startColumn, target, dedupe).Success?
    ensures sheetNo <= |sheets| && RowAt(sheets[sheetNo - 1], startRow - 1).Some?
    ensures var list := VerticalData(cfg, lib, sheets, sheetNo, startRow, startColumn, target, dedupe).value;
      var env := Env(cfg, lib, sheets[sheetNo - 1], sheetNo);
      var header := RowAt(sheets[sheetNo - 1], startRow - 1).value;
      && (forall i :: 0 <= i < |list| ==> list[i].Scalar? && VScalarAt(env, header, startColumn, i, list[i].value))
      && HeaderStop(header, startColumn + |list|)
      && (dedupe ==> Distinct(list))
  {
    var env := Env(cfg, lib, sheets[sheetNo - 1], sheetNo);
    var header := RowAt(sheets[sheetNo - 1], startRow - 1).value;
    var values := VScalarsFrom(env, header, startColumn, dedupe, startColumn, []).value;
    VScalarsFromMeaning(env, header, startColumn, dedupe, startColumn, [], values);
  }

  /**
   * getVerticalData for an entity class returns one entity per column from
   * `startColumn` up to a column empty in the whole sheet or an end-tag column; with the check on, all distinct.
   */
  lemma VerticalEntities(cfg: Settings, lib: Library, sheets: seq<Sheet>, sheetNo: int, startRow: int, startColumn: int,
                         target: Target, dedupe: bool)
    requires sheetNo >= 1 && !IsBaseType(target.cls)
    requires VerticalData(cfg, lib, sheets, sheetNo, startRow, startColumn, target, dedupe).Success?
    ensures sheetNo <= |sheets| && RowAt(sheets[sheetNo - 1], startRow - 1).Some?
    ensures var list := VerticalData(cfg, lib, sheets, sheetNo, startRow, startColumn, target, dedupe).value;
      var env := Env(cfg, lib, sheets[sheetNo - 1], sheetNo);
      var header := RowAt(sheets[sheetNo - 1], startRow - 1).value;
      && (forall i :: 0 <= i < |list| ==> list[i].Composite? && VRecordAt(env, header, target.fields, startRow, startColumn, i, list[i].record))
      && (forall i :: 0 <= i < |list| ==> list[i].Composite? && list[i].record.Keys == Names(target.fields, 0))
      && VRecordStop(env, header, startColumn + |list|)
      && (dedupe ==> Distinct(list))
  {
    var env := Env(cfg, lib, sheets[sheetNo - 1], sheetNo);
    var header := RowAt(sheets[sheetNo - 1], startRow - 1).value;
    var records := VRecordsFrom(env, header, target.fields, startRow, startColumn, dedupe, startColumn, []).value;
    VRecordsFromMeaning(env, header, target.fields, startRow, startColumn, dedupe, startColumn, [], records);
    forall i | 0 <= i < |records| ensures records[i].Keys == Names(target.fields, 0) {
      VRecordKeys(env, header, target.fields, startRow, startColumn, i, records[i]);
    }
  }
}
