/**
 * What the engine reads from an entity class by reflection, written out as
 * data: the ordered field descriptors with their annotations, the records it
 * fills, the session settings and the exceptions it throws.
 */
module Schema {
  import opened Wrappers

  const DefaultDatePattern: string := "yyyy/MM/dd"
  const DefaultNumberFormat: string := "#.##"

  // ----- Annotations -----

  datatype NotNull = NotNull(message: string)

  datatype ExcelDateFormat = ExcelDateFormat(pattern: string, message: string)

  /** `when` is the guard "field == value"; "" (the default) means no guard. */
  datatype ExcelNumberFormat = ExcelNumberFormat(format: string, when: string, message: string)

  datatype ValueLimit = ValueLimit(limit: seq<string>, message: string)

  /** Each expression has the form "from->to". */
  datatype Transform = Transform(expressions: seq<string>)

  /**
   * A list-valued field filled from a trailing group of columns (rows); `titleRank`
   * is the header row (column) and `element` the declared fields of the list's element class.
   */
  datatype DynamicRank = DynamicRank(titleRank: int, enableDuplicateCheck: bool, element: seq<Field>)

  /** One declared field of an entity class, with the annotations present on it. */
  datatype Field = Field(
    name: string,
    ignored: bool,
    notNull: Option<NotNull>,
    dateFormat: Option<ExcelDateFormat>,
    numberFormat: Option<ExcelNumberFormat>,
    valueLimit: Option<ValueLimit>,
    transform: Option<Transform>,
    dynamicRank: Option<DynamicRank>)

  /** A field with no annotation at all. */
  function PlainField(name: string): Field {
    Field(name, false, None, None, None, None, None, None)
  }

  /** The class a table is read into. */
  datatype ClassName = StringClass | IntegerClass | DoubleClass | ObjectClass | LongClass | UserClass(name: string)

  /** isBaseType: the classes whose values are read one cell per row (column). */
  predicate IsBaseType(c: ClassName) {
    c == StringClass || c == IntegerClass || c == DoubleClass || c == ObjectClass || c == LongClass
  }

  /** The target class with its declared fields, in declaration order. */
  datatype Target = Target(cls: ClassName, fields: seq<Field>)

  // ----- Records -----

  /** The value held by a field of a built entity: a string, or the list a dynamic field holds. */
  datatype FieldValue = Text(text: string) | Items(items: seq<map<string, FieldValue>>)

  /** An entity under construction or built: field name to assigned value; absent = still null. */
  type Record = map<string, FieldValue>

  /** One element of the list a scan returns. */
  datatype Entry = Scalar(value: string) | Composite(record: Record)

  // ----- Settings -----

  /** The configuration fields; a null tag and an empty tag behave alike, so both are "". */
  datatype Settings = Settings(datePattern: string, numberFormat: string, startTag: string, endTag: string)

  const DefaultSettings: Settings := Settings(DefaultDatePattern, DefaultNumberFormat, "", "")

  // ----- Exceptions -----

  datatype Rule = Required | DateFormatRule | NumberFormatRule | ValueLimitRule

  /** How a message names a column: 4.2 writes the letter label (null when not positive), 4.1 the number. */
  datatype ColumnRef = Letters(letters: Option<string>) | Digits(number: int)

  /** A position cited by a duplicate message: a row number or a column label. */
  datatype Coord = AtRow(row: int) | AtColumn(letters: Option<string>)

  datatype GuardProblem = MissingOperator | EmptyFieldName | EmptyCaseValue | UnknownField(name: string)

  /** Where a NullPointerException would be thrown. */
  datatype NullSite =
    | AbsentRow(rowNo: int)
    | AbsentCell(rowNo: int, columnNo: int)
    | AbsentComment(rowNo: int, columnNo: int)
    | AbsentNumberFormat
    | NoSheets                        // the sheets were never loaded by initialize

  datatype Error =
    | NoFile                          // EmptyExcelFileException from initialize
    | UnsupportedFormat(fileName: string)
    | UnknownContent                  // the bytes are neither an OOXML nor an OLE2 workbook
    | NegativeSheetNum                // NegativeArraySizeException
    | SheetNumOutOfBounds
    | HiddenSheet
    | SheetNoOutOfBounds
    | StartMismatch                   // "cannot match the start row/column"
    | EmptyData                       // EmptyExcelFileException: nothing was read
    | Invalid(rule: Rule, sheetNo: int, rowNo: int, column: ColumnRef, message: string)
    | BadGuard(problem: GuardProblem) // IllegalStatementsException from the `when` guard
    | BadTransform(expression: string)
    | Duplicate(sheetNo: int, earlier: Coord, later: Coord)
    | NullPointer(site: NullSite)
    | Hangs                           // 4.1's field loop would never end
}
