/**
 * The 4.1 field validator (setField): the cell is coerced to a string and then
 * checked against each annotation present, NotNull, ExcelDateFormat,
 * ExcelNumberFormat and ValueLimit in that order, every one that is present
 * applying; there is no Transform, no "0" for an empty number, and messages cite
 * the column by its number.
 */
module Validation41 {
  import opened Wrappers
  import opened JavaText
  import opened Schema
  import opened Sheets
  import opened Guards
  import Validation42

  // ----- The `when` guard -----

  /**
   * isWhen: the guard holds when the named property of the entity under
   * construction currently equals the literal; a property without a getter throws.
   */
  function IsWhen(fields: seq<Field>, rec: Record, when: string): Result<bool, Error> {
    var guard :- ParseGuard(when);
    match Accessor(fields, guard.0)
    case None => Failure(BadGuard(UnknownField(guard.0)))
    case Some(f) => Success(GetterValue(rec, f) == Some(guard.1))
  }

  /** A guard "name==literal" naming a declared property holds exactly when that property holds the literal. */
  lemma IsWhenOnProperty(fields: seq<Field>, rec: Record, name: string, literal: string)
    requires name != "" && literal != "" && IsTrimmed(name) && IsTrimmed(literal) && '=' !in name
    requires Accessor(fields, name) == Some(name)
    ensures IsWhen(fields, rec, name + "==" + literal) == Success(name in rec && rec[name] == Text(literal))
  {
    ParseGuardRoundTrip(name, literal);
  }

  /** A guard naming a property the class does not have throws, citing the name. */
  lemma IsWhenOnUnknownProperty(fields: seq<Field>, rec: Record, name: string, literal: string)
    requires name != "" && literal != "" && IsTrimmed(name) && IsTrimmed(literal) && '=' !in name
    requires forall i :: 0 <= i < |fields| ==> Capitalize(fields[i].name) != Capitalize(name)
    ensures IsWhen(fields, rec, name + "==" + literal) == Failure(BadGuard(UnknownField(name)))
  {
    ParseGuardRoundTrip(name, literal);
  }

  /**
   * The two engines read a guard alike, except for a property without a getter:
   * 4.1 throws where 4.2 answers false.
   */
  lemma IsWhenAcrossVersions(fields: seq<Field>, rec: Record, when: string)
    ensures ParseGuard(when).Failure? ==> IsWhen(fields, rec, when) == Validation42.IsWhen(fields, rec, when)
    ensures ParseGuard(when).Success? && Accessor(fields, ParseGuard(when).value.0).Some? ==>
      IsWhen(fields, rec, when) == Validation42.IsWhen(fields, rec, when)
    ensures ParseGuard(when).Success? && Accessor(fields, ParseGuard(when).value.0).None? ==>
      IsWhen(fields, rec, when) == Failure(BadGuard(UnknownField(ParseGuard(when).value.0)))
      && Validation42.IsWhen(fields, rec, when) == Success(false)
  {
  }

  // ----- The checks -----

  /** Whether the number check applies: the field has ExcelNumberFormat and its guard is absent or holds. */
  function NumberCheckApplies(fields: seq<Field>, rec: Record, field: Field): (r: Result<bool, Error>)
    ensures r.Success? && r.value ==> field.numberFormat.Some?
  {
    if field.numberFormat.None? then Success(false)
    else if field.numberFormat.value.when == "" then Success(true)
    else IsWhen(fields, rec, field.numberFormat.value.when)
  }

  /**
   * setField's checks on the coerced value `cellVal` of a field at (rowNo, columnNo):
   * the value itself when every check passes, otherwise the first one that fails.
   */
  function Checked(lib: Library, fields: seq<Field>, rec: Record, field: Field, cellVal: string,
                   sheetNo: int, rowNo: int, columnNo: int): Result<string, Error>
  {
    var column := Digits(columnNo);
    if field.notNull.Some? && cellVal == "" then
      Failure(Invalid(Required, sheetNo, rowNo, column, field.notNull.value.message))
    else if field.dateFormat.Some? && !IsDate(lib, cellVal, field.dateFormat.value.pattern) then
      Failure(Invalid(DateFormatRule, sheetNo, rowNo, column, field.dateFormat.value.message))
    else
      var numeric :- NumberCheckApplies(fields, rec, field);
      if numeric && !IsNumber(lib, cellVal, field.numberFormat.value.format) then
        Failure(Invalid(NumberFormatRule, sheetNo, rowNo, column, field.numberFormat.value.message))
      else if field.valueLimit.Some? && cellVal !in field.valueLimit.value.limit then
        Failure(Invalid(ValueLimitRule, sheetNo, rowNo, column, field.valueLimit.value.message))
      else Success(cellVal)
  }

  /** setField: the value a field receives from its cell at (rowNo, columnNo), or the exception thrown. */
  function VerifiedValue(cfg: Settings, lib: Library, fields: seq<Field>, rec: Record, field: Field,
                         cell: Option<Cell>, sheetNo: int, rowNo: int, columnNo: int): Result<string, Error>
  {
    var cellVal :- CellValue(cell, Some(field), cfg, lib);
    Checked(lib, fields, rec, field, cellVal, sheetNo, rowNo, columnNo)
  }

  // ----- Properties of the validator -----

  /**
   * The checks are independent: a value is accepted exactly when it meets every
   * annotation present, and an accepted value is stored as read.
   */
  lemma AcceptedIffEveryCheckPasses(lib: Library, fields: seq<Field>, rec: Record, field: Field, cellVal: string,
                                    sheetNo: int, rowNo: int, columnNo: int)
    requires NumberCheckApplies(fields, rec, field).Success?
    ensures var r := Checked(lib, fields, rec, field, cellVal, sheetNo, rowNo, columnNo);
      && (r.Success? <==>
            (field.notNull.Some? ==> cellVal != "")
            && (field.dateFormat.Some? ==> IsDate(lib, cellVal, field.dateFormat.value.pattern))
            && (NumberCheckApplies(fields, rec, field).value ==> IsNumber(lib, cellVal, field.numberFormat.value.format))
            && (field.valueLimit.Some? ==> cellVal in field.valueLimit.value.limit))
      && (r.Success? ==> r.value == cellVal)
  {
  }

  /** Every failure is one of the four rules or the guard, and cites the column by its number. */
  lemma FailuresCiteColumnNumber(lib: Library, fields: seq<Field>, rec: Record, field: Field, cellVal: string,
                                 sheetNo: int, rowNo: int, columnNo: int)
    requires Checked(lib, fields, rec, field, cellVal, sheetNo, rowNo, columnNo).Failure?
    ensures var e := Checked(lib, fields, rec, field, cellVal, sheetNo, rowNo, columnNo).error;
      (e.Invalid? && e.sheetNo == sheetNo && e.rowNo == rowNo && e.column == Digits(columnNo)) || e.BadGuard?
  {
  }

  /**
   * A date check does not shadow the value limit: a valid date outside the limit
   * is rejected by 4.1, while 4.2 checks only the date and accepts it.
   */
  lemma DateDoesNotShadowLimit(lib: Library, fields: seq<Field>, rec: Record, field: Field, cellVal: string,
                               sheetNo: int, rowNo: int, columnNo: int)
    requires field.notNull.None? && field.numberFormat.None?
    requires field.dateFormat.Some? && IsDate(lib, cellVal, field.dateFormat.value.pattern)
    requires field.valueLimit.Some? && cellVal !in field.valueLimit.value.limit
    ensures Checked(lib, fields, rec, field, cellVal, sheetNo, rowNo, columnNo) ==
      Failure(Invalid(ValueLimitRule, sheetNo, rowNo, Digits(columnNo), field.valueLimit.value.message))
    ensures Validation42.FormatChecked(lib, fields, rec, field, cellVal, sheetNo, rowNo, Digits(columnNo)) == Success(cellVal)
  {
  }

  /**
   * An empty cell of an unguarded number field reaches the number parse and is
   * rejected by 4.1, where 4.2 stores "0".
   */
  lemma EmptyNumberAcrossVersions(cfg: Settings, lib: Library, fields: seq<Field>, rec: Record, field: Field,
                                  sheetNo: int, rowNo: int, columnNo: int)
    requires field.notNull.None? && field.dateFormat.None? && field.transform.None?
    requires field.numberFormat.Some? && field.numberFormat.value.when == ""
    ensures VerifiedValue(cfg, lib, fields, rec, field, None, sheetNo, rowNo, columnNo) ==
      Failure(Invalid(NumberFormatRule, sheetNo, rowNo, Digits(columnNo), field.numberFormat.value.message))
    ensures Validation42.VerifiedValue(cfg, lib, fields, rec, field, None, sheetNo, rowNo, columnNo) == Success("0")
  {
  }

  /**
   * A guarded number check: when the guard holds the value must format as a number,
   * when it does not the value passes, and a malformed or unknown guard throws.
   */
  lemma GuardGatesNumberCheck(lib: Library, fields: seq<Field>, rec: Record, field: Field, cellVal: string,
                              sheetNo: int, rowNo: int, columnNo: int)
    requires field.notNull.None? && field.dateFormat.None? && field.valueLimit.None?
    requires field.numberFormat.Some? && field.numberFormat.value.when != ""
    ensures var enf := field.numberFormat.value;
      var r := Checked(lib, fields, rec, field, cellVal, sheetNo, rowNo, columnNo);
      && (IsWhen(fields, rec, enf.when) == Success(true) ==>
            r == if IsNumber(lib, cellVal, enf.format) then Success(cellVal)
                 else Failure(Invalid(NumberFormatRule, sheetNo, rowNo, Digits(columnNo), enf.message)))
      && (IsWhen(fields, rec, enf.when) == Success(false) ==> r == Success(cellVal))
      && (IsWhen(fields, rec, enf.when).Failure? ==> r == Failure(IsWhen(fields, rec, enf.when).error))
  {
    var g := IsWhen(fields, rec, field.numberFormat.value.when);
    assert NumberCheckApplies(fields, rec, field) == g;
    if g.Success? {
      assert Checked(lib, fields, rec, field, cellVal, sheetNo, rowNo, columnNo) ==
        if g.value && !IsNumber(lib, cellVal, field.numberFormat.value.format)
        then Failure(Invalid(NumberFormatRule, sheetNo, rowNo, Digits(columnNo), field.numberFormat.value.message))
        else Success(cellVal);
    }
  }
}
