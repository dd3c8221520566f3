/**
 * The 4.2 field validator (getVerifiedCellVal): the cell is coerced to a
 * string, checked against NotNull, then against exactly one of ExcelDateFormat,
 * ExcelNumberFormat and ValueLimit, and finally rewritten by the Transform rules.
 */
module Validation42 {
  import opened Wrappers
  import opened JavaText
  import opened ColumnLabel
  import opened Schema
  import opened Sheets
  import opened Guards

  // ----- The `when` guard -----

  /**
   * isWhen: the guard holds when the named property of the entity under
   * construction currently equals the literal. A property without a getter reads
   * as "", and one not assigned yet reads as null; neither equals a literal.
   */
  function IsWhen(fields: seq<Field>, rec: Record, when: string): Result<bool, Error> {
    var guard :- ParseGuard(when);
    var value := match Accessor(fields, guard.0)
      case None => Some("")
      case Some(f) => GetterValue(rec, f);
    Success(value == Some(guard.1))
  }

  /** A guard "name==literal" naming a declared property holds exactly when that property holds the literal. */
  lemma IsWhenOnProperty(fields: seq<Field>, rec: Record, name: string, literal: string)
    requires name != "" && literal != "" && IsTrimmed(name) && IsTrimmed(literal) && '=' !in name
    requires Accessor(fields, name) == Some(name)
    ensures IsWhen(fields, rec, name + "==" + literal) == Success(name in rec && rec[name] == Text(literal))
  {
    ParseGuardRoundTrip(name, literal);
  }

  /** A guard naming a property the class does not have never holds (4.1 throws instead). */
  lemma IsWhenOnUnknownProperty(fields: seq<Field>, rec: Record, name: string, literal: string)
    requires name != "" && literal != "" && IsTrimmed(name) && IsTrimmed(literal) && '=' !in name
    requires forall i :: 0 <= i < |fields| ==> Capitalize(fields[i].name) != Capitalize(name)
    ensures IsWhen(fields, rec, name + "==" + literal) == Success(false)
  {
    ParseGuardRoundTrip(name, literal);
  }

  // ----- Transform -----

  /** The rule "from->to" split on its first "->", both sides trimmed; None when it has no arrow. */
  function SplitRule(expression: string): (r: Option<(string, string)>)
    ensures r.None? <==> !Contains(expression, "->")
  {
    SplitAtFirst(expression, "->")
  }

  /**
   * The rules applied in order, each to the value the previous ones left: a rule
   * whose `from` equals the current value replaces it with its `to`. Any rule
   * without an arrow throws, even after an earlier rule has matched.
   */
  function Transformed(exprs: seq<string>, v: string): Result<string, Error>
    decreases |exprs|
  {
    if exprs == [] then Success(v)
    else match SplitRule(exprs[0])
      case None => Failure(BadTransform(exprs[0]))
      case Some(rule) => Transformed(exprs[1..], if rule.0 == v then rule.1 else v)
  }

  /** The transform throws, whatever the value, exactly when some rule lacks the arrow. */
  lemma {:induction false} TransformFailsIffMalformed(exprs: seq<string>, v: string)
    ensures Transformed(exprs, v).Failure? <==> exists i :: 0 <= i < |exprs| && !Contains(exprs[i], "->")
    decreases |exprs|
  {
    if exprs != [] && SplitRule(exprs[0]).Some? {
      var rule := SplitRule(exprs[0]).value;
      TransformFailsIffMalformed(exprs[1..], if rule.0 == v then rule.1 else v);
      assert forall i :: 1 <= i < |exprs| ==> exprs[i] == exprs[1..][i - 1];
    }
  }

  /** A transform that throws names the first rule that lacks the arrow. */
  lemma {:induction false} TransformNamesFirstMalformed(exprs: seq<string>, v: string)
    requires Transformed(exprs, v).Failure?
    ensures exists i :: 0 <= i < |exprs| && Transformed(exprs, v).error == BadTransform(exprs[i])
                        && !Contains(exprs[i], "->") && forall j :: 0 <= j < i ==> Contains(exprs[j], "->")
    decreases |exprs|
  {
    if SplitRule(exprs[0]).Some? {
      var rule := SplitRule(exprs[0]).value;
      var rest := exprs[1..];
      TransformNamesFirstMalformed(rest, if rule.0 == v then rule.1 else v);
      var k :| 0 <= k < |rest| && Transformed(exprs, v).error == BadTransform(rest[k])
               && !Contains(rest[k], "->") && forall j :: 0 <= j < k ==> Contains(rest[j], "->");
      assert rest[k] == exprs[k + 1];
      assert forall j :: 0 <= j < k + 1 ==> Contains(exprs[j], "->") by {
        forall j | 0 <= j < k + 1
          ensures Contains(exprs[j], "->")
        {
          if j > 0 {
            assert exprs[j] == rest[j - 1];
          }
        }
      }
    }
  }

  /** A value that no rule's `from` matches passes through well-formed rules unchanged. */
  lemma {:induction false} TransformPassThrough(exprs: seq<string>, v: string)
    requires forall i :: 0 <= i < |exprs| ==> SplitRule(exprs[i]).Some? && SplitRule(exprs[i]).value.0 != v
    ensures Transformed(exprs, v) == Success(v)
    decreases |exprs|
  {
    if exprs != [] {
      assert SplitRule(exprs[0]).Some?;
      assert forall i :: 1 <= i < |exprs| ==> exprs[i] == exprs[1..][i - 1];
      TransformPassThrough(exprs[1..], v);
    }
  }

  /** One rule "from->to" maps `from` to `to`, when `from` holds no '-'. */
  lemma OneRule(from: string, to: string)
    requires IsTrimmed(from) && IsTrimmed(to) && '-' !in from
    ensures Transformed([from + "->" + to], from) == Success(to)
  {
    SplitJoin(from, "->", to);
    TrimOfTrimmed(from);
    TrimOfTrimmed(to);
    assert [from + "->" + to][1..] == [];
  }

  /** Rules chain: "a->b" then "b->c" take `a` to `c`, each rule reading what the previous one left. */
  lemma TransformChains(a: string, b: string, c: string)
    requires IsTrimmed(a) && IsTrimmed(b) && IsTrimmed(c) && '-' !in a && '-' !in b
    ensures Transformed([a + "->" + b, b + "->" + c], a) == Success(c)
  {
    var first := a + "->" + b;
    var second := b + "->" + c;
    SplitJoin(a, "->", b);
    TrimOfTrimmed(a);
    TrimOfTrimmed(b);
    OneRule(b, c);
    assert [first, second][1..] == [second];
  }

  /** The transform loop. */
  method ApplyTransforms(exprs: seq<string>, v: string) returns (r: Result<string, Error>)
    ensures r == Transformed(exprs, v)
  {
    var cellVal := v;
    var i := 0;
    while i < |exprs|
      invariant 0 <= i <= |exprs|
      invariant Transformed(exprs, v) == Transformed(exprs[i..], cellVal)
    {
      var expression := exprs[i];
      var rule := SplitRule(expression);
      assert exprs[i..][1..] == exprs[i + 1..];
      if rule.None? {
        return Failure(BadTransform(expression));
      }
      if rule.value.0 == cellVal {
        cellVal := rule.value.1;
      }
      i := i + 1;
    }
    return Success(cellVal);
  }

  // ----- The checks -----

  /**
   * The format checks, of which only the first annotation present applies: a date
   * must parse; an empty number becomes "0", otherwise, when the guard is absent or
   * holds, it must format as a number; a limited value must be one of the limits.
   */
  function FormatChecked(lib: Library, fields: seq<Field>, rec: Record, field: Field, cellVal: string,
                         sheetNo: int, rowNo: int, column: ColumnRef): Result<string, Error>
  {
    if field.dateFormat.Some? then
      var edf := field.dateFormat.value;
      if IsDate(lib, cellVal, edf.pattern) then Success(cellVal)
      else Failure(Invalid(DateFormatRule, sheetNo, rowNo, column, edf.message))
    else if field.numberFormat.Some? then
      var enf := field.numberFormat.value;
      if cellVal == "" then Success("0")
      else
        var applies :- (if enf.when == "" then Success(true) else IsWhen(fields, rec, enf.when));
        if !applies || IsNumber(lib, cellVal, enf.format) then Success(cellVal)
        else Failure(Invalid(NumberFormatRule, sheetNo, rowNo, column, enf.message))
    else if field.valueLimit.Some? then
      var vl := field.valueLimit.value;
      if cellVal in vl.limit then Success(cellVal)
      else Failure(Invalid(ValueLimitRule, sheetNo, rowNo, column, vl.message))
    else Success(cellVal)
  }

  /**
   * getVerifiedCellVal: the value a field receives from its cell at (rowNo, columnNo);
   * `fields` and `rec` are the declared fields and the current state of the entity.
   */
  function VerifiedValue(cfg: Settings, lib: Library, fields: seq<Field>, rec: Record, field: Field,
                         cell: Option<Cell>, sheetNo: int, rowNo: int, columnNo: int): Result<string, Error>
  {
    var cellVal :- CellValue(cell, Some(field), cfg, lib);
    var column := Letters(LabelOf(columnNo));
    if field.notNull.Some? && cellVal == "" then
      Failure(Invalid(Required, sheetNo, rowNo, column, field.notNull.value.message))
    else
      var checked :- FormatChecked(lib, fields, rec, field, cellVal, sheetNo, rowNo, column);
      if field.transform.Some? then Transformed(field.transform.value.expressions, checked) else Success(checked)
  }

  method GetVerifiedCellVal(cfg: Settings, lib: Library, fields: seq<Field>, rec: Record, field: Field,
                            cell: Option<Cell>, sheetNo: int, rowNo: int, columnNo: int)
    returns (r: Result<string, Error>)
    ensures r == VerifiedValue(cfg, lib, fields, rec, field, cell, sheetNo, rowNo, columnNo)
  {
    var cellVal :- CellValue(cell, Some(field), cfg, lib);
    var columnAlphabet := NumberToAlphabet(columnNo);
    var column := Letters(columnAlphabet);
    if field.notNull.Some? && cellVal == "" {
      return Failure(Invalid(Required, sheetNo, rowNo, column, field.notNull.value.message));
    }
    var checked :- FormatChecked(lib, fields, rec, field, cellVal, sheetNo, rowNo, column);
    if field.transform.Some? {
      r := ApplyTransforms(field.transform.value.expressions, checked);
    } else {
      r := Success(checked);
    }
  }

  // ----- Properties of the validator -----

  /** NotNull is checked before anything else: an empty cell on a NotNull field fails with its message. */
  lemma RequiredComesFirst(cfg: Settings, lib: Library, fields: seq<Field>, rec: Record, field: Field,
                           cell: Option<Cell>, sheetNo: int, rowNo: int, columnNo: int)
    requires field.notNull.Some? && CellValue(cell, Some(field), cfg, lib) == Success("")
    ensures VerifiedValue(cfg, lib, fields, rec, field, cell, sheetNo, rowNo, columnNo) ==
      Failure(Invalid(Required, sheetNo, rowNo, Letters(LabelOf(columnNo)), field.notNull.value.message))
  {
  }

  /** A NotNull field never receives an empty value, unless a Transform rule maps to "". */
  lemma RequiredFieldIsFilled(cfg: Settings, lib: Library, fields: seq<Field>, rec: Record, field: Field,
                              cell: Option<Cell>, sheetNo: int, rowNo: int, columnNo: int)
    requires field.notNull.Some? && field.transform.None?
    requires VerifiedValue(cfg, lib, fields, rec, field, cell, sheetNo, rowNo, columnNo).Success?
    ensures VerifiedValue(cfg, lib, fields, rec, field, cell, sheetNo, rowNo, columnNo).value != ""
  {
  }

  /** The format checks form an if / else-if chain: a date field ignores its number and limit annotations. */
  lemma ChecksAreExclusive(lib: Library, fields: seq<Field>, rec: Record, field: Field, cellVal: string,
                           sheetNo: int, rowNo: int, column: ColumnRef)
    ensures field.dateFormat.Some? ==>
      FormatChecked(lib, fields, rec, field, cellVal, sheetNo, rowNo, column) ==
      FormatChecked(lib, fields, rec, field.(numberFormat := None, valueLimit := None), cellVal, sheetNo, rowNo, column)
    ensures field.numberFormat.Some? ==>
      FormatChecked(lib, fields, rec, field, cellVal, sheetNo, rowNo, column) ==
      FormatChecked(lib, fields, rec, field.(valueLimit := None), cellVal, sheetNo, rowNo, column)
  {
  }

  /** A date field rejects an empty value (when it is not NotNull, the empty cell reaches the parser). */
  lemma EmptyDateIsRejected(lib: Library, fields: seq<Field>, rec: Record, field: Field,
                            sheetNo: int, rowNo: int, column: ColumnRef)
    requires field.dateFormat.Some?
    ensures FormatChecked(lib, fields, rec, field, "", sheetNo, rowNo, column) ==
      Failure(Invalid(DateFormatRule, sheetNo, rowNo, column, field.dateFormat.value.message))
  {
  }

  /** An empty value of a number field becomes "0", whatever its guard says (it is not even parsed). */
  lemma EmptyNumberIsZero(lib: Library, fields: seq<Field>, rec: Record, field: Field,
                          sheetNo: int, rowNo: int, column: ColumnRef)
    requires field.dateFormat.None? && field.numberFormat.Some?
    ensures FormatChecked(lib, fields, rec, field, "", sheetNo, rowNo, column) == Success("0")
  {
  }

  /**
   * A non-empty value of a number field is checked when the guard is absent or holds,
   * passes unchecked when the guard does not hold, and a malformed guard throws.
   */
  lemma GuardGatesNumberCheck(lib: Library, fields: seq<Field>, rec: Record, field: Field, cellVal: string,
                              sheetNo: int, rowNo: int, column: ColumnRef)
    requires field.dateFormat.None? && field.numberFormat.Some? && cellVal != ""
    ensures var enf := field.numberFormat.value;
      var r := FormatChecked(lib, fields, rec, field, cellVal, sheetNo, rowNo, column);
      && (enf.when == "" || IsWhen(fields, rec, enf.when) == Success(true) ==>
            (r == Success(cellVal) <==> IsNumber(lib, cellVal, enf.format))
            && (r != Success(cellVal) ==> r == Failure(Invalid(NumberFormatRule, sheetNo, rowNo, column, enf.message))))
      && (enf.when != "" && IsWhen(fields, rec, enf.when) == Success(false) ==> r == Success(cellVal))
      && (enf.when != "" && IsWhen(fields, rec, enf.when).Failure? ==> r == Failure(IsWhen(fields, rec, enf.when).error))
  {
  }

  /** A limited field accepts exactly the values listed in its limit. */
  lemma ValueLimitVerdict(lib: Library, fields: seq<Field>, rec: Record, field: Field, cellVal: string,
                          sheetNo: int, rowNo: int, column: ColumnRef)
    requires field.dateFormat.None? && field.numberFormat.None? && field.valueLimit.Some?
    ensures FormatChecked(lib, fields, rec, field, cellVal, sheetNo, rowNo, column).Success? <==> cellVal in field.valueLimit.value.limit
    ensures FormatChecked(lib, fields, rec, field, cellVal, sheetNo, rowNo, column).Failure? ==>
      FormatChecked(lib, fields, rec, field, cellVal, sheetNo, rowNo, column) ==
      Failure(Invalid(ValueLimitRule, sheetNo, rowNo, column, field.valueLimit.value.message))
  {
  }

  /** Whatever passes the checks of a field without Transform is the checked value: a limit member, a date, "0" or a number. */
  lemma AcceptedValues(cfg: Settings, lib: Library, fields: seq<Field>, rec: Record, field: Field,
                       cell: Option<Cell>, sheetNo: int, rowNo: int, columnNo: int)
    requires field.transform.None?
    requires VerifiedValue(cfg, lib, fields, rec, field, cell, sheetNo, rowNo, columnNo).Success?
    ensures var s := VerifiedValue(cfg, lib, fields, rec, field, cell, sheetNo, rowNo, columnNo).value;
      && (field.dateFormat.Some? ==> IsDate(lib, s, field.dateFormat.value.pattern))
      && (field.dateFormat.None? && field.numberFormat.Some? && field.numberFormat.value.when == "" ==>
            s == "0" || IsNumber(lib, s, field.numberFormat.value.format))
      && (field.dateFormat.None? && field.numberFormat.None? && field.valueLimit.Some? ==> s in field.valueLimit.value.limit)
  {
  }

  /** Messages name the column by its letter label: column 28 is "AB". */
  lemma MessageNamesColumnLetters(cfg: Settings, lib: Library, fields: seq<Field>, rec: Record, field: Field, sheetNo: int, rowNo: int)
    requires field.notNull.Some?
    ensures VerifiedValue(cfg, lib, fields, rec, field, None, sheetNo, rowNo, 28) ==
      Failure(Invalid(Required, sheetNo, rowNo, Letters(Some("AB")), field.notNull.value.message))
  {
    assert Label(1) == [Letter(0)] == "A";
    assert Label(28) == Label(1) + [Letter(1)] == "AB";
  }
}
