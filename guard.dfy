/**
 * The `when` guard of ExcelNumberFormat, "field == value": its parser (shared by
 * both engines) and the lookup of the named property on the entity being built.
 */
module Guards {
  import opened Wrappers
  import opened JavaText
  import opened Schema

  /** Splits the guard on its first "==" into a trimmed field name and a trimmed literal, both non-empty. */
  function ParseGuard(when: string): (r: Result<(string, string), Error>)
    ensures r.Success? ==> r.value.0 != "" && r.value.1 != "" && IsTrimmed(r.value.0) && IsTrimmed(r.value.1)
    ensures r.Failure? ==> r.error.BadGuard?
    ensures r == Failure(BadGuard(MissingOperator)) <==> !Contains(when, "==")
  {
    match SplitAtFirst(when, "==")
    case None => Failure(BadGuard(MissingOperator))
    case Some((name, literal)) =>
      if name == "" then Failure(BadGuard(EmptyFieldName))
      else if literal == "" then Failure(BadGuard(EmptyCaseValue))
      else Success((name, literal))
  }

  /** How a guard written as `a == b` is read, when `a` holds no '='. */
  lemma ParseGuardOf(a: string, b: string)
    requires '=' !in a
    ensures ParseGuard(a + "==" + b) ==
      if Trim(a) == "" then Failure(BadGuard(EmptyFieldName))
      else if Trim(b) == "" then Failure(BadGuard(EmptyCaseValue))
      else Success((Trim(a), Trim(b)))
  {
    SplitJoin(a, "==", b);
  }

  /** A trimmed name and literal written around "==" are read back unchanged. */
  lemma ParseGuardRoundTrip(name: string, literal: string)
    requires name != "" && literal != "" && IsTrimmed(name) && IsTrimmed(literal) && '=' !in name
    ensures ParseGuard(name + "==" + literal) == Success((name, literal))
  {
    ParseGuardOf(name, literal);
    TrimOfTrimmed(name);
    TrimOfTrimmed(literal);
  }

  /** Character.toUpperCase, on the ASCII letters. */
  function UpperAscii(c: char): char {
    if 'a' <= c <= 'z' then (c as int - 32) as char else c
  }

  /** The property name as it appears in its accessor: first letter upper-cased. */
  function Capitalize(s: string): string {
    if s == [] then [] else [UpperAscii(s[0])] + s[1..]
  }

  /**
   * The declared field whose getter "get" + Capitalize(name) is found: the first
   * field with the same capitalized name, or None when the class has no such getter.
   */
  function Accessor(fields: seq<Field>, name: string): (r: Option<string>)
    ensures r.None? <==> forall i :: 0 <= i < |fields| ==> Capitalize(fields[i].name) != Capitalize(name)
    ensures r.Some? ==> exists i :: 0 <= i < |fields| && fields[i].name == r.value
                                    && Capitalize(fields[i].name) == Capitalize(name)
  {
    if fields == [] then None
    else if Capitalize(fields[0].name) == Capitalize(name) then Some(fields[0].name)
    else
      var r := Accessor(fields[1..], name);
      assert forall i :: 1 <= i < |fields| ==> fields[i] == fields[1..][i - 1];
      r
  }

  /** What the getter of a property returns: its string, or null when it was never assigned. */
  function GetterValue(rec: Record, fieldName: string): Option<string> {
    if fieldName in rec && rec[fieldName].Text? then Some(rec[fieldName].text) else None
  }
}
