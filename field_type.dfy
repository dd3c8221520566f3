/**
 * FieldType: the reflective type names of entity fields, and the lookup from
 * a type name back to its constant.
 */
module FieldTypes {
  import opened Wrappers

  /** The constants, in declaration order. */
  datatype FieldType =
    | Null | Boolean | Byte | Short | Long | Int | Float | Double | Char
    | String | Integer | BigDecimal | BLong | BShort

  /** getType(): the string each constant was constructed with. */
  function TypeName(v: FieldType): string {
    match v
    case Null => "null"
    case Boolean => "boolean"
    case Byte => "byte"
    case Short => "short"
    case Long => "long"
    case Int => "int"
    case Float => "float"
    case Double => "double"
    case Char => "char"
    case String => "class java.lang.String"
    case Integer => "class java.lang.Integer"
    case BigDecimal => "class java.math.BigDecimal"
    case BLong => "class java.lang.Long"
    case BShort => "class java.lang.Short"
  }

  /** values(), in declaration order. */
  const Values: seq<FieldType> :=
    [Null, Boolean, Byte, Short, Long, Int, Float, Double, Char,
     String, Integer, BigDecimal, BLong, BShort]

  /** ordinal(): the position of a constant in declaration order. */
  function Ordinal(v: FieldType): (k: nat)
    ensures k < |Values| && Values[k] == v
  {
    match v
    case Null => 0
    case Boolean => 1
    case Byte => 2
    case Short => 3
    case Long => 4
    case Int => 5
    case Float => 6
    case Double => 7
    case Char => 8
    case String => 9
    case Integer => 10
    case BigDecimal => 11
    case BLong => 12
    case BShort => 13
  }

  /** The message of the IllegalArgumentException thrown for an unknown name. */
  function InvalidMessage(s: string): string {
    "Invalid Field Type: " + s
  }

  /** The loop of match(): the first constant from index `i` on whose name equals `s`. */
  function MatchFrom(s: string, i: nat): (r: Result<FieldType, string>)
    requires i <= |Values|
    decreases |Values| - i
    ensures r.Success? ==> TypeName(r.value) == s
    ensures r.Failure? ==> r.error == InvalidMessage(s)
                           && forall j :: i <= j < |Values| ==> TypeName(Values[j]) != s
  {
    if i == |Values| then Failure(InvalidMessage(s))
    else if TypeName(Values[i]) == s then Success(Values[i])
    else MatchFrom(s, i + 1)
  }

  /** match(type) */
  function Match(s: string): Result<FieldType, string> {
    MatchFrom(s, 0)
  }

  /** The fourteen type names are pairwise distinct. */
  lemma TypeNameInjective(v: FieldType, w: FieldType)
    requires TypeName(v) == TypeName(w)
    ensures v == w
  {
  }

  /** match(v.getType()) returns v for every constant. */
  lemma {:induction false} MatchRoundTrip(v: FieldType)
    ensures Match(TypeName(v)) == Success(v)
  {
    var k := Ordinal(v);
    assert TypeName(Values[k]) == TypeName(v);
    var r := Match(TypeName(v));
    assert r.Success?;
    TypeNameInjective(r.value, v);
  }

  /** match(s) throws exactly when `s` is none of the type names. */
  lemma {:induction false} MatchFailsIffUnknown(s: string)
    ensures Match(s).Failure? <==> forall v: FieldType :: TypeName(v) != s
  {
    if Match(s).Failure? {
      forall v: FieldType ensures TypeName(v) != s {
        assert Values[Ordinal(v)] == v;
      }
    } else {
      assert TypeName(Match(s).value) == s;
    }
  }

  /** Every type name starts with a lower-case letter. */
  lemma TypeNameStartsLower(v: FieldType)
    ensures |TypeName(v)| > 0 && 'a' <= TypeName(v)[0] <= 'z'
  {
  }

  /** The comparison is exact and case-sensitive: "Int" and "String" are not type names. */
  lemma MatchIsCaseSensitive()
    ensures Match("Int").Failure? && Match("String").Failure?
  {
    forall v: FieldType
      ensures TypeName(v) != "Int" && TypeName(v) != "String"
    {
      TypeNameStartsLower(v);
    }
    MatchFailsIffUnknown("Int");
    MatchFailsIffUnknown("String");
  }
}
