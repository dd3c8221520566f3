/**
 * numberToAlphabet: the spreadsheet column label of a 1-based column number
 * (1 -> "A", 26 -> "Z", 27 -> "AA"), that is, its numeral in bijective base 26.
 */
module ColumnLabel {
  import opened Wrappers

  /** The letter of digit value `d` (0 -> 'A', 25 -> 'Z'), as `(char) (d + 'A')`. */
  function Letter(d: int): (c: char)
    requires 0 <= d < 26
    ensures 'A' <= c <= 'Z'
  {
    (d + 'A' as int) as char
  }

  predicate IsLabel(s: string) {
    |s| > 0 && forall i :: 0 <= i < |s| ==> 'A' <= s[i] <= 'Z'
  }

  /** The bijective base-26 numeral of `n`, most significant letter first. */
  function Label(n: int): string
    requires n >= 1
  {
    var q := (n - 1) / 26;
    var c := Letter((n - 1) % 26);
    if q == 0 then [c] else Label(q) + [c]
  }

  /** The label of a column number, or null (None) for a number that is not positive. */
  function LabelOf(n: int): Option<string> {
    if n <= 0 then None else Some(Label(n))
  }

  /** The number a label stands for: 'A'..'Z' are the digits 1..26. */
  function Value(s: string): (n: int)
    requires IsLabel(s)
    ensures n >= 1
  {
    var d := s[|s| - 1] as int - 'A' as int + 1;
    if |s| == 1 then d else Value(s[..|s| - 1]) * 26 + d
  }

  /** A label is a non-empty string of capital letters. */
  lemma {:induction false} LabelIsLabel(n: int)
    requires n >= 1
    ensures IsLabel(Label(n))
  {
    var q := (n - 1) / 26;
    if q != 0 {
      LabelIsLabel(q);
    }
  }

  lemma {:induction false} ValueOfLabel(n: int)
    requires n >= 1
    ensures IsLabel(Label(n)) && Value(Label(n)) == n
  {
    LabelIsLabel(n);
    var q := (n - 1) / 26;
    if q != 0 {
      ValueOfLabel(q);
      assert Label(n)[..|Label(n)| - 1] == Label(q);
    }
  }

  /** Appending digit `d` to the numeral of `v` gives the numeral of v * 26 + d. */
  lemma LabelAppend(v: int, d: int)
    requires v >= 1 && 1 <= d <= 26
    ensures Label(v * 26 + d) == Label(v) + [Letter(d - 1)]
  {
    var n := v * 26 + d;
    assert (n - 1) / 26 == v;
    assert (n - 1) % 26 == d - 1;
  }

  /** A single letter is the label of its own digit value. */
  lemma LabelOfLetter(c: char)
    requires 'A' <= c <= 'Z'
    ensures IsLabel([c]) && Label(Value([c])) == [c]
  {
    var d := c as int - 'A' as int + 1;
    assert Value([c]) == d;
    assert Label(d) == [Letter(d - 1)];
  }

  lemma {:induction false} LabelOfValue(s: string)
    requires IsLabel(s)
    ensures Label(Value(s)) == s
  {
    var d := s[|s| - 1] as int - 'A' as int + 1;
    if |s| == 1 {
      assert s == [s[0]];
      LabelOfLetter(s[0]);
    } else {
      var t := s[..|s| - 1];
      var v := Value(t);
      assert Value(s) == v * 26 + d;
      LabelOfValue(t);
      LabelAppend(v, d);
      assert Letter(d - 1) == s[|s| - 1];
      assert s == t + [s[|s| - 1]];
      assert Label(Value(s)) == Label(v) + [Letter(d - 1)];
    }
  }

  /** Distinct column numbers get distinct labels. */
  lemma LabelInjective(m: int, n: int)
    requires m >= 1 && n >= 1 && Label(m) == Label(n)
    ensures m == n
  {
    ValueOfLabel(m);
    ValueOfLabel(n);
  }

  /** Every string of capital letters is the label of exactly one positive number. */
  lemma LabelSurjective(s: string)
    requires IsLabel(s)
    ensures exists n :: n >= 1 && Label(n) == s
  {
    LabelOfValue(s);
  }

  lemma LabelExamples()
    ensures Label(1) == "A" && Label(26) == "Z" && Label(27) == "AA"
    ensures Label(52) == "AZ" && Label(53) == "BA" && Label(702) == "ZZ" && Label(703) == "AAA"
  {
  }

  function Reverse(s: string): (r: string)
    ensures |r| == |s|
  {
    if s == [] then [] else Reverse(s[1..]) + [s[0]]
  }

  /**
   * The letters numberToAlphabet appends to its StringBuilder for `m`, least
   * significant first: the letter of (m - 1) % 26, then those of what is left.
   */
  function Emitted(m: int): string
    requires m >= 0
    decreases m
  {
    if m == 0 then [] else
      var mod := (m - 1) % 26;
      [Letter(mod)] + Emitted((m - 1 - mod) / 26)
  }

  /** What one turn of the loop leaves of `m`: a number in 0..m. */
  lemma RemainingBounds(m: int)
    requires m >= 0
    ensures 0 <= (m - m % 26) / 26 <= m
  {
  }

  /** Reversed, the emitted letters are the label. */
  lemma {:induction false} EmittedReversed(m: int)
    requires m >= 1
    ensures Reverse(Emitted(m)) == Label(m)
    decreases m
  {
    var mod := (m - 1) % 26;
    var q := (m - 1 - mod) / 26;
    assert q == (m - 1) / 26;
    var e := Emitted(m);
    assert e[1..] == Emitted(q);
    if q != 0 {
      EmittedReversed(q);
    }
  }

  /**
   * numberToAlphabet: a loop that emits the least significant letter first into a
   * StringBuilder, which is then reversed. Its do-while test is written as a plain
   * while, the first test being true for every positive number.
   */
  method NumberToAlphabet(number: int) returns (r: Option<string>)
    ensures r == LabelOf(number)
  {
    if number <= 0 {
      return None;
    }
    var letters: string := [];
    var m := number;
    while m > 0
      invariant m >= 0
      invariant letters + Emitted(m) == Emitted(number)
      decreases m
    {
      ghost var before := m;
      m := m - 1;
      var mod := m % 26;
      RemainingBounds(m);
      assert Emitted(before) == [Letter(mod)] + Emitted((m - mod) / 26);
      assert (letters + [Letter(mod)]) + Emitted((m - mod) / 26) == letters + Emitted(before);
      letters := letters + [Letter(mod)];
      m := (m - mod) / 26;
    }
    assert letters == Emitted(number);
    EmittedReversed(number);
    return Some(Reverse(letters));
  }
}
