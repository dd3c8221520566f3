/**
 * The few java.lang.String operations the engine relies on: trim(), indexOf(),
 * contains() and the "split on the first separator" idiom of the guard and
 * transform mini-languages.
 */
module JavaText {
  import opened Wrappers

  /** String.trim() strips every character whose code is at most U+0020. */
  predicate IsTrimmable(c: char) {
    c <= ' '
  }

  /** Neither end of `s` is a character that trim() would strip. */
  predicate IsTrimmed(s: string) {
    s == [] || (!IsTrimmable(s[0]) && !IsTrimmable(s[|s| - 1]))
  }

  /** Number of leading characters trim() strips. */
  function Lead(s: string): (k: nat)
    ensures k <= |s|
    ensures forall i :: 0 <= i < k ==> IsTrimmable(s[i])
    ensures k < |s| ==> !IsTrimmable(s[k])
  {
    if s == [] || !IsTrimmable(s[0]) then 0 else 1 + Lead(s[1..])
  }

  /** End (exclusive) of `s` once the trailing characters trim() strips are gone. */
  function TrailEnd(s: string): (e: nat)
    ensures e <= |s|
    ensures forall i :: e <= i < |s| ==> IsTrimmable(s[i])
    ensures 0 < e ==> !IsTrimmable(s[e - 1])
  {
    if s == [] || !IsTrimmable(s[|s| - 1]) then |s| else TrailEnd(s[..|s| - 1])
  }

  /** String.trim(): the longest middle part whose ends are not stripped. */
  function Trim(s: string): (r: string)
    ensures IsTrimmed(r)
  {
    var k := Lead(s);
    if k == |s| then []
    else
      assert !IsTrimmable(s[k]);
      s[k..TrailEnd(s)]
  }

  /** trim() keeps a middle slice of `s` and strips only characters up to U+0020 on either side. */
  lemma TrimMeaning(s: string)
    ensures var r := Trim(s);
      && Lead(s) + |r| <= |s| && r == s[Lead(s)..Lead(s) + |r|]
      && (forall i :: 0 <= i < Lead(s) ==> IsTrimmable(s[i]))
      && (forall i :: Lead(s) + |r| <= i < |s| ==> IsTrimmable(s[i]))
  {
  }

  lemma {:induction false} LeadOfTrimmed(s: string)
    requires IsTrimmed(s)
    ensures Lead(s) == 0 && TrailEnd(s) == |s|
  {
  }

  /** Trimming twice is trimming once. */
  lemma TrimIdempotent(s: string)
    ensures Trim(Trim(s)) == Trim(s)
  {
    TrimOfTrimmed(Trim(s));
  }

  /** A string without strippable ends is left alone by trim(). */
  lemma TrimOfTrimmed(s: string)
    requires IsTrimmed(s)
    ensures Trim(s) == s
  {
    LeadOfTrimmed(s);
  }

  /** `sep` occurs in `s` starting at index `i`. */
  predicate OccursAt(s: string, sep: string, i: int) {
    0 <= i && i + |sep| <= |s| && s[i..i + |sep|] == sep
  }

  /** The first occurrence of `sep` in `s` at or after `i`. */
  function IndexOfFrom(s: string, sep: string, i: nat): (r: Option<nat>)
    requires i <= |s|
    decreases |s| - i
    ensures r.Some? ==> i <= r.value && OccursAt(s, sep, r.value)
    ensures r.Some? ==> forall j :: i <= j < r.value ==> !OccursAt(s, sep, j)
    ensures r.None? ==> forall j :: i <= j <= |s| ==> !OccursAt(s, sep, j)
  {
    if OccursAt(s, sep, i) then Some(i)
    else if i == |s| then None
    else IndexOfFrom(s, sep, i + 1)
  }

  /** String.indexOf(sep), with -1 written as None. */
  function IndexOf(s: string, sep: string): Option<nat> {
    IndexOfFrom(s, sep, 0)
  }

  /** String.contains(sep). */
  predicate Contains(s: string, sep: string) {
    IndexOf(s, sep).Some?
  }

  lemma ContainsIff(s: string, sep: string)
    ensures Contains(s, sep) <==> exists j :: OccursAt(s, sep, j)
  {
    if Contains(s, sep) {
      assert OccursAt(s, sep, IndexOf(s, sep).value);
    }
  }

  /**
   * `s.substring(0, s.indexOf(sep)).trim()` and `s.substring(s.indexOf(sep) + |sep|).trim()`,
   * or None when `sep` does not occur.
   */
  function SplitAtFirst(s: string, sep: string): (r: Option<(string, string)>)
    ensures r.None? <==> !Contains(s, sep)
    ensures r.Some? ==> IsTrimmed(r.value.0) && IsTrimmed(r.value.1)
  {
    match IndexOf(s, sep)
    case None => None
    case Some(k) => Some((Trim(s[..k]), Trim(s[k + |sep|..])))
  }

  /** When the separator's first character does not occur in `a`, the first separator is the one after `a`. */
  lemma {:induction false} IndexOfAfterPrefix(a: string, sep: string, b: string)
    requires |sep| > 0 && sep[0] !in a
    ensures IndexOf(a + sep + b, sep) == Some(|a|)
  {
    var s := a + sep + b;
    assert s[|a|..|a| + |sep|] == sep;
    assert OccursAt(s, sep, |a|);
    forall j | 0 <= j < |a| ensures !OccursAt(s, sep, j) {
      assert s[j] == a[j] != sep[0];
      if j + |sep| <= |s| {
        assert s[j..j + |sep|][0] == s[j];
      }
    }
  }

  /** Splitting `a + sep + b` gives back the trimmed halves. */
  lemma SplitJoin(a: string, sep: string, b: string)
    requires |sep| > 0 && sep[0] !in a
    ensures SplitAtFirst(a + sep + b, sep) == Some((Trim(a), Trim(b)))
  {
    var s := a + sep + b;
    IndexOfAfterPrefix(a, sep, b);
    assert s[..|a|] == a;
    assert s[|a| + |sep|..] == b;
  }
}
