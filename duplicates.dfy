/**
 * The duplicate detector: before an entry is added, it is compared (equals)
 * with every entry read so far, first to last.
 */
module Duplicates {
  import opened Wrappers

  /** The index of the first entry of `list` equal to `x`, if any. */
  function FirstIndex<T(==)>(list: seq<T>, x: T): (r: Option<nat>)
    ensures r.None? <==> x !in list
    ensures r.Some? ==> r.value < |list| && list[r.value] == x && x !in list[..r.value]
  {
    if list == [] then None
    else if list[0] == x then Some(0)
    else match FirstIndex(list[1..], x)
      case None => None
      case Some(k) =>
        assert list[..k + 1] == [list[0]] + list[1..][..k];
        Some(k + 1)
  }

  /** No two entries are equal. */
  predicate Distinct<T(==)>(list: seq<T>) {
    forall i, j :: 0 <= i < j < |list| ==> list[i] != list[j]
  }

  /** Adding an entry that the check let through keeps the list free of duplicates. */
  lemma AppendKeepsDistinct<T>(list: seq<T>, x: T)
    requires Distinct(list) && FirstIndex(list, x).None?
    ensures Distinct(list + [x])
  {
    forall i, j | 0 <= i < j < |list| + 1 ensures (list + [x])[i] != (list + [x])[j] {
      if j == |list| {
        assert list[i] in list;
      }
    }
  }

  /** The comparison loop of the duplicate check; it stops at the first equal entry. */
  method FindEqual<T(==)>(list: seq<T>, x: T) returns (r: Option<nat>)
    ensures r == FirstIndex(list, x)
  {
    var i := 0;
    while i < |list|
      invariant 0 <= i <= |list|
      invariant x !in list[..i]
    {
      if x == list[i] {
        assert list[..i + 1] == list[..i] + [x];
        return Some(i);
      }
      assert list[..i + 1] == list[..i] + [list[i]];
      i := i + 1;
    }
    assert list[..i] == list;
    return None;
  }
}
