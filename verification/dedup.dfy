/** `uniq`: sort, then keep each element that differs from the one after
    it. The output is ordered by the sort, not by the input. */
module Dedup {

  /** Every element of `s` is `le`-below every later element. */
  ghost predicate SortedBy<T>(le: (T, T) -> bool, s: seq<T>) {
    forall i, j :: 0 <= i < j < |s| ==> le(s[i], s[j])
  }

  ghost predicate AntiSymmetric<T(!new)>(le: (T, T) -> bool) {
    forall x, y :: le(x, y) && le(y, x) ==> x == y
  }

  /** The loop over the sorted array: position `i` is kept when it is the
      last position or differs from position `i + 1`, so of every run of
      equal neighbours exactly the last is kept. */
  function DropRepeats<T(==)>(sorted: seq<T>): (r: seq<T>)
    ensures |r| <= |sorted|
    ensures |sorted| > 0 ==> |r| > 0 && r[0] == sorted[0] && r[|r| - 1] == sorted[|sorted| - 1]
    ensures forall i :: 0 <= i < |r| - 1 ==> r[i] != r[i + 1]
    decreases |sorted|
  {
    if |sorted| <= 1 then sorted
    else (if sorted[0] != sorted[1] then [sorted[0]] else []) + DropRepeats(sorted[1..])
  }

  /** Dropping repeats loses no value and invents none. */
  lemma {:induction false} DropRepeatsSameValues<T>(sorted: seq<T>)
    ensures forall i :: 0 <= i < |DropRepeats(sorted)| ==> DropRepeats(sorted)[i] in sorted
    ensures forall i :: 0 <= i < |sorted| ==> sorted[i] in DropRepeats(sorted)
    decreases |sorted|
  {
    if |sorted| > 1 {
      DropRepeatsSameValues(sorted[1..]);
    }
  }

  /** Dropping repeats keeps an order the input already had. */
  lemma {:induction false} DropRepeatsKeepsOrder<T>(le: (T, T) -> bool, s: seq<T>)
    requires SortedBy(le, s)
    ensures SortedBy(le, DropRepeats(s))
    decreases |s|
  {
    if |s| > 1 {
      var rest := DropRepeats(s[1..]);
      DropRepeatsKeepsOrder(le, s[1..]);
      DropRepeatsSameValues(s[1..]);
      if s[0] != s[1] {
        var r := [s[0]] + rest;
        forall i, j | 0 <= i < j < |r|
          ensures le(r[i], r[j])
        {
          if i == 0 {
            assert r[j] in s[1..];
            var k :| 1 <= k < |s| && s[k] == r[j];
          } else {
            assert r[i] == rest[i - 1] && r[j] == rest[j - 1];
          }
        }
      }
    }
  }

  /** Under an antisymmetric order, a sorted array without equal neighbours
      has no equal elements at all. */
  lemma NoRepeatsMeansDistinct<T(!new)>(le: (T, T) -> bool, r: seq<T>)
    requires AntiSymmetric(le)
    requires SortedBy(le, r)
    requires forall i :: 0 <= i < |r| - 1 ==> r[i] != r[i + 1]
    ensures forall i, j :: 0 <= i < j < |r| ==> r[i] != r[j]
  {
    forall i, j | 0 <= i < j < |r|
      ensures r[i] != r[j]
    {
      if i + 1 < j {
        assert le(r[i], r[i + 1]) && le(r[i + 1], r[j]);
      }
    }
  }

  /** `uniq(array)`. `sort` stands for the built-in sort, which only needs
      to rearrange the array here. */
  function Uniq<T(==)>(a: seq<T>, sort: seq<T> -> seq<T>): (r: seq<T>)
    requires multiset(sort(a)) == multiset(a)
    ensures |r| <= |a|
    ensures forall i :: 0 <= i < |r| ==> r[i] in a
    ensures forall i :: 0 <= i < |a| ==> a[i] in r
    ensures forall i :: 0 <= i < |r| - 1 ==> r[i] != r[i + 1]
  {
    var sorted := sort(a);
    assert |sorted| == |multiset(sorted)| == |a|;
    assert forall i :: 0 <= i < |sorted| ==> sorted[i] in multiset(sorted);
    assert forall i :: 0 <= i < |a| ==> a[i] in multiset(a);
    DropRepeatsSameValues(sorted);
    DropRepeats(sorted)
  }

  /** When the sort orders the array by an antisymmetric `le`, the output of
      `uniq` is ordered by `le` and free of duplicates. */
  lemma UniqSortedDistinct<T(!new)>(a: seq<T>, sort: seq<T> -> seq<T>, le: (T, T) -> bool)
    requires multiset(sort(a)) == multiset(a)
    requires SortedBy(le, sort(a))
    requires AntiSymmetric(le)
    ensures SortedBy(le, Uniq(a, sort))
    ensures forall i, j :: 0 <= i < j < |Uniq(a, sort)| ==> Uniq(a, sort)[i] != Uniq(a, sort)[j]
  {
    DropRepeatsKeepsOrder(le, sort(a));
    NoRepeatsMeansDistinct(le, Uniq(a, sort));
  }
}
