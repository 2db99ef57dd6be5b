/** `indexOf`: a full traversal that remembers the index of the first
    match and ignores every later one. */
module Search {
  import opened Traversal

  /** The visitor of `indexOf`: `result` stays -1 until the first element
      equal to `target`, then holds that element's index for good. */
  function MatchFirst<T(==)>(target: T): (int, T, nat) -> int {
    (result: int, item: T, index: nat) =>
      if item == target && result == -1 then index else result
  }

  /** Index of the first occurrence of `target` in `s`, or -1. */
  function IndexOf<T(==)>(s: seq<T>, target: T): (r: int)
    ensures -1 <= r < |s|
    ensures r == -1 <==> target !in s
    ensures 0 <= r ==> s[r] == target && forall j :: 0 <= j < r ==> s[j] != target
  {
    ScanFindsFirst(s, target);
    Each(s, MatchFirst(target), -1)
  }

  lemma {:induction false} ScanFindsFirst<T>(s: seq<T>, target: T)
    ensures var r := Each(s, MatchFirst(target), -1);
      && -1 <= r < |s|
      && (r == -1 <==> target !in s)
      && (0 <= r ==> s[r] == target && forall j :: 0 <= j < r ==> s[j] != target)
    decreases |s|
  {
    if |s| > 0 {
      var p := s[..|s| - 1];
      ScanFindsFirst(p, target);
      assert s == p + [s[|s| - 1]];
    }
  }

  /** A match placed after the first one never changes the answer. */
  lemma LaterMatchIgnored<T>(s: seq<T>, target: T, t: seq<T>)
    requires target in s
    ensures IndexOf(s + t, target) == IndexOf(s, target)
  {
    var i := IndexOf(s, target);
    var j := IndexOf(s + t, target);
    assert (s + t)[i] == target;
    assert (s + t)[..i] == s[..i];
  }
}
