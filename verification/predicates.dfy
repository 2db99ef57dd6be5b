/** `contains`, `every` and `some`, all folds of `reduce` seeded with a
    boolean. The fold never stops early; the boolean it carries does. */
module Predicates {
  import opened Traversal
  import opened Search
  import opened Filtering
  import opened Reduction

  /** The iterator of `contains`: once found, stay found; otherwise compare. */
  function FoundOr<T(==)>(target: T): (bool, T) -> bool {
    (wasFound: bool, item: T) => if wasFound then true else item == target
  }

  /** `contains(s, target)`: `target` occurs in `s`. */
  function Contains<T(==)>(s: seq<T>, target: T): (r: bool)
    ensures r <==> target in s
  {
    FoundOrScans(s, target, false);
    ReduceFrom(s, FoundOr(target), false)
  }

  lemma {:induction false} FoundOrScans<T>(s: seq<T>, target: T, found: bool)
    ensures FoldLeft(FoundOr(target), found, s) <==> found || target in s
    decreases |s|
  {
    if |s| > 0 {
      FoundOrScans(s[1..], target, found || s[0] == target);
      assert s == [s[0]] + s[1..];
    }
  }

  /** `contains` and `indexOf` agree on whether the target occurs. */
  lemma ContainsIffIndexFound<T>(s: seq<T>, target: T)
    ensures Contains(s, target) <==> IndexOf(s, target) != -1
  {
  }

  /** The iterator of `every`: the running conjunction. */
  function AndAlso<T>(test: T -> bool): (bool, T) -> bool {
    (acc: bool, value: T) => acc && test(value)
  }

  /** `every(s, test)`: every element passes; true of an empty array. */
  function Every<T>(s: seq<T>, test: T -> bool): (r: bool)
    ensures r <==> forall i :: 0 <= i < |s| ==> test(s[i])
  {
    AndAlsoScans(s, test, true);
    ReduceFrom(s, AndAlso(test), true)
  }

  lemma {:induction false} AndAlsoScans<T>(s: seq<T>, test: T -> bool, acc: bool)
    ensures FoldLeft(AndAlso(test), acc, s) <==> acc && forall i :: 0 <= i < |s| ==> test(s[i])
    decreases |s|
  {
    if |s| > 0 {
      AndAlsoScans(s[1..], test, acc && test(s[0]));
      assert forall i :: 1 <= i < |s| ==> s[i] == s[1..][i - 1];
    }
  }

  /** `every(s)` with no test: `identity` is the test, so every element
      must be true. */
  function EveryDefault(s: seq<bool>): (r: bool)
    ensures r <==> false !in s
  {
    Every(s, Identity)
  }

  /** `some(s, test)`: not every element fails. (Named `Any` so as not to
      clash with the `Some` constructor of `Option`.) */
  function Any<T>(s: seq<T>, test: T -> bool): (r: bool)
    ensures r <==> exists i :: 0 <= i < |s| && test(s[i])
  {
    !Every(s, (value: T) => !test(value))
  }

  /** `some(s)` with no test: some element is true. */
  function AnyDefault(s: seq<bool>): (r: bool)
    ensures r <==> true in s
  {
    Any(s, Identity)
  }

  /** `every` holds exactly when `reject` finds nothing. */
  lemma EveryIffNothingRejected<T>(s: seq<T>, test: T -> bool)
    ensures Every(s, test) <==> Reject(s, test) == []
  {
    var r := Reject(s, test);
    if !Every(s, test) {
      var i :| 0 <= i < |s| && !test(s[i]);
      assert multiset(r)[s[i]] > 0;
    }
  }

  /** `some` holds exactly when `filter` finds something. */
  lemma AnyIffSomethingFiltered<T>(s: seq<T>, test: T -> bool)
    ensures Any(s, test) <==> Filter(s, test) != []
  {
    var f := Filter(s, test);
    if Any(s, test) {
      var i :| 0 <= i < |s| && test(s[i]);
      assert multiset(f)[s[i]] > 0;
    }
  }

  function IsEven(n: int): bool {
    n % 2 == 0
  }

  /** The documented examples: all of [2, 4, 6] are even; an empty array
      satisfies `every` and fails `some` whatever the test; [1, 2, 3]
      contains 2 and not 5. */
  lemma DocumentedExamples()
    ensures Every([2, 4, 6], IsEven)
    ensures forall test: int -> bool :: Every([], test) && !Any([], test)
    ensures Contains([1, 2, 3], 2) && !Contains([1, 2, 3], 5)
  {
  }
}
