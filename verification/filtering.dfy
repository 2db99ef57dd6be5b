/** `filter` and `reject`: one traversal that pushes each element whose
    test holds onto a results array. */
module Filtering {
  import opened Traversal

  /** The visitor of `filter`: push `value` when `test` accepts it. */
  function Keep<T>(test: T -> bool): (seq<T>, T, nat) -> seq<T> {
    (results: seq<T>, value: T, index: nat) =>
      if test(value) then results + [value] else results
  }

  /** The elements of `s` that pass `test`, in their original order. */
  function Filter<T>(s: seq<T>, test: T -> bool): (r: seq<T>)
    ensures |r| <= |s|
    ensures forall i :: 0 <= i < |r| ==> test(r[i])
    ensures multiset(r) <= multiset(s)
    ensures forall i :: 0 <= i < |s| && test(s[i]) ==> multiset(r)[s[i]] == multiset(s)[s[i]]
  {
    KeepSelects(s, test);
    Each(s, Keep(test), [])
  }

  lemma {:induction false} KeepSelects<T>(s: seq<T>, test: T -> bool)
    ensures var r := Each(s, Keep(test), []);
      && |r| <= |s|
      && (forall i :: 0 <= i < |r| ==> test(r[i]))
      && multiset(r) <= multiset(s)
      && (forall i :: 0 <= i < |s| && test(s[i]) ==> multiset(r)[s[i]] == multiset(s)[s[i]])
    decreases |s|
  {
    if |s| > 0 {
      var p := s[..|s| - 1];
      KeepSelects(p, test);
      assert s == p + [s[|s| - 1]];
    }
  }

  /** Filtering a concatenation filters each part and keeps them in order:
      the output is the order-preserving selection of the input. */
  lemma FilterAppend<T>(a: seq<T>, b: seq<T>, test: T -> bool)
    ensures Filter(a + b, test) == Filter(a, test) + Filter(b, test)
  {
    KeepAppend(a, b, test);
  }

  lemma {:induction false} KeepAppend<T>(a: seq<T>, b: seq<T>, test: T -> bool)
    ensures Each(a + b, Keep(test), []) == Each(a, Keep(test), []) + Each(b, Keep(test), [])
    decreases |b|
  {
    if |b| == 0 {
      assert a + b == a;
    } else {
      var p, x := b[..|b| - 1], b[|b| - 1];
      var keep := Keep(test);
      var front, back := Each(a, keep, []), Each(p, keep, []);
      calc {
        Each(a + b, keep, []);
      == { assert a + b == (a + p) + [x]; }
        Each((a + p) + [x], keep, []);
      == { KeepSnoc(a + p, x, test); KeepAppend(a, p, test); }
        if test(x) then (front + back) + [x] else front + back;
      == { assert front + (back + [x]) == (front + back) + [x]; }
        front + (if test(x) then back + [x] else back);
      == { assert b == p + [x]; KeepSnoc(p, x, test); }
        front + Each(b, keep, []);
      }
    }
  }

  /** One more element is pushed exactly when it passes. */
  lemma KeepSnoc<T>(s: seq<T>, x: T, test: T -> bool)
    ensures Each(s + [x], Keep(test), []) ==
      if test(x) then Each(s, Keep(test), []) + [x] else Each(s, Keep(test), [])
  {
    EachSnoc(s, x, Keep(test), []);
  }

  /** `reject`: `filter` with the test negated. */
  function Reject<T>(s: seq<T>, test: T -> bool): (r: seq<T>)
    ensures |r| <= |s|
    ensures forall i :: 0 <= i < |r| ==> !test(r[i])
    ensures multiset(r) <= multiset(s)
    ensures forall i :: 0 <= i < |s| && !test(s[i]) ==> multiset(r)[s[i]] == multiset(s)[s[i]]
  {
    Filter(s, (value: T) => !test(value))
  }

  /** `filter` and `reject` split the input between them: no element is in
      both, and together they hold every element as often as `s` does. */
  lemma FilterRejectPartition<T>(s: seq<T>, test: T -> bool)
    ensures multiset(Filter(s, test)) + multiset(Reject(s, test)) == multiset(s)
    ensures |Filter(s, test)| + |Reject(s, test)| == |s|
    ensures forall x :: x in Filter(s, test) ==> x !in Reject(s, test)
  {
  }
}
