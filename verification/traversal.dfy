/** `identity` and the single iteration primitive `each`, restricted to
    arrays. A JavaScript visitor works by side effect on variables its
    closure captured; here those variables are an explicit state that the
    visitor takes and returns, so a traversal is a left fold. */
module Traversal {

  /** Returns its argument; the default transform and predicate. */
  function Identity<T>(value: T): T {
    value
  }

  /** The visitor's state after `visit(state, element, index)` has been
      applied to every element of `s`, in increasing index order. */
  function Each<T, S>(s: seq<T>, visit: (S, T, nat) -> S, init: S): S
    decreases |s|
  {
    if |s| == 0 then init
    else visit(Each(s[..|s| - 1], visit, init), s[|s| - 1], |s| - 1)
  }

  /** Visiting one more element at the end is one more visitor step. */
  lemma EachSnoc<T, S>(s: seq<T>, x: T, visit: (S, T, nat) -> S, init: S)
    ensures Each(s + [x], visit, init) == visit(Each(s, visit, init), x, |s|)
  {
  }

  /** The array branch of `each` as `underbar.js` writes it: a counting loop
      that calls the visitor once per index. Its final state is the fold. */
  method EachLoop<T, S>(s: seq<T>, visit: (S, T, nat) -> S, init: S) returns (state: S)
    ensures state == Each(s, visit, init)
  {
    state := init;
    var i := 0;
    while i < |s|
      invariant 0 <= i <= |s|
      invariant state == Each(s[..i], visit, init)
    {
      assert s[..i + 1][..i] == s[..i];
      state := visit(state, s[i], i);
      i := i + 1;
    }
    assert s[..|s|] == s;
  }

  /** A visitor that records every call it receives as (index, element). */
  function Record<T>(): (seq<(nat, T)>, T, nat) -> seq<(nat, T)> {
    (log: seq<(nat, T)>, value: T, index: nat) => log + [(index, value)]
  }

  /** `each` calls the visitor exactly once per element, in index order,
      with the element found at that index. */
  lemma {:induction false} EachVisitsInOrder<T>(s: seq<T>)
    ensures |Each(s, Record(), [])| == |s|
    ensures forall i :: 0 <= i < |s| ==> Each(s, Record(), [])[i] == (i, s[i])
    decreases |s|
  {
    if |s| > 0 {
      var p := s[..|s| - 1];
      EachVisitsInOrder(p);
    }
  }
}
