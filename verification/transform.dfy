/** `map` and `pluck`: one traversal that pushes the transform of every
    element onto a results array. */
module Transform {
  import opened Wrappers
  import opened Traversal

  /** The visitor of `map`: push `f(value)`. */
  function Push<T, U>(f: T -> U): (seq<U>, T, nat) -> seq<U> {
    (results: seq<U>, value: T, index: nat) => results + [f(value)]
  }

  /** `f` applied to every element of `s`, position by position. */
  function Map<T, U>(s: seq<T>, f: T -> U): (r: seq<U>)
    ensures |r| == |s|
    ensures forall i :: 0 <= i < |s| ==> r[i] == f(s[i])
  {
    PushMaps(s, f);
    Each(s, Push(f), [])
  }

  lemma {:induction false} PushMaps<T, U>(s: seq<T>, f: T -> U)
    ensures var r := Each(s, Push(f), []);
      |r| == |s| && forall i :: 0 <= i < |s| ==> r[i] == f(s[i])
    decreases |s|
  {
    if |s| > 0 {
      PushMaps(s[..|s| - 1], f);
    }
  }

  /** Mapping `identity` copies the array. */
  lemma MapIdentity<T>(s: seq<T>)
    ensures Map(s, Identity) == s
  {
  }

  /** Mapping two transforms one after the other is mapping their
      composition. */
  lemma MapCompose<T, U, W>(s: seq<T>, f: T -> U, g: U -> W)
    ensures Map(Map(s, f), g) == Map(s, (x: T) => g(f(x)))
  {
  }

  /** Property access `item[key]`: the value, or absent for a missing key. */
  function Lookup<K, V>(key: K): map<K, V> -> Option<V> {
    (item: map<K, V>) => if key in item then Some(item[key]) else None
  }

  /** `pluck`: every item's value for `key`; an item without `key` yields
      absent rather than an error. */
  function Pluck<K, V>(s: seq<map<K, V>>, key: K): (r: seq<Option<V>>)
    ensures |r| == |s|
    ensures forall i :: 0 <= i < |s| ==> (r[i].Some? <==> key in s[i])
    ensures forall i :: 0 <= i < |s| && key in s[i] ==> r[i].value == s[i][key]
  {
    Map(s, Lookup(key))
  }
}
