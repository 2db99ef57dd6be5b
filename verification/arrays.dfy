/** `first` and `last`. With the count omitted they return one element
    (absent on an empty array); with a count they return a slice, which
    is the whole array when the count exceeds its length. */
module Arrays {
  import opened Wrappers

  /** The smaller of two integers. */
  function Min(a: int, b: int): int {
    if a <= b then a else b
  }

  /** The two shapes of result: a single element, or a slice. */
  datatype Taken<T> = Element(item: Option<T>) | Elements(items: seq<T>)

  /** `first(array, n)`: `n` omitted yields `array[0]`; otherwise the slice
      from 0 to `n`, which JavaScript clamps to the array's length. */
  function First<T>(a: seq<T>, n: Option<nat>): (r: Taken<T>)
    ensures n.None? ==> r.Element? && (r.item.Some? <==> |a| > 0)
    ensures n.None? && |a| > 0 ==> r.item.value == a[0]
    ensures n.Some? ==> r.Elements? && |r.items| == Min(n.value, |a|) && r.items <= a
  {
    match n
    case None => Element(if |a| == 0 then None else Some(a[0]))
    case Some(k) => Elements(a[..Min(k, |a|)])
  }

  /** `xs` ends `a`. */
  ghost predicate EndsWith<T>(a: seq<T>, xs: seq<T>) {
    |xs| <= |a| && forall i :: 0 <= i < |xs| ==> xs[i] == a[|a| - |xs| + i]
  }

  /** `last(array, n)`: a count above the length copies the whole array;
      `n` omitted yields `array[length - 1]`; otherwise the slice from
      `length - n` to the end. */
  function Last<T>(a: seq<T>, n: Option<nat>): (r: Taken<T>)
    ensures n.None? ==> r.Element? && (r.item.Some? <==> |a| > 0)
    ensures n.None? && |a| > 0 ==> r.item.value == a[|a| - 1]
    ensures n.Some? ==> r.Elements? && |r.items| == Min(n.value, |a|) && EndsWith(a, r.items)
  {
    if n.Some? && n.value > |a| then Elements(a[..])
    else
      match n
      case None => Element(if |a| == 0 then None else Some(a[|a| - 1]))
      case Some(k) => Elements(a[|a| - k..])
  }

  /** The first `k` and the last `|a| - k` elements put back together
      give the array again. */
  lemma FirstThenLast<T>(a: seq<T>, k: nat)
    requires k <= |a|
    ensures First(a, Some(k)).items + Last(a, Some(|a| - k)).items == a
  {
  }

  /** A count at or above the length makes both operations copy the array. */
  lemma CountBeyondLengthCopies<T>(a: seq<T>, n: nat)
    requires n >= |a|
    ensures First(a, Some(n)) == Elements(a)
    ensures Last(a, Some(n)) == Elements(a)
  {
  }
}
