/** `reduce`, the fold primitive. The iterator is the function `f`. When
    no starting value is passed, the first element becomes the accumulator
    and is never handed to `f`; with a starting value every element is. */
module Reduction {
  import opened Wrappers
  import opened Traversal

  /** The reference left fold: `f(...f(f(init, s[0]), s[1])..., s[|s|-1])`. */
  function FoldLeft<T, A>(f: (A, T) -> A, init: A, s: seq<T>): A
    decreases |s|
  {
    if |s| == 0 then init else FoldLeft(f, f(init, s[0]), s[1..])
  }

  lemma {:induction false} FoldLeftSnoc<T, A>(f: (A, T) -> A, init: A, s: seq<T>, x: T)
    ensures FoldLeft(f, init, s + [x]) == f(FoldLeft(f, init, s), x)
    decreases |s|
  {
    if |s| > 0 {
      FoldLeftSnoc(f, f(init, s[0]), s[1..], x);
      assert (s + [x])[1..] == s[1..] + [x];
    }
  }

  /** The state `reduce` carries through the traversal: the accumulator,
      absent while no starting value was passed and no element has been
      seen yet, and the log of the calls of `f` as
      (accumulator, element) pairs. */
  datatype Run<T> = Run(acc: Option<T>, calls: seq<(T, T)>)

  /** The visitor of `reduce`: with no accumulator yet, the element becomes
      it without a call; otherwise the result of `f` replaces it. */
  function Absorb<T>(f: (T, T) -> T): (Run<T>, T, nat) -> Run<T> {
    (run: Run<T>, value: T, index: nat) =>
      match run.acc
      case None => Run(Some(value), run.calls)
      case Some(a) => Run(Some(f(a, value)), run.calls + [(a, value)])
  }

  /** The whole run of `reduce(s, f, seed)`. */
  function ReduceRun<T>(s: seq<T>, f: (T, T) -> T, seed: Option<T>): (r: Run<T>)
    ensures |r.calls| == if seed.Some? then |s| else if |s| == 0 then 0 else |s| - 1
    ensures seed.Some? ==> forall i :: 0 <= i < |s| ==> r.calls[i].1 == s[i]
    ensures seed.None? ==> forall i :: 0 <= i < |r.calls| ==> r.calls[i].1 == s[i + 1]
    ensures seed.Some? ==> forall i :: 0 <= i < |s| ==> r.calls[i].0 == FoldLeft(f, seed.value, s[..i])
    ensures seed.None? ==> forall i :: 0 <= i < |r.calls| ==> r.calls[i].0 == FoldLeft(f, s[0], s[1..i + 1])
    ensures r.acc.None? <==> seed.None? && |s| == 0
    ensures seed.Some? ==> r.acc == Some(FoldLeft(f, seed.value, s))
    ensures seed.None? && |s| > 0 ==> r.acc == Some(FoldLeft(f, s[0], s[1..]))
  {
    AbsorbFolds(s, f, seed);
    Each(s, Absorb(f), Run(seed, []))
  }

  lemma {:induction false} AbsorbFolds<T>(s: seq<T>, f: (T, T) -> T, seed: Option<T>)
    ensures var r := Each(s, Absorb(f), Run(seed, []));
      && |r.calls| == (if seed.Some? then |s| else if |s| == 0 then 0 else |s| - 1)
      && (seed.Some? ==> forall i :: 0 <= i < |s| ==> r.calls[i].1 == s[i])
      && (seed.None? ==> forall i :: 0 <= i < |r.calls| ==> r.calls[i].1 == s[i + 1])
      && (seed.Some? ==> forall i :: 0 <= i < |s| ==> r.calls[i].0 == FoldLeft(f, seed.value, s[..i]))
      && (seed.None? ==> forall i :: 0 <= i < |r.calls| ==> r.calls[i].0 == FoldLeft(f, s[0], s[1..i + 1]))
      && (r.acc.None? <==> seed.None? && |s| == 0)
      && (seed.Some? ==> r.acc == Some(FoldLeft(f, seed.value, s)))
      && (seed.None? && |s| > 0 ==> r.acc == Some(FoldLeft(f, s[0], s[1..])))
    decreases |s|
  {
    if |s| > 0 {
      var p, x := s[..|s| - 1], s[|s| - 1];
      AbsorbFolds(p, f, seed);
      assert s == p + [x];
      assert forall i :: 0 <= i <= |p| ==> s[..i] == p[..i];
      match seed
      case Some(v) =>
        FoldLeftSnoc(f, v, p, x);
      case None =>
        if |p| > 0 {
          FoldLeftSnoc(f, p[0], p[1..], x);
          assert s[1..] == p[1..] + [x];
        }
    }
  }

  /** `reduce(s, f, seed)`: the final accumulator, absent only when
      no starting value was passed and `s` is empty. */
  function Reduce<T>(s: seq<T>, f: (T, T) -> T, seed: Option<T>): (r: Option<T>)
    ensures r.None? <==> seed.None? && |s| == 0
    ensures seed.Some? ==> r == Some(FoldLeft(f, seed.value, s))
    ensures seed.None? && |s| > 0 ==> r == Some(FoldLeft(f, s[0], s[1..]))
  {
    ReduceRun(s, f, seed).acc
  }

  /** `reduce` called with a starting value whose type differs from the
      elements' (`contains` and `every` fold elements into a boolean). */
  function ReduceFrom<T, A>(s: seq<T>, f: (A, T) -> A, seed: A): (r: A)
    ensures r == FoldLeft(f, seed, s)
  {
    StepFolds(s, f, seed);
    Each(s, Step(f), seed)
  }

  /** The visitor of `reduce` once an accumulator exists. */
  function Step<T, A>(f: (A, T) -> A): (A, T, nat) -> A {
    (acc: A, value: T, index: nat) => f(acc, value)
  }

  lemma {:induction false} StepFolds<T, A>(s: seq<T>, f: (A, T) -> A, seed: A)
    ensures Each(s, Step(f), seed) == FoldLeft(f, seed, s)
    decreases |s|
  {
    if |s| > 0 {
      var p, x := s[..|s| - 1], s[|s| - 1];
      StepFolds(p, f, seed);
      assert s == p + [x];
      FoldLeftSnoc(f, seed, p, x);
    }
  }

  /** Omitting the starting value is passing the first element as one and
      reducing the rest. */
  lemma UnseededIsSeededByFirst<T>(s: seq<T>, f: (T, T) -> T)
    requires |s| > 0
    ensures Reduce(s, f, None) == Reduce(s[1..], f, Some(s[0]))
  {
  }

  function Add(a: int, b: int): int {
    a + b
  }

  /** Summing [1, 2, 3, 4]: 10 without a starting value (1 seeds the sum and
      three additions follow), 20 from a starting value of 10 (four
      additions). */
  lemma SumExamples()
    ensures Reduce([1, 2, 3, 4], Add, None) == Some(10)
    ensures |ReduceRun([1, 2, 3, 4], Add, None).calls| == 3
    ensures Reduce([1, 2, 3, 4], Add, Some(10)) == Some(20)
    ensures |ReduceRun([1, 2, 3, 4], Add, Some(10)).calls| == 4
    ensures Reduce([], Add, None) == None
  {
  }
}
