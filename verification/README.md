# underbar: collections, objects and function wrappers in Dafny

A model of `underbar.js`, a small functional-utility library in the style
of Underscore. The library offers operations over arrays (`first`, `last`,
`each`, `indexOf`, `filter`, `reject`, `uniq`, `map`, `pluck`, `reduce`,
`contains`, `every`, `some`), merges of plain objects (`extend`,
`defaults`), and wrappers around functions (`once`, `memoize`).

Arrays are `seq<T>`. Plain objects are `map<K, V>`. JavaScript's
`undefined` is `Option.None`. Every operation is a pure function. Elements are compared with Dafny's value equality; "## Left out" names where that differs from JavaScript's `===` and `!=`.

- **Traversal.** `each` is the only loop primitive. A JavaScript visitor
  works by side effect on variables its closure captured. Here those
  variables are an explicit state that the visitor takes and returns. So
  `Traversal.Each` is a left fold over the array's indices.
  `Traversal.EachLoop` is the library's counting loop, proved equal to it.
- **Built on `each`.** `indexOf`, `filter`, `map` and `reduce` are `Each`
  with a named visitor (`MatchFirst`, `Keep`, `Push`, `Absorb`). The visitor
  does what the library's callback does.
- **`reduce`.** The library tests `arguments.length` to see whether a
  starting value was passed. The model passes an `Option` seed instead.
  The accumulator state is an `Option` too: `None` means no accumulator
  exists yet. In that state the next element becomes the accumulator
  without a call of the iterator. `Reduction.ReduceRun` also logs every
  iterator call, so the number of calls and their arguments can be stated.
  All results are related to an independent reference left fold,
  `Reduction.FoldLeft`.
- **Derived predicates.** `contains` and `every` pass a boolean starting
  value. That accumulator type differs from the element type, so they use
  `Reduction.ReduceFrom`, the seeded case with its own accumulator type.
  `some` negates `every` of the negated test.
- **Merging.** For one source object, the library's inner `for…in` loop is
  modelled by `AssignEach` and `AssignMissing` over an arbitrary
  enumeration order. Lemmas show that the order makes no difference: the
  result is a map union. `Extend` and `Defaults` fold those unions over
  the sources.
- **Combinators.** The private state of a wrapper's closure is a value
  (`Memo`, `Once`). Each call takes that state and returns the next one
  with its result. `once` is modelled as the code is written. Its guard at
  `underbar.js:233` tests `called`, which is `false` at creation and is set
  only inside that branch. So the wrapped function never runs and every
  call returns `undefined`. The doc comment at lines 226-227 promises the
  opposite. `Combinators.OnceNeverInvokes` proves the as-written behaviour.

## Model

| member | source | states |
|---|---|---|
| `Arrays.First` | underbar.js:20-23 | With no count, the result is the first element, or absent exactly when the array is empty. With a count `n`, it is a prefix of the array of length `min(n, length)`. |
| `Arrays.Last` | underbar.js:25-33 | With no count, the result is the last element, or absent exactly when the array is empty. With a count `n`, it is the array's suffix of length `min(n, length)`. |
| `Arrays.FirstThenLast` | underbar.js:20-33 | For `k <= length`, `first(a, k)` followed by `last(a, length - k)` is `a` again. |
| `Arrays.CountBeyondLengthCopies` | underbar.js:20-33 | A count at or above the length makes both `first` and `last` return a copy of the whole array. |
| `Traversal.EachLoop` | underbar.js:37-41 | The counting loop of `each` leaves the visitor's state equal to the left fold `Each` over all elements. |
| `Traversal.EachVisitsInOrder` | underbar.js:35-41 | `each` calls the visitor exactly once per element, in increasing index order, with that index and the element at it. |
| `Search.IndexOf` | underbar.js:49-60 | The result lies in `[-1, length)`. It is -1 exactly when the target is absent. Otherwise the target sits at that index and at no smaller one. |
| `Search.LaterMatchIgnored` | underbar.js:54-58 | Once the target occurs, appending elements (further matches included) does not change the index. |
| `Filtering.Filter` | underbar.js:62-72 | Every output element passes the test. The output is a sub-multiset of the input. Each passing element occurs as often as in the input. |
| `Filtering.FilterAppend` | underbar.js:62-72 | Filtering a concatenation is the concatenation of the filtered parts. So the output keeps the input order. |
| `Filtering.Reject` | underbar.js:74-79 | Every output element fails the test. The output is a sub-multiset of the input. Each failing element occurs as often as in the input. |
| `Filtering.FilterRejectPartition` | underbar.js:62-79 | `filter` and `reject` share no element. Their lengths sum to the input's length. Together they hold the input's multiset. |
| `Dedup.DropRepeats` | underbar.js:86-91 | The output is no longer than the input. It keeps the first and the last value and has no two equal neighbours. |
| `Dedup.DropRepeatsSameValues` | underbar.js:86-91 | Every output value occurs in the sorted array, and every value of the sorted array occurs in the output. |
| `Dedup.DropRepeatsKeepsOrder` | underbar.js:81-91 | If the sorted array is ordered by a relation, so is the output. |
| `Dedup.NoRepeatsMeansDistinct` | underbar.js:81-92 | Under an antisymmetric order, a sorted array with no equal neighbours has no equal elements at all. |
| `Dedup.Uniq` | underbar.js:81-92 | Given a sort that only rearranges the array, the output is no longer than the input, holds exactly the input's values, and has no equal neighbours. |
| `Dedup.UniqSortedDistinct` | underbar.js:81-92 | When the sort orders by an antisymmetric relation, the output of `uniq` is ordered and duplicate-free. |
| `Transform.Map` | underbar.js:94-103 | The output has the input's length, and position `i` holds the transform of input element `i`. |
| `Transform.MapIdentity` | underbar.js:6-10 | Mapping `identity` gives back the array. |
| `Transform.MapCompose` | underbar.js:94-103 | Mapping `f` and then `g` is mapping their composition. |
| `Transform.Pluck` | underbar.js:105-112 | The output has the input's length. Position `i` is absent exactly when item `i` lacks the key. Otherwise it is that item's value for the key. |
| `Reduction.ReduceRun` | underbar.js:114-142 | With a seed, the iterator is called once per element, with the elements in order. Without one, it is called `length - 1` times, with elements 1 onward. Each call receives as accumulator the result of the previous call: the reference left fold of the elements before it, from the seed or from the first element. The final accumulator equals the matching reference left fold. |
| `Reduction.Reduce` | underbar.js:123-142 | The result is absent exactly when no seed was passed and the array is empty. With a seed, it is the left fold of all elements from the seed. Without one, it is the left fold of the rest from the first element. |
| `Reduction.ReduceFrom` | underbar.js:123-142 | `reduce` with a starting value of any accumulator type is the reference left fold over every element. |
| `Reduction.UnseededIsSeededByFirst` | underbar.js:118-122 | Omitting the seed on a non-empty array is the same as seeding with the first element and reducing the rest. |
| `Reduction.SumExamples` | underbar.js:114-122 | Summing [1,2,3,4] gives 10 with three calls when unseeded, and 20 with four calls from 10. Unseeded on an empty array, the result is absent. |
| `Predicates.Contains` | underbar.js:144-152 | The result is true exactly when the target occurs in the array. |
| `Predicates.ContainsIffIndexFound` | underbar.js:144-152 | `contains` is true exactly when `indexOf` is not -1. |
| `Predicates.Every` | underbar.js:154-166 | The result is true exactly when every element passes, so it is true on an empty array. |
| `Predicates.EveryDefault` | underbar.js:155-160 | With no test given, `every` holds exactly when no element is false. |
| `Predicates.Any` | underbar.js:168-180 | The result is true exactly when some element passes, so it is false on an empty array. |
| `Predicates.AnyDefault` | underbar.js:170-175 | With no test given, `some` holds exactly when some element is true. |
| `Predicates.EveryIffNothingRejected` | underbar.js:154-166 | `every` holds exactly when `reject` returns an empty array. |
| `Predicates.AnyIffSomethingFiltered` | underbar.js:168-180 | `some` holds exactly when `filter` returns a non-empty array. |
| `Predicates.DocumentedExamples` | underbar.js:144-180 | [2,4,6] are all even. An empty array satisfies `every` and fails `some`. [1,2,3] contains 2 and does not contain 5. |
| `Merging.AssignEachAnyOrder` | underbar.js:200-202 | Copying a source's keys one at a time, in any enumeration order, overrides the target with the whole source. |
| `Merging.AssignMissingAnyOrder` | underbar.js:210-214 | Copying only the keys the target lacks, in any enumeration order, adds exactly the source entries the target did not have. |
| `Merging.Extend` | underbar.js:188-205 | The keys are the target's plus all sources'. A key gets its value from the last source that has it. A key in no source keeps the target's value. |
| `Merging.Defaults` | underbar.js:207-217 | The keys are the target's plus all sources'. A key the target had keeps its value. A new key gets its value from the first source that has it. |
| `Merging.DocumentedExamples` | underbar.js:188-197 | `extend({a:1}, {b:2}, {a:3})` is `{a:3, b:2}`, and `defaults({a:1}, {a:2, b:2})` is `{a:1, b:2}`. |
| `Combinators.MemoCall` | underbar.js:249-255 | A stored argument is answered from storage with no change of state. A new one is computed, stored and counted. If the storage held only true results, it still does and the answer is `func(arg)`. |
| `Combinators.MemoCalls` | underbar.js:249-255 | Over any sequence of calls, every answer equals `func` of its argument. The storage stays faithful, and its keys afterwards are exactly the keys before plus the arguments seen. |
| `Combinators.MemoCallsInvocations` | underbar.js:249-255 | Over any sequence of calls, the wrapped function runs once per distinct argument that was not already stored. |
| `Combinators.MemoSameArgumentTwice` | underbar.js:243-255 | Two calls with the same argument invoke the wrapped function once and give the same answer. |
| `Combinators.MemoDistinctArguments` | underbar.js:243-255 | Two calls with different arguments invoke the wrapped function twice. |
| `Combinators.OnceNeverInvokes` | underbar.js:228-241 | As written, a `once` wrapper never runs the wrapped function. Its state stays as created, and every call answers `undefined`. |

## Left out

- `delay` (underbar.js:263-274): scheduling on the timer queue is asynchronous and outside a pure model.
- The object branch of `each` (underbar.js:42-46): it passes the undeclared `colleciton`, which throws under strict mode. Its `for…in` order also cannot be stated. Collections are arrays only.
- The intended behaviour of `once`: only the code as written is modelled, where the wrapped function never runs.
- Truthiness: tests and predicates return `bool`. The `!!` at underbar.js:163 is then the identity. `EveryDefault` and `AnyDefault` take arrays of booleans, because `identity` as a test needs truthiness otherwise.
- `Dedup.Uniq`: the built-in sort is a parameter that is only required to rearrange the array. JavaScript's default sort compares as strings and sorts the caller's array in place; neither is modelled.
- `Dedup.DropRepeats`: compares neighbours with Dafny equality, which stands for the library's loose `!=` at underbar.js:87 only on primitive values other than `NaN`. The loose `!=` treats values of different types as equal after coercion, so `uniq([1, "1"])` keeps one value and `uniq([0, false])` keeps one; the model keeps both. It never finds `NaN` equal to itself, so `uniq([NaN, NaN])` keeps both. It compares objects and arrays by reference, so `uniq([{a: 1}, {a: 1}])` keeps both distinct objects, while the model, whose objects are values (`map`) and arrays values (`seq`), keeps one; telling them apart would need a reference type for elements. It also compares the last element with "no successor" and always keeps it. JavaScript's loose `!=` against the out-of-range `undefined` would drop a trailing `null` or `undefined`.
- `Arrays.First` / `Arrays.Last`: the count is a `nat`. Negative and fractional counts are not modelled.
- `Reduction.Reduce`: without a seed, the accumulator has the element type. Seeded calls with another accumulator type are `ReduceFrom`.
- `Merging.Extend` / `Merging.Defaults`: they return the merged object. The library mutates the target and returns that same object; aliasing is not modelled.
- `Search.IndexOf`: matches by Dafny equality, which stands for the strict `===` at underbar.js:55 only on primitive values. `===` never matches `NaN`, so `indexOf([NaN], NaN)` is -1 in the library; the model has no `NaN`. `===` compares objects and arrays by reference, so `indexOf([{a: 1}], {a: 1})` is -1 in the library for a distinct but equal-looking object, while the model, whose objects and arrays are values, answers 0; telling them apart would need a reference type for elements.
- `Predicates.Contains`: compares by Dafny equality, which stands for the strict `===` at underbar.js:150 only on primitive values. `===` never matches `NaN`, so `contains([NaN], NaN)` is false in the library; the model has no `NaN`. `===` compares objects and arrays by reference, so `contains([{a: 1}], {a: 1})` is false in the library for a distinct but equal-looking object, while the model, whose objects and arrays are values, answers true; telling them apart would need a reference type for elements.
- `Transform.Pluck`: looks up own keys only. The property access `item[key]` at underbar.js:110 also finds inherited properties such as `toString`, which the model reports as absent.
- `Merging.Defaults`: `key in obj` also sees keys inherited through the prototype chain; the model checks own keys only.
- `Combinators.MemoCall`: the storage is a map over the argument type. In JavaScript, keys are strings, so `1` and `"1"` share an entry. The storage object also inherits keys such as `toString`.
- Receiver forwarding (`this`, `apply`), the `arguments` object, the `window._` namespace, and exceptions thrown by callbacks are not modelled.
