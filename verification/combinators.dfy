/** `memoize` and `once`. The state each wrapper's closure owns is a value
    here: every call takes the state and returns the next one together
    with the call's result. The wrapped function is a pure function. */
module Combinators {
  import opened Wrappers

  /** The closure state of `memoize`: `storage` maps each argument seen so
      far to its result; `invocations` counts calls of the wrapped function. */
  datatype Memo<K, V> = Memo(storage: map<K, V>, invocations: nat)

  /** One call of a memoized function: its state afterwards and its result. */
  datatype MemoReply<K, V> = MemoReply(memo: Memo<K, V>, value: V)

  /** `memoize(func)` starts from empty storage. */
  function Memoize<K, V>(): Memo<K, V> {
    Memo(map[], 0)
  }

  /** The storage only holds results `func` really gives, and `func` was
      invoked once per stored argument. */
  ghost predicate Faithful<K, V>(m: Memo<K, V>, func: K -> V) {
    && (forall k :: k in m.storage ==> m.storage[k] == func(k))
    && m.invocations == |m.storage|
  }

  /** Calling the memoized function with `arg`: a stored result is returned
      as is; otherwise `func(arg)` is computed, stored and returned. */
  function MemoCall<K, V>(m: Memo<K, V>, func: K -> V, arg: K): (r: MemoReply<K, V>)
    ensures Faithful(m, func) ==> Faithful(r.memo, func) && r.value == func(arg)
    ensures r.memo.storage.Keys == m.storage.Keys + {arg}
    ensures arg in m.storage ==> r.memo == m && r.value == m.storage[arg]
    ensures arg !in m.storage ==> r.memo.invocations == m.invocations + 1
  {
    if arg in m.storage then MemoReply(m, m.storage[arg])
    else
      var v := func(arg);
      MemoReply(Memo(m.storage[arg := v], m.invocations + 1), v)
  }

  /** A fresh memoized function called twice with the same argument
      invokes the wrapped function once and answers the same both times. */
  lemma MemoSameArgumentTwice<K, V>(func: K -> V, x: K)
    ensures var first := MemoCall(Memoize(), func, x);
      var second := MemoCall(first.memo, func, x);
      second.memo.invocations == 1 && first.value == second.value == func(x)
  {
  }

  /** Called with two different arguments, it invokes the wrapped function
      twice. */
  lemma MemoDistinctArguments<K, V>(func: K -> V, x: K, y: K)
    requires x != y
    ensures var first := MemoCall(Memoize(), func, x);
      var second := MemoCall(first.memo, func, y);
      second.memo.invocations == 2 && first.value == func(x) && second.value == func(y)
  {
  }

  /** The results of calling the memoized function on each of `args` in
      turn, and its final state. */
  function MemoCalls<K, V>(m: Memo<K, V>, func: K -> V, args: seq<K>): (r: (Memo<K, V>, seq<V>))
    requires Faithful(m, func)
    ensures Faithful(r.0, func)
    ensures |r.1| == |args|
    ensures forall i :: 0 <= i < |args| ==> r.1[i] == func(args[i])
    ensures r.0.storage.Keys == m.storage.Keys + Arguments(args)
    decreases |args|
  {
    if |args| == 0 then (m, [])
    else
      var reply := MemoCall(m, func, args[0]);
      var rest := MemoCalls(reply.memo, func, args[1..]);
      MemoCallsStep(m, func, args, reply, rest);
      (rest.0, [reply.value] + rest.1)
  }

  /** What the first call and the recursive call of `MemoCalls` promise
      implies the contract of the whole sequence of calls. */
  lemma MemoCallsStep<K, V>(m: Memo<K, V>, func: K -> V, args: seq<K>,
                            reply: MemoReply<K, V>, rest: (Memo<K, V>, seq<V>))
    requires |args| > 0
    requires reply.value == func(args[0])
    requires reply.memo.storage.Keys == m.storage.Keys + {args[0]}
    requires |rest.1| == |args| - 1
    requires forall i :: 0 <= i < |args| - 1 ==> rest.1[i] == func(args[1..][i])
    requires rest.0.storage.Keys == reply.memo.storage.Keys + Arguments(args[1..])
    ensures |[reply.value] + rest.1| == |args|
    ensures forall i :: 0 <= i < |args| ==> ([reply.value] + rest.1)[i] == func(args[i])
    ensures rest.0.storage.Keys == m.storage.Keys + Arguments(args)
  {
  }

  /** Over a sequence of calls, the wrapped function runs once per distinct
      argument that was not stored before. */
  lemma MemoCallsInvocations<K, V>(m: Memo<K, V>, func: K -> V, args: seq<K>)
    requires Faithful(m, func)
    ensures MemoCalls(m, func, args).0.invocations == m.invocations + |Arguments(args) - m.storage.Keys|
  {
  }

  /** The distinct arguments of a sequence of calls. */
  function Arguments<K>(args: seq<K>): set<K> {
    set i | 0 <= i < |args| :: args[i]
  }

  /** The closure state of `once`: the `called` flag, the `result` it
      remembers, and how often the wrapped function ran. */
  datatype Once<R> = Once(called: bool, result: Option<R>, invocations: nat)

  /** `once(func)`: not yet called, no result. */
  function OnceWrap<R>(): Once<R> {
    Once(false, None, 0)
  }

  /** One call of the wrapper as `underbar.js` writes it: `func` runs only
      when `called` is already set, and `called` is set nowhere else. The
      call answers the remembered result (absent stands for `undefined`). */
  function OnceCall<A, R>(o: Once<R>, func: A -> R, args: A): (Once<R>, Option<R>)
  {
    if o.called then
      var v := func(args);
      (Once(true, Some(v), o.invocations + 1), Some(v))
    else (o, o.result)
  }

  /** A sequence of calls of the wrapper, with their answers. */
  function OnceCalls<A, R>(o: Once<R>, func: A -> R, args: seq<A>): (Once<R>, seq<Option<R>>)
    decreases |args|
  {
    if |args| == 0 then (o, [])
    else
      var (next, answer) := OnceCall(o, func, args[0]);
      var (last, answers) := OnceCalls(next, func, args[1..]);
      (last, [answer] + answers)
  }

  /** Because the guard tests `called` before anything sets it, a wrapper
      made by `once` never runs the wrapped function: whatever the calls,
      its state stays as created and every call answers `undefined`. */
  lemma {:induction false} OnceNeverInvokes<A, R>(func: A -> R, args: seq<A>)
    ensures OnceCalls(OnceWrap(), func, args).0 == OnceWrap()
    ensures OnceCalls(OnceWrap(), func, args).0.invocations == 0
    ensures |OnceCalls(OnceWrap(), func, args).1| == |args|
    ensures forall i :: 0 <= i < |args| ==> OnceCalls(OnceWrap(), func, args).1[i] == None
    decreases |args|
  {
    if |args| > 0 {
      OnceNeverInvokes(func, args[1..]);
    }
  }
}
