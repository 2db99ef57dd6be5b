/** `extend` and `defaults`: copy the properties of each source object,
    left to right, into a target object. Objects are finite maps; the
    sources are the arguments after the target. */
module Merging {

  /** Every key some source has. */
  function SourceKeys<K, V>(sources: seq<map<K, V>>): set<K> {
    set i, k | 0 <= i < |sources| && k in sources[i] :: k
  }

  /** The inner loop of `extend` over one source, visiting its keys in the
      enumeration order `keys`: `obj[key] = source[key]` for each. */
  function AssignEach<K, V>(obj: map<K, V>, source: map<K, V>, keys: seq<K>): map<K, V>
    requires forall i :: 0 <= i < |keys| ==> keys[i] in source
    decreases |keys|
  {
    if |keys| == 0 then obj
    else AssignEach(obj[keys[0] := source[keys[0]]], source, keys[1..])
  }

  /** The part of `source` whose keys occur in `keys`. */
  function Restrict<K, V>(source: map<K, V>, keys: seq<K>): map<K, V> {
    map k | k in source && k in keys :: source[k]
  }

  lemma {:induction false} AssignEachCopies<K, V>(obj: map<K, V>, source: map<K, V>, keys: seq<K>)
    requires forall i :: 0 <= i < |keys| ==> keys[i] in source
    ensures AssignEach(obj, source, keys) == obj + Restrict(source, keys)
    decreases |keys|
  {
    if |keys| > 0 {
      var k := keys[0];
      AssignEachCopies(obj[k := source[k]], source, keys[1..]);
      assert forall x :: x in keys <==> x == k || x in keys[1..];
      assert obj[k := source[k]] + Restrict(source, keys[1..]) == obj + Restrict(source, keys);
    }
  }

  /** Whatever order the keys of a source are enumerated in, copying them
      one by one overrides the target with the whole source. */
  lemma AssignEachAnyOrder<K, V>(obj: map<K, V>, source: map<K, V>, keys: seq<K>)
    requires forall k :: k in source <==> k in keys
    ensures AssignEach(obj, source, keys) == obj + source
  {
    AssignEachCopies(obj, source, keys);
    assert Restrict(source, keys) == source;
  }

  /** The inner loop of `defaults` over one source: a key is copied only
      when the target does not have it yet. */
  function AssignMissing<K, V>(obj: map<K, V>, source: map<K, V>, keys: seq<K>): map<K, V>
    requires forall i :: 0 <= i < |keys| ==> keys[i] in source
    decreases |keys|
  {
    if |keys| == 0 then obj
    else if keys[0] in obj then AssignMissing(obj, source, keys[1..])
    else AssignMissing(obj[keys[0] := source[keys[0]]], source, keys[1..])
  }

  lemma {:induction false} AssignMissingCopies<K, V>(obj: map<K, V>, source: map<K, V>, keys: seq<K>)
    requires forall i :: 0 <= i < |keys| ==> keys[i] in source
    ensures AssignMissing(obj, source, keys) == Restrict(source, keys) + obj
    decreases |keys|
  {
    if |keys| > 0 {
      var k := keys[0];
      var next := if k in obj then obj else obj[k := source[k]];
      AssignMissingCopies(next, source, keys[1..]);
      assert forall x :: x in keys <==> x == k || x in keys[1..];
      assert Restrict(source, keys[1..]) + next == Restrict(source, keys) + obj;
    }
  }

  /** Whatever the enumeration order, `defaults` with one source adds just
      the source's entries whose keys the target lacks. */
  lemma AssignMissingAnyOrder<K, V>(obj: map<K, V>, source: map<K, V>, keys: seq<K>)
    requires forall k :: k in source <==> k in keys
    ensures AssignMissing(obj, source, keys) == source + obj
  {
    AssignMissingCopies(obj, source, keys);
    assert Restrict(source, keys) == source;
  }

  /** `extend(target, ...sources)`: later sources win; a key no source has
      keeps its value in the target. */
  function Extend<K, V>(target: map<K, V>, sources: seq<map<K, V>>): (r: map<K, V>)
    ensures r.Keys == target.Keys + SourceKeys(sources)
    ensures forall k :: k in target && k !in SourceKeys(sources) ==> r[k] == target[k]
    ensures forall i, k :: 0 <= i < |sources| && k in sources[i] && k !in SourceKeys(sources[i + 1..])
              ==> r[k] == sources[i][k]
    decreases |sources|
  {
    if |sources| == 0 then target
    else
      SourceKeysCons(sources);
      Extend(target + sources[0], sources[1..])
  }

  /** The keys of all sources are those of the first and those of the rest. */
  lemma SourceKeysCons<K, V>(sources: seq<map<K, V>>)
    requires |sources| > 0
    ensures SourceKeys(sources) == sources[0].Keys + SourceKeys(sources[1..])
    ensures forall i :: 0 <= i < |sources| - 1 ==> sources[i + 1..] == sources[1..][i..]
  {
  }

  /** `defaults(target, ...sources)`: a key the target has is never
      touched; a new key takes its value from the first source that has it. */
  function Defaults<K, V>(target: map<K, V>, sources: seq<map<K, V>>): (r: map<K, V>)
    ensures r.Keys == target.Keys + SourceKeys(sources)
    ensures forall k :: k in target ==> r[k] == target[k]
    ensures forall i, k :: 0 <= i < |sources| && k in sources[i] && k !in target && k !in SourceKeys(sources[..i])
              ==> r[k] == sources[i][k]
    decreases |sources|
  {
    if |sources| == 0 then target
    else
      var r := Defaults(sources[0] + target, sources[1..]);
      DefaultsStep(target, sources, r);
      r
  }

  /** What the recursive call of `Defaults` promises about `r` implies the
      contract of the call that made it. */
  lemma DefaultsStep<K, V>(target: map<K, V>, sources: seq<map<K, V>>, r: map<K, V>)
    requires |sources| > 0
    requires r.Keys == (sources[0] + target).Keys + SourceKeys(sources[1..])
    requires forall k :: k in sources[0] + target ==> r[k] == (sources[0] + target)[k]
    requires forall i, k ::
               (0 <= i < |sources| - 1 && k in sources[1..][i] && k !in sources[0] + target &&
                k !in SourceKeys(sources[1..][..i]))
               ==> r[k] == sources[1..][i][k]
    ensures r.Keys == target.Keys + SourceKeys(sources)
    ensures forall k :: k in target ==> r[k] == target[k]
    ensures forall i, k :: 0 <= i < |sources| && k in sources[i] && k !in target && k !in SourceKeys(sources[..i])
              ==> r[k] == sources[i][k]
  {
    SourceKeysCons(sources);
    forall i, k | 0 <= i < |sources| && k in sources[i] && k !in target && k !in SourceKeys(sources[..i])
      ensures r[k] == sources[i][k]
    {
      if i > 0 {
        assert sources[..i][0] == sources[0];
        assert SourceKeys(sources[1..][..i - 1]) <= SourceKeys(sources[..i]) by {
          forall k' | k' in SourceKeys(sources[1..][..i - 1])
            ensures k' in SourceKeys(sources[..i])
          {
            var j :| 0 <= j < i - 1 && k' in sources[1..][..i - 1][j];
            assert sources[1..][..i - 1][j] == sources[..i][j + 1];
          }
        }
        assert sources[1..][i - 1] == sources[i];
      }
    }
  }

  /** The documented merges: `extend({a:1}, {b:2}, {a:3})` is `{a:3, b:2}`
      and `defaults({a:1}, {a:2, b:2})` is `{a:1, b:2}`. */
  lemma DocumentedExamples()
    ensures Extend(map["a" := 1], [map["b" := 2], map["a" := 3]]) == map["a" := 3, "b" := 2]
    ensures Defaults(map["a" := 1], [map["a" := 2, "b" := 2]]) == map["a" := 1, "b" := 2]
  {
  }
}
