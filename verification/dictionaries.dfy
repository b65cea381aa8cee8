/** The part of LINQ's `Enumerable.ToDictionary(keySelector, elementSelector)` that the
    media tables rely on: entries are added in order, and adding a key a second time
    throws `ArgumentException`.
 */
module Dictionaries {
  import opened Wrappers

  /** Message of the `ArgumentException` raised by `Dictionary.Add` on a repeated key. */
  const DuplicateKeyMessage: string := "An item with the same key has already been added."

  /** No two elements of `source` have the same key. */
  ghost predicate DistinctKeys<S, K>(source: seq<S>, key: S -> K) {
    forall i, j :: 0 <= i < j < |source| ==> key(source[i]) != key(source[j])
  }

  /** The keys of all elements of `source`. */
  ghost function KeySet<S, K>(source: seq<S>, key: S -> K): set<K> {
    set i | 0 <= i < |source| :: key(source[i])
  }

  /** Builds the dictionary `key(x) -> element(x)` for every `x` in `source`, failing
      exactly when two elements share a key. */
  function ToDictionary<S, K(==), V>(source: seq<S>, key: S -> K, element: S -> V): (r: Result<map<K, V>>)
    ensures r.Success? <==> DistinctKeys(source, key)
    ensures r.Failure? ==> r.error == Argument(DuplicateKeyMessage)
    ensures r.Success? ==> r.value.Keys == KeySet(source, key)
    ensures r.Success? ==> forall i :: 0 <= i < |source| ==> r.value[key(source[i])] == element(source[i])
    decreases |source|
  {
    if |source| == 0 then
      Success(map[])
    else
      var front := source[..|source| - 1];
      var last := source[|source| - 1];
      var d :- ToDictionary(front, key, element);
      AppendOne(source, key);
      if key(last) in d then
        Failure(Argument(DuplicateKeyMessage))
      else
        Success(d[key(last) := element(last)])
  }

  /** How the keys of a non-empty source split into those of all but its last element
      and the last key. */
  lemma AppendOne<S, K>(source: seq<S>, key: S -> K)
    requires |source| > 0
    ensures var front := source[..|source| - 1];
      && (forall i :: 0 <= i < |front| ==> front[i] == source[i])
      && KeySet(source, key) == KeySet(front, key) + {key(source[|source| - 1])}
      && (DistinctKeys(source, key) <==> DistinctKeys(front, key) && key(source[|source| - 1]) !in KeySet(front, key))
  {
    var front := source[..|source| - 1];
    assert forall i :: 0 <= i < |front| ==> front[i] == source[i];
  }
}
