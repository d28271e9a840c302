/** The LINQ operators GetUrls chains together, over finite sequences. */
module Enumerables {
  import opened Outcomes

  /** No element occurs twice. */
  predicate NoDuplicates<T(==)>(s: seq<T>) {
    forall i, j :: 0 <= i < j < |s| ==> s[i] != s[j]
  }

  /** The elements of `s` not in `seen`, each once, in the order of their first occurrence. */
  function DistinctFrom<T(==,!new)>(s: seq<T>, seen: set<T>): (r: seq<T>)
    ensures NoDuplicates(r)
    ensures forall x :: x in r <==> x in s && x !in seen
  {
    if s == [] then
      []
    else if s[0] in seen then
      DistinctFrom(s[1..], seen)
    else
      var rest := DistinctFrom(s[1..], seen + {s[0]});
      assert forall x :: x in s <==> x == s[0] || x in s[1..];
      [s[0]] + rest
  }

  /** Deduplicating a concatenation deduplicates the first part, then the second part against
      everything the first part has shown. */
  lemma {:induction false} DistinctFromAppend<T(!new)>(a: seq<T>, b: seq<T>, seen: set<T>)
    ensures DistinctFrom(a + b, seen) == DistinctFrom(a, seen) + DistinctFrom(b, seen + set x | x in a)
    decreases |a|
  {
    if a == [] {
      assert a + b == b;
      assert seen + (set x | x in a) == seen;
    } else {
      assert (a + b)[0] == a[0] && (a + b)[1..] == a[1..] + b;
      if a[0] in seen {
        DistinctFromAppend(a[1..], b, seen);
        assert seen + (set x | x in a[1..]) == seen + set x | x in a;
      } else {
        DistinctFromAppend(a[1..], b, seen + {a[0]});
        assert seen + {a[0]} + (set x | x in a[1..]) == seen + set x | x in a;
      }
    }
  }

  /** Enumerable.Union: the elements of `first`, then those of `second`, without repeats. */
  function Union<T(==,!new)>(first: seq<T>, second: seq<T>): (r: seq<T>)
    ensures NoDuplicates(r)
    ensures forall x :: x in r <==> x in first || x in second
  {
    DistinctFrom(first + second, {})
  }

  /** Union yields `first` without repeats, in order, followed by the elements of `second`
      that `first` lacks, in order. */
  lemma UnionOrder<T(!new)>(first: seq<T>, second: seq<T>)
    ensures Union(first, second) == DistinctFrom(first, {}) + DistinctFrom(second, set x | x in first)
  {
    DistinctFromAppend(first, second, {});
    assert {} + (set x | x in first) == set x | x in first;
  }

  /** Enumerable.ToDictionary with the identity as key selector, adding the keys to `acc` from
      left to right; on the first key that is already present it fails as Dictionary.Add does,
      with an ArgumentException (whose .NET message also names the key). */
  function ToDictionaryInto<K(==,!new)>(acc: map<K, K>, keys: seq<K>): (r: Result<map<K, K>, Fault>)
    ensures r.Success? <==> NoDuplicates(keys) && forall i :: 0 <= i < |keys| ==> keys[i] !in acc
    ensures r.Success? ==> r.value.Keys == acc.Keys + set k | k in keys
    ensures r.Success? ==> forall k :: k in r.value ==> r.value[k] == if k in acc then acc[k] else k
    decreases keys
  {
    if keys == [] then
      Success(acc)
    else if keys[0] in acc then
      Failure(ArgumentException("An item with the same key has already been added."))
    else
      var r := ToDictionaryInto(acc[keys[0] := keys[0]], keys[1..]);
      assert (set k | k in keys) == {keys[0]} + set k | k in keys[1..];
      assert NoDuplicates(keys) <==> NoDuplicates(keys[1..]) && keys[0] !in keys[1..];
      r
  }

  /** `source.ToDictionary(x => x)`: every key maps to itself. */
  function ToDictionary<K(==,!new)>(source: seq<K>): (r: Result<map<K, K>, Fault>)
    ensures r.Success? <==> NoDuplicates(source)
    ensures r.Success? ==> r.value.Keys == set k | k in source
    ensures r.Success? ==> forall k :: k in r.value ==> r.value[k] == k
  {
    ToDictionaryInto(map[], source)
  }

  /** The elements of a finite set in some order, as the enumeration of a Dictionary's keys
      yields them; which order is left open. */
  ghost function Enumerate<T(!new)>(s: set<T>): (r: seq<T>)
    ensures NoDuplicates(r)
    ensures forall x :: x in r <==> x in s
  {
    if s == {} then
      []
    else
      var x :| x in s;
      [x] + Enumerate(s - {x})
  }
}
