/** Python's `OrderedDict`, as the sequence of its (key, value) entries in
    insertion order. Assigning to a present key replaces its value where it
    stands; assigning to a new key appends it. */
module OrderedMaps {
  import opened Basics

  type Entries<K, V> = seq<(K, V)>

  /** `list(d.keys())` */
  function Keys<K, V>(m: Entries<K, V>): seq<K>
  {
    seq(|m|, i requires 0 <= i < |m| => m[i].0)
  }

  predicate Distinct<T(==)>(s: seq<T>)
  {
    forall i, j :: 0 <= i < j < |s| ==> s[i] != s[j]
  }

  /** Python's `list.index`: the first position holding `x`. */
  function IndexOf<T(==)>(s: seq<T>, x: T): (i: nat)
    requires x in s
    ensures i < |s| && s[i] == x
    ensures forall j :: 0 <= j < i ==> s[j] != x
  {
    if s[0] == x then 0 else 1 + IndexOf(s[1..], x)
  }

  /** The first position holding `x` is the only one the characterisation allows. */
  lemma IndexOfUnique<T>(s: seq<T>, x: T, i: nat)
    requires i < |s| && s[i] == x
    requires forall j :: 0 <= j < i ==> s[j] != x
    ensures IndexOf(s, x) == i
  {
  }

  /** Where keys are distinct, a key's position is the one where it is stored. */
  lemma IndexOfDistinct<T>(s: seq<T>, i: nat)
    requires Distinct(s) && i < |s|
    ensures IndexOf(s, s[i]) == i
  {
    IndexOfUnique(s, s[i], i);
  }

  /** `d[k]` when `k in d`, `None` otherwise. */
  function Get<K(==), V>(m: Entries<K, V>, k: K): (r: Option<V>)
  {
    if k in Keys(m) then Some(m[IndexOf(Keys(m), k)].1) else None
  }

  /** `d[k] = v`: a present key keeps its place and takes the new value, a new
      key goes last (`PutOther`: no other entry changes). */
  function Put<K(==), V>(m: Entries<K, V>, k: K, v: V): (r: Entries<K, V>)
    ensures Keys(r) == if k in Keys(m) then Keys(m) else Keys(m) + [k]
    ensures Get(r, k) == Some(v)
  {
    if k in Keys(m) then
      var i := IndexOf(Keys(m), k);
      var r := m[i := (k, v)];
      assert Keys(r) == Keys(m);
      r
    else
      var r := m + [(k, v)];
      assert Keys(r) == Keys(m) + [k];
      r
  }

  /** Assigning to a new key keeps the keys distinct; a present key adds none. */
  lemma PutDistinct<K, V>(m: Entries<K, V>, k: K, v: V)
    requires Distinct(Keys(m))
    ensures Distinct(Keys(Put(m, k, v)))
  {
  }

  /** With distinct keys, looking up the i-th key finds the i-th value. */
  lemma GetAt<K, V>(m: Entries<K, V>, i: nat)
    requires Distinct(Keys(m)) && i < |m|
    ensures Get(m, m[i].0) == Some(m[i].1)
  {
    assert Keys(m)[i] == m[i].0;
    IndexOfDistinct(Keys(m), i);
  }

  /** Assigning to one key leaves every other present key's value alone. */
  lemma PutOther<K, V>(m: Entries<K, V>, k: K, v: V, k': K)
    requires k' in Keys(m) && k' != k
    ensures Get(Put(m, k, v), k') == Get(m, k')
  {
    var r := Put(m, k, v);
    if k !in Keys(m) {
      assert r == m + [(k, v)] && Keys(r) == Keys(m) + [k];
      IndexOfUnique(Keys(r), k', IndexOf(Keys(m), k'));
    }
  }

  /** The elements of `s`, each kept at its first occurrence only. */
  function FirstOccurrences<T(==)>(s: seq<T>): (r: seq<T>)
    ensures forall x :: x in r ==> x in s
    ensures forall x :: x in s ==> x in r
    ensures Distinct(r)
  {
    if s == [] then []
    else
      var d := FirstOccurrences(s[..|s| - 1]);
      assert s == s[..|s| - 1] + [s[|s| - 1]];
      if s[|s| - 1] in d then d else d + [s[|s| - 1]]
  }

  /** A sequence without repetitions is its own first occurrences. */
  lemma {:induction false} FirstOccurrencesOfDistinct<T>(s: seq<T>)
    requires Distinct(s)
    ensures FirstOccurrences(s) == s
  {
    if s != [] {
      FirstOccurrencesOfDistinct(s[..|s| - 1]);
    }
  }
}
