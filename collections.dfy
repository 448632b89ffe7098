/**
 * The two Python collection idioms the crawler relies on:
 *  - `list(set(xs))`: the distinct elements of a list, and
 *  - an insertion-ordered `dict`, written as a sequence of (key, value) pairs
 *    whose assignment `d[k] = v` overwrites a present key in place and
 *    appends a new one at the end.
 */
module Collections {
  import opened Wrappers

  /** No element occurs twice in `s`. */
  predicate NoDup<T(==)>(s: seq<T>) {
    forall i, j :: 0 <= i < j < |s| ==> s[i] != s[j]
  }

  /** No element of `xs` occurs in `ys`. */
  predicate Disjoint<T(==)>(xs: seq<T>, ys: seq<T>) {
    forall x :: x in xs ==> x !in ys
  }

  lemma NoDupAppend<T>(xs: seq<T>, ys: seq<T>)
    requires NoDup(xs) && NoDup(ys) && Disjoint(xs, ys)
    ensures NoDup(xs + ys)
  {
    forall i, j | 0 <= i < j < |xs + ys|
      ensures (xs + ys)[i] != (xs + ys)[j]
    {
      if j < |xs| {
        assert (xs + ys)[i] == xs[i] && (xs + ys)[j] == xs[j];
      } else if i >= |xs| {
        assert (xs + ys)[i] == ys[i - |xs|] && (xs + ys)[j] == ys[j - |xs|];
      } else {
        assert (xs + ys)[j] == ys[j - |xs|] && (xs + ys)[i] == xs[i];
        assert xs[i] in xs && ys[j - |xs|] in ys;
      }
    }
  }

  lemma NoDupParts<T>(xs: seq<T>, ys: seq<T>)
    requires NoDup(xs + ys)
    ensures NoDup(xs) && NoDup(ys) && Disjoint(xs, ys)
  {
    forall i, j | 0 <= i < j < |xs|
      ensures xs[i] != xs[j]
    {
      assert (xs + ys)[i] == xs[i] && (xs + ys)[j] == xs[j];
    }
    forall i, j | 0 <= i < j < |ys|
      ensures ys[i] != ys[j]
    {
      assert (xs + ys)[|xs| + i] == ys[i] && (xs + ys)[|xs| + j] == ys[j];
    }
    forall i, j | 0 <= i < |xs| && 0 <= j < |ys|
      ensures xs[i] != ys[j]
    {
      assert (xs + ys)[i] == xs[i] && (xs + ys)[|xs| + j] == ys[j];
    }
  }

  /** Appends `x` unless it is already present. */
  function AddNew<T(==)>(acc: seq<T>, x: T): seq<T> {
    if x in acc then acc else acc + [x]
  }

  /** Adds the elements of `s` to `acc`, left to right, skipping those already seen. */
  function DistinctInto<T(==,!new)>(acc: seq<T>, s: seq<T>): (r: seq<T>)
    ensures NoDup(acc) ==> NoDup(r)
    ensures forall x :: x in r <==> x in acc || x in s
    ensures |acc| <= |r| && r[..|acc|] == acc
    decreases |s|
  {
    if s == [] then acc else DistinctInto(AddNew(acc, s[0]), s[1..])
  }

  /**
   * `list(set(s))`. Python leaves the order of the result unspecified; this
   * model keeps the first occurrence of each element.
   */
  function Distinct<T(==,!new)>(s: seq<T>): (r: seq<T>)
    ensures NoDup(r)
    ensures forall x :: x in r <==> x in s
    ensures |r| <= |s|
  {
    DistinctLength([], s);
    DistinctInto([], s)
  }

  lemma {:induction false} DistinctLength<T(!new)>(acc: seq<T>, s: seq<T>)
    ensures |DistinctInto(acc, s)| <= |acc| + |s|
    decreases |s|
  {
    if s != [] {
      DistinctLength(AddNew(acc, s[0]), s[1..]);
    }
  }

  /** Appending one element to the input appends it to the distinct elements, unless already there. */
  lemma {:induction false} DistinctSnoc<T(!new)>(acc: seq<T>, s: seq<T>, x: T)
    ensures DistinctInto(acc, s + [x]) == AddNew(DistinctInto(acc, s), x)
    decreases |s|
  {
    if s == [] {
      assert [] + [x] == [x];
    } else {
      assert (s + [x])[0] == s[0] && (s + [x])[1..] == s[1..] + [x];
      DistinctSnoc(AddNew(acc, s[0]), s[1..], x);
    }
  }

  /** A list that already has no duplicates is its own `list(set(...))`. */
  lemma {:induction false} DistinctIntoNoDup<T(!new)>(acc: seq<T>, s: seq<T>)
    requires NoDup(acc + s)
    ensures DistinctInto(acc, s) == acc + s
    decreases |s|
  {
    if s != [] {
      assert s[0] !in acc by {
        assert (acc + s)[|acc|] == s[0];
        assert forall i :: 0 <= i < |acc| ==> (acc + s)[i] == acc[i];
      }
      assert AddNew(acc, s[0]) + s[1..] == acc + s;
      DistinctIntoNoDup(acc + [s[0]], s[1..]);
    }
  }

  lemma DistinctOfNoDup<T(!new)>(s: seq<T>)
    requires NoDup(s)
    ensures Distinct(s) == s
  {
    assert [] + s == s;
    DistinctIntoNoDup([], s);
  }

  /** The keys of an ordered dict, in insertion order. */
  function Keys<K, V>(d: seq<(K, V)>): (ks: seq<K>)
    ensures |ks| == |d|
  {
    seq(|d|, i requires 0 <= i < |d| => d[i].0)
  }

  /** `d.get(k)`: the value stored under the first occurrence of `k`. */
  function Get<K(==), V>(d: seq<(K, V)>, k: K): (r: Option<V>)
    ensures r.None? <==> k !in Keys(d)
    ensures r.Some? ==> (k, r.value) in d
  {
    if d == [] then None
    else if d[0].0 == k then assert Keys(d)[0] == k; Some(d[0].1)
    else assert Keys(d) == [d[0].0] + Keys(d[1..]); Get(d[1..], k)
  }

  /**
   * `d[k] = v`: a key already present keeps its position and takes the new
   * value; a new key is appended.
   */
  function Store<K(==), V>(d: seq<(K, V)>, k: K, v: V): (r: seq<(K, V)>)
    ensures Keys(r) == AddNew(Keys(d), k)
  {
    if d == [] then [(k, v)]
    else if d[0].0 == k then
      assert Keys(d)[0] == k;
      assert Keys([(k, v)] + d[1..]) == Keys(d);
      [(k, v)] + d[1..]
    else
      var rest := Store(d[1..], k, v);
      assert Keys(d) == [d[0].0] + Keys(d[1..]);
      assert Keys([d[0]] + rest) == [d[0].0] + Keys(rest);
      [d[0]] + rest
  }

  /** After `d[k] = v`, `d.get(k)` is `v`. */
  lemma {:induction false} StoreGet<K, V>(d: seq<(K, V)>, k: K, v: V)
    ensures Get(Store(d, k, v), k) == Some(v)
  {
    if d != [] && d[0].0 != k {
      StoreGet(d[1..], k, v);
    }
  }

  /** Assigning one key leaves every other key's value as it was. */
  lemma {:induction false} StoreOther<K, V>(d: seq<(K, V)>, k: K, v: V, k': K)
    requires k' != k
    ensures Get(Store(d, k, v), k') == Get(d, k')
  {
    if d != [] && d[0].0 != k {
      StoreOther(d[1..], k, v, k');
    }
  }

  /** A dict never holds a key twice. */
  lemma StoreNoDup<K, V>(d: seq<(K, V)>, k: K, v: V)
    requires NoDup(Keys(d))
    ensures NoDup(Keys(Store(d, k, v)))
  {
  }
}
