/** Python dicts, which remember insertion order, as association lists. */
module Dicts {
  import opened Results

  /** A dict as its `items()`: (key, value) pairs in insertion order. */
  type Dict<K, V> = seq<(K, V)>

  function Keys<K, V>(d: Dict<K, V>): (ks: seq<K>)
    ensures |ks| == |d|
    ensures forall i :: 0 <= i < |d| ==> ks[i] == d[i].0
  {
    seq(|d|, i requires 0 <= i < |d| => d[i].0)
  }

  predicate NoDup<T(==)>(s: seq<T>) {
    forall i, j :: 0 <= i < j < |s| ==> s[i] != s[j]
  }

  lemma NoDupConcat<T>(a: seq<T>, b: seq<T>)
    requires NoDup(a + b)
    ensures NoDup(a) && NoDup(b)
    ensures forall x :: x in a ==> x !in b
  {
    forall i, j | 0 <= i < j < |a| ensures a[i] != a[j] {
      assert (a + b)[i] == a[i] && (a + b)[j] == a[j];
    }
    forall i, j | 0 <= i < j < |b| ensures b[i] != b[j] {
      assert (a + b)[|a| + i] == b[i] && (a + b)[|a| + j] == b[j];
    }
    forall i, j | 0 <= i < |a| && 0 <= j < |b| ensures a[i] != b[j] {
      assert (a + b)[i] == a[i] && (a + b)[|a| + j] == b[j];
    }
  }

  /** The dict invariant: no key occurs twice. */
  predicate IsDict<K(==), V>(d: Dict<K, V>) {
    NoDup(Keys(d))
  }

  lemma KeysConcat<K, V>(a: Dict<K, V>, b: Dict<K, V>)
    ensures Keys(a + b) == Keys(a) + Keys(b)
  {
  }

  lemma KeysCons<K, V>(d: Dict<K, V>)
    requires d != []
    ensures Keys(d) == [d[0].0] + Keys(d[1..])
    ensures multiset(Keys(d)) == multiset(Keys(d[1..])) + multiset{d[0].0}
  {
    assert Keys(d) == [d[0].0] + Keys(d[1..]);
  }

  /** Position of the first entry with key k. */
  function IndexOf<K(==), V>(d: Dict<K, V>, k: K): (i: nat)
    requires k in Keys(d)
    ensures i < |d| && d[i].0 == k
    ensures forall j :: 0 <= j < i ==> d[j].0 != k
  {
    if d[0].0 == k then 0
    else
      assert Keys(d) == [d[0].0] + Keys(d[1..]);
      1 + IndexOf(d[1..], k)
  }

  /** `d[k]`, or None where Python raises KeyError. */
  function Get<K(==), V>(d: Dict<K, V>, k: K): (r: Option<V>)
    ensures r.Some? <==> k in Keys(d)
  {
    if k in Keys(d) then Some(d[IndexOf(d, k)].1) else None
  }

  /** In a dict every entry is what a lookup of its key finds. */
  lemma GetEntry<K, V>(d: Dict<K, V>, i: nat)
    requires IsDict(d) && i < |d|
    ensures Get(d, d[i].0) == Some(d[i].1)
  {
    assert Keys(d)[i] == d[i].0;
  }

  /** `d[k] = v`: an existing key keeps its position, a new key is appended. */
  function Put<K(==,!new), V>(d: Dict<K, V>, k: K, v: V): (r: Dict<K, V>)
    ensures IsDict(d) ==> IsDict(r)
    ensures Get(r, k) == Some(v)
    ensures forall k' :: k' != k ==> Get(r, k') == Get(d, k')
    ensures k in Keys(d) ==> Keys(r) == Keys(d)
    ensures k !in Keys(d) ==> Keys(r) == Keys(d) + [k] && r == d + [(k, v)]
  {
    if k in Keys(d) then
      var i := IndexOf(d, k);
      var r := d[i := (k, v)];
      assert Keys(r) == Keys(d);
      r
    else
      var r := d + [(k, v)];
      assert Keys(r) == Keys(d) + [k];
      assert forall k' :: k' in Keys(d) ==> IndexOf(r, k') == IndexOf(d, k') by {
        forall k' | k' in Keys(d) ensures IndexOf(r, k') == IndexOf(d, k') {
          IndexOfAppend(d, [(k, v)], k');
        }
      }
      r
  }

  /** Looking up and overwriting an existing key both go to its position. */
  lemma PutExisting<K(!new), V>(d: Dict<K, V>, k: K, v: V)
    requires k in Keys(d)
    ensures Get(d, k) == Some(d[IndexOf(d, k)].1)
    ensures Put(d, k, v) == d[IndexOf(d, k) := (k, v)]
  { }

  lemma IndexOfAppend<K, V>(d: Dict<K, V>, e: Dict<K, V>, k: K)
    requires k in Keys(d)
    ensures k in Keys(d + e) && IndexOf(d + e, k) == IndexOf(d, k)
  {
    KeysConcat(d, e);
    var i, j := IndexOf(d + e, k), IndexOf(d, k);
    assert (d + e)[j] == d[j];
  }

  /** Python's `dict(pairs)`: the pairs put in one after another. */
  function FromPairs<K(==,!new), V>(ps: seq<(K, V)>): Dict<K, V> {
    if ps == [] then [] else Put(FromPairs(ps[..|ps| - 1]), ps[|ps| - 1].0, ps[|ps| - 1].1)
  }

  /** Pairs without a repeated key make a dict with exactly those items. */
  lemma {:induction false} FromPairsOfDict<K(!new), V>(ps: seq<(K, V)>)
    requires IsDict(ps)
    ensures FromPairs(ps) == ps
  {
    if ps != [] {
      var n := |ps|;
      var init := ps[..n - 1];
      assert Keys(init) == Keys(ps)[..n - 1];
      FromPairsOfDict(init);
      assert ps[n - 1].0 !in Keys(init);
      assert init + [ps[n - 1]] == ps;
    }
  }

  /** In a dict, a lookup finds v exactly when (k, v) is an item. */
  lemma GetIffItem<K, V>(d: Dict<K, V>, k: K, v: V)
    requires IsDict(d)
    ensures Get(d, k) == Some(v) <==> (k, v) in d
  {
    if (k, v) in d {
      var i :| 0 <= i < |d| && d[i] == (k, v);
      GetEntry(d, i);
    }
  }

  /** A sequence without repetitions counts each of its elements once. */
  lemma {:induction false} NoDupCountsOnce<T>(s: seq<T>)
    requires NoDup(s)
    ensures forall x :: x in multiset(s) ==> multiset(s)[x] == 1
  {
    if s != [] {
      var t := s[1..];
      assert s == [s[0]] + t;
      assert NoDup(t) by {
        forall i, j | 0 <= i < j < |t| ensures t[i] != t[j] {
          assert t[i] == s[i + 1] && t[j] == s[j + 1];
        }
      }
      assert s[0] !in t by {
        forall j | 0 <= j < |t| ensures t[j] != s[0] {
          assert t[j] == s[j + 1];
        }
      }
      NoDupCountsOnce(t);
    }
  }

  /** A sequence that counts each of its elements once has no repetitions. */
  lemma CountsOnceNoDup<T>(s: seq<T>)
    requires forall x :: x in multiset(s) ==> multiset(s)[x] == 1
    ensures NoDup(s)
  {
    forall i, j | 0 <= i < j < |s| ensures s[i] != s[j] {
      var a, b := s[..j], s[j..];
      assert s == a + b;
      assert s[i] == a[i] && s[j] == b[0];
      var x := s[i];
      assert multiset(s)[x] == multiset(a)[x] + multiset(b)[x];
      assert x in multiset(a);
      assert x !in multiset(b);
    }
  }

  /** Rearranging a sequence without repetitions gives one without repetitions. */
  lemma NoDupPermutation<T>(a: seq<T>, b: seq<T>)
    requires NoDup(a) && multiset(a) == multiset(b)
    ensures NoDup(b)
  {
    NoDupCountsOnce(a);
    CountsOnceNoDup(b);
  }
}
