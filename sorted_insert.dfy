/** `insert_sorted`: insertion of one object into a list already ordered by a
    key, using the object itself as a guard at the end of the list; and the
    stable descending sort the tree builder asks of Python's `sorted`. */
module SortedInsert {
  import opened Dicts

  /** The loop test `cmp(key(a), key(obj))`: `>` when descending, `<` otherwise. */
  predicate Better(a: int, b: int, desc: bool) {
    if desc then a > b else a < b
  }

  /** Ordered by key: non-increasing when desc, non-decreasing otherwise. */
  predicate SortedBy<T>(s: seq<T>, key: T -> int, desc: bool) {
    forall i, j :: 0 <= i < j < |s| ==>
      if desc then key(s[i]) >= key(s[j]) else key(s[i]) <= key(s[j])
  }

  /** Where the object goes: in front of the first element whose key is not
      strictly better than the object's, or at the end. */
  function InsertIndex<T>(s: seq<T>, obj: T, key: T -> int, desc: bool): (i: nat)
    ensures i <= |s|
    ensures forall j :: 0 <= j < i ==> Better(key(s[j]), key(obj), desc)
    ensures i < |s| ==> !Better(key(s[i]), key(obj), desc)
  {
    if s == [] || !Better(key(s[0]), key(obj), desc) then 0
    else 1 + InsertIndex(s[1..], obj, key, desc)
  }

  /** The list after `insert_sorted(s, obj, key, desc)`. */
  function Inserted<T>(s: seq<T>, obj: T, key: T -> int, desc: bool): (r: seq<T>)
    ensures |r| == |s| + 1
    ensures multiset(r) == multiset(s) + multiset{obj}
  {
    var i := InsertIndex(s, obj, key, desc);
    assert s == s[..i] + s[i..];
    s[..i] + [obj] + s[i..]
  }

  /** insert_sorted (huffman_coding.py:34-47). Python changes the caller's
      list; here the new list is returned. */
  method InsertSorted<T>(s: seq<T>, obj: T, key: T -> int, desc: bool) returns (r: seq<T>)
    ensures r == Inserted(s, obj, key, desc)
  {
    var list := s + [obj];            // guard element at the end
    var idx := 0;
    while Better(key(list[idx]), key(obj), desc)
      invariant idx <= |s| && list == s + [obj]
      invariant forall j :: 0 <= j < idx ==> Better(key(s[j]), key(obj), desc)
      decreases |s| - idx
    {
      idx := idx + 1;
    }
    list := list[..idx] + [obj] + list[idx..];
    r := list[..|list| - 1];         // remove the guard
    assert idx == InsertIndex(s, obj, key, desc);
  }

  /** Inserting into a sorted list keeps it sorted. */
  lemma InsertedKeepsSorted<T>(s: seq<T>, obj: T, key: T -> int, desc: bool)
    requires SortedBy(s, key, desc)
    ensures SortedBy(Inserted(s, obj, key, desc), key, desc)
  {
    var i := InsertIndex(s, obj, key, desc);
    var r := Inserted(s, obj, key, desc);
    forall a, b | 0 <= a < b < |r|
      ensures if desc then key(r[a]) >= key(r[b]) else key(r[a]) <= key(r[b])
    {
      if a < i && b == i {
        assert r[a] == s[a];
      } else if a == i && b > i {
        assert r[b] == s[b - 1];
        assert i < |s| && (if desc then key(s[i]) >= key(s[b - 1]) else key(s[i]) <= key(s[b - 1]));
      } else if b < i {
        assert r[a] == s[a] && r[b] == s[b];
      } else if a < i {
        assert r[a] == s[a] && r[b] == s[b - 1];
      } else {
        assert r[a] == s[a - 1] && r[b] == s[b - 1];
      }
    }
  }

  /** In a sorted list the object lands after exactly the elements whose key
      is strictly better; with desc, it goes before every element of equal key. */
  lemma InsertIndexSplitsSorted<T>(s: seq<T>, obj: T, key: T -> int, desc: bool, j: nat)
    requires SortedBy(s, key, desc) && j < |s|
    ensures j < InsertIndex(s, obj, key, desc) <==> Better(key(s[j]), key(obj), desc)
  {
    var i := InsertIndex(s, obj, key, desc);
    if j >= i {
      assert i < |s|;
    }
  }

  /** The elements of s whose key is v, in their order in s. */
  function WithKey<T>(s: seq<T>, key: T -> int, v: int): (r: seq<T>)
    ensures |r| <= |s|
  {
    if s == [] then []
    else (if key(s[0]) == v then [s[0]] else []) + WithKey(s[1..], key, v)
  }

  lemma {:induction false} WithKeyConcat<T>(a: seq<T>, b: seq<T>, key: T -> int, v: int)
    ensures WithKey(a + b, key, v) == WithKey(a, key, v) + WithKey(b, key, v)
  {
    if a != [] {
      assert (a + b)[0] == a[0] && (a + b)[1..] == a[1..] + b;
      WithKeyConcat(a[1..], b, key, v);
      var h := if key(a[0]) == v then [a[0]] else [];
      calc {
        WithKey(a + b, key, v);
        h + WithKey(a[1..] + b, key, v);
        h + (WithKey(a[1..], key, v) + WithKey(b, key, v));
        (h + WithKey(a[1..], key, v)) + WithKey(b, key, v);
      }
    } else {
      assert a + b == b;
    }
  }

  lemma {:induction false} WithKeyNone<T>(a: seq<T>, key: T -> int, v: int)
    requires forall j :: 0 <= j < |a| ==> key(a[j]) != v
    ensures WithKey(a, key, v) == []
  {
    if a != [] {
      WithKeyNone(a[1..], key, v);
    }
  }

  lemma WithKeySingle<T>(x: T, key: T -> int, v: int)
    ensures WithKey([x], key, v) == if key(x) == v then [x] else []
  {
    assert [x][1..] == [];
    var h := if key(x) == v then [x] else [];
    assert WithKey([x], key, v) == h + WithKey([], key, v);
    assert h + [] == h;
  }

  /** The object goes in front of every element of its own key. */
  lemma InsertedWithKey<T>(s: seq<T>, obj: T, key: T -> int, desc: bool, v: int)
    ensures WithKey(Inserted(s, obj, key, desc), key, v)
         == (if key(obj) == v then [obj] else []) + WithKey(s, key, v)
  {
    var i := InsertIndex(s, obj, key, desc);
    var a, b := s[..i], s[i..];
    var h := if key(obj) == v then [obj] else [];
    InsertedParts(s, obj, key, desc, v, i, a, b);
    if key(obj) == v {
      NoneBefore(s, obj, key, desc, i, a);
      WithKeyNone(a, key, v);
    }
    SwapEmpty(WithKey(a, key, v), h, WithKey(b, key, v));
  }

  lemma SwapEmpty<T>(x: seq<T>, h: seq<T>, y: seq<T>)
    requires x == [] || h == []
    ensures (x + h) + y == h + (x + y)
  {
    if x == [] {
      assert x + h == h && x + y == y;
    } else {
      assert x + h == x;
    }
  }

  /** The elements before the insertion point are strictly better than the
      object, so none has its key. */
  lemma NoneBefore<T>(s: seq<T>, obj: T, key: T -> int, desc: bool, i: nat, a: seq<T>)
    requires i == InsertIndex(s, obj, key, desc) && a == s[..i]
    ensures forall j :: 0 <= j < |a| ==> key(a[j]) != key(obj)
  {
    forall j | 0 <= j < |a| ensures key(a[j]) != key(obj) {
      assert a[j] == s[j] && Better(key(s[j]), key(obj), desc);
    }
  }

  /** The elements of one key in the list with the object inserted at i. */
  lemma InsertedParts<T>(s: seq<T>, obj: T, key: T -> int, desc: bool, v: int, i: nat, a: seq<T>, b: seq<T>)
    requires i == InsertIndex(s, obj, key, desc) && a == s[..i] && b == s[i..]
    ensures WithKey(s, key, v) == WithKey(a, key, v) + WithKey(b, key, v)
    ensures WithKey(Inserted(s, obj, key, desc), key, v)
         == (WithKey(a, key, v) + (if key(obj) == v then [obj] else [])) + WithKey(b, key, v)
  {
    assert a + b == s;
    WithKeyConcat(a, b, key, v);
    var ins := Inserted(s, obj, key, desc);
    assert ins == (a + [obj]) + b;
    WithKeyThree(a, obj, b, key, v);
  }

  lemma WithKeyThree<T>(a: seq<T>, obj: T, b: seq<T>, key: T -> int, v: int)
    ensures WithKey((a + [obj]) + b, key, v)
         == (WithKey(a, key, v) + (if key(obj) == v then [obj] else [])) + WithKey(b, key, v)
  {
    var ao := a + [obj];
    WithKeyConcat(ao, b, key, v);
    WithKeyConcat(a, [obj], key, v);
    WithKeySingle(obj, key, v);
  }

  /** Python's `sorted(s, key=key, reverse=desc)`, as insertion sort: each
      element goes in front of the already sorted later elements of its key. */
  function StableSort<T>(s: seq<T>, key: T -> int, desc: bool): (r: seq<T>)
    ensures |r| == |s| && multiset(r) == multiset(s)
    ensures SortedBy(r, key, desc)
  {
    if s == [] then []
    else
      assert s == [s[0]] + s[1..];
      var t := StableSort(s[1..], key, desc);
      InsertedKeepsSorted(t, s[0], key, desc);
      Inserted(t, s[0], key, desc)
  }

  lemma StableSortStep<T>(s: seq<T>, key: T -> int, desc: bool)
    requires s != []
    ensures StableSort(s, key, desc) == Inserted(StableSort(s[1..], key, desc), s[0], key, desc)
  {
  }

  lemma SortedTail<T>(s: seq<T>, key: T -> int, desc: bool)
    requires SortedBy(s, key, desc) && s != []
    ensures SortedBy(s[1..], key, desc)
    ensures |s| >= 2 ==> !Better(key(s[1]), key(s[0]), desc)
  {
    var t := s[1..];
    forall i, j | 0 <= i < j < |t|
      ensures if desc then key(t[i]) >= key(t[j]) else key(t[i]) <= key(t[j])
    {
      assert t[i] == s[i + 1] && t[j] == s[j + 1];
    }
  }

  /** An object no worse than the head of the list goes in front of it. */
  lemma InsertedFront<T>(t: seq<T>, obj: T, key: T -> int, desc: bool)
    requires t != [] ==> !Better(key(t[0]), key(obj), desc)
    ensures Inserted(t, obj, key, desc) == [obj] + t
  {
    assert InsertIndex(t, obj, key, desc) == 0;
    assert t[..0] + [obj] + t[0..] == [obj] + t;
  }

  /** A list already in order comes back unchanged. */
  lemma {:induction false} StableSortOfSorted<T>(s: seq<T>, key: T -> int, desc: bool)
    requires SortedBy(s, key, desc)
    ensures StableSort(s, key, desc) == s
  {
    if s != [] {
      var tail := s[1..];
      SortedTail(s, key, desc);
      StableSortOfSorted(tail, key, desc);
      StableSortStep(s, key, desc);
      InsertedFront(tail, s[0], key, desc);
      ConsTail(s, tail);
    }
  }

  lemma ConsTail<T>(s: seq<T>, tail: seq<T>)
    requires s != [] && tail == s[1..]
    ensures [s[0]] + tail == s
  { }

  /** The sort is stable: the elements of each key keep their original order. */
  lemma {:induction false} StableSortIsStable<T>(s: seq<T>, key: T -> int, desc: bool, v: int)
    ensures WithKey(StableSort(s, key, desc), key, v) == WithKey(s, key, v)
  {
    if s != [] {
      StableSortIsStable(s[1..], key, desc, v);
      InsertedWithKey(StableSort(s[1..], key, desc), s[0], key, desc, v);
    }
  }

  lemma KeysInserted<K, V>(t: seq<(K, V)>, e: (K, V), key: ((K, V)) -> int, desc: bool)
    ensures multiset(Keys(Inserted(t, e, key, desc))) == multiset(Keys(t)) + multiset{e.0}
  {
    var i := InsertIndex(t, e, key, desc);
    var ks := Keys(t);
    assert Keys(Inserted(t, e, key, desc)) == ks[..i] + [e.0] + ks[i..];
    assert ks == ks[..i] + ks[i..];
    calc {
      multiset(Keys(Inserted(t, e, key, desc)));
      multiset(ks[..i]) + multiset{e.0} + multiset(ks[i..]);
      multiset(ks) + multiset{e.0};
    }
  }

  /** Sorting a list of pairs keeps the multiset of their first components. */
  lemma {:induction false} SortKeepsKeys<K, V>(ps: seq<(K, V)>, key: ((K, V)) -> int, desc: bool)
    ensures multiset(Keys(StableSort(ps, key, desc))) == multiset(Keys(ps))
  {
    if ps != [] {
      var t := StableSort(ps[1..], key, desc);
      var r := StableSort(ps, key, desc);
      assert multiset(Keys(r)) == multiset(Keys(t)) + multiset{ps[0].0} by {
        StableSortStep(ps, key, desc);
        KeysInserted(t, ps[0], key, desc);
      }
      assert multiset(Keys(t)) == multiset(Keys(ps[1..])) by {
        SortKeepsKeys(ps[1..], key, desc);
      }
      KeysCons(ps);
    }
  }
}
