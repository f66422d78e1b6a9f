/**
  Python's `list.sort(key=...)` is a stable sort. It is specified here by
  insertion sort on sequences, keyed by a real-valued function, together with
  the three facts that characterise any stable sort: the result is ordered by
  key, it is a permutation of the input, and the elements sharing a key keep
  their input order. `StableSortUnique` shows these facts pin the result down,
  so the specification describes whatever algorithm the library uses.
*/
module StableSort {

  function Last<T>(s: seq<T>): T
    requires s != []
  {
    s[|s| - 1]
  }

  function Init<T>(s: seq<T>): seq<T>
    requires s != []
  {
    s[..|s| - 1]
  }

  predicate SortedBy<T>(s: seq<T>, key: T -> real) {
    forall i, j :: 0 <= i < j < |s| ==> key(s[i]) <= key(s[j])
  }

  /** The elements of `s` whose key is `k`, in their order in `s`. */
  function WithKey<T>(s: seq<T>, key: T -> real, k: real): seq<T> {
    if s == [] then [] else WithKey(Init(s), key, k) + (if key(Last(s)) == k then [Last(s)] else [])
  }

  /** Places `x` after the last element of `t` whose key is at most `x`'s key. */
  function Insert<T>(t: seq<T>, x: T, key: T -> real): seq<T> {
    if t == [] then [x]
    else if key(Last(t)) <= key(x) then t + [x]
    else Insert(Init(t), x, key) + [Last(t)]
  }

  /** `s` sorted by `key`, inserting the elements one at a time in their input order. */
  function SortBy<T>(s: seq<T>, key: T -> real): seq<T> {
    if s == [] then [] else Insert(SortBy(Init(s), key), Last(s), key)
  }

  lemma AppendAssoc<T>(a: seq<T>, b: seq<T>, c: seq<T>)
    ensures a + b + c == a + (b + c)
  {
  }

  lemma InitAppend<T>(a: seq<T>, x: T)
    ensures Init(a + [x]) == a && Last(a + [x]) == x
  {
  }

  lemma WithKeyAppend<T>(a: seq<T>, x: T, key: T -> real, k: real)
    ensures WithKey(a + [x], key, k) == WithKey(a, key, k) + (if key(x) == k then [x] else [])
  {
    InitAppend(a, x);
  }

  lemma {:induction false} WithKeyMembers<T>(s: seq<T>, key: T -> real, k: real, y: T)
    ensures y in WithKey(s, key, k) <==> y in s && key(y) == k
  {
    if s != [] {
      WithKeyMembers(Init(s), key, k, y);
      assert s == Init(s) + [Last(s)];
    }
  }

  /** Cutting a sequence short cuts each key's elements short: they stay a prefix, in order. */
  lemma {:induction false} WithKeyPrefix<T>(s: seq<T>, key: T -> real, k: real, n: nat)
    requires n <= |s|
    ensures WithKey(s[..n], key, k) <= WithKey(s, key, k)
    decreases |s|
  {
    if n < |s| {
      assert s[..n] == Init(s)[..n];
      WithKeyPrefix(Init(s), key, k, n);
    } else {
      assert s[..n] == s;
    }
  }

  lemma {:induction false} InsertPermutes<T>(t: seq<T>, x: T, key: T -> real)
    ensures multiset(Insert(t, x, key)) == multiset(t) + multiset{x}
  {
    if t != [] {
      assert t == Init(t) + [Last(t)];
      if key(Last(t)) > key(x) {
        InsertPermutes(Init(t), x, key);
      }
    }
  }

  lemma {:induction false} InsertSorted<T>(t: seq<T>, x: T, key: T -> real)
    requires SortedBy(t, key)
    ensures SortedBy(Insert(t, x, key), key)
  {
    if t != [] && key(Last(t)) > key(x) {
      var u := Insert(Init(t), x, key);
      InsertSorted(Init(t), x, key);
      InsertPermutes(Init(t), x, key);
      forall i | 0 <= i < |u| ensures key(u[i]) <= key(Last(t)) {
        assert u[i] in multiset(u);
        assert u[i] in multiset(Init(t)) || u[i] == x;
      }
    }
  }

  lemma {:induction false} InsertKeepsKeyOrder<T>(t: seq<T>, x: T, key: T -> real, k: real)
    ensures WithKey(Insert(t, x, key), key, k) == WithKey(t, key, k) + (if key(x) == k then [x] else [])
  {
    if t == [] {
      WithKeyAppend([], x, key, k);
    } else if key(Last(t)) <= key(x) {
      WithKeyAppend(t, x, key, k);
    } else {
      InsertKeepsKeyOrder(Init(t), x, key, k);
      WithKeyAppend(Insert(Init(t), x, key), Last(t), key, k);
      assert t == Init(t) + [Last(t)];
    }
  }

  /** `SortBy` is a stable sort: ordered by key, a permutation, and order-preserving within each key. */
  lemma {:induction false} SortByIsStableSort<T>(s: seq<T>, key: T -> real)
    ensures SortedBy(SortBy(s, key), key)
    ensures multiset(SortBy(s, key)) == multiset(s)
    ensures |SortBy(s, key)| == |s|
    ensures forall k :: WithKey(SortBy(s, key), key, k) == WithKey(s, key, k)
  {
    if s != [] {
      SortByIsStableSort(Init(s), key);
      InsertSorted(SortBy(Init(s), key), Last(s), key);
      InsertPermutes(SortBy(Init(s), key), Last(s), key);
      assert s == Init(s) + [Last(s)];
      forall k ensures WithKey(SortBy(s, key), key, k) == WithKey(s, key, k) {
        InsertKeepsKeyOrder(SortBy(Init(s), key), Last(s), key, k);
      }
      assert |multiset(SortBy(s, key))| == |multiset(s)|;
    }
  }

  /** Sorting neither adds nor loses elements. */
  lemma SortBySameElements<T>(s: seq<T>, key: T -> real)
    ensures forall x :: x in SortBy(s, key) <==> x in s
  {
    SortByIsStableSort(s, key);
    forall x ensures x in SortBy(s, key) <==> x in s {
      assert x in SortBy(s, key) <==> x in multiset(SortBy(s, key));
    }
  }

  /** In a sequence ordered by key, whatever lies in the first `n` elements has a key no larger than anything after them. */
  lemma SortedPrefixBelow<T>(s: seq<T>, key: T -> real, n: nat, x: T, y: T)
    requires SortedBy(s, key) && n <= |s|
    requires x in s[..n] && y in s && y !in s[..n]
    ensures key(x) <= key(y)
  {
    var i :| 0 <= i < n && s[..n][i] == x;
    assert s == s[..n] + s[n..];
    var j :| 0 <= j < |s| - n && s[n..][j] == y;
    assert s[i] == x && s[n + j] == y;
  }

  lemma SortedLastIsMax<T>(r: seq<T>, key: T -> real, y: T)
    requires SortedBy(r, key) && y in r
    ensures key(y) <= key(Last(r))
  {
    var i :| 0 <= i < |r| && r[i] == y;
  }

  lemma LastKeysEqual<T>(r1: seq<T>, r2: seq<T>, key: T -> real)
    requires r1 != [] && r2 != []
    requires SortedBy(r1, key) && SortedBy(r2, key)
    requires WithKey(r1, key, key(Last(r1))) == WithKey(r2, key, key(Last(r1)))
    requires WithKey(r1, key, key(Last(r2))) == WithKey(r2, key, key(Last(r2)))
    ensures key(Last(r1)) == key(Last(r2))
  {
    WithKeyMembers(r1, key, key(Last(r1)), Last(r1));
    WithKeyMembers(r2, key, key(Last(r1)), Last(r1));
    SortedLastIsMax(r2, key, Last(r1));
    WithKeyMembers(r2, key, key(Last(r2)), Last(r2));
    WithKeyMembers(r1, key, key(Last(r2)), Last(r2));
    SortedLastIsMax(r1, key, Last(r2));
  }

  /** Sequences ordered by key that agree on every key end with the same element. */
  lemma SameLast<T>(r1: seq<T>, r2: seq<T>, key: T -> real)
    requires r1 != [] && r2 != []
    requires SortedBy(r1, key) && SortedBy(r2, key)
    requires WithKey(r1, key, key(Last(r1))) == WithKey(r2, key, key(Last(r1)))
    requires WithKey(r1, key, key(Last(r2))) == WithKey(r2, key, key(Last(r2)))
    ensures Last(r1) == Last(r2)
  {
    LastKeysEqual(r1, r2, key);
    var k := key(Last(r1));
    assert WithKey(r1, key, k) == WithKey(Init(r1), key, k) + [Last(r1)];
    assert WithKey(r2, key, k) == WithKey(Init(r2), key, k) + [Last(r2)];
    var w := WithKey(r1, key, k);
    assert w[|w| - 1] == Last(r1);
    assert w[|w| - 1] == Last(r2);
  }

  lemma DropLastAgrees<T>(r1: seq<T>, r2: seq<T>, key: T -> real, k: real)
    requires r1 != [] && r2 != [] && Last(r1) == Last(r2)
    requires WithKey(r1, key, k) == WithKey(r2, key, k)
    ensures WithKey(Init(r1), key, k) == WithKey(Init(r2), key, k)
  {
    var tail := if key(Last(r1)) == k then [Last(r1)] else [];
    assert WithKey(r1, key, k) == WithKey(Init(r1), key, k) + tail;
    assert WithKey(r2, key, k) == WithKey(Init(r2), key, k) + tail;
    assert WithKey(Init(r1), key, k) == WithKey(r1, key, k)[..|WithKey(r1, key, k)| - |tail|];
  }

  /** Two sequences ordered by key that agree on the elements of every key are equal. */
  lemma {:induction false} StableSortUnique<T>(r1: seq<T>, r2: seq<T>, key: T -> real)
    requires SortedBy(r1, key) && SortedBy(r2, key)
    requires forall k :: WithKey(r1, key, k) == WithKey(r2, key, k)
    ensures r1 == r2
    decreases |r1|
  {
    if r1 == [] || r2 == [] {
      if r1 != [] {
        WithKeyMembers(r1, key, key(Last(r1)), Last(r1));
      } else if r2 != [] {
        WithKeyMembers(r2, key, key(Last(r2)), Last(r2));
      }
    } else {
      assert WithKey(r1, key, key(Last(r1))) == WithKey(r2, key, key(Last(r1)));
      assert WithKey(r1, key, key(Last(r2))) == WithKey(r2, key, key(Last(r2)));
      SameLast(r1, r2, key);
      forall k ensures WithKey(Init(r1), key, k) == WithKey(Init(r2), key, k) {
        DropLastAgrees(r1, r2, key, k);
      }
      StableSortUnique(Init(r1), Init(r2), key);
      assert r1 == Init(r1) + [Last(r1)];
      assert r2 == Init(r2) + [Last(r2)];
    }
  }
}
