/**
 * Stable sorting by a two-part key, highest first: what `slice::sort_by` does for the proxy rules and for the
 * items of a quality list.
 */
module Sorting {
  import opened Wrappers

  datatype Key = Key(major: nat, minor: nat)

  predicate Above(a: Key, b: Key) {
    a.major > b.major || (a.major == b.major && a.minor > b.minor)
  }

  /** Insert an element that came earlier: behind everything strictly above it, before its equals. */
  function Insert<T>(x: T, s: seq<T>, key: T -> Key): seq<T> {
    if s == [] || !Above(key(s[0]), key(x)) then [x] + s else [s[0]] + Insert(x, s[1..], key)
  }

  function StableSort<T>(s: seq<T>, key: T -> Key): seq<T> {
    if s == [] then [] else Insert(s[0], StableSort(s[1..], key), key)
  }

  ghost predicate Sorted<T>(s: seq<T>, key: T -> Key) {
    forall i, j | 0 <= i < j < |s| :: !Above(key(s[j]), key(s[i]))
  }

  /** The elements with a given key, in order. */
  ghost function WithKey<T>(s: seq<T>, key: T -> Key, k: Key): seq<T> {
    if s == [] then [] else (if key(s[0]) == k then [s[0]] else []) + WithKey(s[1..], key, k)
  }

  /** A rearrangement that keeps elements of equal key in order. */
  ghost predicate StablePermutation<T>(s: seq<T>, r: seq<T>, key: T -> Key) {
    multiset(s) == multiset(r) && SameByKey(s, r, key)
  }

  lemma {:induction false} InsertKeeps<T>(x: T, s: seq<T>, key: T -> Key)
    ensures multiset(Insert(x, s, key)) == multiset{x} + multiset(s)
  {
    if s != [] && Above(key(s[0]), key(x)) {
      InsertKeeps(x, s[1..], key);
      assert s == [s[0]] + s[1..];
    }
  }

  lemma SortedCons<T>(x: T, s: seq<T>, key: T -> Key)
    requires Sorted(s, key) && forall y <- s :: !Above(key(y), key(x))
    ensures Sorted([x] + s, key)
  {
  }

  lemma {:induction false} InsertSorts<T>(x: T, s: seq<T>, key: T -> Key)
    requires Sorted(s, key)
    ensures Sorted(Insert(x, s, key), key)
  {
    if s == [] || !Above(key(s[0]), key(x)) {
      SortedCons(x, s, key);
    } else {
      var rest := s[1..];
      InsertSorts(x, rest, key);
      InsertKeeps(x, rest, key);
      forall y <- Insert(x, rest, key)
        ensures !Above(key(y), key(s[0]))
      {
        assert y in multiset(Insert(x, rest, key));
        assert y == x || y in rest;
      }
      SortedCons(s[0], Insert(x, rest, key), key);
    }
  }

  lemma WithKeyCons<T>(x: T, s: seq<T>, key: T -> Key, k: Key)
    ensures WithKey([x] + s, key, k) == (if key(x) == k then [x] else []) + WithKey(s, key, k)
  {
    assert ([x] + s)[1..] == s;
  }

  lemma {:induction false} InsertIsStable<T>(x: T, s: seq<T>, key: T -> Key, k: Key)
    ensures WithKey(Insert(x, s, key), key, k) == (if key(x) == k then [x] else []) + WithKey(s, key, k)
  {
    if s == [] || !Above(key(s[0]), key(x)) {
      WithKeyCons(x, s, key, k);
    } else {
      InsertIsStable(x, s[1..], key, k);
      WithKeyCons(s[0], Insert(x, s[1..], key), key, k);
    }
  }

  lemma {:induction false} SortIsStable<T>(s: seq<T>, key: T -> Key)
    ensures Sorted(StableSort(s, key), key)
    ensures StablePermutation(s, StableSort(s, key), key)
  {
    if s != [] {
      var rest := StableSort(s[1..], key);
      SortIsStable(s[1..], key);
      InsertSorts(s[0], rest, key);
      InsertKeeps(s[0], rest, key);
      assert s == [s[0]] + s[1..];
      forall k
        ensures WithKey(s, key, k) == WithKey(StableSort(s, key), key, k)
      {
        InsertIsStable(s[0], rest, key, k);
      }
    }
  }

  lemma {:induction false} WithKeyHead<T>(s: seq<T>, key: T -> Key, k: Key)
    ensures WithKey(s, key, k) != [] ==> WithKey(s, key, k)[0] in s && key(WithKey(s, key, k)[0]) == k
  {
    if s != [] && key(s[0]) != k {
      WithKeyHead(s[1..], key, k);
    }
  }

  lemma WithKeyTail<T>(s: seq<T>, key: T -> Key, k: Key)
    requires s != []
    ensures key(s[0]) == k ==> WithKey(s, key, k) != [] && WithKey(s[1..], key, k) == WithKey(s, key, k)[1..]
    ensures key(s[0]) != k ==> WithKey(s[1..], key, k) == WithKey(s, key, k)
  {
  }

  ghost predicate SameByKey<T>(a: seq<T>, b: seq<T>, key: T -> Key) {
    forall k :: WithKey(a, key, k) == WithKey(b, key, k)
  }

  lemma SameHead<T>(a: seq<T>, b: seq<T>, key: T -> Key)
    requires Sorted(a, key) && Sorted(b, key) && SameByKey(a, b, key)
    ensures a == [] <==> b == []
    ensures a != [] && b != [] ==> a[0] == b[0]
  {
    var k0 := Key(0, 0);
    var ka := if a != [] then key(a[0]) else k0;
    var kb := if b != [] then key(b[0]) else k0;
    assert WithKey(a, key, ka) == WithKey(b, key, ka) && WithKey(a, key, kb) == WithKey(b, key, kb);
    if a != [] {
      WithKeyTail(a, key, ka);
      WithKeyHead(b, key, ka);
    }
    if b != [] {
      WithKeyTail(b, key, kb);
      WithKeyHead(a, key, kb);
    }
    if a != [] && b != [] {
      assert !Above(kb, ka) && !Above(ka, kb);
      assert ka == kb;
      assert WithKey(a, key, ka)[0] == a[0] && WithKey(b, key, ka)[0] == b[0];
    }
  }

  lemma SameTail<T>(a: seq<T>, b: seq<T>, key: T -> Key)
    requires a != [] && b != [] && a[0] == b[0] && SameByKey(a, b, key)
    ensures SameByKey(a[1..], b[1..], key)
  {
    forall k
      ensures WithKey(a[1..], key, k) == WithKey(b[1..], key, k)
    {
      assert WithKey(a, key, k) == WithKey(b, key, k);
      WithKeyTail(a, key, k);
      WithKeyTail(b, key, k);
    }
  }

  /** There is only one: any sorted stable rearrangement is `StableSort`'s, whatever algorithm produced it. */
  lemma {:induction false} StableSortIsUnique<T>(s: seq<T>, r: seq<T>, key: T -> Key)
    requires Sorted(r, key) && SameByKey(s, r, key)
    ensures r == StableSort(s, key)
  {
    SortIsStable(s, key);
    var t := StableSort(s, key);
    forall k
      ensures WithKey(r, key, k) == WithKey(t, key, k)
    {
      assert WithKey(s, key, k) == WithKey(r, key, k);
      assert WithKey(s, key, k) == WithKey(t, key, k);
    }
    SortedTwinsAgree(r, t, key);
  }

  lemma {:induction false} SortedTwinsAgree<T>(a: seq<T>, b: seq<T>, key: T -> Key)
    requires Sorted(a, key) && Sorted(b, key) && SameByKey(a, b, key)
    ensures a == b
  {
    SameHead(a, b, key);
    if a != [] {
      SameTail(a, b, key);
      SortedTwinsAgree(a[1..], b[1..], key);
      assert a == [a[0]] + a[1..] && b == [b[0]] + b[1..];
    }
  }

  // ----- The first suitable element of a key -----

  function First<T>(s: seq<T>, p: T -> bool): (r: Option<T>)
    ensures r.Some? ==> r.value in s && p(r.value)
    ensures r.None? ==> forall x <- s :: !p(x)
  {
    if s == [] then None else if p(s[0]) then Some(s[0]) else First(s[1..], p)
  }

  lemma {:induction false} FirstAt<T>(s: seq<T>, p: T -> bool, k: nat)
    requires k < |s| && p(s[k]) && forall i | 0 <= i < k :: !p(s[i])
    ensures First(s, p) == Some(s[k])
  {
    if k > 0 {
      FirstAt(s[1..], p, k - 1);
    }
  }

  lemma {:induction false} FirstIndex<T>(s: seq<T>, p: T -> bool) returns (k: nat)
    requires First(s, p).Some?
    ensures k < |s| && s[k] == First(s, p).value && forall i | 0 <= i < k :: !p(s[i])
  {
    if p(s[0]) {
      k := 0;
    } else {
      k := FirstIndex(s[1..], p);
      k := k + 1;
    }
  }

  lemma {:induction false} FirstWithKey<T>(s: seq<T>, key: T -> Key, k: Key, p: T -> bool, q: T -> bool)
    requires forall x <- s :: q(x) <==> key(x) == k && p(x)
    ensures First(s, q) == First(WithKey(s, key, k), p)
  {
    if s != [] {
      assert s[0] in s && forall x <- s[1..] :: x in s;
      FirstWithKey(s[1..], key, k, p, q);
      WithKeyTail(s, key, k);
    }
  }

  /**
   * Stability, for a search: if the sorted list's first suitable element is its `k`-th, the original list's first
   * suitable element of the same key is the same one.
   */
  lemma FirstOfSortedIsFirst<T>(s: seq<T>, key: T -> Key, p: T -> bool, k: nat) returns (d: nat)
    requires var sorted := StableSort(s, key); k < |sorted| && p(sorted[k]) && forall i | 0 <= i < k :: !p(sorted[i])
    ensures d < |s| && s[d] == StableSort(s, key)[k]
    ensures forall j | 0 <= j < d && key(s[j]) == key(s[d]) :: !p(s[j])
  {
    var sorted := StableSort(s, key);
    var ofKey := key(sorted[k]);
    var q := (x: T) => key(x) == ofKey && p(x);
    SortIsStable(s, key);
    assert WithKey(s, key, ofKey) == WithKey(sorted, key, ofKey);
    FirstWithKey(s, key, ofKey, p, q);
    FirstWithKey(sorted, key, ofKey, p, q);
    FirstAt(sorted, q, k);
    assert First(s, q) == First(sorted, q);
    d := FirstIndex(s, q);
    assert forall j | 0 <= j < d :: !q(s[j]);
  }
}
