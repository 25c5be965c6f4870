/**
 * `Collections.sort` with `ShapeData.OrderByLargestAreaFirst`: a stable sort
 * into non-increasing key order, written as an insertion sort that inserts
 * each element after every element whose key is at least its own.
 */
module Sorting {

  /** Non-increasing by key. */
  predicate SortedDesc<T>(s: seq<T>, key: T -> real) {
    forall i, j :: 0 <= i < j < |s| ==> key(s[i]) >= key(s[j])
  }

  /** The elements whose key is `k`, in their order in `s`. */
  function WithKey<T>(s: seq<T>, key: T -> real, k: real): seq<T> {
    if s == [] then []
    else (if key(s[0]) == k then [s[0]] else []) + WithKey(s[1..], key, k)
  }

  lemma SortedTail<T>(s: seq<T>, key: T -> real)
    requires SortedDesc(s, key) && s != []
    ensures SortedDesc(s[1..], key)
  {
    var rest := s[1..];
    forall i, j | 0 <= i < j < |rest| ensures key(rest[i]) >= key(rest[j]) {
      assert rest[i] == s[i + 1] && rest[j] == s[j + 1];
    }
  }

  /** Inserts `x` after every leading element whose key is at least `key(x)`. */
  function Insert<T>(x: T, s: seq<T>, key: T -> real): (r: seq<T>)
    ensures |r| == |s| + 1
    ensures multiset(r) == multiset(s) + multiset{x}
  {
    if s == [] then [x]
    else if key(s[0]) >= key(x) then
      assert s == [s[0]] + s[1..];
      [s[0]] + Insert(x, s[1..], key)
    else [x] + s
  }

  lemma {:induction false} InsertSorted<T>(x: T, s: seq<T>, key: T -> real)
    requires SortedDesc(s, key)
    ensures SortedDesc(Insert(x, s, key), key)
    ensures s != [] ==> Insert(x, s, key)[0] == s[0] || Insert(x, s, key)[0] == x
    decreases |s|
  {
    if s != [] && key(s[0]) >= key(x) {
      var rest := s[1..];
      SortedTail(s, key);
      InsertSorted(x, rest, key);
      var r := Insert(x, s, key);
      var t := Insert(x, rest, key);
      assert r == [s[0]] + t;
      InsertBounded(x, rest, key, key(s[0]));
    }
  }

  /** Inserting keeps every key at most `b` when all keys were and `x`'s is. */
  lemma {:induction false} InsertBounded<T>(x: T, s: seq<T>, key: T -> real, b: real)
    requires forall j :: 0 <= j < |s| ==> key(s[j]) <= b
    requires key(x) <= b
    ensures forall j :: 0 <= j < |Insert(x, s, key)| ==> key(Insert(x, s, key)[j]) <= b
    decreases |s|
  {
    if s != [] && key(s[0]) >= key(x) {
      InsertBounded(x, s[1..], key, b);
      var t := Insert(x, s[1..], key);
      assert Insert(x, s, key) == [s[0]] + t;
    }
  }

  /** A sorted sequence whose first key is below `k` has no element with key `k` or more. */
  lemma {:induction false} BelowHead<T>(s: seq<T>, key: T -> real, k: real)
    requires SortedDesc(s, key) && s != [] && key(s[0]) < k
    ensures WithKey(s, key, k) == []
    decreases |s|
  {
    if |s| > 1 {
      var rest := s[1..];
      SortedTail(s, key);
      assert key(rest[0]) == key(s[1]) <= key(s[0]);
      BelowHead(rest, key, k);
    }
  }

  /** Inserting `x` puts it after every element that shares its key. */
  lemma {:induction false} InsertStable<T>(x: T, s: seq<T>, key: T -> real, k: real)
    requires SortedDesc(s, key)
    ensures WithKey(Insert(x, s, key), key, k) == WithKey(s, key, k) + (if key(x) == k then [x] else [])
    decreases |s|
  {
    if s == [] {
    } else if key(s[0]) >= key(x) {
      var rest := s[1..];
      SortedTail(s, key);
      InsertStable(x, rest, key, k);
      var r := Insert(x, s, key);
      assert r[0] == s[0] && r[1..] == Insert(x, rest, key);
    } else {
      var r := Insert(x, s, key);
      assert r[0] == x && r[1..] == s;
      if key(x) == k {
        BelowHead(s, key, k);
      }
    }
  }

  lemma {:induction false} WithKeyAppend<T>(a: seq<T>, b: seq<T>, key: T -> real, k: real)
    ensures WithKey(a + b, key, k) == WithKey(a, key, k) + WithKey(b, key, k)
    decreases |a|
  {
    if a != [] {
      assert (a + b)[0] == a[0] && (a + b)[1..] == a[1..] + b;
      WithKeyAppend(a[1..], b, key, k);
    } else {
      assert a + b == b;
    }
  }

  /**
   * The stable sort: the result is in non-increasing key order, is a
   * permutation of the input, and keeps the input order among equal keys.
   */
  function SortDesc<T>(s: seq<T>, key: T -> real): (r: seq<T>)
    ensures SortedDesc(r, key)
    ensures multiset(r) == multiset(s)
    ensures forall k :: WithKey(r, key, k) == WithKey(s, key, k)
    decreases |s|
  {
    if s == [] then []
    else
      var pre := s[..|s| - 1];
      var x := s[|s| - 1];
      var sorted := SortDesc(pre, key);
      InsertSorted(x, sorted, key);
      InsertLastStable(x, pre, sorted, key);
      assert s == pre + [x];
      Insert(x, sorted, key)
  }

  /** Inserting the last element into the sorted prefix keeps each key's elements in input order. */
  lemma InsertLastStable<T>(x: T, pre: seq<T>, sorted: seq<T>, key: T -> real)
    requires SortedDesc(sorted, key) && forall k :: WithKey(sorted, key, k) == WithKey(pre, key, k)
    ensures forall k :: WithKey(Insert(x, sorted, key), key, k) == WithKey(pre + [x], key, k)
  {
    forall k ensures WithKey(Insert(x, sorted, key), key, k) == WithKey(pre + [x], key, k) {
      InsertStable(x, sorted, key, k);
      WithKeyAppend(pre, [x], key, k);
    }
  }

  /** Sorting keeps the length and exactly the elements. */
  lemma SortDescSameElements<T>(s: seq<T>, key: T -> real)
    ensures |SortDesc(s, key)| == |s|
    ensures forall x :: x in SortDesc(s, key) <==> x in s
  {
    var r := SortDesc(s, key);
    assert |multiset(r)| == |multiset(s)|;
    forall x ensures x in r <==> x in s {
      assert x in r <==> x in multiset(r);
      assert x in s <==> x in multiset(s);
    }
  }
}
