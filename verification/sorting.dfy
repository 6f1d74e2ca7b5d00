/** Python's `list.sort(key=..., reverse=True)` on integer-pair keys: a
    stable sort into descending key order, as used to rank search results. */
module Sorting {

  /** A sort key compared lexicographically, like a Python tuple of two ints. */
  type Key = (int, int)

  predicate KeyLe(a: Key, b: Key) {
    a.0 < b.0 || (a.0 == b.0 && a.1 <= b.1)
  }

  predicate SortedDesc<T>(s: seq<T>, key: T -> Key) {
    forall i, j :: 0 <= i < j < |s| ==> KeyLe(key(s[j]), key(s[i]))
  }

  /** The elements of `s` whose key is `k`, in their order in `s`. */
  function WithKey<T>(s: seq<T>, key: T -> Key, k: Key): (r: seq<T>)
    ensures |r| <= |s|
    ensures forall i :: 0 <= i < |r| ==> key(r[i]) == k
  {
    if |s| == 0 then []
    else if key(s[0]) == k then [s[0]] + WithKey(s[1..], key, k)
    else WithKey(s[1..], key, k)
  }

  /** Inserts `x` in front of the first element whose key is not above its
      own, so that `x` stays ahead of the equal keys that followed it. */
  function Insert<T>(x: T, s: seq<T>, key: T -> Key): (r: seq<T>)
    ensures |r| == |s| + 1
    ensures multiset(r) == multiset(s) + multiset{x}
  {
    if |s| == 0 || KeyLe(key(s[0]), key(x)) then [x] + s
    else
      assert s == [s[0]] + s[1..];
      [s[0]] + Insert(x, s[1..], key)
  }

  /** Inserting below the head of a sorted sequence keeps every element at
      or below that head. */
  lemma InsertBelowHead<T>(x: T, s: seq<T>, key: T -> Key)
    requires SortedDesc(s, key) && |s| > 0 && !KeyLe(key(s[0]), key(x))
    ensures forall y :: y in multiset(Insert(x, s[1..], key)) ==> KeyLe(key(y), key(s[0]))
  {
    forall y | y in multiset(Insert(x, s[1..], key))
      ensures KeyLe(key(y), key(s[0]))
    {
      if y != x {
        assert y in multiset(s[1..]);
        var m :| 0 <= m < |s[1..]| && s[1..][m] == y;
        assert s[m + 1] == y;
      }
    }
  }

  lemma {:induction false} InsertSorted<T>(x: T, s: seq<T>, key: T -> Key)
    requires SortedDesc(s, key)
    ensures SortedDesc(Insert(x, s, key), key)
    ensures |s| > 0 ==> Insert(x, s, key)[0] == x || Insert(x, s, key)[0] == s[0]
  {
    if |s| == 0 || KeyLe(key(s[0]), key(x)) {
    } else {
      InsertSorted(x, s[1..], key);
      var t := Insert(x, s[1..], key);
      var r := [s[0]] + t;
      forall i, j | 0 <= i < j < |r|
        ensures KeyLe(key(r[j]), key(r[i]))
      {
        if i == 0 {
          InsertBelowHead(x, s, key);
          assert t[j - 1] in multiset(t);
        }
      }
    }
  }

  lemma {:induction false} WithKeyInsert<T>(x: T, s: seq<T>, key: T -> Key, k: Key)
    requires SortedDesc(s, key)
    ensures WithKey(Insert(x, s, key), key, k) == if key(x) == k then [x] + WithKey(s, key, k) else WithKey(s, key, k)
  {
    if |s| == 0 || KeyLe(key(s[0]), key(x)) {
      assert [x] + s == [x] + s[0..];
      if |s| > 0 && key(x) == k {
        assert ([x] + s)[1..] == s;
      }
      assert ([x] + s)[1..] == s;
    } else {
      WithKeyInsert(x, s[1..], key, k);
      assert ([s[0]] + Insert(x, s[1..], key))[1..] == Insert(x, s[1..], key);
      if key(x) == k {
        assert key(s[0]) != k;
      }
    }
  }

  /** `sorted(s, key=key, reverse=True)`. */
  function SortDesc<T>(s: seq<T>, key: T -> Key): (r: seq<T>)
    ensures |r| == |s|
    ensures multiset(r) == multiset(s)
    ensures SortedDesc(r, key)
  {
    if |s| == 0 then []
    else
      assert s == [s[0]] + s[1..];
      var t := SortDesc(s[1..], key);
      InsertSorted(s[0], t, key);
      Insert(s[0], t, key)
  }

  /** Stability: the elements with any one key keep their original order. */
  lemma {:induction false} SortStable<T>(s: seq<T>, key: T -> Key, k: Key)
    ensures WithKey(SortDesc(s, key), key, k) == WithKey(s, key, k)
  {
    if |s| > 0 {
      SortStable(s[1..], key, k);
      WithKeyInsert(s[0], SortDesc(s[1..], key), key, k);
    }
  }

  /** `s[:n]` for a non-negative `n`. */
  function Take<T>(s: seq<T>, n: nat): (r: seq<T>)
    ensures |r| == if n < |s| then n else |s|
    ensures r == s[..|r|]
  {
    if n < |s| then s[..n] else s
  }

  /** Taking a prefix splits the multiset of `s` in two. */
  lemma TakeSplits<T>(s: seq<T>, n: nat)
    ensures multiset(Take(s, n)) + multiset(s[|Take(s, n)|..]) == multiset(s)
  {
    var r := Take(s, n);
    assert s == r + s[|r|..];
  }

  /** A prefix of a sorted sequence is sorted. */
  lemma TakeSorted<T>(s: seq<T>, key: T -> Key, n: nat)
    requires SortedDesc(s, key)
    ensures SortedDesc(Take(s, n), key)
  {
  }
}
