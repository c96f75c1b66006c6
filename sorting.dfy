/**
 * Stable sorting by a key, the way Python's `list.sort(key=...)` and `sorted(..., key=...)`
 * order a list: by the key's order, and elements whose keys compare equal keep their
 * relative order. The model is an insertion sort; `SortedBySorted` and `SortByStable`
 * state those two properties of its result.
 */
module Sorting {

  /** `le` is a total preorder: any two keys are comparable, and comparison is transitive. */
  ghost predicate TotalPreorder<K(!new)>(le: (K, K) -> bool) {
    && (forall x, y :: le(x, y) || le(y, x))
    && (forall x, y, z :: le(x, y) && le(y, z) ==> le(x, z))
  }

  /** Every element's key is at most the key of every later element. */
  predicate SortedBy<T, K>(s: seq<T>, key: T -> K, le: (K, K) -> bool) {
    forall i, j :: 0 <= i < j < |s| ==> le(key(s[i]), key(s[j]))
  }

  /** `x` placed before the first element whose key is not below its own. */
  function Insert<T, K>(x: T, s: seq<T>, key: T -> K, le: (K, K) -> bool): (r: seq<T>)
    ensures |r| == |s| + 1 && multiset(r) == multiset(s) + multiset{x}
  {
    if s == [] || le(key(x), key(s[0])) then [x] + s
    else
      assert s == [s[0]] + s[1..];
      [s[0]] + Insert(x, s[1..], key, le)
  }

  /** The stable sort of `s` by `key`; it rearranges `s` and nothing else. */
  function SortBy<T, K>(s: seq<T>, key: T -> K, le: (K, K) -> bool): (r: seq<T>)
    ensures |r| == |s| && multiset(r) == multiset(s)
  {
    if s == [] then []
    else
      assert s == [s[0]] + s[1..];
      Insert(s[0], SortBy(s[1..], key, le), key, le)
  }

  lemma {:induction false} InsertSorted<T, K(!new)>(x: T, s: seq<T>, key: T -> K, le: (K, K) -> bool)
    requires TotalPreorder(le) && SortedBy(s, key, le)
    ensures SortedBy(Insert(x, s, key, le), key, le)
  {
    if s != [] && !le(key(x), key(s[0])) {
      var t := Insert(x, s[1..], key, le);
      InsertSorted(x, s[1..], key, le);
      forall y | y in t
        ensures le(key(s[0]), key(y))
      {
        assert y in multiset(t);
        if y != x {
          assert y in multiset(s[1..]);
          var j :| 0 <= j < |s[1..]| && s[1..][j] == y;
          assert s[1 + j] == y;
        }
      }
      var r := [s[0]] + t;
      forall i, j | 0 <= i < j < |r|
        ensures le(key(r[i]), key(r[j]))
      {
        assert r[j] == t[j - 1];
        if i > 0 {
          assert r[i] == t[i - 1];
        }
      }
    }
  }

  /** The result of `SortBy` is ordered by key. */
  lemma {:induction false} SortedBySorted<T, K(!new)>(s: seq<T>, key: T -> K, le: (K, K) -> bool)
    requires TotalPreorder(le)
    ensures SortedBy(SortBy(s, key, le), key, le)
  {
    if s != [] {
      SortedBySorted(s[1..], key, le);
      InsertSorted(s[0], SortBy(s[1..], key, le), key, le);
    }
  }

  /** The elements of `s` whose key is equivalent to `c`, in their order in `s`. */
  function KeyClass<T, K>(s: seq<T>, key: T -> K, le: (K, K) -> bool, c: K): seq<T> {
    if s == [] then []
    else (if le(key(s[0]), c) && le(c, key(s[0])) then [s[0]] else []) + KeyClass(s[1..], key, le, c)
  }

  lemma {:induction false} InsertKeyClass<T, K(!new)>(x: T, s: seq<T>, key: T -> K, le: (K, K) -> bool, c: K)
    requires TotalPreorder(le)
    ensures KeyClass(Insert(x, s, key, le), key, le, c)
         == (if le(key(x), c) && le(c, key(x)) then [x] else []) + KeyClass(s, key, le, c)
  {
    if s != [] && !le(key(x), key(s[0])) {
      InsertKeyClass(x, s[1..], key, le, c);
      var r := Insert(x, s, key, le);
      assert r[1..] == Insert(x, s[1..], key, le);
    } else {
      var r := Insert(x, s, key, le);
      assert r[1..] == s;
    }
  }

  /** Stability: every class of equivalent keys appears in the result in its original order. */
  lemma {:induction false} SortByStable<T, K(!new)>(s: seq<T>, key: T -> K, le: (K, K) -> bool, c: K)
    requires TotalPreorder(le)
    ensures KeyClass(SortBy(s, key, le), key, le, c) == KeyClass(s, key, le, c)
  {
    if s != [] {
      SortByStable(s[1..], key, le, c);
      InsertKeyClass(s[0], SortBy(s[1..], key, le), key, le, c);
    }
  }

  /** Sorting what is already in order changes nothing. */
  lemma {:induction false} SortByOfSorted<T, K>(s: seq<T>, key: T -> K, le: (K, K) -> bool)
    requires SortedBy(s, key, le)
    ensures SortBy(s, key, le) == s
  {
    if s != [] {
      assert SortedBy(s[1..], key, le);
      SortByOfSorted(s[1..], key, le);
      if |s| > 1 {
        assert s[1..][0] == s[1];
      }
      assert [s[0]] + s[1..] == s;
    }
  }
}
