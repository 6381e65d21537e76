/**
 `sorted(xs, key=...)` for any key type with a total order: a stable
 ascending insertion sort, and the fact that with distinct keys there is
 only one ascending arrangement of a multiset.
 */
module Sorting {

  /** `le` is a total order: total, transitive and antisymmetric. */
  ghost predicate TotalOrder<K(!new)>(le: (K, K) -> bool) {
    && (forall a, b :: le(a, b) || le(b, a))
    && (forall a, b, c :: le(a, b) && le(b, c) ==> le(a, c))
    && (forall a, b :: le(a, b) && le(b, a) ==> a == b)
  }

  /** Ascending by `key` under `le`. */
  ghost predicate SortedBy<T, K(!new)>(s: seq<T>, key: T -> K, le: (K, K) -> bool) {
    forall i, j :: 0 <= i < j < |s| ==> le(key(s[i]), key(s[j]))
  }

  /**
   Inserts `x` before the first element whose key is not below its own, so
   that `x` precedes the elements of `s` with an equal key.
   */
  function Insert<T, K(!new)>(x: T, s: seq<T>, key: T -> K, le: (K, K) -> bool): (r: seq<T>)
    requires TotalOrder(le) && SortedBy(s, key, le)
    ensures multiset(r) == multiset(s) + multiset{x}
    ensures SortedBy(r, key, le)
    decreases |s|
  {
    if |s| == 0 then [x]
    else if le(key(x), key(s[0])) then
      InsertFrontSorted(x, s, key, le);
      [x] + s
    else
      var rest := Insert(x, s[1..], key, le);
      assert s == [s[0]] + s[1..];
      InsertBehindSorted(s[0], rest, x, s[1..], key, le);
      [s[0]] + rest
  }

  lemma InsertFrontSorted<T, K(!new)>(x: T, s: seq<T>, key: T -> K, le: (K, K) -> bool)
    requires TotalOrder(le)
    requires |s| > 0 && SortedBy(s, key, le) && le(key(x), key(s[0]))
    ensures SortedBy([x] + s, key, le)
  {
    var r := [x] + s;
    forall i, j | 0 <= i < j < |r|
      ensures le(key(r[i]), key(r[j]))
    {
      if i == 0 && j > 1 {
        assert le(key(s[0]), key(s[j - 1]));
      }
    }
  }

  lemma InsertBehindSorted<T, K(!new)>(y: T, rest: seq<T>, x: T, tail: seq<T>, key: T -> K, le: (K, K) -> bool)
    requires TotalOrder(le)
    requires SortedBy(rest, key, le) && SortedBy([y] + tail, key, le)
    requires multiset(rest) == multiset(tail) + multiset{x}
    requires !le(key(x), key(y))
    ensures SortedBy([y] + rest, key, le)
  {
    var r := [y] + rest;
    forall i, j | 0 <= i < j < |r|
      ensures le(key(r[i]), key(r[j]))
    {
      if i == 0 {
        var e := rest[j - 1];
        assert r[j] == e && r[0] == y;
        assert e in multiset(rest);
        if e != x {
          assert e in multiset(tail);
          var k :| 0 <= k < |tail| && tail[k] == e;
          assert ([y] + tail)[k + 1] == e;
          assert le(key(([y] + tail)[0]), key(([y] + tail)[k + 1]));
        }
      } else {
        assert r[i] == rest[i - 1] && r[j] == rest[j - 1];
      }
    }
  }

  /** `sorted(s, key=key)`: a stable ascending sort. */
  function SortBy<T, K(!new)>(s: seq<T>, key: T -> K, le: (K, K) -> bool): (r: seq<T>)
    requires TotalOrder(le)
    ensures multiset(r) == multiset(s)
    ensures SortedBy(r, key, le)
    decreases |s|
  {
    if |s| == 0 then []
    else
      assert s == [s[0]] + s[1..];
      Insert(s[0], SortBy(s[1..], key, le), key, le)
  }

  /** The head of a non-empty sorted sequence has the least key of any permutation's elements. */
  lemma SortedHeadIsLeast<T, K(!new)>(a: seq<T>, b: seq<T>, key: T -> K, le: (K, K) -> bool)
    requires TotalOrder(le)
    requires SortedBy(a, key, le) && |a| > 0 && |b| > 0
    requires multiset(a) == multiset(b)
    ensures le(key(a[0]), key(b[0]))
  {
    assert b[0] in multiset(a);
    var j :| 0 <= j < |a| && a[j] == b[0];
    if j > 0 {
      assert le(key(a[0]), key(a[j]));
    }
  }

  lemma TailMultiset<T>(a: seq<T>, b: seq<T>)
    requires |a| > 0 && |b| > 0 && a[0] == b[0]
    requires multiset(a) == multiset(b)
    ensures multiset(a[1..]) == multiset(b[1..])
  {
    assert a == [a[0]] + a[1..];
    assert b == [b[0]] + b[1..];
    assert multiset(a[1..]) == multiset(a) - multiset{a[0]};
    assert multiset(b[1..]) == multiset(b) - multiset{b[0]};
  }

  /**
   When no two different elements share a key, there is only one ascending
   arrangement of a multiset: any sorted permutation equals `SortBy`.
   */
  lemma {:induction false} SortedPermutationUnique<T, K(!new)>(a: seq<T>, b: seq<T>, key: T -> K, le: (K, K) -> bool)
    requires TotalOrder(le)
    requires SortedBy(a, key, le) && SortedBy(b, key, le)
    requires multiset(a) == multiset(b)
    requires forall i, j :: 0 <= i < |a| && 0 <= j < |a| && key(a[i]) == key(a[j]) ==> a[i] == a[j]
    ensures a == b
    decreases |a|
  {
    assert |b| == |multiset(b)| == |a|;
    if |a| > 0 {
      SortedHeadIsLeast(a, b, key, le);
      SortedHeadIsLeast(b, a, key, le);
      var j :| 0 <= j < |a| && a[j] == b[0] by { assert b[0] in multiset(a); }
      assert key(a[0]) == key(b[0]);
      assert a[0] == b[0];
      TailMultiset(a, b);
      var a', b' := a[1..], b[1..];
      forall i, k | 0 <= i < |a'| && 0 <= k < |a'| && key(a'[i]) == key(a'[k])
        ensures a'[i] == a'[k]
      {
        assert a'[i] == a[i + 1] && a'[k] == a[k + 1];
      }
      SortedPermutationUnique(a', b', key, le);
      assert a == [a[0]] + a' && b == [b[0]] + b';
    }
  }
}
