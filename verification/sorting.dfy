/** Python's `sorted(items, key=key, reverse=reverse)` for numeric keys, as an
    insertion sort: the result is ordered by `key` and is a permutation of its
    input. */
module Sorting {

  /** `a` may come before `b`: ascending, or descending when `reverse`. */
  predicate InOrder(a: real, b: real, reverse: bool) {
    if reverse then a >= b else a <= b
  }

  predicate SortedBy<T>(s: seq<T>, key: T -> real, reverse: bool) {
    forall i, j | 0 <= i < j < |s| :: InOrder(key(s[i]), key(s[j]), reverse)
  }

  /** Inserts `x` ahead of the first element it may precede, which puts it
      ahead of the elements with an equal key. `Sort` inserts each element
      into the sorted rest of the input, so elements with equal keys keep
      their input order, as Python's stable `sorted` does. */
  function Insert<T>(x: T, s: seq<T>, key: T -> real, reverse: bool): (r: seq<T>)
    requires SortedBy(s, key, reverse)
    ensures SortedBy(r, key, reverse)
    ensures multiset(r) == multiset(s) + multiset{x}
    decreases |s|
  {
    if |s| == 0 then [x]
    else if InOrder(key(x), key(s[0]), reverse) then
      assert SortedBy([x] + s, key, reverse) by {
        assert forall j | 0 < j < |[x] + s| :: ([x] + s)[j] == s[j - 1];
      }
      [x] + s
    else
      var rest := Insert(x, s[1..], key, reverse);
      assert s == [s[0]] + s[1..];
      InsertBehind(s[0], x, s[1..], rest, key, reverse);
      [s[0]] + rest
  }

  /** The head of a sorted sequence may precede what inserting a later-ranked
      element into its tail yields. */
  lemma InsertBehind<T>(h: T, x: T, tail: seq<T>, rest: seq<T>, key: T -> real, reverse: bool)
    requires SortedBy([h] + tail, key, reverse)
    requires !InOrder(key(x), key(h), reverse)
    requires SortedBy(rest, key, reverse)
    requires multiset(rest) == multiset(tail) + multiset{x}
    ensures SortedBy([h] + rest, key, reverse)
  {
    var r := [h] + rest;
    forall j | 0 <= j < |rest| ensures InOrder(key(h), key(rest[j]), reverse) {
      assert rest[j] in multiset(rest);
      if rest[j] == x {
        assert InOrder(key(h), key(x), reverse);
      } else {
        assert multiset(tail)[rest[j]] == multiset(rest)[rest[j]];
        assert rest[j] in multiset(tail);
        var k :| 0 <= k < |tail| && tail[k] == rest[j];
        assert ([h] + tail)[0] == h && ([h] + tail)[k + 1] == rest[j];
        assert InOrder(key(([h] + tail)[0]), key(([h] + tail)[k + 1]), reverse);
      }
    }
    forall i, j | 0 <= i < j < |r| ensures InOrder(key(r[i]), key(r[j]), reverse) {
      assert r[j] == rest[j - 1];
      if i > 0 {
        assert r[i] == rest[i - 1];
      }
    }
  }

  /** `sorted(s, key=key, reverse=reverse)`. */
  function Sort<T>(s: seq<T>, key: T -> real, reverse: bool): (r: seq<T>)
    ensures SortedBy(r, key, reverse)
    ensures multiset(r) == multiset(s)
    decreases |s|
  {
    if |s| == 0 then []
    else
      assert s == [s[0]] + s[1..];
      Insert(s[0], Sort(s[1..], key, reverse), key, reverse)
  }

  /** A permutation has the same elements and the same length. */
  lemma PermutationMembers<T>(a: seq<T>, b: seq<T>)
    requires multiset(a) == multiset(b)
    ensures |a| == |b|
    ensures forall x :: x in a <==> x in b
  {
    assert |multiset(a)| == |multiset(b)|;
    forall x ensures x in a <==> x in b {
      assert x in a <==> x in multiset(a);
      assert x in b <==> x in multiset(b);
    }
  }

  /** The first `m` elements of a sorted permutation of `s`: nothing left out
      ranks ahead of anything taken. */
  lemma PrefixOfSortedIsExtreme<T>(s: seq<T>, key: T -> real, reverse: bool, m: nat)
    requires m <= |s|
    ensures var top := Sort(s, key, reverse)[..m];
      && (forall y | y in top :: y in s)
      && (forall x, y | x in s && x !in top && y in top :: InOrder(key(y), key(x), reverse))
  {
    var ss := Sort(s, key, reverse);
    PermutationMembers(ss, s);
    var top := ss[..m];
    forall y | y in top ensures y in s {
      var i :| 0 <= i < m && top[i] == y;
      assert ss[i] == y;
      assert y in multiset(ss);
    }
    forall x, y | x in s && x !in top && y in top
      ensures InOrder(key(y), key(x), reverse)
    {
      assert x in multiset(ss);
      var j :| 0 <= j < |ss| && ss[j] == x;
      var i :| 0 <= i < m && top[i] == y;
      assert ss[i] == y;
      assert j >= m by {
        assert forall k | 0 <= k < m :: top[k] == ss[k];
      }
    }
  }
}
