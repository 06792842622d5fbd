/** `Array.prototype.sort` with a comparator `(a, b) => score(b) - score(a)`: a stable
    sort by descending score. Scores are exact reals; the sort is an insertion sort
    over the positions 0 .. n-1 of the items being ranked. */
module Ranking {
  import opened Seqs

  predicate InRange(n: nat, s: seq<nat>) {
    forall k :: 0 <= k < |s| ==> s[k] < n
  }

  /** Position i comes before position j: stable sort by descending key. */
  predicate Before(key: seq<real>, i: nat, j: nat)
    requires i < |key| && j < |key|
  {
    key[i] > key[j] || (key[i] == key[j] && i < j)
  }

  predicate Ordered(key: seq<real>, s: seq<nat>)
    requires InRange(|key|, s)
  {
    forall a, b :: 0 <= a < b < |s| ==> Before(key, s[a], s[b])
  }

  function Insert(key: seq<real>, x: nat, s: seq<nat>): (r: seq<nat>)
    requires x < |key| && InRange(|key|, s)
    ensures InRange(|key|, r)
    ensures |r| == |s| + 1
    ensures forall y :: y in r <==> y in s || y == x
  {
    if s == [] then [x]
    else if Before(key, x, s[0]) then [x] + s
    else
      assert s == [s[0]] + s[1..];
      [s[0]] + Insert(key, x, s[1..])
  }

  lemma {:induction false} InsertOrdered(key: seq<real>, x: nat, s: seq<nat>)
    requires x < |key| && InRange(|key|, s) && Ordered(key, s) && x !in s
    ensures Ordered(key, Insert(key, x, s))
  {
    if s != [] {
      var r := Insert(key, x, s);
      if Before(key, x, s[0]) {
        forall a, b | 0 <= a < b < |r| ensures Before(key, r[a], r[b]) {
          if a == 0 && b > 1 {
            assert Before(key, s[0], s[b - 1]);
          }
        }
      } else {
        var t := Insert(key, x, s[1..]);
        InsertOrdered(key, x, s[1..]);
        assert Before(key, s[0], x);
        forall b | 0 < b < |r| ensures Before(key, s[0], r[b]) {
          assert r[b] == t[b - 1];
          assert r[b] in t;
        }
      }
    }
  }

  function RankPrefix(key: seq<real>, n: nat): (r: seq<nat>)
    requires n <= |key|
    ensures |r| == n && InRange(n, r)
    ensures forall i :: 0 <= i < n ==> i in r
  {
    if n == 0 then []
    else
      var x: nat := n - 1;
      var s := RankPrefix(key, x);
      var r := Insert(key, x, s);
      assert forall k :: 0 <= k < |r| ==> r[k] in s || r[k] == x;
      r
  }

  /** The positions 0 .. |key|-1 in the order the stable sort puts them. */
  function Rank(key: seq<real>): (r: seq<nat>)
    ensures |r| == |key| && InRange(|key|, r)
    ensures forall i :: 0 <= i < |key| ==> i in r
  {
    RankPrefix(key, |key|)
  }

  lemma {:induction false} RankPrefixOrdered(key: seq<real>, n: nat)
    requires n <= |key|
    ensures Ordered(key, RankPrefix(key, n))
  {
    if n > 0 {
      RankPrefixOrdered(key, n - 1);
      InsertOrdered(key, n - 1, RankPrefix(key, n - 1));
    }
  }

  /** The sort puts higher keys first and keeps equal keys in their original order. */
  lemma RankOrdered(key: seq<real>)
    ensures Ordered(key, Rank(key))
  {
    RankPrefixOrdered(key, |key|);
  }

  /** `.slice(0, n)` of the sorted positions. */
  function Top(key: seq<real>, n: nat): (t: seq<nat>)
    ensures InRange(|key|, t)
  {
    Take(Rank(key), n)
  }

  /** The first n positions of the stable descending sort: there are min(n, |key|) of
      them, all distinct, in descending key order with ties in original order, and no
      position left out has a higher key than one taken. */
  lemma TopProperties(key: seq<real>, n: nat)
    ensures |Top(key, n)| == Min(n, |key|)
    ensures NoDuplicates(Top(key, n))
    ensures forall a, b :: 0 <= a < b < |Top(key, n)| ==>
              key[Top(key, n)[a]] > key[Top(key, n)[b]]
              || (key[Top(key, n)[a]] == key[Top(key, n)[b]] && Top(key, n)[a] < Top(key, n)[b])
    ensures forall i, a :: 0 <= i < |key| && i !in Top(key, n) && 0 <= a < |Top(key, n)| ==>
              key[i] <= key[Top(key, n)[a]]
  {
    var r := Rank(key);
    var t := Top(key, n);
    RankOrdered(key);
    assert t == r[..|t|];
    forall i, a | 0 <= i < |key| && i !in t && 0 <= a < |t| ensures key[i] <= key[t[a]] {
      assert i in r;
      var c :| 0 <= c < |r| && r[c] == i;
      assert Before(key, r[a], r[c]);
    }
  }

  /** The items at the given positions. */
  function Select<T>(items: seq<T>, idx: seq<nat>): (r: seq<T>)
    requires InRange(|items|, idx)
    ensures |r| == |idx|
    ensures forall k :: 0 <= k < |r| ==> r[k] == items[idx[k]]
  {
    seq(|idx|, k requires 0 <= k < |idx| => items[idx[k]])
  }

  /** `items.sort((a, b) => key(b) - key(a))`, key given position by position. */
  function SortByKey<T>(items: seq<T>, key: seq<real>): (r: seq<T>)
    requires |key| == |items|
    ensures |r| == |items|
  {
    Select(items, Rank(key))
  }

  /** Sorting only reorders: it keeps every item, adds none, and keeps the absence of
      duplicates. */
  lemma SortByKeyPermutes<T>(items: seq<T>, key: seq<real>)
    requires |key| == |items|
    ensures forall x :: x in SortByKey(items, key) <==> x in items
    ensures NoDuplicates(items) ==> NoDuplicates(SortByKey(items, key))
  {
    var r := Rank(key);
    var s := SortByKey(items, key);
    RankOrdered(key);
    forall x | x in items ensures x in s {
      var i :| 0 <= i < |items| && items[i] == x;
      assert i in r;
      var c :| 0 <= c < |r| && r[c] == i;
      assert s[c] == x;
    }
  }

  /** The key of every item, position by position. */
  function Keys<T>(items: seq<T>, f: T -> real): (key: seq<real>)
    ensures |key| == |items|
    ensures forall k :: 0 <= k < |items| ==> key[k] == f(items[k])
  {
    seq(|items|, k requires 0 <= k < |items| => f(items[k]))
  }

  /** `items.sort((a, b) => f(b) - f(a)).slice(0, n)`. */
  function TopBy<T>(items: seq<T>, f: T -> real, n: nat): seq<T> {
    Take(SortByKey(items, Keys(items, f)), n)
  }

  /** The first n items of the stable descending sort by f, with the original
      positions they come from: min(n, |items|) distinct positions, in descending
      order of f, equal keys in their original order, and no item left out has a
      higher key than one taken. */
  lemma TopByProperties<T>(items: seq<T>, f: T -> real, n: nat) returns (idx: seq<nat>)
    ensures |idx| == |TopBy(items, f, n)| == Min(n, |items|)
    ensures InRange(|items|, idx) && NoDuplicates(idx)
    ensures forall k :: 0 <= k < |idx| ==> TopBy(items, f, n)[k] == items[idx[k]]
    ensures forall a, b :: 0 <= a < b < |idx| ==>
              f(items[idx[a]]) > f(items[idx[b]])
              || (f(items[idx[a]]) == f(items[idx[b]]) && idx[a] < idx[b])
    ensures forall i, a :: 0 <= i < |items| && i !in idx && 0 <= a < |idx| ==>
              f(items[i]) <= f(items[idx[a]])
  {
    var key := Keys(items, f);
    idx := Top(key, n);
    TopProperties(key, n);
    var r := Rank(key);
    assert idx == r[..|idx|];
    var sorted := SortByKey(items, key);
    forall k | 0 <= k < |idx| ensures TopBy(items, f, n)[k] == items[idx[k]] {
      assert TopBy(items, f, n)[k] == sorted[k];
    }
  }

  /** With n at least the number of items nothing is dropped. */
  lemma TopByAll<T>(items: seq<T>, f: T -> real, n: nat)
    requires n >= |items|
    ensures forall x :: x in TopBy(items, f, n) <==> x in items
    ensures NoDuplicates(items) ==> NoDuplicates(TopBy(items, f, n))
  {
    SortByKeyPermutes(items, Keys(items, f));
  }

  /** Taking the top n of distinct items gives min(n, |items|) distinct items, all
      of them when fewer than n are taken. */
  lemma TopByDistinct<T>(items: seq<T>, f: T -> real, n: nat)
    requires NoDuplicates(items)
    ensures |TopBy(items, f, n)| == Min(n, |items|)
    ensures NoDuplicates(TopBy(items, f, n))
    ensures forall x :: x in TopBy(items, f, n) ==> x in items
    ensures |TopBy(items, f, n)| < n ==> forall x :: x in items ==> x in TopBy(items, f, n)
  {
    var r := TopBy(items, f, n);
    var idx := TopByProperties(items, f, n);
    forall i, j | 0 <= i < j < |r| ensures r[i] != r[j] {
      assert r[i] == items[idx[i]] && r[j] == items[idx[j]];
      assert idx[i] != idx[j];
    }
    forall x | x in r ensures x in items {
      var k :| 0 <= k < |r| && r[k] == x;
      assert r[k] == items[idx[k]];
    }
    if |r| < n {
      TopByAll(items, f, n);
    }
  }
}
