/** Generic sequence helpers: the `filter`, de-duplication and `slice` the source
    applies to its arrays. */
module Seqs {

  function Min(a: int, b: int): int { if a < b then a else b }

  /** `xs.filter(p)`: the elements satisfying p, in their original order. */
  function Filter<T(!new)>(xs: seq<T>, p: T -> bool): (r: seq<T>)
    ensures |r| <= |xs|
    ensures forall x :: x in r <==> x in xs && p(x)
    ensures forall k :: 0 <= k < |r| ==> p(r[k])
  {
    if xs == [] then [] else (if p(xs[0]) then [xs[0]] else []) + Filter(xs[1..], p)
  }

  lemma {:induction false} FilterAppend<T(!new)>(xs: seq<T>, x: T, p: T -> bool)
    ensures Filter(xs + [x], p) == Filter(xs, p) + (if p(x) then [x] else [])
  {
    if xs != [] {
      assert (xs + [x])[1..] == xs[1..] + [x];
      FilterAppend(xs[1..], x, p);
    }
  }

  lemma FilterCons<T(!new)>(x: T, xs: seq<T>, p: T -> bool)
    ensures Filter([x] + xs, p) == (if p(x) then [x] else []) + Filter(xs, p)
  {
    assert ([x] + xs)[0] == x && ([x] + xs)[1..] == xs;
  }

  lemma {:induction false} FilterAll<T(!new)>(xs: seq<T>, p: T -> bool)
    requires forall k :: 0 <= k < |xs| ==> p(xs[k])
    ensures Filter(xs, p) == xs
  {
    if xs != [] {
      FilterAll(xs[1..], p);
    }
  }

  lemma {:induction false} FilterNone<T(!new)>(xs: seq<T>, p: T -> bool)
    requires forall k :: 0 <= k < |xs| ==> !p(xs[k])
    ensures Filter(xs, p) == []
  {
    if xs != [] {
      FilterNone(xs[1..], p);
    }
  }

  /** `xs.slice(0, n)`. */
  function Take<T>(xs: seq<T>, n: nat): (r: seq<T>)
    ensures |r| == Min(n, |xs|)
    ensures r <= xs
  {
    if n < |xs| then xs[..n] else xs
  }

  predicate NoDuplicates<T(==)>(xs: seq<T>) {
    forall i, j :: 0 <= i < j < |xs| ==> xs[i] != xs[j]
  }

  /** Distinct elements in the order of their first occurrence: the order in which a
      JavaScript object acquires its properties when they are assigned in that order. */
  function Dedup<T(==,!new)>(xs: seq<T>): (r: seq<T>)
    ensures forall x :: x in r <==> x in xs
    ensures NoDuplicates(r)
    decreases |xs|
  {
    if xs == [] then []
    else
      var init, last := xs[..|xs| - 1], xs[|xs| - 1];
      assert xs == init + [last];
      var d := Dedup(init);
      if last in d then d else d + [last]
  }

  /** Index of the first occurrence of x in xs. */
  function FirstIndex<T(==)>(xs: seq<T>, x: T): (i: nat)
    requires x in xs
    ensures i < |xs| && xs[i] == x
    ensures forall k :: 0 <= k < i ==> xs[k] != x
  {
    if xs[0] == x then 0 else 1 + FirstIndex(xs[1..], x)
  }

  lemma FirstIndexPrefix<T>(xs: seq<T>, y: T, x: T)
    requires x in xs
    ensures FirstIndex(xs + [y], x) == FirstIndex(xs, x)
  {
    var i := FirstIndex(xs, x);
    var j := FirstIndex(xs + [y], x);
    assert (xs + [y])[i] == x;
  }

  /** Dedup keeps the elements in the order in which they first occur. */
  lemma {:induction false} DedupFirstOccurrence<T(!new)>(xs: seq<T>)
    ensures forall a, b :: 0 <= a < b < |Dedup(xs)| ==>
              FirstIndex(xs, Dedup(xs)[a]) < FirstIndex(xs, Dedup(xs)[b])
    decreases |xs|
  {
    if xs != [] {
      var init, last := xs[..|xs| - 1], xs[|xs| - 1];
      assert xs == init + [last];
      DedupFirstOccurrence(init);
      var d := Dedup(init);
      forall x | x in init ensures FirstIndex(xs, x) == FirstIndex(init, x) {
        FirstIndexPrefix(init, last, x);
      }
      if last !in d {
        assert FirstIndex(xs, last) == |init|;
        forall a, b | 0 <= a < b < |Dedup(xs)|
          ensures FirstIndex(xs, Dedup(xs)[a]) < FirstIndex(xs, Dedup(xs)[b])
        {
          assert Dedup(xs)[a] == d[a];
          if b < |d| { assert Dedup(xs)[b] == d[b]; }
        }
      }
    }
  }

  /** Equal multisets preserve the absence of duplicates. */
  lemma NoDuplicatesCount<T>(xs: seq<T>, x: T)
    requires NoDuplicates(xs)
    ensures multiset(xs)[x] <= 1
  {
    if xs != [] {
      assert xs == [xs[0]] + xs[1..];
      assert NoDuplicates(xs[1..]);
      NoDuplicatesCount(xs[1..], x);
      if xs[0] == x { assert x !in xs[1..]; }
    }
  }

  lemma PermutationNoDuplicates<T>(xs: seq<T>, ys: seq<T>)
    requires multiset(xs) == multiset(ys) && NoDuplicates(xs)
    ensures NoDuplicates(ys)
  {
    forall i, j | 0 <= i < j < |ys| ensures ys[i] != ys[j] {
      if ys[i] == ys[j] {
        var x := ys[i];
        assert ys == ys[..i] + [x] + ys[i + 1..j] + [x] + ys[j + 1..];
        assert multiset(ys)[x] >= 2;
        NoDuplicatesCount(xs, x);
      }
    }
  }

  /** A sequence without duplicates has as many distinct elements as entries. */
  lemma {:induction false} NoDuplicatesCard<T>(xs: seq<T>)
    requires NoDuplicates(xs)
    ensures |set x | x in xs| == |xs|
  {
    if xs != [] {
      var tail := xs[1..];
      assert NoDuplicates(tail);
      NoDuplicatesCard(tail);
      assert (set x | x in xs) == (set x | x in tail) + {xs[0]};
      assert xs[0] !in tail;
    }
  }

  lemma {:induction false} FilterNoDuplicates<T(!new)>(xs: seq<T>, p: T -> bool)
    requires NoDuplicates(xs)
    ensures NoDuplicates(Filter(xs, p))
  {
    if xs != [] {
      assert NoDuplicates(xs[1..]);
      FilterNoDuplicates(xs[1..], p);
      assert xs[0] !in xs[1..];
    }
  }

  function Shift(q: seq<nat>): (r: seq<nat>)
    ensures |r| == |q| && forall k :: 0 <= k < |q| ==> r[k] == q[k] + 1
  {
    seq(|q|, k requires 0 <= k < |q| => q[k] + 1)
  }

  /** The positions in xs of the elements Filter keeps. */
  function Positions<T>(xs: seq<T>, p: T -> bool): seq<nat> {
    if xs == [] then [] else (if p(xs[0]) then [0] else []) + Shift(Positions(xs[1..], p))
  }

  lemma {:induction false} PositionsLength<T(!new)>(xs: seq<T>, p: T -> bool)
    ensures |Positions(xs, p)| == |Filter(xs, p)|
  {
    if xs != [] {
      PositionsLength(xs[1..], p);
    }
  }

  /** The k-th kept element sits at the k-th position. */
  lemma {:induction false} PositionsMap<T(!new)>(xs: seq<T>, p: T -> bool)
    ensures |Positions(xs, p)| == |Filter(xs, p)|
    ensures forall k :: 0 <= k < |Positions(xs, p)| ==>
              Positions(xs, p)[k] < |xs| && xs[Positions(xs, p)[k]] == Filter(xs, p)[k]
  {
    PositionsLength(xs, p);
    if xs != [] {
      var tail := xs[1..];
      PositionsMap(tail, p);
      var q, ft := Positions(tail, p), Filter(tail, p);
      var h := if p(xs[0]) then 1 else 0;
      forall k | 0 <= k < |Positions(xs, p)|
        ensures Positions(xs, p)[k] < |xs| && xs[Positions(xs, p)[k]] == Filter(xs, p)[k]
      {
        if k >= h {
          assert Positions(xs, p)[k] == q[k - h] + 1;
          assert Filter(xs, p)[k] == ft[k - h];
          assert xs[q[k - h] + 1] == tail[q[k - h]];
        }
      }
    }
  }

  /** The positions increase. */
  lemma {:induction false} PositionsIncreasing<T>(xs: seq<T>, p: T -> bool)
    ensures forall a, b :: 0 <= a < b < |Positions(xs, p)| ==> Positions(xs, p)[a] < Positions(xs, p)[b]
  {
    if xs != [] {
      PositionsIncreasing(xs[1..], p);
      var q := Positions(xs[1..], p);
      var h := if p(xs[0]) then 1 else 0;
      var r := Positions(xs, p);
      forall a, b | 0 <= a < b < |r| ensures r[a] < r[b] {
        assert r[b] == q[b - h] + 1;
        if a >= h {
          assert r[a] == q[a - h] + 1;
        }
      }
    }
  }

  /** In a sequence without duplicates each element's first index is its position. */
  lemma FirstIndexAt<T>(xs: seq<T>, m: nat)
    requires NoDuplicates(xs) && m < |xs|
    ensures FirstIndex(xs, xs[m]) == m
  {
  }

  /** Filter keeps the relative order of what it keeps. */
  lemma FilterOrder<T(!new)>(xs: seq<T>, p: T -> bool, i: nat, j: nat)
    requires NoDuplicates(xs) && i < j < |Filter(xs, p)|
    ensures Filter(xs, p)[i] in xs && Filter(xs, p)[j] in xs
    ensures FirstIndex(xs, Filter(xs, p)[i]) < FirstIndex(xs, Filter(xs, p)[j])
  {
    var r := Positions(xs, p);
    PositionsMap(xs, p);
    PositionsIncreasing(xs, p);
    FirstIndexAt(xs, r[i]);
    FirstIndexAt(xs, r[j]);
  }

  /** FilterOrder for the kept elements placed after a prefix. */
  lemma FilterOrderAfter<T(!new)>(a: seq<T>, xs: seq<T>, p: T -> bool, i: nat, j: nat)
    requires NoDuplicates(xs) && |a| <= i < j < |a + Filter(xs, p)|
    ensures (a + Filter(xs, p))[i] in xs && (a + Filter(xs, p))[j] in xs
    ensures p((a + Filter(xs, p))[i]) && p((a + Filter(xs, p))[j])
    ensures FirstIndex(xs, (a + Filter(xs, p))[i]) < FirstIndex(xs, (a + Filter(xs, p))[j])
  {
    var f := Filter(xs, p);
    var n := |f|;
    var i', j' := i - |a|, j - |a|;
    assert i' < j' < n;
    assert (a + f)[i] == f[i'] && (a + f)[j] == f[j'];
    FilterOrder(xs, p, i', j');
  }

  /** The concatenation of f over xs, in order. */
  function FlatMap<T, U>(xs: seq<T>, f: T -> seq<U>): seq<U>
    decreases |xs|
  {
    if xs == [] then [] else FlatMap(xs[..|xs| - 1], f) + f(xs[|xs| - 1])
  }

  lemma {:induction false} FlatMapAppend<T, U>(a: seq<T>, b: seq<T>, f: T -> seq<U>)
    ensures FlatMap(a + b, f) == FlatMap(a, f) + FlatMap(b, f)
    decreases |b|
  {
    if b == [] {
      assert a + b == a;
    } else {
      assert (a + b)[..|a + b| - 1] == a + b[..|b| - 1];
      FlatMapAppend(a, b[..|b| - 1], f);
    }
  }

  lemma InInit<T>(xs: seq<T>, x: T)
    requires x in xs && x != xs[|xs| - 1]
    ensures x in xs[..|xs| - 1]
  {
    var k :| 0 <= k < |xs| && xs[k] == x;
    assert xs[..|xs| - 1][k] == x;
  }

  lemma InLeft<T>(a: seq<T>, b: seq<T>, x: T)
    requires x in a
    ensures x in a + b
  {
    var k :| 0 <= k < |a| && a[k] == x;
    assert (a + b)[k] == x;
  }

  lemma InRight<T>(a: seq<T>, b: seq<T>, x: T)
    requires x in b
    ensures x in a + b
  {
    var k :| 0 <= k < |b| && b[k] == x;
    assert (a + b)[|a| + k] == x;
  }

  /** Every element of a FlatMap comes from one of the inputs. */
  lemma {:induction false} FlatMapSource<T, U>(xs: seq<T>, f: T -> seq<U>, y: U) returns (x: T)
    requires y in FlatMap(xs, f)
    ensures x in xs && y in f(x)
    decreases |xs|
  {
    var init, last := xs[..|xs| - 1], xs[|xs| - 1];
    if y in FlatMap(init, f) {
      x := FlatMapSource(init, f, y);
    } else {
      x := last;
    }
  }

  /** Every element f gives for an input is in the FlatMap. */
  lemma {:induction false} FlatMapComplete<T, U>(xs: seq<T>, f: T -> seq<U>, x: T, y: U)
    requires x in xs && y in f(x)
    ensures y in FlatMap(xs, f)
    decreases |xs|
  {
    var init, last := xs[..|xs| - 1], xs[|xs| - 1];
    if x == last {
      InRight(FlatMap(init, f), f(last), y);
    } else {
      InInit(xs, x);
      FlatMapComplete(init, f, x, y);
      InLeft(FlatMap(init, f), f(last), y);
    }
  }

  lemma FlatMapSnoc<T, U>(xs: seq<T>, i: nat, f: T -> seq<U>)
    requires i < |xs|
    ensures FlatMap(xs[..i + 1], f) == FlatMap(xs[..i], f) + f(xs[i])
  {
    assert xs[..i + 1][..i] == xs[..i];
  }

  /** A prefix holds no more of anything than the whole. */
  lemma PrefixMultiset<T>(r: seq<T>, xs: seq<T>)
    requires r <= xs
    ensures multiset(r) <= multiset(xs)
  {
    assert xs == r + xs[|r|..];
  }
}
