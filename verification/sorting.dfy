/** Stable ordering of a sequence by an integer key: the `orderBy` of the
    store's listings and JavaScript's (stable) `Array.prototype.sort` with a
    numeric comparator. A descending order is an ascending one on the negated
    key. */
module Sorting {
  import opened Common

  predicate SortedBy<T>(xs: seq<T>, key: T -> int) {
    forall i, j :: 0 <= i < j < |xs| ==> key(xs[i]) <= key(xs[j])
  }

  /** Places `x` in front of the first element whose key is not smaller, so
      that `x` stays ahead of the equal keys it preceded. */
  function InsertBy<T>(x: T, xs: seq<T>, key: T -> int): (r: seq<T>)
    ensures multiset(r) == multiset(xs) + multiset{x}
    ensures SortedBy(xs, key) ==> SortedBy(r, key)
  {
    if |xs| == 0 then [x]
    else if key(x) <= key(xs[0]) then
      assert SortedBy(xs, key) ==> SortedBy([x] + xs, key) by {
        if SortedBy(xs, key) {
          SortedTail(xs, key);
          ConsSorted(x, xs, key);
        }
      }
      assert xs == [xs[0]] + xs[1..];
      [x] + xs
    else
      var tail := xs[1..];
      var rest := InsertBy(x, tail, key);
      assert xs == [xs[0]] + tail;
      assert SortedBy(xs, key) ==> SortedBy([xs[0]] + rest, key) by {
        if SortedBy(xs, key) {
          SortedTail(xs, key);
          LowerBoundKept(xs[0], tail, x, rest, key);
          ConsSorted(xs[0], rest, key);
        }
      }
      assert multiset([xs[0]] + rest) == multiset{xs[0]} + multiset(rest);
      [xs[0]] + rest
  }

  /** The tail of a sorted sequence is sorted and keyed no lower than its head. */
  lemma SortedTail<T>(xs: seq<T>, key: T -> int)
    requires SortedBy(xs, key) && |xs| > 0
    ensures SortedBy(xs[1..], key)
    ensures forall k :: 0 <= k < |xs| ==> key(xs[0]) <= key(xs[k])
  {
    forall i, j | 0 <= i < j < |xs[1..]| ensures key(xs[1..][i]) <= key(xs[1..][j]) {
      assert xs[1..][i] == xs[i + 1] && xs[1..][j] == xs[j + 1];
    }
  }

  /** A sorted sequence stays sorted behind an element keyed no higher than
      its first. */
  lemma ConsSorted<T>(x: T, xs: seq<T>, key: T -> int)
    requires SortedBy(xs, key)
    requires forall k :: 0 <= k < |xs| ==> key(x) <= key(xs[k])
    ensures SortedBy([x] + xs, key)
  {
    forall i, j | 0 <= i < j < |[x] + xs|
      ensures key(([x] + xs)[i]) <= key(([x] + xs)[j])
    {
      assert ([x] + xs)[j] == xs[j - 1];
      if i > 0 {
        assert ([x] + xs)[i] == xs[i - 1];
      }
    }
  }

  /** Every element of a permutation of `ys + [x]` keys at least as high as
      `first`, when all of `ys` and `x` do. */
  lemma LowerBoundKept<T>(first: T, ys: seq<T>, x: T, rest: seq<T>, key: T -> int)
    requires multiset(rest) == multiset(ys) + multiset{x}
    requires key(first) <= key(x)
    requires forall k :: 0 <= k < |ys| ==> key(first) <= key(ys[k])
    ensures forall k :: 0 <= k < |rest| ==> key(first) <= key(rest[k])
  {
    forall k | 0 <= k < |rest|
      ensures key(first) <= key(rest[k])
    {
      assert rest[k] in multiset(rest);
      if rest[k] != x {
        assert rest[k] in multiset(ys);
        var m :| 0 <= m < |ys| && ys[m] == rest[k];
      }
    }
  }

  /** Insertion sort: the elements of `xs`, in ascending key order. */
  function SortBy<T>(xs: seq<T>, key: T -> int): (r: seq<T>)
    ensures multiset(r) == multiset(xs)
    ensures |r| == |xs|
    ensures SortedBy(r, key)
  {
    if |xs| == 0 then []
    else
      assert xs == [xs[0]] + xs[1..];
      InsertBy(xs[0], SortBy(xs[1..], key), key)
  }

  /** Inserting `x` keeps the entries of any one key in their order, with
      `x` ahead of those it joins. */
  lemma {:induction false} InsertByStable<T>(x: T, ys: seq<T>, key: T -> int, k: int)
    ensures Filter(InsertBy(x, ys, key), t => key(t) == k) ==
              if key(x) == k then [x] + Filter(ys, t => key(t) == k) else Filter(ys, t => key(t) == k)
  {
    var p := (t: T) => key(t) == k;
    if |ys| == 0 {
      assert Filter([x], p) == (if p(x) then [x] else []) by {
        assert [x][1..] == [];
      }
    } else if key(x) <= key(ys[0]) {
      assert ([x] + ys)[0] == x && ([x] + ys)[1..] == ys;
    } else {
      var tail := ys[1..];
      InsertByStable(x, tail, key, k);
      var rest := InsertBy(x, tail, key);
      assert ([ys[0]] + rest)[0] == ys[0] && ([ys[0]] + rest)[1..] == rest;
    }
  }

  /** The sort is stable: for every key, the entries holding it appear in
      the sorted sequence in their input order. */
  lemma {:induction false} SortByStable<T>(xs: seq<T>, key: T -> int, k: int)
    ensures Filter(SortBy(xs, key), t => key(t) == k) == Filter(xs, t => key(t) == k)
  {
    if |xs| > 0 {
      SortByStable(xs[1..], key, k);
      InsertByStable(xs[0], SortBy(xs[1..], key), key, k);
    }
  }

  /** A prefix of the sorted elements holds the lowest keys: it is cut from
      the elements, as long as the slice asks for, and no element left out
      keys lower than one kept. */
  lemma SortedPrefixIsTop<T>(xs: seq<T>, key: T -> int, end: int)
    ensures forall t :: t in JsTake(SortBy(xs, key), end) ==> t in xs
    ensures 0 <= end ==> |JsTake(SortBy(xs, key), end)| == Min(end, |xs|)
    ensures forall t, u :: t in xs && t !in JsTake(SortBy(xs, key), end) && u in JsTake(SortBy(xs, key), end) ==>
              key(u) <= key(t)
  {
    var s := SortBy(xs, key);
    var r := JsTake(s, end);
    forall t | t in r ensures t in xs {
      assert t in multiset(s);
    }
    forall t, u | t in xs && t !in r && u in r ensures key(u) <= key(t) {
      assert t in multiset(s);
      var j :| 0 <= j < |s| && s[j] == t;
      var i :| 0 <= i < |r| && r[i] == u;
      assert forall k :: 0 <= k < |r| ==> r[k] == s[k];
      assert s[i] == u;
    }
  }

  /** Inserting an element below a key that is greater than it commutes with
      appending that greater element. */
  lemma {:induction false} InsertBeforeLarger<T>(x: T, ys: seq<T>, e: T, key: T -> int)
    requires key(x) < key(e)
    ensures InsertBy(x, ys + [e], key) == InsertBy(x, ys, key) + [e]
  {
    if |ys| == 0 {
      assert ys + [e] == [e];
    } else if key(x) <= key(ys[0]) {
      assert (ys + [e])[0] == ys[0];
    } else {
      assert (ys + [e])[0] == ys[0];
      assert (ys + [e])[1..] == ys[1..] + [e];
      InsertBeforeLarger(x, ys[1..], e, key);
    }
  }

  /** An element whose key exceeds every key in `xs` sorts to the very end,
      behind the sorted `xs`. */
  lemma {:induction false} SortAppendLargest<T>(xs: seq<T>, e: T, key: T -> int)
    requires forall k :: 0 <= k < |xs| ==> key(xs[k]) < key(e)
    ensures SortBy(xs + [e], key) == SortBy(xs, key) + [e]
  {
    if |xs| == 0 {
      assert xs + [e] == [e];
      assert [e][1..] == [];
    } else {
      assert (xs + [e])[0] == xs[0];
      assert (xs + [e])[1..] == xs[1..] + [e];
      SortAppendLargest(xs[1..], e, key);
      InsertBeforeLarger(xs[0], SortBy(xs[1..], key), e, key);
    }
  }

  /** Every two elements at different positions are related by `rel`. */
  predicate Pairwise<T>(xs: seq<T>, rel: (T, T) -> bool) {
    forall i, j :: 0 <= i < j < |xs| ==> rel(xs[i], xs[j])
  }

  /** Insertion puts `x` at one position and leaves the rest in order around it. */
  lemma {:induction false} InsertByShape<T>(x: T, ys: seq<T>, key: T -> int) returns (p: nat)
    ensures p <= |ys| && InsertBy(x, ys, key) == ys[..p] + [x] + ys[p..]
  {
    if |ys| == 0 || key(x) <= key(ys[0]) {
      p := 0;
    } else {
      var q := InsertByShape(x, ys[1..], key);
      p := q + 1;
      assert ys[..p] == [ys[0]] + ys[1..][..q];
      assert ys[p..] == ys[1..][q..];
    }
  }

  /** Sorting keeps any symmetric pairwise property of the elements, such as
      "no two share an id". */
  lemma {:induction false} SortKeepsPairwise<T>(xs: seq<T>, key: T -> int, rel: (T, T) -> bool)
    requires forall a, b :: rel(a, b) == rel(b, a)
    requires Pairwise(xs, rel)
    ensures Pairwise(SortBy(xs, key), rel)
  {
    if |xs| > 0 {
      var x := xs[0];
      var tail := xs[1..];
      assert Pairwise(tail, rel) by {
        forall i, j | 0 <= i < j < |tail| ensures rel(tail[i], tail[j]) {
          assert tail[i] == xs[i + 1] && tail[j] == xs[j + 1];
        }
      }
      SortKeepsPairwise(tail, key, rel);
      var s := SortBy(tail, key);
      forall k | 0 <= k < |s| ensures rel(x, s[k]) {
        assert s[k] in multiset(tail);
        var m :| 0 <= m < |tail| && tail[m] == s[k];
        assert xs[m + 1] == s[k];
      }
      var p := InsertByShape(x, s, key);
      PlaceKeepsPairwise(x, s, p, rel);
    }
  }

  /** Placing `x`, related to every element, anywhere in a pairwise-related
      sequence keeps it pairwise related. */
  lemma PlaceKeepsPairwise<T>(x: T, s: seq<T>, p: nat, rel: (T, T) -> bool)
    requires p <= |s|
    requires forall a, b :: rel(a, b) == rel(b, a)
    requires Pairwise(s, rel)
    requires forall k :: 0 <= k < |s| ==> rel(x, s[k])
    ensures Pairwise(s[..p] + [x] + s[p..], rel)
  {
    var r := s[..p] + [x] + s[p..];
    forall i, j | 0 <= i < j < |r| ensures rel(r[i], r[j]) {
      if j < p {
        assert r[i] == s[i] && r[j] == s[j];
      } else if j == p {
        assert r[i] == s[i] && r[j] == x;
        assert rel(x, s[i]);
      } else if i < p {
        assert r[i] == s[i] && r[j] == s[j - 1];
      } else if i == p {
        assert r[i] == x && r[j] == s[j - 1];
      } else {
        assert r[i] == s[i - 1] && r[j] == s[j - 1];
      }
    }
  }

  /** Filtering keeps any pairwise property: what survives is a
      subsequence. */
  lemma {:induction false} FilterKeepsPairwise<T>(xs: seq<T>, p: T -> bool, rel: (T, T) -> bool)
    requires Pairwise(xs, rel)
    ensures Pairwise(Filter(xs, p), rel)
  {
    if |xs| > 0 {
      var tail := xs[1..];
      assert Pairwise(tail, rel) by {
        forall i, j | 0 <= i < j < |tail| ensures rel(tail[i], tail[j]) {
          assert tail[i] == xs[i + 1] && tail[j] == xs[j + 1];
        }
      }
      FilterKeepsPairwise(tail, p, rel);
      if p(xs[0]) {
        var f := Filter(tail, p);
        var r := [xs[0]] + f;
        forall i, j | 0 <= i < j < |r| ensures rel(r[i], r[j]) {
          assert r[j] == f[j - 1];
          if i == 0 {
            var m :| 0 <= m < |tail| && tail[m] == f[j - 1];
            assert xs[m + 1] == r[j];
          } else {
            assert r[i] == f[i - 1];
          }
        }
      }
    }
  }
}
