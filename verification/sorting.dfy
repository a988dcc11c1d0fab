/** Python's `list.sort(key=..., reverse=True)` and the slice `xs[:k]`, as
    used to rank links and clusters by hotness. */
module Sorting {

  /** `s` is ordered by `key`, largest first. */
  ghost predicate SortedDesc<T>(s: seq<T>, key: T -> real) {
    forall i, j :: 0 <= i < j < |s| ==> key(s[i]) >= key(s[j])
  }

  /** Insert `x` in front of the first element whose key is not larger, so
      that an element keeps its place ahead of later equal-keyed ones. */
  function InsertDesc<T>(x: T, s: seq<T>, key: T -> real): (r: seq<T>)
    requires SortedDesc(s, key)
    ensures SortedDesc(r, key)
    ensures multiset(r) == multiset{x} + multiset(s)
  {
    if |s| == 0 then [x]
    else if key(s[0]) <= key(x) then [x] + s
    else
      var rest := InsertDesc(x, s[1..], key);
      assert s == [s[0]] + s[1..];
      forall i | 0 <= i < |rest|
        ensures key(s[0]) >= key(rest[i])
      {
        assert rest[i] in multiset(rest);
      }
      [s[0]] + rest
  }

  /** A stable sort by `key`, largest first. */
  function SortDesc<T>(s: seq<T>, key: T -> real): (r: seq<T>)
    ensures SortedDesc(r, key)
    ensures multiset(r) == multiset(s)
  {
    if |s| == 0 then []
    else
      assert s == [s[0]] + s[1..];
      InsertDesc(s[0], SortDesc(s[1..], key), key)
  }

  /** The elements of `s` whose key is `v`, in order. */
  function WithKey<T>(s: seq<T>, key: T -> real, v: real): (r: seq<T>)
    ensures |r| <= |s|
  {
    if |s| == 0 then [] else (if key(s[0]) == v then [s[0]] else []) + WithKey(s[1..], key, v)
  }

  /** `WithKey` of a sequence with one element in front. */
  lemma WithKeyCons<T>(a: T, s: seq<T>, key: T -> real, v: real)
    ensures WithKey([a] + s, key, v) == (if key(a) == v then [a] else []) + WithKey(s, key, v)
  {
    assert ([a] + s)[1..] == s;
  }

  /** Inserting `x` puts it ahead of every element with the same key. */
  lemma {:induction false} InsertDescStable<T>(x: T, s: seq<T>, key: T -> real, v: real)
    requires SortedDesc(s, key)
    ensures WithKey(InsertDesc(x, s, key), key, v)
            == (if key(x) == v then [x] else []) + WithKey(s, key, v)
  {
    if |s| == 0 {
      WithKeyCons(x, s, key, v);
    } else if key(s[0]) <= key(x) {
      WithKeyCons(x, s, key, v);
    } else {
      var rest := InsertDesc(x, s[1..], key);
      assert InsertDesc(x, s, key) == [s[0]] + rest;
      var w := WithKey(s[1..], key, v);
      InsertDescStable(x, s[1..], key, v);
      WithKeyCons(s[0], rest, key, v);
      assert s == [s[0]] + s[1..];
      WithKeyCons(s[0], s[1..], key, v);
      if key(x) == v {
        // `s[0]` ranks strictly above `x`, so it is not collected.
        assert WithKey(s, key, v) == w;
        assert WithKey([s[0]] + rest, key, v) == WithKey(rest, key, v);
      } else {
        assert WithKey(rest, key, v) == w;
      }
    }
  }

  /** The sort is stable: elements with equal keys keep their relative
      order, as with Python's `list.sort`. */
  lemma {:induction false} SortDescStable<T>(s: seq<T>, key: T -> real, v: real)
    ensures WithKey(SortDesc(s, key), key, v) == WithKey(s, key, v)
  {
    if |s| > 0 {
      SortDescStable(s[1..], key, v);
      InsertDescStable(s[0], SortDesc(s[1..], key), key, v);
    }
  }

  /** `SortDescStable` for every key value at once. */
  lemma SortDescStableAll<T>(s: seq<T>, key: T -> real)
    ensures forall v :: WithKey(SortDesc(s, key), key, v) == WithKey(s, key, v)
  {
    forall v
      ensures WithKey(SortDesc(s, key), key, v) == WithKey(s, key, v)
    {
      SortDescStable(s, key, v);
    }
  }

  /** The elements with key `v` in a prefix of `s` are the first of those
      in `s`: cutting a sequence short keeps the order among equal keys. */
  lemma {:induction false} WithKeyPrefix<T>(s: seq<T>, n: nat, key: T -> real, v: real)
    requires n <= |s|
    ensures |WithKey(s[..n], key, v)| <= |WithKey(s, key, v)|
    ensures WithKey(s[..n], key, v) == WithKey(s, key, v)[..|WithKey(s[..n], key, v)|]
    ensures WithKey(s[..n], key, v) <= WithKey(s, key, v)
  {
    if n > 0 {
      WithKeyPrefix(s[1..], n - 1, key, v);
      assert s[..n] == [s[0]] + s[1..][..n - 1];
      assert s == [s[0]] + s[1..];
      WithKeyCons(s[0], s[1..][..n - 1], key, v);
      WithKeyCons(s[0], s[1..], key, v);
    }
  }

  /** Python's `s[:k]`, where a negative `k` counts from the end. */
  function SliceTo<T>(s: seq<T>, k: int): (r: seq<T>)
    ensures |r| <= |s| && r == s[..|r|]
    ensures k >= 0 ==> |r| == (if k < |s| then k else |s|)
    ensures k < 0 ==> |r| == (if |s| + k > 0 then |s| + k else 0)
  {
    if k >= 0 then (if k < |s| then s[..k] else s)
    else if |s| + k > 0 then s[..|s| + k] else []
  }

  /** `top` is drawn from `all`, and nothing left out of it ranks above
      anything in it. */
  ghost predicate IsTopOf<T>(top: seq<T>, all: seq<T>, key: T -> real) {
    && multiset(top) <= multiset(all)
    && forall x, y :: x in top && y in multiset(all) - multiset(top) ==> key(x) >= key(y)
  }

  /** Any prefix of a sorted sequence is its top part. */
  lemma PrefixOfSortedIsTop<T>(s: seq<T>, k: nat, key: T -> real)
    requires SortedDesc(s, key)
    requires k <= |s|
    ensures IsTopOf(s[..k], s, key)
  {
    assert s == s[..k] + s[k..];
    assert multiset(s) - multiset(s[..k]) == multiset(s[k..]);
    forall x, y | x in s[..k] && y in multiset(s) - multiset(s[..k])
      ensures key(x) >= key(y)
    {
      var i :| 0 <= i < k && s[..k][i] == x;
      assert y in s[k..];
      var j :| 0 <= j < |s| - k && s[k..][j] == y;
      assert s[i] == x && s[k + j] == y;
    }
  }

  /** Sorting then slicing keeps the top of the input. */
  lemma SortedSliceIsTop<T>(s: seq<T>, k: int, key: T -> real)
    ensures IsTopOf(SliceTo(SortDesc(s, key), k), s, key)
  {
    var sorted := SortDesc(s, key);
    var top := SliceTo(sorted, k);
    PrefixOfSortedIsTop(sorted, |top|, key);
  }

  /** Sort-then-slice keeps, for every key value, the first of the
      elements with that key, in their input order. */
  lemma SortedSliceStable<T>(s: seq<T>, k: int, key: T -> real)
    ensures forall v :: WithKey(SliceTo(SortDesc(s, key), k), key, v) <= WithKey(s, key, v)
  {
    var sorted := SortDesc(s, key);
    var top := SliceTo(sorted, k);
    forall v
      ensures WithKey(top, key, v) <= WithKey(s, key, v)
    {
      SortDescStable(s, key, v);
      WithKeyPrefix(sorted, |top|, key, v);
    }
  }
}
