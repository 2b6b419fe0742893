/** `Array.prototype.sort((a, b) => key(b) - key(a))`. JavaScript's sort is
    stable, so with this comparator the result is the one ordering that is
    non-increasing in `key` and keeps elements of equal key in their original
    order. The insertion sort below orders a permutation of its input
    (`SortDescPermutes`, `SortDescSorted`) and keeps equal keys in order
    (`SortDescStable`). */
module Sorting {

  /** Non-increasing in `key`. */
  ghost predicate SortedDesc<T>(s: seq<T>, key: T -> real)
  {
    forall i, j :: 0 <= i < j < |s| ==> key(s[i]) >= key(s[j])
  }

  /** The head of a sorted sequence has the largest key. */
  lemma SortedHead<T>(s: seq<T>, key: T -> real, x: T)
    requires SortedDesc(s, key) && x in s
    ensures key(s[0]) >= key(x)
  {
    var i :| 0 <= i < |s| && s[i] == x;
    if i > 0 {
      assert key(s[0]) >= key(s[i]);
    }
  }

  /** The elements of `s`, each passed through `f`, in order. */
  function Image<T, U>(s: seq<T>, f: T -> U): (r: seq<U>)
    ensures |r| == |s|
    ensures forall i :: 0 <= i < |s| ==> r[i] == f(s[i])
  {
    seq(|s|, i requires 0 <= i < |s| => f(s[i]))
  }

  /** Puts `x` in front of the first element whose key is not larger than its own. */
  function Insert<T>(x: T, s: seq<T>, key: T -> real): (r: seq<T>)
    ensures |r| == |s| + 1
    decreases |s|
  {
    if s == [] || key(x) >= key(s[0]) then [x] + s else [s[0]] + Insert(x, s[1..], key)
  }

  /** Inserting adds `x` and nothing else. */
  lemma {:induction false} InsertPermutes<T>(x: T, s: seq<T>, key: T -> real)
    ensures multiset(Insert(x, s, key)) == multiset(s) + multiset{x}
    decreases |s|
  {
    if s != [] && key(x) < key(s[0]) {
      InsertPermutes(x, s[1..], key);
      assert s == [s[0]] + s[1..];
    }
  }

  /** Inserting into an ordered sequence keeps it ordered. */
  lemma {:induction false} InsertSorted<T>(x: T, s: seq<T>, key: T -> real)
    requires SortedDesc(s, key)
    ensures SortedDesc(Insert(x, s, key), key)
    decreases |s|
  {
    if s != [] && key(x) < key(s[0]) {
      var tail := s[1..];
      var rest := Insert(x, tail, key);
      InsertSorted(x, tail, key);
      assert key(rest[0]) <= key(s[0]) by {
        if tail != [] && key(x) < key(tail[0]) {
          assert rest[0] == tail[0] == s[1];
        }
      }
      var r := [s[0]] + rest;
      forall i, j | 0 <= i < j < |r|
        ensures key(r[i]) >= key(r[j])
      {
        if i == 0 && j > 1 {
          assert key(rest[0]) >= key(rest[j - 1]);
        }
      }
    }
  }

  /** The stable sort, descending by `key`. `SortDescPermutes` and
      `SortDescSorted` state that it orders a permutation of `s`. */
  function SortDesc<T>(s: seq<T>, key: T -> real): (r: seq<T>)
    ensures |r| == |s|
  {
    if s == [] then [] else Insert(s[0], SortDesc(s[1..], key), key)
  }

  /** The sort neither adds nor drops an element. */
  lemma {:induction false} SortDescPermutes<T>(s: seq<T>, key: T -> real)
    ensures multiset(SortDesc(s, key)) == multiset(s)
  {
    if s != [] {
      SortDescPermutes(s[1..], key);
      InsertPermutes(s[0], SortDesc(s[1..], key), key);
      assert s == [s[0]] + s[1..];
    }
  }

  /** The sort orders its input. */
  lemma {:induction false} SortDescSorted<T>(s: seq<T>, key: T -> real)
    ensures SortedDesc(SortDesc(s, key), key)
  {
    if s != [] {
      SortDescSorted(s[1..], key);
      InsertSorted(s[0], SortDesc(s[1..], key), key);
    }
  }

  /** Inserting `x` adds `f(x)` to the multiset of images and nothing else. */
  lemma {:induction false} InsertImage<T, U>(x: T, s: seq<T>, key: T -> real, f: T -> U)
    ensures multiset(Image(Insert(x, s, key), f)) == multiset(Image(s, f)) + multiset{f(x)}
    decreases |s|
  {
    if s == [] || key(x) >= key(s[0]) {
      assert Image([x] + s, f) == [f(x)] + Image(s, f);
    } else {
      InsertImage(x, s[1..], key, f);
      assert Image([s[0]] + Insert(x, s[1..], key), f) == [f(s[0])] + Image(Insert(x, s[1..], key), f);
      assert Image(s, f) == [f(s[0])] + Image(s[1..], f);
    }
  }

  /** Sorting permutes the images (ids, patents, ...) of the elements too. */
  lemma {:induction false} SortDescImage<T, U>(s: seq<T>, key: T -> real, f: T -> U)
    ensures multiset(Image(SortDesc(s, key), f)) == multiset(Image(s, f))
  {
    if s != [] {
      SortDescImage(s[1..], key, f);
      InsertImage(s[0], SortDesc(s[1..], key), key, f);
      assert Image(s, f) == [f(s[0])] + Image(s[1..], f);
    }
  }

  /** Sorting leaves an already ordered sequence alone; in particular
      elements with equal keys keep their order, and sorting twice is
      sorting once. */
  lemma {:induction false} SortDescOfSorted<T>(s: seq<T>, key: T -> real)
    requires SortedDesc(s, key)
    ensures SortDesc(s, key) == s
  {
    if s != [] {
      SortDescOfSorted(s[1..], key);
      assert [s[0]] + s[1..] == s;
    }
  }

  /** The elements of `s` whose key is `k`, in their order in `s`. */
  function WithKey<T>(s: seq<T>, key: T -> real, k: real): seq<T>
  {
    if s == [] then [] else (if key(s[0]) == k then [s[0]] else []) + WithKey(s[1..], key, k)
  }

  /** Inserting `x` puts it in front of every element of equal key: among the
      elements of key `k`, `x` comes first if it has that key, and the others
      keep their order. */
  lemma {:induction false} InsertWithKey<T>(x: T, s: seq<T>, key: T -> real, k: real)
    ensures WithKey(Insert(x, s, key), key, k) == (if key(x) == k then [x] else []) + WithKey(s, key, k)
    decreases |s|
  {
    var r := Insert(x, s, key);
    if s == [] || key(x) >= key(s[0]) {
      assert r[0] == x && r[1..] == s;
    } else {
      InsertWithKey(x, s[1..], key, k);
      assert r[0] == s[0] && r[1..] == Insert(x, s[1..], key);
    }
  }

  /** The sort is stable: elements of equal key come out in the order they
      went in. */
  lemma {:induction false} SortDescStable<T>(s: seq<T>, key: T -> real, k: real)
    ensures WithKey(SortDesc(s, key), key, k) == WithKey(s, key, k)
  {
    if s != [] {
      SortDescStable(s[1..], key, k);
      InsertWithKey(s[0], SortDesc(s[1..], key), key, k);
    }
  }

  /** The first `n` elements of the sorted sequence are in order and are
      some of the elements of `s`. */
  lemma SortedPrefix<T>(s: seq<T>, key: T -> real, n: nat)
    requires n <= |s|
    ensures SortedDesc(SortDesc(s, key)[..n], key)
    ensures multiset(SortDesc(s, key)[..n]) <= multiset(s)
  {
    var sorted := SortDesc(s, key);
    SortDescSorted(s, key);
    SortDescPermutes(s, key);
    PrefixOf(sorted, n);
  }

  lemma PrefixOf<T>(s: seq<T>, n: nat)
    requires n <= |s|
    ensures multiset(s[..n]) <= multiset(s)
  {
    assert s == s[..n] + s[n..];
  }

  /** Keeping the first `n` elements of the sorted sequence keeps the best
      ones: nothing dropped has a larger key than anything kept. */
  lemma SortedPrefixIsBest<T>(s: seq<T>, key: T -> real, n: nat)
    requires n <= |s|
    ensures var kept := SortDesc(s, key)[..n];
            forall x, y :: x in multiset(s) - multiset(kept) && y in kept ==> key(y) >= key(x)
  {
    var sorted := SortDesc(s, key);
    var kept := sorted[..n];
    SortDescSorted(s, key);
    SortDescPermutes(s, key);
    SplitDifference(sorted, n);
    SortedSplit(sorted, key, n);
    forall x, y | x in multiset(s) - multiset(kept) && y in kept
      ensures key(y) >= key(x)
    {
      assert x in multiset(sorted[n..]);
    }
  }

  /** In a sorted sequence, everything before position `n` has a key at
      least as large as everything from `n` on. */
  lemma SortedSplit<T>(sorted: seq<T>, key: T -> real, n: nat)
    requires SortedDesc(sorted, key) && n <= |sorted|
    ensures forall x, y :: x in sorted[n..] && y in sorted[..n] ==> key(y) >= key(x)
  {
    forall x, y | x in sorted[n..] && y in sorted[..n]
      ensures key(y) >= key(x)
    {
      var j :| 0 <= j < |sorted| - n && sorted[n..][j] == x;
      var i :| 0 <= i < n && sorted[..n][i] == y;
      assert sorted[i] == y && sorted[n + j] == x;
    }
  }

  /** What the first `n` elements leave over are the others. */
  lemma SplitDifference<T>(s: seq<T>, n: nat)
    requires n <= |s|
    ensures multiset(s) - multiset(s[..n]) == multiset(s[n..])
  {
    assert s == s[..n] + s[n..];
  }
}
