/** Python's stable sort by a key, as a pure insertion sort and as an
    in-place insertion sort on an array. A stable sort by a key has exactly one
    possible result, so any stable algorithm (Python uses Timsort) produces
    the same sequence as this one. */
module StableSort {

  /** Every element's key is at most the key of every later element. */
  ghost predicate SortedBy<T>(s: seq<T>, key: T -> real)
  {
    forall i, j :: 0 <= i < j < |s| ==> key(s[i]) <= key(s[j])
  }

  /** The elements of `s` whose key is `v`, in their order in `s`. */
  function WithKey<T>(s: seq<T>, key: T -> real, v: real): seq<T>
  {
    if s == [] then []
    else if key(s[0]) == v then [s[0]] + WithKey(s[1..], key, v)
    else WithKey(s[1..], key, v)
  }

  /** Inserts `x` into `s` just before the first element whose key is
      strictly greater than the key of `x`, that is, after every element with
      an equal key. */
  function InsertBy<T>(s: seq<T>, x: T, key: T -> real): (r: seq<T>)
    ensures |r| == |s| + 1
  {
    if s == [] then [x]
    else if key(x) < key(s[0]) then [x] + s
    else [s[0]] + InsertBy(s[1..], x, key)
  }

  /** The stable sort of `s` by `key`: each element in turn is inserted into
      the sorted prefix before it. */
  function SortBy<T>(s: seq<T>, key: T -> real): (r: seq<T>)
    ensures |r| == |s|
  {
    if s == [] then []
    else InsertBy(SortBy(s[..|s| - 1], key), s[|s| - 1], key)
  }

  lemma {:induction false} InsertByPermutes<T>(s: seq<T>, x: T, key: T -> real)
    ensures multiset(InsertBy(s, x, key)) == multiset(s) + multiset{x}
  {
    if s != [] && key(s[0]) <= key(x) {
      InsertByPermutes(s[1..], x, key);
      assert s == [s[0]] + s[1..];
    }
  }

  /** The sort is a permutation of its input. */
  lemma {:induction false} SortByPermutes<T>(s: seq<T>, key: T -> real)
    ensures multiset(SortBy(s, key)) == multiset(s)
  {
    if s != [] {
      var init := s[..|s| - 1];
      SortByPermutes(init, key);
      InsertByPermutes(SortBy(init, key), s[|s| - 1], key);
      assert s == init + [s[|s| - 1]];
    }
  }

  lemma {:induction false} InsertBySorted<T>(s: seq<T>, x: T, key: T -> real)
    requires SortedBy(s, key)
    ensures SortedBy(InsertBy(s, x, key), key)
  {
    if s != [] && key(s[0]) <= key(x) {
      InsertBySorted(s[1..], x, key);
      InsertByPermutes(s[1..], x, key);
      var r := InsertBy(s[1..], x, key);
      forall y | y in multiset(r) ensures key(s[0]) <= key(y) {
        if y != x {
          assert y in multiset(s[1..]);
        }
      }
      forall j | 0 <= j < |r| ensures key(s[0]) <= key(r[j]) {
        assert r[j] in multiset(r);
      }
    }
  }

  /** The result of `SortBy` is ordered by key. */
  lemma {:induction false} SortBySorted<T>(s: seq<T>, key: T -> real)
    ensures SortedBy(SortBy(s, key), key)
  {
    if s != [] {
      SortBySorted(s[..|s| - 1], key);
      InsertBySorted(SortBy(s[..|s| - 1], key), s[|s| - 1], key);
    }
  }

  lemma {:induction false} InsertByWithKey<T>(s: seq<T>, x: T, key: T -> real, v: real)
    requires SortedBy(s, key)
    ensures WithKey(InsertBy(s, x, key), key, v)
         == WithKey(s, key, v) + (if key(x) == v then [x] else [])
  {
    if s == [] {
    } else if key(x) < key(s[0]) {
      assert ([x] + s)[1..] == s;
      if key(x) == v {
        NoneWithKey(s, key, v);
      }
    } else {
      assert ([s[0]] + InsertBy(s[1..], x, key))[1..] == InsertBy(s[1..], x, key);
      InsertByWithKey(s[1..], x, key, v);
    }
  }

  /** In a sorted sequence whose first key exceeds `v`, no key equals `v`. */
  lemma {:induction false} NoneWithKey<T>(s: seq<T>, key: T -> real, v: real)
    requires SortedBy(s, key)
    requires s != [] && v < key(s[0])
    ensures WithKey(s, key, v) == []
  {
    if |s| > 1 {
      NoneWithKey(s[1..], key, v);
    }
  }

  lemma {:induction false} WithKeyAppend<T>(s: seq<T>, x: T, key: T -> real, v: real)
    ensures WithKey(s + [x], key, v) == WithKey(s, key, v) + (if key(x) == v then [x] else [])
  {
    if s == [] {
      assert s + [x] == [x];
    } else {
      assert (s + [x])[1..] == s[1..] + [x];
      WithKeyAppend(s[1..], x, key, v);
    }
  }

  /** Stability: among the elements with any one key value, the sort keeps
      their original order. */
  lemma {:induction false} SortByStable<T>(s: seq<T>, key: T -> real, v: real)
    ensures WithKey(SortBy(s, key), key, v) == WithKey(s, key, v)
  {
    if s != [] {
      var init, last := s[..|s| - 1], s[|s| - 1];
      SortByStable(init, key, v);
      SortBySorted(init, key);
      InsertByWithKey(SortBy(init, key), last, key, v);
      assert init + [last] == s;
      WithKeyAppend(init, last, key, v);
    }
  }

  /** `InsertBy` passes over a prefix whose keys are all at most the key of
      `x`. */
  lemma {:induction false} InsertByAfter<T>(p: seq<T>, q: seq<T>, x: T, key: T -> real)
    requires forall k :: 0 <= k < |p| ==> key(p[k]) <= key(x)
    ensures InsertBy(p + q, x, key) == p + InsertBy(q, x, key)
  {
    if p != [] {
      assert (p + q)[0] == p[0];
      assert (p + q)[1..] == p[1..] + q;
      forall k | 0 <= k < |p| - 1 ensures key(p[1..][k]) <= key(x) {
        assert p[1..][k] == p[k + 1];
      }
      InsertByAfter(p[1..], q, x, key);
    } else {
      assert p + q == q;
    }
  }

  /** `InsertBy` puts `x` first when the first key is strictly greater. */
  lemma InsertByFront<T>(s: seq<T>, x: T, key: T -> real)
    requires s == [] || key(x) < key(s[0])
    ensures InsertBy(s, x, key) == [x] + s
  {
  }

  /** `InsertBy` places `x` at any position `j` that separates the keys not
      above it from those strictly above it. */
  lemma InsertByAt<T>(s: seq<T>, x: T, j: nat, key: T -> real)
    requires j <= |s|
    requires forall k :: 0 <= k < j ==> key(s[k]) <= key(x)
    requires j == |s| || key(x) < key(s[j])
    ensures InsertBy(s, x, key) == s[..j] + ([x] + s[j..])
  {
    var lo, hi := s[..j], s[j..];
    assert lo + hi == s;
    forall k | 0 <= k < |lo| ensures key(lo[k]) <= key(x) {
      assert lo[k] == s[k];
    }
    InsertByAfter(lo, hi, x, key);
    InsertByFront(hi, x, key);
  }

  /** Moves `a[lo..hi]` one place to the right, over `a[hi]`. */
  method ShiftRight<T>(a: array<T>, lo: nat, hi: nat)
    requires lo <= hi < a.Length
    modifies a
    ensures a[..lo + 1] == old(a[..lo + 1])
    ensures a[lo + 1..hi + 1] == old(a[lo..hi])
    ensures a[hi + 1..] == old(a[hi + 1..])
  {
    var h := hi;
    while h > lo
      invariant lo <= h <= hi
      invariant a[..h + 1] == old(a[..h + 1])
      invariant a[h + 1..hi + 1] == old(a[h..hi])
      invariant a[hi + 1..] == old(a[hi + 1..])
    {
      a[h] := a[h - 1];
      h := h - 1;
    }
  }

  /** Inserts `a[i]` into `a[..i]` at the place `InsertBy` chooses: before
      the first element whose key is strictly greater. This is one step of
      insertion sort. */
  method InsertInPlace<T>(a: array<T>, i: nat, key: T -> real)
    requires i < a.Length
    modifies a
    ensures a[..i + 1] == InsertBy(old(a[..i]), old(a[i]), key)
    ensures a[i + 1..] == old(a[i + 1..])
  {
    ghost var prefix := a[..i];
    var x := a[i];
    var j := 0;
    while j < i && key(a[j]) <= key(x)
      invariant 0 <= j <= i
      invariant forall k :: 0 <= k < j ==> key(prefix[k]) <= key(x)
    {
      j := j + 1;
    }
    ShiftRight(a, j, i);
    assert a[..j] == prefix[..j] && a[j + 1..i + 1] == prefix[j..];
    ghost var shifted := a[..];
    a[j] := x;
    assert a[..j] == shifted[..j] && a[j + 1..i + 1] == shifted[j + 1..i + 1];
    InsertByAt(prefix, x, j, key);
    assert a[..i + 1] == a[..j] + ([a[j]] + a[j + 1..i + 1]);
  }

  /** Sorts `a` in place, stably, by `key`. */
  method SortInPlace<T>(a: array<T>, key: T -> real)
    modifies a
    ensures a[..] == SortBy(old(a[..]), key)
  {
    ghost var orig := a[..];
    var i := 0;
    while i < a.Length
      invariant 0 <= i <= a.Length
      invariant a[..i] == SortBy(orig[..i], key)
      invariant a[i..] == orig[i..]
    {
      InsertInPlace(a, i, key);
      assert orig[..i + 1][..i] == orig[..i];
      assert orig[i] == orig[i..][0];
      i := i + 1;
    }
    assert orig[..a.Length] == orig;
    assert a[..] == a[..a.Length];
  }
}
