/** `argsort`: the indices of a sequence, ordered by the values at them. */
module ArgSorting {
  import opened StableSort

  /** The indices `0, 1, ..., n - 1` in ascending order. */
  function Indices(n: nat): (r: seq<int>)
    ensures |r| == n
    ensures forall i :: 0 <= i < n ==> r[i] == i
  {
    seq(n, i => i)
  }

  /** The sort key of an index: the value of `s` stored there. */
  function ValueAt(s: seq<int>): int -> real
  {
    i => if 0 <= i < |s| then s[i] as real else 0.0
  }

  /** Python's `sorted(range(len(s)), key=s.__getitem__)`. */
  function ArgSort(s: seq<int>): (r: seq<int>)
    ensures |r| == |s|
  {
    SortBy(Indices(|s|), ValueAt(s))
  }

  /** Index `a` comes before index `b` along `argsort`: a smaller value, or an
      equal value and a smaller index. */
  predicate Precedes(s: seq<int>, a: int, b: int)
    requires 0 <= a < |s| && 0 <= b < |s|
  {
    s[a] < s[b] || (s[a] == s[b] && a < b)
  }

  ghost predicate StrictlyOrdered(s: seq<int>, r: seq<int>)
  {
    && (forall k :: 0 <= k < |r| ==> 0 <= r[k] < |s|)
    && (forall p, q :: 0 <= p < q < |r| ==> Precedes(s, r[p], r[q]))
  }

  lemma {:induction false} InsertLargestIndex(s: seq<int>, xs: seq<int>, n: int)
    requires 0 <= n < |s|
    requires StrictlyOrdered(s, xs)
    requires forall k :: 0 <= k < |xs| ==> xs[k] < n
    ensures StrictlyOrdered(s, InsertBy(xs, n, ValueAt(s)))
  {
    var key := ValueAt(s);
    if xs != [] && key(xs[0]) <= key(n) {
      var t := xs[1..];
      assert StrictlyOrdered(s, t) by {
        forall p, q | 0 <= p < q < |t| ensures Precedes(s, t[p], t[q]) {
          assert t[p] == xs[p + 1] && t[q] == xs[q + 1];
        }
      }
      InsertLargestIndex(s, t, n);
      InsertByPermutes(t, n, key);
      var r := InsertBy(t, n, key);
      forall j | 0 <= j < |r| ensures Precedes(s, xs[0], r[j]) {
        assert r[j] in multiset(r);
        if r[j] != n {
          assert r[j] in multiset(t);
          var k :| 0 <= k < |t| && t[k] == r[j];
          assert xs[k + 1] == r[j];
        }
      }
      assert InsertBy(xs, n, key) == [xs[0]] + r;
    }
  }

  /** The result is a permutation of the indices of `s`. */
  lemma ArgSortPermutes(s: seq<int>)
    ensures |ArgSort(s)| == |s|
    ensures multiset(ArgSort(s)) == multiset(Indices(|s|))
  {
    SortByPermutes(Indices(|s|), ValueAt(s));
  }

  /** Along the result the values never decrease, and indices holding equal
      values keep their ascending order: the sort is stable. */
  lemma {:induction false} ArgSortOrdered(s: seq<int>)
    ensures StrictlyOrdered(s, ArgSort(s))
  {
    ArgSortPrefixOrdered(s, |s|);
    assert Indices(|s|)[..|s|] == Indices(|s|);
  }

  lemma {:induction false} ArgSortPrefixOrdered(s: seq<int>, n: nat)
    requires n <= |s|
    ensures StrictlyOrdered(s, SortBy(Indices(|s|)[..n], ValueAt(s)))
  {
    if n > 0 {
      var ix := Indices(|s|)[..n];
      assert ix[..n - 1] == Indices(|s|)[..n - 1];
      ArgSortPrefixOrdered(s, n - 1);
      var prev := SortBy(ix[..n - 1], ValueAt(s));
      SortedPrefixBelow(s, n - 1);
      InsertLargestIndex(s, prev, n - 1);
    }
  }

  lemma SortedPrefixBelow(s: seq<int>, m: nat)
    requires m <= |s|
    ensures forall k :: 0 <= k < m ==> SortBy(Indices(|s|)[..m], ValueAt(s))[k] < m
  {
    var ix := Indices(|s|)[..m];
    var r := SortBy(ix, ValueAt(s));
    SortByPermutes(ix, ValueAt(s));
    forall k | 0 <= k < m ensures r[k] < m {
      assert r[k] in multiset(ix);
    }
  }

  lemma OrderedTail(s: seq<int>, r: seq<int>)
    requires StrictlyOrdered(s, r) && r != []
    ensures StrictlyOrdered(s, r[1..])
  {
    var t := r[1..];
    forall p, q | 0 <= p < q < |t| ensures Precedes(s, t[p], t[q]) {
      assert t[p] == r[p + 1] && t[q] == r[q + 1];
    }
  }

  /** Two strictly ordered sequences with the same elements start alike. */
  lemma OrderedSameHead(s: seq<int>, r1: seq<int>, r2: seq<int>)
    requires StrictlyOrdered(s, r1) && StrictlyOrdered(s, r2)
    requires forall x :: x in r1 <==> x in r2
    requires r1 != []
    ensures r2 != [] && r1[0] == r2[0]
  {
    assert r1[0] in r2;
    assert r2[0] in r1;
    var p :| 0 <= p < |r1| && r1[p] == r2[0];
    var q :| 0 <= q < |r2| && r2[q] == r1[0];
  }

  /** A strictly ordered sequence holds no element twice. */
  lemma OrderedTailMembers(s: seq<int>, r: seq<int>)
    requires StrictlyOrdered(s, r) && r != []
    ensures forall x :: x in r[1..] <==> x in r && x != r[0]
  {
    forall x | x in r[1..] ensures x != r[0] {
      var k :| 0 <= k < |r[1..]| && r[1..][k] == x;
      assert Precedes(s, r[0], r[k + 1]);
    }
    assert r == [r[0]] + r[1..];
  }

  lemma {:induction false} OrderedUnique(s: seq<int>, r1: seq<int>, r2: seq<int>)
    requires StrictlyOrdered(s, r1) && StrictlyOrdered(s, r2)
    requires |r1| == |r2|
    requires forall x :: x in r1 <==> x in r2
    ensures r1 == r2
  {
    if r1 != [] {
      OrderedSameHead(s, r1, r2);
      OrderedTailMembers(s, r1);
      OrderedTailMembers(s, r2);
      OrderedTail(s, r1);
      OrderedTail(s, r2);
      OrderedUnique(s, r1[1..], r2[1..]);
      assert r1 == [r1[0]] + r1[1..] && r2 == [r2[0]] + r2[1..];
    }
  }

  /** `argsort` is characterised by its two properties: a sequence of length
      `|s|` that holds every index of `s`, strictly ordered by (value, index),
      is the result. */
  lemma ArgSortUnique(s: seq<int>, r: seq<int>)
    requires |r| == |s|
    requires forall i :: 0 <= i < |s| ==> i in r
    requires StrictlyOrdered(s, r)
    ensures r == ArgSort(s)
  {
    ArgSortPermutes(s);
    ArgSortOrdered(s);
    var a := ArgSort(s);
    forall x ensures x in r <==> x in a {
      calc {
        x in a;
        x in multiset(a);
        x in multiset(Indices(|s|));
        x in Indices(|s|);
        { if 0 <= x < |s| { assert Indices(|s|)[x] == x; } }
        0 <= x < |s|;
      }
    }
    OrderedUnique(s, r, a);
  }

  // The examples in the documentation of `argsort`, each checked against
  // the characterisation above rather than by unfolding the sort.

  lemma ArgSortEmpty()
    ensures ArgSort([]) == []
  {
  }

  lemma ArgSortExample3()
    ensures ArgSort([3, 1, 2]) == [1, 2, 0]
  {
    ArgSortUnique([3, 1, 2], [1, 2, 0]);
  }

  lemma ArgSortExampleNegative()
    ensures ArgSort([-3, -1, -2]) == [0, 2, 1]
  {
    ArgSortUnique([-3, -1, -2], [0, 2, 1]);
  }

  lemma ArgSortExampleTies()
    ensures ArgSort([4, 2, 2, 3]) == [1, 2, 3, 0]
  {
    ArgSortUnique([4, 2, 2, 3], [1, 2, 3, 0]);
  }

  lemma ArgSortExample7()
    ensures ArgSort([8, 6, 7, 5, 3, 0, 9]) == [5, 4, 3, 1, 2, 0, 6]
  {
    var s := [8, 6, 7, 5, 3, 0, 9];
    var r := [5, 4, 3, 1, 2, 0, 6];
    assert StrictlyOrdered(s, r) by {
      forall q | 0 < q < 7 ensures s[r[q - 1]] < s[r[q]] {}
      forall p, q | 0 <= p < q < 7 ensures s[r[p]] < s[r[q]] {
        if q - p > 1 {
          assert s[r[p]] < s[r[q - 1]];
        }
      }
    }
    ArgSortUnique(s, r);
  }
}
