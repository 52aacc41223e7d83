/** `build_tree`: median splitting on alternating axes, as a pure function
    and as the in-place procedure of the source. */
module KdBuild {
  import opened Records
  import opened StableSort
  import opened KdNodes

  /** The sort key of depth `depth`: the axis coordinate of a record. */
  function AxisKey(depth: nat): MunicipalTree -> real
  {
    t => Axis(t, depth)
  }

  /** The tree built from `data` at depth `depth`: the data sorted stably on
      the depth's axis, the record at index `len / 2` as the node with its
      axis value as pivot, the records before it as the left subtree and
      those after it as the right subtree, both one level deeper. */
  function Build(data: seq<MunicipalTree>, depth: nat): (r: KDTNode)
    ensures Size(r) == |data|
    decreases |data|
  {
    if data == [] then Empty
    else
      var s := SortBy(data, AxisKey(depth));
      var m := |s| / 2;
      Node(s[m], Axis(s[m], depth), Build(s[..m], depth + 1), Build(s[m + 1..], depth + 1))
  }

  /** Cutting a sequence around index `m` keeps its elements. */
  lemma SplitMultiset<T>(s: seq<T>, m: nat)
    requires m < |s|
    ensures multiset(s) == multiset(s[..m]) + multiset{s[m]} + multiset(s[m + 1..])
  {
    assert s == s[..m] + [s[m]] + s[m + 1..];
  }

  /** In a sorted sequence, the keys before index `m` are at most the key at
      `m`, and the keys after it at least that key. */
  lemma SortedAroundMedian<T>(s: seq<T>, m: nat, key: T -> real)
    requires m < |s|
    requires SortedBy(s, key)
    ensures forall y | y in multiset(s[..m]) :: key(y) <= key(s[m])
    ensures forall y | y in multiset(s[m + 1..]) :: key(y) >= key(s[m])
  {
    forall y | y in multiset(s[..m]) ensures key(y) <= key(s[m]) {
      var k :| 0 <= k < m && s[..m][k] == y;
      assert key(s[k]) <= key(s[m]);
    }
    forall y | y in multiset(s[m + 1..]) ensures key(y) >= key(s[m]) {
      var k :| 0 <= k < |s| - m - 1 && s[m + 1..][k] == y;
      assert key(s[m]) <= key(s[m + 1 + k]);
    }
  }

  /** The tree holds exactly the input records: nothing lost, nothing
      duplicated. */
  lemma {:induction false} BuildElements(data: seq<MunicipalTree>, depth: nat)
    ensures Elements(Build(data, depth)) == multiset(data)
    decreases |data|
  {
    if data != [] {
      var s := SortBy(data, AxisKey(depth));
      var m := |s| / 2;
      var t := Build(data, depth);
      assert t == Node(s[m], Axis(s[m], depth), Build(s[..m], depth + 1), Build(s[m + 1..], depth + 1));
      BuildElements(s[..m], depth + 1);
      BuildElements(s[m + 1..], depth + 1);
      SortByPermutes(data, AxisKey(depth));
      SplitMultiset(s, m);
    }
  }

  /** The root of a built tree has its record's coordinate as pivot, the
      records at most the pivot on its left and those at least the pivot on
      its right. */
  lemma BuildSplitsAtPivot(data: seq<MunicipalTree>, depth: nat)
    requires data != []
    ensures var t := Build(data, depth);
      && t.Node?
      && t.pivot == Axis(t.tree, depth)
      && (forall y | y in Elements(t.left) :: Axis(y, depth) <= t.pivot)
      && (forall y | y in Elements(t.right) :: Axis(y, depth) >= t.pivot)
  {
    var key := AxisKey(depth);
    var s := SortBy(data, key);
    var m := |s| / 2;
    BuildStep(data, depth, s);
    SortBySorted(data, key);
    SortedAroundMedian(s, m, key);
    BuildElements(s[..m], depth + 1);
    BuildElements(s[m + 1..], depth + 1);
  }

  /** Every node of the built tree satisfies the k-d invariant. */
  lemma {:induction false} BuildPartitioned(data: seq<MunicipalTree>, depth: nat)
    ensures Partitioned(Build(data, depth), depth)
    decreases |data|
  {
    if data != [] {
      var s := SortBy(data, AxisKey(depth));
      var m := |s| / 2;
      var t := Build(data, depth);
      BuildStep(data, depth, s);
      BuildSplitsAtPivot(data, depth);
      BuildPartitioned(s[..m], depth + 1);
      BuildPartitioned(s[m + 1..], depth + 1);
      PartitionedNode(t.tree, depth, t.left, t.right);
    }
  }

  /** A node whose pivot is its record's coordinate, with every record of
      the left subtree at most the pivot and every record of the right one at
      least the pivot, satisfies the k-d invariant when both subtrees do. */
  lemma PartitionedNode(x: MunicipalTree, depth: nat, l: KDTNode, r: KDTNode)
    requires forall y | y in Elements(l) :: Axis(y, depth) <= Axis(x, depth)
    requires forall y | y in Elements(r) :: Axis(y, depth) >= Axis(x, depth)
    requires Partitioned(l, depth + 1) && Partitioned(r, depth + 1)
    ensures Partitioned(Node(x, Axis(x, depth), l, r), depth)
  {
    var t := Node(x, Axis(x, depth), l, r);
    assert forall y | y in Elements(t.left) :: Axis(y, depth) <= t.pivot;
    assert forall y | y in Elements(t.right) :: Axis(y, depth) >= t.pivot;
  }

  /** Each node splits its records at the median: the left subtree gets
      `n / 2` of them and the right one the rest but the node's own. */
  lemma {:induction false} BuildBalanced(data: seq<MunicipalTree>, depth: nat)
    ensures Balanced(Build(data, depth))
    decreases |data|
  {
    BuildElements(data, depth);
    if data != [] {
      var s := SortBy(data, AxisKey(depth));
      var m := |s| / 2;
      BuildBalanced(s[..m], depth + 1);
      BuildBalanced(s[m + 1..], depth + 1);
    }
  }

  /** The tree is empty exactly when the data is, and otherwise has
      `floor(log2 n) + 1` levels. */
  lemma BuildHeight(data: seq<MunicipalTree>, depth: nat)
    ensures data == [] <==> Build(data, depth) == Empty
    ensures data != [] ==> Height(Build(data, depth)) == Log2(|data|) + 1
  {
    BuildBalanced(data, depth);
    BalancedHeight(Build(data, depth));
  }

  /** When no two records share a latitude or a longitude, the built tree
      sends every record strictly left of a larger pivot, which is what the
      descent of `lookup` assumes. */
  lemma BuildRoutesExactly(data: seq<MunicipalTree>, depth: nat)
    requires DistinctCoordinates(data)
    ensures RoutesExactly(Build(data, depth), depth)
  {
    BuildPartitioned(data, depth);
    BuildElements(data, depth);
    DistinctCoordinatesMultiset(data);
    PartitionedRoutesExactly(Build(data, depth), depth);
  }

  /** The three-record example of the source's documentation: the middle
      latitude goes to the root, the other two become its leaves. */
  lemma BuildExample()
    ensures Build([Oak, Cherry, Maple], 0)
         == Node(Cherry, 2.0, Node(Oak, 1.0, Empty, Empty), Node(Maple, 3.0, Empty, Empty))
  {
    var data, oak, cherry, maple := [Oak, Cherry, Maple], Oak, Cherry, Maple;
    var key := AxisKey(0);
    assert SortBy([oak], key) == [oak];
    assert key(oak) == 1.0 && key(cherry) == 2.0 && key(maple) == 3.0;
    assert SortBy([oak, cherry], key) == [oak, cherry] by {
      assert [oak, cherry][..1] == [oak];
      assert InsertBy([oak], cherry, key) == [oak] + InsertBy([], cherry, key);
    }
    assert SortBy(data, key) == data by {
      assert data[..2] == [oak, cherry];
      assert [oak, cherry][1..] == [cherry];
      assert InsertBy([cherry], maple, key) == [cherry] + InsertBy([], maple, key);
      assert InsertBy([oak, cherry], maple, key) == [oak] + InsertBy([cherry], maple, key);
    }
    assert data[..1] == [oak] && data[2..] == [maple];
    assert SortBy([oak], AxisKey(1)) == [oak];
    assert SortBy([maple], AxisKey(1)) == [maple];
    assert [oak][1..] == [] && [maple][1..] == [];
    assert Build([oak], 1) == Node(oak, 1.0, Empty, Empty);
    assert Build([maple], 1) == Node(maple, 3.0, Empty, Empty);
  }

  /** Three records on one latitude stay in input order under the stable
      sort, so the second becomes the root with pivot 0 and the first its
      left leaf. */
  lemma BuildShapeEqualLatitudes()
    ensures Build([West, Middle, East], 0)
         == Node(Middle, 0.0, Node(West, 0.0, Empty, Empty), Node(East, 2.0, Empty, Empty))
  {
    var data, a, b, c := [West, Middle, East], West, Middle, East;
    var key := AxisKey(0);
    assert key(a) == 0.0 && key(b) == 0.0 && key(c) == 0.0;
    assert SortBy([a], key) == [a];
    assert SortBy([a, b], key) == [a, b] by {
      assert [a, b][..1] == [a];
      assert InsertBy([a], b, key) == [a] + InsertBy([], b, key);
    }
    assert SortBy(data, key) == data by {
      assert data[..2] == [a, b];
      assert [a, b][1..] == [b];
      assert InsertBy([b], c, key) == [b] + InsertBy([], c, key);
      assert InsertBy([a, b], c, key) == [a] + InsertBy([b], c, key);
    }
    assert data[..1] == [a] && data[2..] == [c];
    assert SortBy([a], AxisKey(1)) == [a];
    assert SortBy([c], AxisKey(1)) == [c];
    assert [a][1..] == [] && [c][1..] == [];
    assert Build([a], 1) == Node(a, 0.0, Empty, Empty);
    assert Build([c], 1) == Node(c, 2.0, Empty, Empty);
  }

  /** Records at latitudes -4, 2 and 3, already in order: the middle one is
      the root with pivot 2, the others are leaves with their longitude 0 as
      pivot. */
  lemma BuildFarExample()
    ensures Build([South, Centre, North], 0)
         == Node(Centre, 2.0, Node(South, 0.0, Empty, Empty), Node(North, 0.0, Empty, Empty))
  {
    var data, l, m, rt := [South, Centre, North], South, Centre, North;
    var key := AxisKey(0);
    assert key(l) == -4.0 && key(m) == 2.0 && key(rt) == 3.0;
    assert SortBy([l], key) == [l];
    assert SortBy([l, m], key) == [l, m] by {
      assert [l, m][..1] == [l];
      assert InsertBy([l], m, key) == [l] + InsertBy([], m, key);
    }
    assert SortBy(data, key) == data by {
      assert data[..2] == [l, m];
      assert [l, m][1..] == [m];
      assert InsertBy([m], rt, key) == [m] + InsertBy([], rt, key);
      assert InsertBy([l, m], rt, key) == [l] + InsertBy([m], rt, key);
    }
    assert data[..1] == [l] && data[2..] == [rt];
    assert SortBy([l], AxisKey(1)) == [l];
    assert SortBy([rt], AxisKey(1)) == [rt];
    assert [l][1..] == [] && [rt][1..] == [];
    assert Build([l], 1) == Node(l, 0.0, Empty, Empty);
    assert Build([rt], 1) == Node(rt, 0.0, Empty, Empty);
  }

  /** One step of the construction: the median of the sorted data with
      the constructions of the two halves. */
  lemma BuildStep(data: seq<MunicipalTree>, depth: nat, sorted: seq<MunicipalTree>)
    requires data != [] && sorted == SortBy(data, AxisKey(depth))
    ensures var m := |sorted| / 2;
      Build(data, depth)
        == Node(sorted[m], Axis(sorted[m], depth), Build(sorted[..m], depth + 1), Build(sorted[m + 1..], depth + 1))
  {
  }

  /** A fresh array holding `data[lo..hi]`, as a Python slice copies. */
  method Slice(data: array<MunicipalTree>, lo: nat, hi: nat) returns (part: array<MunicipalTree>)
    requires lo <= hi <= data.Length
    ensures fresh(part)
    ensures part[..] == data[lo..hi]
  {
    part := new MunicipalTree[hi - lo];
    forall i | 0 <= i < hi - lo {
      part[i] := data[lo + i];
    }
  }

  /** `build_tree` as the source writes it: sorts the caller's list in place
      on the depth's axis, then recurses on fresh copies of the two halves. */
  method BuildTree(data: array<MunicipalTree>, depth: nat) returns (node: KDTNode)
    modifies data
    ensures data[..] == SortBy(old(data[..]), AxisKey(depth))
    ensures node == Build(old(data[..]), depth)
    decreases data.Length
  {
    if data.Length == 0 {
      return Empty;
    }
    ghost var given := data[..];
    SortInPlace(data, AxisKey(depth));
    ghost var sorted := data[..];
    var m := data.Length / 2;
    var median := data[m];
    var pivot := Axis(median, depth);
    var lower := Slice(data, 0, m);
    var upper := Slice(data, m + 1, data.Length);
    assert lower[..] == sorted[..m] && upper[..] == sorted[m + 1..];
    var left := BuildTree(lower, depth + 1);
    var right := BuildTree(upper, depth + 1);
    node := Node(median, pivot, left, right);
    BuildStep(given, depth, sorted);
  }
}
