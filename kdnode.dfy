/** The nodes of the k-d tree and the shape properties the construction
    guarantees. */
module KdNodes {
  import opened Records

  /** An optional `_KDTNode`: `Empty` is Python's `None`. A node stores one
      record, its pivot, and its two subtrees. */
  datatype KDTNode =
    | Empty
    | Node(tree: MunicipalTree, pivot: real, left: KDTNode, right: KDTNode)

  /** The number of records in the tree. */
  function Size(t: KDTNode): nat
  {
    match t
    case Empty => 0
    case Node(_, _, l, r) => Size(l) + 1 + Size(r)
  }

  /** The records stored in the tree, with their multiplicities. */
  function Elements(t: KDTNode): (m: multiset<MunicipalTree>)
    ensures |m| == Size(t)
  {
    match t
    case Empty => multiset{}
    case Node(x, _, l, r) => Elements(l) + multiset{x} + Elements(r)
  }

  /** The number of levels: 0 for the empty tree, 1 for a single node. */
  function Height(t: KDTNode): nat
  {
    match t
    case Empty => 0
    case Node(_, _, l, r) => 1 + if Height(l) < Height(r) then Height(r) else Height(l)
  }

  /** The k-d invariant as construction establishes it. A node at depth
      `depth` has its own record's coordinate on that depth's axis as pivot,
      every record on its left has an axis value at most the pivot, every
      record on its right has one at least the pivot. Both bounds are
      non-strict, since records with the pivot's value may fall on either
      side of the median. */
  ghost predicate Partitioned(t: KDTNode, depth: nat)
  {
    match t
    case Empty => true
    case Node(x, pivot, l, r) =>
      && pivot == Axis(x, depth)
      && (forall y | y in Elements(l) :: Axis(y, depth) <= pivot)
      && (forall y | y in Elements(r) :: Axis(y, depth) >= pivot)
      && Partitioned(l, depth + 1)
      && Partitioned(r, depth + 1)
  }

  /** The invariant that the descent of `lookup` trusts: strictly smaller
      axis values on the left, equal or greater ones on the right. */
  ghost predicate RoutesExactly(t: KDTNode, depth: nat)
  {
    match t
    case Empty => true
    case Node(x, pivot, l, r) =>
      && pivot == Axis(x, depth)
      && (forall y | y in Elements(l) :: Axis(y, depth) < pivot)
      && (forall y | y in Elements(r) :: Axis(y, depth) >= pivot)
      && RoutesExactly(l, depth + 1)
      && RoutesExactly(r, depth + 1)
  }

  /** Median splitting: a node over `n` records has `n / 2` of them on its
      left and the other `n - n / 2 - 1` on its right. */
  ghost predicate Balanced(t: KDTNode)
  {
    match t
    case Empty => true
    case Node(_, _, l, r) =>
      && Size(l) == Size(t) / 2
      && Size(r) == Size(t) - Size(t) / 2 - 1
      && Balanced(l)
      && Balanced(r)
  }

  /** The floor of the base-2 logarithm. */
  function Log2(n: nat): nat
    requires n >= 1
  {
    if n == 1 then 0 else 1 + Log2(n / 2)
  }

  lemma {:induction false} Log2Monotonic(m: nat, n: nat)
    requires 1 <= m <= n
    ensures Log2(m) <= Log2(n)
  {
    if m > 1 {
      Log2Monotonic(m / 2, n / 2);
    }
  }

  /** A balanced tree over `n >= 1` records has exactly `floor(log2 n) + 1`
      levels. */
  lemma {:induction false} BalancedHeight(t: KDTNode)
    requires Balanced(t)
    ensures t == Empty ==> Height(t) == 0
    ensures t != Empty ==> Height(t) == Log2(Size(t)) + 1
  {
    if t.Node? {
      var n := Size(t);
      BalancedHeight(t.left);
      BalancedHeight(t.right);
      if Size(t.right) > 0 {
        Log2Monotonic(Size(t.right), Size(t.left));
      }
    }
  }

  /** With pairwise distinct coordinates, the non-strict invariant of
      construction is the strict one that `lookup` trusts: the only record
      with the pivot value is the node's own. */
  lemma {:induction false} PartitionedRoutesExactly(t: KDTNode, depth: nat)
    requires Partitioned(t, depth)
    requires CoordinatesDistinct(Elements(t))
    ensures RoutesExactly(t, depth)
  {
    if t.Node? {
      var x, l, r := t.tree, t.left, t.right;
      forall y | y in Elements(l) ensures Axis(y, depth) < t.pivot {
        if y == x {
          assert false;
        }
      }
      CoordinatesDistinctSub(Elements(l), Elements(t));
      CoordinatesDistinctSub(Elements(r), Elements(t));
      PartitionedRoutesExactly(l, depth + 1);
      PartitionedRoutesExactly(r, depth + 1);
    }
  }
}
