/** `lookup`: the search for a record at given coordinates, following the
    pivots from the root down. */
module KdLookup {
  import opened Records
  import opened KdNodes
  import opened KdBuild

  /** Whether record `t` stands at the query point once both coordinates of
      each are rounded by `round5`, the model of Python's `round(_, 5)`.
      A record matches its own coordinates whatever the rounding. */
  function Matches(t: MunicipalTree, lat: real, lon: real, round5: real -> real): (m: bool)
    ensures t.lat == lat && t.lon == lon ==> m
  {
    round5(lat) == round5(t.lat) && round5(lon) == round5(t.lon)
  }

  /** `_lookup_recursive` as written: stop at a matching record; otherwise go
      left when the query's coordinate on this depth's axis is below the
      pivot, and right when it is equal or greater. */
  function LookupFrom(node: KDTNode, lat: real, lon: real, depth: nat, round5: real -> real): (found: bool)
    ensures found ==> exists y | y in Elements(node) :: Matches(y, lat, lon, round5)
  {
    match node
    case Empty => false
    case Node(x, pivot, l, r) =>
      if Matches(x, lat, lon, round5) then true
      else if QueryAxis(lat, lon, depth) < pivot then LookupFrom(l, lat, lon, depth + 1, round5)
      else LookupFrom(r, lat, lon, depth + 1, round5)
  }

  /** The records on the root-to-leaf path that the descent follows. */
  function DescentPath(node: KDTNode, lat: real, lon: real, depth: nat): (p: seq<MunicipalTree>)
    ensures |p| <= Height(node)
  {
    match node
    case Empty => []
    case Node(x, pivot, l, r) =>
      [x] + if QueryAxis(lat, lon, depth) < pivot then DescentPath(l, lat, lon, depth + 1)
            else DescentPath(r, lat, lon, depth + 1)
  }

  /** The path consists of records of the tree. */
  lemma {:induction false} DescentPathInTree(node: KDTNode, lat: real, lon: real, depth: nat)
    ensures forall y | y in DescentPath(node, lat, lon, depth) :: y in Elements(node)
  {
    if node.Node? {
      DescentPathInTree(node.left, lat, lon, depth + 1);
      DescentPathInTree(node.right, lat, lon, depth + 1);
    }
  }

  /** The search answers true exactly when some record on its path matches
      the query. */
  lemma {:induction false} LookupIsPathSearch(node: KDTNode, lat: real, lon: real, depth: nat, round5: real -> real)
    ensures LookupFrom(node, lat, lon, depth, round5)
        <==> exists y | y in DescentPath(node, lat, lon, depth) :: Matches(y, lat, lon, round5)
  {
    if node.Node? {
      var x := node.tree;
      var child := if QueryAxis(lat, lon, depth) < node.pivot then node.left else node.right;
      LookupIsPathSearch(child, lat, lon, depth + 1, round5);
      assert DescentPath(node, lat, lon, depth) == [x] + DescentPath(child, lat, lon, depth + 1);
    }
  }

  /** Completeness where the routing invariant is strict: every stored
      record is found at its own coordinates. */
  lemma {:induction false} LookupComplete(node: KDTNode, depth: nat, y: MunicipalTree, round5: real -> real)
    requires RoutesExactly(node, depth)
    requires y in Elements(node)
    ensures LookupFrom(node, y.lat, y.lon, depth, round5)
  {
    var x := node.tree;
    if !Matches(x, y.lat, y.lon, round5) {
      assert QueryAxis(y.lat, y.lon, depth) == Axis(y, depth);
      if y in Elements(node.left) {
        LookupComplete(node.left, depth + 1, y, round5);
      } else {
        LookupComplete(node.right, depth + 1, y, round5);
      }
    }
  }

  /** The tree built from records with pairwise distinct latitudes and
      pairwise distinct longitudes finds each of them. */
  lemma LookupBuiltComplete(data: seq<MunicipalTree>, y: MunicipalTree, round5: real -> real)
    requires DistinctCoordinates(data)
    requires y in data
    ensures LookupFrom(Build(data, 0), y.lat, y.lon, 0, round5)
  {
    BuildRoutesExactly(data, 0);
    BuildElements(data, 0);
    LookupComplete(Build(data, 0), 0, y, round5);
  }

  /** With a repeated latitude the descent can miss a stored record: the
      median `Middle` of three records on latitude 0 becomes the root with pivot 0,
      the search for `West` (sorted before it) goes right because 0 is not below
      0, and never reaches `West` in the left subtree. */
  lemma LookupMissesEqualPivot(round5: real -> real)
    requires round5(0.0) != round5(1.0) && round5(0.0) != round5(2.0)
    ensures West in Elements(Build([West, Middle, East], 0))
    ensures !LookupFrom(Build([West, Middle, East], 0), West.lat, West.lon, 0, round5)
  {
    var a, b, c := West, Middle, East;
    BuildShapeEqualLatitudes();
    var t := Node(b, 0.0, Node(a, 0.0, Empty, Empty), Node(c, 2.0, Empty, Empty));
    assert a in Elements(t.left);
    assert !Matches(c, a.lat, a.lon, round5);
    assert !LookupFrom(t.right, a.lat, a.lon, 1, round5);
    assert !Matches(b, a.lat, a.lon, round5);
  }

  /** The corrected descent: on a query coordinate equal to the pivot, both
      subtrees may hold the record, so both are searched. */
  function LookupFromCorrected(node: KDTNode, lat: real, lon: real, depth: nat, round5: real -> real): (found: bool)
    ensures found ==> exists y | y in Elements(node) :: Matches(y, lat, lon, round5)
  {
    match node
    case Empty => false
    case Node(x, pivot, l, r) =>
      var q := QueryAxis(lat, lon, depth);
      if Matches(x, lat, lon, round5) then true
      else if q < pivot then LookupFromCorrected(l, lat, lon, depth + 1, round5)
      else if q == pivot then
        LookupFromCorrected(l, lat, lon, depth + 1, round5) || LookupFromCorrected(r, lat, lon, depth + 1, round5)
      else LookupFromCorrected(r, lat, lon, depth + 1, round5)
  }

  /** Under the non-strict invariant that construction guarantees, the
      corrected descent finds every stored record. */
  lemma {:induction false} LookupCorrectedComplete(node: KDTNode, depth: nat, y: MunicipalTree, round5: real -> real)
    requires Partitioned(node, depth)
    requires y in Elements(node)
    ensures LookupFromCorrected(node, y.lat, y.lon, depth, round5)
  {
    var x := node.tree;
    if !Matches(x, y.lat, y.lon, round5) {
      assert QueryAxis(y.lat, y.lon, depth) == Axis(y, depth);
      if y in Elements(node.left) {
        LookupCorrectedComplete(node.left, depth + 1, y, round5);
      } else {
        LookupCorrectedComplete(node.right, depth + 1, y, round5);
      }
    }
  }

  /** Every record of any input is found in the tree built from it. */
  lemma LookupCorrectedBuiltComplete(data: seq<MunicipalTree>, y: MunicipalTree, round5: real -> real)
    requires y in data
    ensures LookupFromCorrected(Build(data, 0), y.lat, y.lon, 0, round5)
  {
    BuildPartitioned(data, 0);
    BuildElements(data, 0);
    LookupCorrectedComplete(Build(data, 0), 0, y, round5);
  }
}
