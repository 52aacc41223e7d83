/** `get_nearest`: branch-and-bound search for the record closest to a
    query point. */
module KdNearest {
  import opened Records
  import opened KdNodes
  import opened KdBuild

  datatype Option<T> = None | Some(value: T)

  /** The best candidate so far, with its squared distance. `NoBest` is the
      source's initial pair `(None, inf)`. */
  datatype Best = NoBest | Candidate(tree: MunicipalTree, sqDist: real)

  /** The test deciding whether the far side of a split is searched. The
      source compares the squared gap between query and pivot with the
      (unsquared) distance of the best candidate; on squared distances `d`
      that is `gap^4 < d`. The textbook test compares like with like:
      `gap^2 < d`. */
  datatype PruneRule = AsWritten | Canonical

  /** The candidate's squared distance is the one of its record. */
  ghost predicate Consistent(best: Best, lat: real, lon: real)
  {
    best.Candidate? ==> best.sqDist == SqDist(best.tree, lat, lon)
  }

  /** The candidate is at least as close as every record of `m`. */
  ghost predicate NoCloser(best: Best, m: multiset<MunicipalTree>, lat: real, lon: real)
  {
    best.Candidate? && forall y | y in m :: best.sqDist <= SqDist(y, lat, lon)
  }

  /** Offers record `x`: it replaces the candidate only when strictly
      closer, so the first of equally close records is kept. */
  function Offer(best: Best, x: MunicipalTree, lat: real, lon: real): (b: Best)
    ensures b.Candidate?
    ensures b.sqDist <= SqDist(x, lat, lon)
    ensures best.Candidate? ==> b.sqDist <= best.sqDist
    ensures b == best || b == Candidate(x, SqDist(x, lat, lon))
    ensures best.Candidate? && best.sqDist <= SqDist(x, lat, lon) ==> b == best
  {
    var d := SqDist(x, lat, lon);
    match best
    case NoBest => Candidate(x, d)
    case Candidate(_, bd) => if d < bd then Candidate(x, d) else best
  }

  /** Whether the far side of a split at axis distance `gap` is searched.
      Without a candidate it always is; and under either rule it is whenever
      a record there could be closer than the candidate and the squared gap
      is at most 1. */
  function VisitFar(rule: PruneRule, gap: real, best: Best): (visit: bool)
    ensures best.NoBest? ==> visit
    ensures best.Candidate? && gap * gap < best.sqDist && gap * gap <= 1.0 ==> visit
  {
    match best
    case NoBest => true
    case Candidate(_, d) =>
      match rule
      case AsWritten => FourthPowerBelowSquare(gap); gap * gap * gap * gap < d
      case Canonical => gap * gap < d
  }

  /** The subtree on the query's side of the pivot, searched first. */
  function Near(node: KDTNode, q: real): (t: KDTNode)
    requires node.Node?
    ensures t == node.left || t == node.right
    ensures Size(t) < Size(node)
  {
    if q < node.pivot then node.left else node.right
  }

  /** The subtree across the pivot from the query. */
  function Far(node: KDTNode, q: real): (t: KDTNode)
    requires node.Node?
    ensures t == node.left || t == node.right
    ensures t != Near(node, q) || node.left == node.right
    ensures Size(t) < Size(node)
  {
    if q < node.pivot then node.right else node.left
  }

  /** The two sides and the node's own record make up the tree. */
  lemma NearFarElements(node: KDTNode, q: real)
    requires node.Node?
    ensures Elements(node) == Elements(Near(node, q)) + multiset{node.tree} + Elements(Far(node, q))
  {
  }

  /** `_get_nearest_recursive`: offer the node's record, search the side of
      the pivot the query lies on, then the other side when `rule` says the
      candidate may be beaten there. */
  function NearestFrom(rule: PruneRule, node: KDTNode, lat: real, lon: real, depth: nat, best: Best): (r: Best)
    ensures r.NoBest? <==> best.NoBest? && node == Empty
    ensures best.Candidate? ==> r.sqDist <= best.sqDist
    decreases Size(node)
  {
    if node == Empty then best
    else
      var q := QueryAxis(lat, lon, depth);
      var b := NearestFrom(rule, Near(node, q), lat, lon, depth + 1, Offer(best, node.tree, lat, lon));
      if VisitFar(rule, node.pivot - q, b) then NearestFrom(rule, Far(node, q), lat, lon, depth + 1, b)
      else b
  }

  /** The answer of a search: the record of the final candidate. */
  function Answer(b: Best): (r: Option<MunicipalTree>)
    ensures r.None? <==> b.NoBest?
    ensures r.Some? ==> r.value == b.tree
  {
    if b.Candidate? then Some(b.tree) else None
  }

  /** `get_nearest` as written: nothing exactly for an empty tree. */
  function GetNearest(root: KDTNode, lat: real, lon: real): (r: Option<MunicipalTree>)
    ensures r.None? <==> root == Empty
  {
    Answer(NearestFrom(AsWritten, root, lat, lon, 0, NoBest))
  }

  /** `get_nearest` with the textbook pruning test: nothing exactly for an
      empty tree. */
  function GetNearestCorrected(root: KDTNode, lat: real, lon: real): (r: Option<MunicipalTree>)
    ensures r.None? <==> root == Empty
  {
    Answer(NearestFrom(Canonical, root, lat, lon, 0, NoBest))
  }

  /** One step of the search, with the gap to the pivot named. */
  lemma NearestFromStep(rule: PruneRule, node: KDTNode, lat: real, lon: real, depth: nat, best: Best, q: real, g: real, b: Best)
    requires node != Empty
    requires q == QueryAxis(lat, lon, depth) && g == node.pivot - q
    requires b == NearestFrom(rule, Near(node, q), lat, lon, depth + 1, Offer(best, node.tree, lat, lon))
    ensures NearestFrom(rule, node, lat, lon, depth, best)
         == if VisitFar(rule, g, b) then NearestFrom(rule, Far(node, q), lat, lon, depth + 1, b) else b
  {
  }

  /** The candidate keeps the true distance of its record. */
  lemma {:induction false} NearestFromConsistent(rule: PruneRule, node: KDTNode, lat: real, lon: real, depth: nat, best: Best)
    requires Consistent(best, lat, lon)
    ensures Consistent(NearestFrom(rule, node, lat, lon, depth, best), lat, lon)
    decreases Size(node)
  {
    if node != Empty {
      var q := QueryAxis(lat, lon, depth);
      var b1 := Offer(best, node.tree, lat, lon);
      NearestFromConsistent(rule, Near(node, q), lat, lon, depth + 1, b1);
      var b := NearestFrom(rule, Near(node, q), lat, lon, depth + 1, b1);
      NearestFromConsistent(rule, Far(node, q), lat, lon, depth + 1, b);
    }
  }

  /** The result is the incoming candidate or a record of the tree. */
  lemma {:induction false} NearestFromInTree(rule: PruneRule, node: KDTNode, lat: real, lon: real, depth: nat, best: Best)
    ensures var r := NearestFrom(rule, node, lat, lon, depth, best);
      r == best || (r.Candidate? && r.tree in Elements(node))
    decreases Size(node)
  {
    if node != Empty {
      var q := QueryAxis(lat, lon, depth);
      var b1 := Offer(best, node.tree, lat, lon);
      NearestFromInTree(rule, Near(node, q), lat, lon, depth + 1, b1);
      var b := NearestFrom(rule, Near(node, q), lat, lon, depth + 1, b1);
      NearestFromInTree(rule, Far(node, q), lat, lon, depth + 1, b);
      NearFarElements(node, q);
    }
  }

  lemma NoCloserSub(b: Best, m1: multiset<MunicipalTree>, m2: multiset<MunicipalTree>, lat: real, lon: real)
    requires m1 <= m2
    requires NoCloser(b, m2, lat, lon)
    ensures NoCloser(b, m1, lat, lon)
  {
  }

  /** A candidate that no record of the tree beats survives the search
      unchanged: ties go to the record found first. */
  lemma {:induction false} NearestFromKeeps(rule: PruneRule, node: KDTNode, lat: real, lon: real, depth: nat, best: Best)
    requires NoCloser(best, Elements(node), lat, lon)
    ensures NearestFrom(rule, node, lat, lon, depth, best) == best
    decreases Size(node)
  {
    if node != Empty {
      var q := QueryAxis(lat, lon, depth);
      NearFarElements(node, q);
      assert Offer(best, node.tree, lat, lon) == best;
      NoCloserSub(best, Elements(Near(node, q)), Elements(node), lat, lon);
      NoCloserSub(best, Elements(Far(node, q)), Elements(node), lat, lon);
      NearestFromKeeps(rule, Near(node, q), lat, lon, depth + 1, best);
      NearestFromKeeps(rule, Far(node, q), lat, lon, depth + 1, best);
    }
  }

  lemma SquareMonotone(a: real, b: real)
    requires 0.0 <= a <= b
    ensures a * a <= b * b
  {
    assert a * a <= a * b;
  }

  /** A record across the pivot from the query is at least as far from it
      as the pivot's line. */
  lemma FarSideBound(y: MunicipalTree, lat: real, lon: real, depth: nat, pivot: real)
    requires var q := QueryAxis(lat, lon, depth);
      (q < pivot && Axis(y, depth) >= pivot) || (pivot <= q && Axis(y, depth) <= pivot)
    ensures var q := QueryAxis(lat, lon, depth);
      (pivot - q) * (pivot - q) <= SqDist(y, lat, lon)
  {
    var q := QueryAxis(lat, lon, depth);
    var v := Axis(y, depth);
    assert SqDist(y, lat, lon) >= (v - q) * (v - q);
    if q < pivot {
      SquareMonotone(pivot - q, v - q);
    } else {
      SquareMonotone(q - pivot, q - v);
    }
  }

  /** When the squared gap is at most 1, its square is at most itself, so
      the as-written test prunes no more than the textbook one. */
  lemma FourthPowerBelowSquare(g: real)
    ensures g * g <= 1.0 ==> g * g * g * g <= g * g
  {
    var s := g * g;
    assert g * g * g * g == s * s;
    if s <= 1.0 {
      assert s * s <= s * 1.0;
    }
  }

  /** The pruning test's arithmetic: a candidate distance `d` that the
      test judges unbeatable is at most any distance `s` bounded below by
      the squared gap. */
  lemma PruneArith(rule: PruneRule, g: real, d: real, s: real)
    requires g * g <= s
    requires rule == Canonical ==> d <= g * g
    requires rule == AsWritten ==> d <= g * g * g * g && s <= 1.0
    ensures d <= s
  {
    if rule == AsWritten {
      FourthPowerBelowSquare(g);
    }
  }

  /** Where the search may prune: every record is within distance 1 of the
      query, or the rule is the textbook one. */
  ghost predicate PruneSafe(rule: PruneRule, m: multiset<MunicipalTree>, lat: real, lon: real)
  {
    rule == Canonical || forall y | y in m :: SqDist(y, lat, lon) <= 1.0
  }

  /** A side that is skipped holds no record closer than the candidate. */
  lemma PrunedRecordFar(rule: PruneRule, y: MunicipalTree, lat: real, lon: real, depth: nat, pivot: real, g: real, d: real)
    requires g == pivot - QueryAxis(lat, lon, depth)
    requires rule == Canonical ==> d <= g * g
    requires rule == AsWritten ==> d <= g * g * g * g
    requires var q := QueryAxis(lat, lon, depth);
        (q < pivot && Axis(y, depth) >= pivot) || (pivot <= q && Axis(y, depth) <= pivot)
    requires rule == AsWritten ==> SqDist(y, lat, lon) <= 1.0
    ensures d <= SqDist(y, lat, lon)
  {
    FarSideBound(y, lat, lon, depth, pivot);
    PruneArith(rule, g, d, SqDist(y, lat, lon));
  }

  lemma PrunedSideFar(rule: PruneRule, far: KDTNode, lat: real, lon: real, depth: nat, pivot: real, g: real, b: Best)
    requires b.Candidate?
    requires g == pivot - QueryAxis(lat, lon, depth)
    requires !VisitFar(rule, g, b)
    requires var q := QueryAxis(lat, lon, depth);
      forall y | y in Elements(far) ::
        (q < pivot && Axis(y, depth) >= pivot) || (pivot <= q && Axis(y, depth) <= pivot)
    requires PruneSafe(rule, Elements(far), lat, lon)
    ensures NoCloser(b, Elements(far), lat, lon)
  {
    assert rule == Canonical ==> b.sqDist <= g * g;
    assert rule == AsWritten ==> b.sqDist <= g * g * g * g;
    forall y | y in Elements(far) ensures b.sqDist <= SqDist(y, lat, lon) {
      PrunedRecordFar(rule, y, lat, lon, depth, pivot, g, b.sqDist);
    }
  }

  lemma PruneSafeSub(rule: PruneRule, m1: multiset<MunicipalTree>, m2: multiset<MunicipalTree>, lat: real, lon: real)
    requires m1 <= m2
    requires PruneSafe(rule, m2, lat, lon)
    ensures PruneSafe(rule, m1, lat, lon)
  {
  }

  /** By the k-d invariant, every record of the far side lies on the far
      side of the pivot's line or on it. */
  lemma FarSideAcross(node: KDTNode, depth: nat, q: real)
    requires node.Node?
    requires Partitioned(node, depth)
    ensures forall y | y in Elements(Far(node, q)) ::
      (q < node.pivot && Axis(y, depth) >= node.pivot) || (node.pivot <= q && Axis(y, depth) <= node.pivot)
  {
  }

  /** Combines the bounds of the three parts of a node into one for the
      whole node. */
  lemma NoCloserJoin(r: Best, b: Best, near: multiset<MunicipalTree>, x: MunicipalTree, far: multiset<MunicipalTree>, lat: real, lon: real)
    requires r.Candidate? && NoCloser(b, near, lat, lon) && r.sqDist <= b.sqDist
    requires b.sqDist <= SqDist(x, lat, lon)
    requires NoCloser(r, far, lat, lon)
    ensures NoCloser(r, near + multiset{x} + far, lat, lon)
  {
  }

  /** At a node whose far side is skipped, the candidate from the near side
      is nearest in the whole node. */
  lemma PrunedNode(rule: PruneRule, node: KDTNode, lat: real, lon: real, depth: nat, q: real, g: real, b: Best)
    requires node.Node? && Partitioned(node, depth)
    requires q == QueryAxis(lat, lon, depth) && g == node.pivot - q
    requires b.Candidate? && !VisitFar(rule, g, b)
    requires PruneSafe(rule, Elements(Far(node, q)), lat, lon)
    requires NoCloser(b, Elements(Near(node, q)), lat, lon)
    requires b.sqDist <= SqDist(node.tree, lat, lon)
    ensures NoCloser(b, Elements(node), lat, lon)
  {
    NearFarElements(node, q);
    FarSideAcross(node, depth, q);
    PrunedSideFar(rule, Far(node, q), lat, lon, depth, node.pivot, g, b);
    NoCloserJoin(b, b, Elements(Near(node, q)), node.tree, Elements(Far(node, q)), lat, lon);
  }

  /** The search returns a nearest record: its candidate is at least as
      close as every record of the tree, for the textbook rule on every
      tree, and for the rule as written when every record lies within
      distance 1 of the query. */
  lemma {:induction false} NearestFromMinimal(rule: PruneRule, node: KDTNode, lat: real, lon: real, depth: nat, best: Best)
    requires Partitioned(node, depth)
    requires Consistent(best, lat, lon)
    requires PruneSafe(rule, Elements(node), lat, lon)
    requires node != Empty || best.Candidate?
    ensures NoCloser(NearestFrom(rule, node, lat, lon, depth, best), Elements(node), lat, lon)
    decreases Size(node)
  {
    if node == Empty {
    } else {
      var q := QueryAxis(lat, lon, depth);
      var near, far := Near(node, q), Far(node, q);
      NearFarElements(node, q);
      var b1 := Offer(best, node.tree, lat, lon);
      PruneSafeSub(rule, Elements(near), Elements(node), lat, lon);
      PruneSafeSub(rule, Elements(far), Elements(node), lat, lon);
      NearestFromMinimal(rule, near, lat, lon, depth + 1, b1);
      NearestFromConsistent(rule, near, lat, lon, depth + 1, b1);
      var b := NearestFrom(rule, near, lat, lon, depth + 1, b1);
      var g := node.pivot - q;
      NearestFromStep(rule, node, lat, lon, depth, best, q, g, b);
      if VisitFar(rule, g, b) {
        NearestFromMinimal(rule, far, lat, lon, depth + 1, b);
        NearestFromConsistent(rule, far, lat, lon, depth + 1, b);
        var r := NearestFrom(rule, far, lat, lon, depth + 1, b);
        NoCloserJoin(r, b, Elements(near), node.tree, Elements(far), lat, lon);
      } else {
        PrunedNode(rule, node, lat, lon, depth, q, g, b);
      }
    }
  }

  /** What the search finds is a record of the tree; under either rule. */
  lemma GetNearestFound(rule: PruneRule, root: KDTNode, lat: real, lon: real)
    ensures var r := Answer(NearestFrom(rule, root, lat, lon, 0, NoBest));
      r.Some? ==> r.value in Elements(root)
  {
    NearestFromInTree(rule, root, lat, lon, 0, NoBest);
  }

  /** With the textbook test, the search over a tree that satisfies the k-d
      invariant returns a record no farther than any other. */
  lemma GetNearestCorrectedIsNearest(root: KDTNode, lat: real, lon: real)
    requires Partitioned(root, 0)
    requires root != Empty
    ensures GetNearestCorrected(root, lat, lon).Some?
    ensures forall y | y in Elements(root) ::
      SqDist(GetNearestCorrected(root, lat, lon).value, lat, lon) <= SqDist(y, lat, lon)
  {
    NearestFromMinimal(Canonical, root, lat, lon, 0, NoBest);
    NearestFromConsistent(Canonical, root, lat, lon, 0, NoBest);
  }

  /** The test as written is exact while every record lies within distance
      1 of the query: then the squared gap is at most 1 and its square no
      larger than itself. */
  lemma GetNearestIsNearestWithinOne(root: KDTNode, lat: real, lon: real)
    requires Partitioned(root, 0)
    requires root != Empty
    requires forall y | y in Elements(root) :: SqDist(y, lat, lon) <= 1.0
    ensures GetNearest(root, lat, lon).Some?
    ensures forall y | y in Elements(root) ::
      SqDist(GetNearest(root, lat, lon).value, lat, lon) <= SqDist(y, lat, lon)
  {
    NearestFromMinimal(AsWritten, root, lat, lon, 0, NoBest);
    NearestFromConsistent(AsWritten, root, lat, lon, 0, NoBest);
  }

  /** On a tree built from any non-empty data, the corrected search returns
      one of the records nearest to the query. */
  lemma GetNearestCorrectedBuilt(data: seq<MunicipalTree>, lat: real, lon: real)
    requires data != []
    ensures var r := GetNearestCorrected(Build(data, 0), lat, lon);
      && r.Some? && r.value in data
      && forall y | y in data :: SqDist(r.value, lat, lon) <= SqDist(y, lat, lon)
  {
    BuildPartitioned(data, 0);
    BuildElements(data, 0);
    BuildHeight(data, 0);
    GetNearestFound(Canonical, Build(data, 0), lat, lon);
    GetNearestCorrectedIsNearest(Build(data, 0), lat, lon);
  }

  /** The test as written can skip a closer record. The root `Centre` splits on
      latitude 2; from the query (0, 0) the near side gives `South` at squared
      distance 16, and the squared gap 4 is compared with the distance 4
      rather than with 16, so `North` across the split, at squared distance 9,
      is never looked at. The textbook test does visit it. */
  lemma GetNearestMissesCloser()
    ensures SqDist(North, 0.0, 0.0) < SqDist(South, 0.0, 0.0)
    ensures GetNearest(Build([South, Centre, North], 0), 0.0, 0.0) == Some(South)
    ensures GetNearestCorrected(Build([South, Centre, North], 0), 0.0, 0.0) == Some(North)
  {
    var l, m, rt := South, Centre, North;
    BuildFarExample();
    var left, right := Node(l, 0.0, Empty, Empty), Node(rt, 0.0, Empty, Empty);
    var t := Node(m, 2.0, left, right);
    assert SqDist(m, 0.0, 0.0) == 104.0 && SqDist(l, 0.0, 0.0) == 16.0 && SqDist(rt, 0.0, 0.0) == 9.0;
    var bm := Candidate(m, 104.0);
    assert Offer(NoBest, m, 0.0, 0.0) == bm;
    assert Near(t, 0.0) == left && Far(t, 0.0) == right;
    assert Near(left, 0.0) == Empty && Far(left, 0.0) == Empty;
    assert Near(right, 0.0) == Empty && Far(right, 0.0) == Empty;
    var bl := Candidate(l, 16.0);
    assert Offer(bm, l, 0.0, 0.0) == bl;
    NearestFromStep(AsWritten, left, 0.0, 0.0, 1, bm, 0.0, 0.0, bl);
    NearestFromStep(Canonical, left, 0.0, 0.0, 1, bm, 0.0, 0.0, bl);
    assert NearestFrom(AsWritten, left, 0.0, 0.0, 1, bm) == bl;
    assert NearestFrom(Canonical, left, 0.0, 0.0, 1, bm) == bl;
    NearestFromStep(AsWritten, t, 0.0, 0.0, 0, NoBest, 0.0, 2.0, bl);
    NearestFromStep(Canonical, t, 0.0, 0.0, 0, NoBest, 0.0, 2.0, bl);
    assert !VisitFar(AsWritten, 2.0, bl) && VisitFar(Canonical, 2.0, bl);
    var br := Candidate(rt, 9.0);
    assert Offer(bl, rt, 0.0, 0.0) == br;
    NearestFromStep(Canonical, right, 0.0, 0.0, 1, bl, 0.0, 0.0, br);
    assert NearestFrom(Canonical, right, 0.0, 0.0, 1, bl) == br;
  }
}
