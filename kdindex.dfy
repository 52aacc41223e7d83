/** `KDTree`: the index object. Its constructor builds the tree from the
    caller's list, which it sorts in place on the way; its queries read the
    root and never change it. */
module KdIndex {
  import opened Records
  import opened StableSort
  import opened KdNodes
  import opened KdBuild
  import opened KdLookup
  import opened KdNearest
  import opened KdDisplay

  class KDTree {
    /** The root node, `Empty` for an index over no records. */
    const root: KDTNode
    /** The records the index was built from, in the order given. */
    ghost const input: seq<MunicipalTree>

    /** The k-d invariant, the balanced shape and the stored records. */
    ghost predicate Valid()
    {
      && root == Build(input, 0)
      && Partitioned(root, 0)
      && Balanced(root)
      && Elements(root) == multiset(input)
    }

    /** Builds the index from `data`, leaving `data` stably sorted by
        latitude, as the top-level sort of the construction leaves it. */
    constructor(data: array<MunicipalTree>)
      modifies data
      ensures input == old(data[..])
      ensures root == Build(old(data[..]), 0)
      ensures data[..] == SortBy(old(data[..]), AxisKey(0))
      ensures Valid()
    {
      ghost var given := data[..];
      var node := BuildTree(data, 0);
      BuildPartitioned(given, 0);
      BuildBalanced(given, 0);
      BuildElements(given, 0);
      root := node;
      input := given;
    }

    /** `lookup`: a match is always a stored record; and when no two records
        share a latitude or a longitude, every stored record's coordinates
        are found. */
    function Lookup(lat: real, lon: real, round5: real -> real): (found: bool)
      requires Valid()
      ensures found ==> exists y | y in input :: Matches(y, lat, lon, round5)
      ensures DistinctCoordinates(input) && (exists y | y in input :: y.lat == lat && y.lon == lon) ==> found
    {
      LookupFacts(lat, lon, round5);
      LookupFrom(root, lat, lon, 0, round5)
    }

    lemma LookupFacts(lat: real, lon: real, round5: real -> real)
      requires Valid()
      ensures LookupFrom(root, lat, lon, 0, round5) ==> exists y | y in input :: Matches(y, lat, lon, round5)
      ensures DistinctCoordinates(input) && (exists y | y in input :: y.lat == lat && y.lon == lon) ==>
        LookupFrom(root, lat, lon, 0, round5)
    {
      if LookupFrom(root, lat, lon, 0, round5) {
        var y :| y in Elements(root) && Matches(y, lat, lon, round5);
        assert y in multiset(input);
      }
      if DistinctCoordinates(input) && (exists y | y in input :: y.lat == lat && y.lon == lon) {
        var y :| y in input && y.lat == lat && y.lon == lon;
        LookupBuiltComplete(input, y, round5);
      }
    }

    /** `get_nearest` with the test of the source: nothing exactly for an
        empty index, otherwise a stored record, and a nearest one while
        every record lies within distance 1 of the query. */
    function GetNearest(lat: real, lon: real): (r: Option<MunicipalTree>)
      requires Valid()
      ensures r.None? <==> input == []
      ensures r.Some? ==> r.value in input
      ensures r.Some? && (forall y | y in input :: SqDist(y, lat, lon) <= 1.0) ==>
        forall y | y in input :: SqDist(r.value, lat, lon) <= SqDist(y, lat, lon)
    {
      GetNearestFacts(lat, lon);
      KdNearest.GetNearest(root, lat, lon)
    }

    lemma GetNearestFacts(lat: real, lon: real)
      requires Valid()
      ensures var r := KdNearest.GetNearest(root, lat, lon);
        && (r.None? <==> input == [])
        && (r.Some? ==> r.value in input)
        && (r.Some? && (forall y | y in input :: SqDist(y, lat, lon) <= 1.0) ==>
          forall y | y in input :: SqDist(r.value, lat, lon) <= SqDist(y, lat, lon))
    {
      GetNearestFound(AsWritten, root, lat, lon);
      BuildHeight(input, 0);
      if root != Empty && (forall y | y in input :: SqDist(y, lat, lon) <= 1.0) {
        GetNearestIsNearestWithinOne(root, lat, lon);
      }
    }

    /** `get_nearest` with the textbook pruning test: a nearest stored
        record, for every query. */
    function GetNearestCorrected(lat: real, lon: real): (r: Option<MunicipalTree>)
      requires Valid()
      ensures r.None? <==> input == []
      ensures r.Some? ==> r.value in input && forall y | y in input :: SqDist(r.value, lat, lon) <= SqDist(y, lat, lon)
    {
      GetNearestCorrectedFacts(lat, lon);
      KdNearest.GetNearestCorrected(root, lat, lon)
    }

    lemma GetNearestCorrectedFacts(lat: real, lon: real)
      requires Valid()
      ensures var r := KdNearest.GetNearestCorrected(root, lat, lon);
        && (r.None? <==> input == [])
        && (r.Some? ==> r.value in input && forall y | y in input :: SqDist(r.value, lat, lon) <= SqDist(y, lat, lon))
    {
      BuildHeight(input, 0);
      GetNearestFound(Canonical, root, lat, lon);
      if input != [] {
        GetNearestCorrectedBuilt(input, lat, lon);
      }
    }

    /** `display_tree`: the lines it prints, one per line of the layout.
        The source fails on an empty index. */
    method DisplayTree(fmt: real -> string) returns (lines: seq<string>)
      requires Valid() && input != []
      ensures lines == Display(root, fmt).lines
      ensures |lines| == 2 * Height(root) - 1
      ensures forall i | 0 <= i < |lines| :: |lines[i]| == LabelWidth(root, fmt)
    {
      BuildHeight(input, 0);
      lines := Display(root, fmt).lines;
    }
  }

  /** The constructor's example: the three records of the source's
      documentation give the drawing shown there. */
  method ThreeRecordExample(fmt: real -> string) returns (lines: seq<string>)
    requires fmt(1.0) == "1.0" && fmt(2.0) == "2.0" && fmt(3.0) == "3.0"
    ensures lines == ["    ___2.0,2.0___    ", "   |             |   ", "1.0,1.0       3.0,3.0"]
  {
    var data := new MunicipalTree[3][Oak, Cherry, Maple];
    assert data[..] == [Oak, Cherry, Maple];
    var t := new KDTree(data);
    BuildExample();
    DisplayExample(fmt);
    lines := t.DisplayTree(fmt);
  }
}
