/** The point record stored in the index: one municipal tree. */
module Records {

  /** A municipal tree with its identifier, ward, species, diameter and
      position. Coordinates are exact reals rather than binary floats. */
  datatype MunicipalTree = MunicipalTree(
    id: int,
    ward: int,
    species: string,
    diameter: int,
    lon: real,
    lat: real)

  /** The coordinate a node at depth `depth` splits on: latitude on even
      depths, longitude on odd ones. */
  function Axis(t: MunicipalTree, depth: nat): (v: real)
    ensures depth % 2 == 0 ==> v == t.lat
    ensures depth % 2 == 1 ==> v == t.lon
  {
    if depth % 2 == 0 then t.lat else t.lon
  }

  /** The query's coordinate on the axis of depth `depth`. */
  function QueryAxis(lat: real, lon: real, depth: nat): (v: real)
    ensures depth % 2 == 0 ==> v == lat
    ensures depth % 2 == 1 ==> v == lon
  {
    if depth % 2 == 0 then lat else lon
  }

  /** The squared Euclidean distance from a record to a query point. The
      source compares square roots of this quantity; since the square root is
      strictly monotone on non-negative reals, every comparison of two
      distances has the same outcome on the squares. */
  function SqDist(t: MunicipalTree, lat: real, lon: real): (d: real)
    ensures d >= 0.0
    ensures d >= (t.lat - lat) * (t.lat - lat)
    ensures d >= (t.lon - lon) * (t.lon - lon)
  {
    (t.lat - lat) * (t.lat - lat) + (t.lon - lon) * (t.lon - lon)
  }

  /** No two records in the sequence share a latitude, and no two share a
      longitude. */
  ghost predicate DistinctCoordinates(data: seq<MunicipalTree>)
  {
    forall i, j | 0 <= i < j < |data| ::
      data[i].lat != data[j].lat && data[i].lon != data[j].lon
  }

  /** The same condition on a collection: every record occurs once, and two
      different records differ in both coordinates. */
  ghost predicate CoordinatesDistinct(m: multiset<MunicipalTree>)
  {
    && (forall a | a in m :: m[a] == 1)
    && (forall a, b | a in m && b in m && a != b :: a.lat != b.lat && a.lon != b.lon)
  }

  lemma {:induction false} DistinctCoordinatesMultiset(data: seq<MunicipalTree>)
    requires DistinctCoordinates(data)
    ensures CoordinatesDistinct(multiset(data))
  {
    if data != [] {
      var n := |data| - 1;
      var init, last := data[..n], data[n];
      assert data == init + [last];
      assert DistinctCoordinates(init) by {
        forall i, j | 0 <= i < j < |init|
          ensures init[i].lat != init[j].lat && init[i].lon != init[j].lon
        {
          assert init[i] == data[i] && init[j] == data[j];
        }
      }
      DistinctCoordinatesMultiset(init);
      forall y | y in init ensures y.lat != last.lat && y.lon != last.lon {
        var k :| 0 <= k < n && init[k] == y;
        assert data[k] == y;
      }
      assert multiset(data) == multiset(init) + multiset{last};
    }
  }

  /** Distinctness passes to every sub-collection. */
  lemma CoordinatesDistinctSub(a: multiset<MunicipalTree>, b: multiset<MunicipalTree>)
    requires a <= b
    requires CoordinatesDistinct(b)
    ensures CoordinatesDistinct(a)
  {
    forall x | x in a ensures a[x] == 1 {
      assert a[x] <= b[x];
    }
  }

  // Records used by the examples. The first three are the records of the
  // construction's documentation and of its test (coordinates (1, 1),
  // (2, 2), (3, 3)).

  const Oak := MunicipalTree(1, 1, "oak", 10, 1.0, 1.0)
  const Cherry := MunicipalTree(2, 2, "cherry", 10, 2.0, 2.0)
  const Maple := MunicipalTree(3, 3, "maple", 10, 3.0, 3.0)

  // Three records on latitude 0, at longitudes 0, 1 and 2.

  const West := MunicipalTree(1, 1, "oak", 10, 0.0, 0.0)
  const Middle := MunicipalTree(2, 1, "oak", 10, 1.0, 0.0)
  const East := MunicipalTree(3, 1, "oak", 10, 2.0, 0.0)

  // Three records at latitudes -4, 2 and 3: longitude 0, 10 and 0.

  const South := MunicipalTree(1, 1, "oak", 10, 0.0, -4.0)
  const Centre := MunicipalTree(2, 1, "oak", 10, 10.0, 2.0)
  const North := MunicipalTree(3, 1, "oak", 10, 0.0, 3.0)
}
