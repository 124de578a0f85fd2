/** The ring of points around a centre at a fixed geodesic distance
    (`create_geodesic_circle`). The geodesic destination itself is computed by a
    foreign library in floating point; here it is the parameter `dest`, taking
    the centre, a distance in kilometres and a bearing in degrees. */
module Geodesic {
  import opened Geo
  import opened Wrappers

  /** `create_geodesic_circle` raises on `360 / 0` before any point is computed. */
  datatype CircleError = ZeroDivision

  /** The angle between two successive bearings of an `nPoints`-gon. */
  function Step(nPoints: int): real
    requires nPoints != 0
  {
    360.0 / nPoints as real
  }

  /** The bearing, in degrees, of the `i`-th point of the ring. */
  function Bearing(i: int, nPoints: int): real
    requires nPoints != 0
  {
    i as real * Step(nPoints)
  }

  /** `ring` visits the `nPoints` bearings in order and then returns to its first point. */
  ghost predicate IsClosedRing(ring: seq<GeoPoint>, center: GeoPoint, radiusKm: real, nPoints: int,
                               dest: (GeoPoint, real, real) -> GeoPoint)
    requires nPoints > 0
  {
    && |ring| == nPoints + 1
    && (forall i :: 0 <= i < nPoints ==> ring[i] == dest(center, radiusKm, Bearing(i, nPoints)))
    && ring[nPoints] == ring[0]
  }

  /** Builds the closed ring; a count of zero is a division by zero, and a
      negative count gives an empty range and so an empty ring. Without an
      explicit count the ring has 72 points, one every 5 degrees. */
  method CreateGeodesicCircle(dest: (GeoPoint, real, real) -> GeoPoint,
                              center: GeoPoint, radiusKm: real, nPoints: int := 72)
    returns (r: Result<seq<GeoPoint>, CircleError>)
    ensures r.Failure? <==> nPoints == 0
    ensures nPoints < 0 ==> r == Success([])
    ensures nPoints > 0 ==> r.Success? && IsClosedRing(r.value, center, radiusKm, nPoints, dest)
  {
    if nPoints == 0 {
      return Failure(ZeroDivision);
    }
    var coords: seq<GeoPoint> := [];
    var step := 360.0 / nPoints as real;
    var i := 0;
    while i < nPoints
      invariant 0 <= i
      invariant nPoints > 0 ==> i <= nPoints
      invariant nPoints < 0 ==> i == 0
      invariant |coords| == i
      invariant forall j :: 0 <= j < i ==> coords[j] == dest(center, radiusKm, Bearing(j, nPoints))
    {
      var bearing := i as real * step;
      assert bearing == Bearing(i, nPoints);
      coords := coords + [dest(center, radiusKm, bearing)];
      i := i + 1;
    }
    if |coords| > 0 {
      coords := coords + [coords[0]];
    }
    return Success(coords);
  }

  /** The ring the globe draws around a hovered earthquake: no count is
      passed, so the default of 72 applies and the ring closes after 73 points. */
  method FeltRing(dest: (GeoPoint, real, real) -> GeoPoint, center: GeoPoint, radiusKm: real)
    returns (ring: seq<GeoPoint>)
    ensures |ring| == 73
    ensures IsClosedRing(ring, center, radiusKm, 72, dest)
  {
    var r := CreateGeodesicCircle(dest, center, radiusKm);
    ring := r.value;
  }

  /** The bearings start at north, grow strictly and stay below a full turn,
      so the ring goes once round the centre without repeating a bearing. */
  lemma BearingsAscend(nPoints: int)
    requires nPoints > 0
    ensures Bearing(0, nPoints) == 0.0
    ensures forall i, j :: 0 <= i < j < nPoints ==> Bearing(i, nPoints) < Bearing(j, nPoints)
    ensures forall i :: 0 <= i < nPoints ==> 0.0 <= Bearing(i, nPoints) < 360.0
  {
  }
}
