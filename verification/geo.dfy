/** Geographic points as the dashboard passes them around: `(lat, lon)` pairs in degrees. */
module Geo {

  datatype GeoPoint = GeoPoint(lat: real, lon: real)

  /** Absolute value, as Python's `abs` on a number. */
  function Abs(x: real): (r: real)
    ensures r >= 0.0
    ensures r == x || r == -x
  {
    if x < 0.0 then -x else x
  }

  /** Going from `prev` to `curr` changes longitude by more than half a turn:
      the two points lie on either side of the ±180° seam. */
  predicate Crosses(prev: GeoPoint, curr: GeoPoint)
  {
    Abs(curr.lon - prev.lon) > 180.0
  }
}
