/**
  The geographic record and the floating-point operations it is built with.

  `float64` is modelled as `real`. Parsing a decimal string, the degree to
  radian conversion and the haversine distance are kept abstract: they are
  the fields of a `Numerics` value that every caller passes in, so no
  property proved here depends on how they are computed.
 */
module Geo {
  import opened Wrappers

  /** One parsed input row: an identifier, a position in radians and its
      distance (in kilometres) to the target position. */
  datatype GeoRecord = GeoRecord(id: string, lat: real, long: real, dist: real)

  /** The numeric operations the loader relies on:
      `parseFloat` is strconv.ParseFloat(s, 64) (None when it reports an error),
      `toRadians` converts degrees to radians,
      `greatCircleDistance(lat1, long1, lat2, long2)` is the haversine distance. */
  datatype Numerics = Numerics(
    parseFloat: string -> Option<real>,
    toRadians: real -> real,
    greatCircleDistance: (real, real, real, real) -> real)

  /** A record's distance agrees with its own stored position and the target. */
  predicate Consistent(rec: GeoRecord, num: Numerics, targetLat: real, targetLong: real)
  {
    rec.dist == num.greatCircleDistance(rec.lat, rec.long, targetLat, targetLong)
  }
}
