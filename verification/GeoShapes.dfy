/**
  The geometries of mongo/geo, over any kind of coordinate: real numbers where boxes
  are computed, uninterpreted doubles where GeoJSON is built and parsed.
 */
module GeoShapes {
  import opened Bytes

  type Position<C> = seq<C>

  datatype Box<C> = Box(min: Position<C>, max: Position<C>)

  datatype Kind = MultiPoint | LineString | MultiLineString | Polygon

  /** `bbox` is the box the GeoJSON document itself gives, if any. */
  datatype Geo<C> =
    | Point(at: Position<C>, bbox: Option<Box<C>>)
    | Path(kind: Kind, points: seq<Position<C>>, bbox: Option<Box<C>>)         // MultiPoint, LineString
    | Rings(kind: Kind, rings: seq<seq<Position<C>>>, bbox: Option<Box<C>>)    // MultiLineString, Polygon
    | MultiPolygon(polygons: seq<seq<seq<Position<C>>>>, bbox: Option<Box<C>>)
    | GeometryCollection(geometries: seq<Geo<C>>, bbox: Option<Box<C>>)

  /** Every point of a geometry, down through all its levels. */
  function PointsOf<C>(g: Geo<C>): seq<Position<C>>
  {
    match g
    case Point(at, _) => [at]
    case Path(_, points, _) => points
    case Rings(_, rings, _) => Flatten(rings)
    case MultiPolygon(polygons, _) => Flatten(Flatten(polygons))
    case GeometryCollection(geometries, _) => PointsOfAll(geometries)
  }

  function PointsOfAll<C>(gs: seq<Geo<C>>): seq<Position<C>>
  {
    if gs == [] then [] else PointsOf(gs[0]) + PointsOfAll(gs[1..])
  }
}
