/**
 * The part of a GeoJSON FeatureCollection (RFC 7946, section 3.3) that
 * `geojson2kml` in static/js/script.js reads: each feature's geometry
 * (sections 3.1.2 to 3.1.8) and its `properties` object, whose values are
 * JavaScript values with JavaScript's truthiness and string conversion.
 */
module GeoJson {
  import opened Wrappers

  /**
   * A JavaScript value as found in a feature's properties. Numbers are exact reals
   * (NaN and the infinities are not modelled); an object or array is represented by
   * the text that `String(value)` gives for it.
   */
  datatype Json =
    | JUndefined
    | JNull
    | JBool(b: bool)
    | JNum(n: real)
    | JStr(s: string)
    | JObject(text: string)

  /** JavaScript's ToBoolean: what `value || fallback` tests. */
  predicate Truthy(v: Json)
  {
    match v
    case JUndefined => false
    case JNull => false
    case JBool(b) => b
    case JNum(n) => n != 0.0
    case JStr(s) => s != ""
    case JObject(_) => true
  }

  /** The properties object; a missing key reads as undefined. */
  type Properties = map<string, Json>

  function Get(props: Properties, key: string): Json
  {
    if key in props then props[key] else JUndefined
  }

  /** A position: longitude, latitude and optional further numbers (RFC 7946, section 3.1.1). */
  type Position = seq<real>

  /**
   * A geometry object. The three kinds the serialiser formats carry their
   * coordinates; for the others only the type name is ever read.
   */
  datatype Geometry =
    | Point(position: Position)
    | LineString(positions: seq<Position>)
    | Polygon(rings: seq<seq<Position>>)
    | MultiPoint
    | MultiLineString
    | MultiPolygon
    | GeometryCollection

  /** The `type` member of a geometry. */
  function TypeName(g: Geometry): string
  {
    match g
    case Point(_) => "Point"
    case LineString(_) => "LineString"
    case Polygon(_) => "Polygon"
    case MultiPoint => "MultiPoint"
    case MultiLineString => "MultiLineString"
    case MultiPolygon => "MultiPolygon"
    case GeometryCollection => "GeometryCollection"
  }

  /** A feature; `geometry` and `properties` may be null (RFC 7946, section 3.2). */
  datatype Feature = Feature(geometry: Option<Geometry>, properties: Option<Properties>)
}
