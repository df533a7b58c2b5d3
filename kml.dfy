/**
 * `geojson2kml` in static/js/script.js: serialises a GeoJSON FeatureCollection
 * as an OGC KML 2.2 document (namespace http://www.opengis.net/kml/2.2): a fixed
 * header, one Placemark per feature, a fixed footer.
 *
 * The spec functions below give the exact text; GeoJsonToKml builds it the way the
 * source does, by appending to a string while walking the features.
 */
module Kml {
  import opened Wrappers
  import opened Text
  import opened GeoJson

  /**
   * The numeric text the serialiser depends on but does not define itself:
   * `number(n)` is JavaScript's String(n); `circleVertex(center, radius, i)` is the
   * text `${lon},${lat}` of vertex i of the circle approximation, whose values come
   * from Math.cos and Math.sin.
   */
  datatype Formatting = Formatting(number: real -> string, circleVertex: (Position, Json, nat) -> string)

  /** The TypeErrors the function throws (it then returns nothing at all). */
  datatype KmlError =
    | NullProperties       // `properties.name` on a null properties member
    | NullGeometry         // `geometry.type` on a null geometry
    | MissingExteriorRing  // `geometry.coordinates[0].map` on a Polygon without rings

  const Header: string :=
    "<?xml version=\"1.0\" encoding=\"UTF-8\"?>\n<kml xmlns=\"http://www.opengis.net/kml/2.2\">\n<Document>\n"

  const Footer: string := "</Document>\n</kml>"

  /** Number of computed vertices of the circle approximation, before the ring is closed. */
  const NumPoints: nat := 64

  /** The text of a template substitution `${v}`. */
  function ValueText(v: Json, fmt: Formatting): string
  {
    match v
    case JUndefined => "undefined"
    case JNull => "null"
    case JBool(b) => if b then "true" else "false"
    case JNum(n) => fmt.number(n)
    case JStr(s) => s
    case JObject(text) => text
  }

  /** `properties.name || "Unnamed"`, substituted verbatim (no XML escaping). */
  function NameText(props: Properties, fmt: Formatting): string
  {
    var name := Get(props, "name");
    if Truthy(name) then ValueText(name, fmt) else "Unnamed"
  }

  /** `properties.description || ""`, substituted verbatim (no XML escaping). */
  function DescriptionText(props: Properties, fmt: Formatting): string
  {
    var description := Get(props, "description");
    if Truthy(description) then ValueText(description, fmt) else ""
  }

  /** `geometry.type === "Point" && properties.radius`: a drawn circle. */
  predicate IsCircle(g: Geometry, props: Properties)
  {
    g.Point? && Truthy(Get(props, "radius"))
  }

  /** The element name used for both the opening and the closing geometry tag. */
  function GeometryTag(g: Geometry, props: Properties): string
  {
    if IsCircle(g, props) then "Polygon" else TypeName(g)
  }

  /** `coord.join(",")` for one position. */
  function PositionText(p: Position, fmt: Formatting): string
  {
    Join(seq(|p|, k requires 0 <= k < |p| => fmt.number(p[k])), ",")
  }

  /** `coords.map((coord) => coord.join(",")).join(" ")`. */
  function PositionsText(ps: seq<Position>, fmt: Formatting): string
  {
    Join(seq(|ps|, k requires 0 <= k < |ps| => PositionText(ps[k], fmt)), " ")
  }

  /** The circle ring: vertices 0 .. NumPoints - 1, then vertex 0 again. */
  function CircleRing(center: Position, radius: Json, fmt: Formatting): seq<string>
  {
    var vertices := CircleVertices(center, radius, fmt, NumPoints);
    vertices + [vertices[0]]
  }

  /** The first n computed vertices of the circle approximation. */
  function CircleVertices(center: Position, radius: Json, fmt: Formatting, n: nat): seq<string>
  {
    seq(n, k requires 0 <= k => fmt.circleVertex(center, radius, k))
  }

  function CoordinatesElement(text: string): string
  {
    "<coordinates>" + text + "</coordinates>"
  }

  function OuterBoundary(text: string): string
  {
    "<outerBoundaryIs>\n        <LinearRing>\n          " + CoordinatesElement(text)
      + "\n        </LinearRing>\n      </outerBoundaryIs>"
  }

  /** What goes between the geometry's opening and closing tags. */
  function GeometryBody(g: Geometry, props: Properties, fmt: Formatting): Result<string, KmlError>
  {
    if IsCircle(g, props) then
      Ok(OuterBoundary(Join(CircleRing(g.position, Get(props, "radius"), fmt), " ")))
    else
      match g
      case Point(p) => Ok(CoordinatesElement(PositionText(p, fmt)))
      case LineString(ps) => Ok(CoordinatesElement(PositionsText(ps, fmt)))
      case Polygon(rings) =>
        if |rings| == 0 then Err(MissingExteriorRing) else Ok(OuterBoundary(PositionsText(rings[0], fmt)))
      case _ => Ok("")
  }

  function PlacemarkOpen(name: string, description: string, tag: string): string
  {
    "<Placemark>\n  <name>" + name + "</name>\n  <description>" + description + "</description>\n  <"
      + tag + ">\n"
  }

  function PlacemarkClose(tag: string): string
  {
    "</" + tag + ">\n</Placemark>\n"
  }

  /** The text one feature contributes, or the TypeError it raises. */
  function Placemark(f: Feature, fmt: Formatting): Result<string, KmlError>
  {
    match f.properties
    case None => Err(NullProperties)
    case Some(props) =>
      match f.geometry
      case None => Err(NullGeometry)
      case Some(g) =>
        var tag := GeometryTag(g, props);
        match GeometryBody(g, props, fmt)
        case Err(e) => Err(e)
        case Ok(body) =>
          Ok(PlacemarkOpen(NameText(props, fmt), DescriptionText(props, fmt), tag) + body + PlacemarkClose(tag))
  }

  /** Concatenation of two partial results; the first error wins. */
  function Combine(a: Result<string, KmlError>, b: Result<string, KmlError>): Result<string, KmlError>
  {
    match a
    case Err(e) => Err(e)
    case Ok(x) =>
      match b
      case Err(e) => Err(e)
      case Ok(y) => Ok(x + y)
  }

  /** The Placemarks of all features, in order; the first TypeError aborts. */
  function Placemarks(fs: seq<Feature>, fmt: Formatting): Result<string, KmlError>
  {
    if fs == [] then Ok("") else Combine(Placemark(fs[0], fmt), Placemarks(fs[1..], fmt))
  }

  /** The whole document `geojson2kml` returns for the features, or the TypeError it throws. */
  function Document(fs: seq<Feature>, fmt: Formatting): Result<string, KmlError>
  {
    Combine(Combine(Ok(Header), Placemarks(fs, fmt)), Ok(Footer))
  }

  // ---------------------------------------------------------------------------
  // The serialiser as the source runs it
  // ---------------------------------------------------------------------------

  /** The `for` loop that pushes the circle's vertices, then `coordinates.push(coordinates[0])`. */
  method BuildCircleRing(center: Position, radius: Json, fmt: Formatting) returns (coordinates: seq<string>)
    ensures coordinates == CircleRing(center, radius, fmt)
  {
    coordinates := [];
    for i := 0 to NumPoints
      invariant coordinates == CircleVertices(center, radius, fmt, i)
    {
      coordinates := coordinates + [fmt.circleVertex(center, radius, i)];
    }
    coordinates := coordinates + [coordinates[0]];
  }

  /** `kml` extended by a result's text, or that result's error. */
  function Extend(kml: string, r: Result<string, KmlError>): Result<string, KmlError>
  {
    Combine(Ok(kml), r)
  }

  /** The body of the `forEach` callback: appends one feature's Placemark to `kml`. */
  method AppendPlacemark(kml: string, feature: Feature, fmt: Formatting) returns (r: Result<string, KmlError>)
    ensures r == Extend(kml, Placemark(feature, fmt))
  {
    if feature.properties.None? {
      return Err(NullProperties);
    }
    var props := feature.properties.value;
    var name := NameText(props, fmt);
    var description := DescriptionText(props, fmt);
    if feature.geometry.None? {
      return Err(NullGeometry);
    }
    var geometry := feature.geometry.value;
    var tag := GeometryTag(geometry, props);
    var out := kml + PlacemarkOpen(name, description, tag);
    ghost var start := out;
    if IsCircle(geometry, props) {
      var ring := BuildCircleRing(geometry.position, Get(props, "radius"), fmt);
      out := out + OuterBoundary(Join(ring, " "));
    } else if geometry.Point? {
      out := out + CoordinatesElement(PositionText(geometry.position, fmt));
    } else if geometry.LineString? {
      out := out + CoordinatesElement(PositionsText(geometry.positions, fmt));
    } else if geometry.Polygon? {
      if |geometry.rings| == 0 {
        return Err(MissingExteriorRing);
      }
      out := out + OuterBoundary(PositionsText(geometry.rings[0], fmt));
    }
    ghost var body := GeometryBody(geometry, props, fmt).value;
    assert out == start + body;
    out := out + PlacemarkClose(tag);
    ghost var open, close := PlacemarkOpen(name, description, tag), PlacemarkClose(tag);
    ConcatAssoc(kml, open, body);
    ConcatAssoc(kml, open + body, close);
    r := Ok(out);
  }

  /**
   * `geojson2kml`: starts from the header, appends each feature's Placemark in turn,
   * then the footer. The result is exactly Document(features).
   */
  method GeoJsonToKml(features: seq<Feature>, fmt: Formatting) returns (r: Result<string, KmlError>)
    ensures r == Document(features, fmt)
  {
    var kml := Header;
    for i := 0 to |features|
      invariant Placemarks(features[..i], fmt).Ok?
      invariant kml == Header + Placemarks(features[..i], fmt).value
    {
      var next := AppendPlacemark(kml, features[i], fmt);
      PlacemarksSnoc(features, i, fmt);
      if next.Err? {
        PlacemarksErrorPrefix(features, i + 1, fmt);
        return Err(next.error);
      }
      ConcatAssoc(Header, Placemarks(features[..i], fmt).value, Placemark(features[i], fmt).value);
      kml := next.value;
    }
    assert features[..|features|] == features;
    kml := kml + Footer;
    r := Ok(kml);
  }

  // ---------------------------------------------------------------------------
  // Properties of the document
  // ---------------------------------------------------------------------------

  /** The Placemarks of a concatenation are the concatenation of the Placemarks. */
  lemma {:induction false} PlacemarksConcat(a: seq<Feature>, b: seq<Feature>, fmt: Formatting)
    ensures Placemarks(a + b, fmt) == Combine(Placemarks(a, fmt), Placemarks(b, fmt))
  {
    if a == [] {
      assert a + b == b;
      var z := Placemarks(b, fmt);
      if z.Ok? {
        assert "" + z.value == z.value;
      }
    } else {
      assert (a + b)[1..] == a[1..] + b;
      PlacemarksConcat(a[1..], b, fmt);
      var x, y, z := Placemark(a[0], fmt), Placemarks(a[1..], fmt), Placemarks(b, fmt);
      if x.Ok? && y.Ok? && z.Ok? {
        ConcatAssoc(x.value, y.value, z.value);
      }
    }
  }

  /** One feature contributes exactly its own Placemark. */
  lemma PlacemarksSingle(f: Feature, fmt: Formatting)
    ensures Placemarks([f], fmt) == Placemark(f, fmt)
  {
    var x := Placemark(f, fmt);
    assert [f][1..] == [];
    if x.Ok? {
      assert x.value + "" == x.value;
    }
  }

  /** Appending feature i extends the Placemarks of the first i features by its own. */
  lemma PlacemarksSnoc(fs: seq<Feature>, i: nat, fmt: Formatting)
    requires i < |fs|
    ensures Placemarks(fs[..i + 1], fmt) == Combine(Placemarks(fs[..i], fmt), Placemark(fs[i], fmt))
  {
    assert fs[..i + 1] == fs[..i] + [fs[i]];
    PlacemarksConcat(fs[..i], [fs[i]], fmt);
    PlacemarksSingle(fs[i], fmt);
  }

  /** A TypeError among the first i features is the error of the whole list. */
  lemma PlacemarksErrorPrefix(fs: seq<Feature>, i: nat, fmt: Formatting)
    requires i <= |fs| && Placemarks(fs[..i], fmt).Err?
    ensures Placemarks(fs, fmt) == Placemarks(fs[..i], fmt)
  {
    assert fs == fs[..i] + fs[i..];
    PlacemarksConcat(fs[..i], fs[i..], fmt);
  }

  /**
   * Framing: when the conversion succeeds, the document is the header, the Placemarks,
   * the footer; it starts with the XML declaration, the kml element in the KML 2.2
   * namespace and the Document element, and ends with `</Document>\n</kml>`. It
   * succeeds exactly when every feature's Placemark does. No features: header and
   * footer only.
   */
  lemma DocumentFraming(fs: seq<Feature>, fmt: Formatting)
    ensures Document(fs, fmt).Ok? <==> Placemarks(fs, fmt).Ok?
    ensures Document(fs, fmt).Ok? ==>
              var text := Document(fs, fmt).value;
              && text == Header + Placemarks(fs, fmt).value + Footer
              && |text| >= |Header| + |Footer|
              && text[..|Header|] == Header
              && text[|text| - |Footer|..] == Footer
    ensures Document([], fmt) == Ok(Header + Footer)
  {
    if Placemarks(fs, fmt).Ok? {
      var text := Document(fs, fmt).value;
      var body := Placemarks(fs, fmt).value;
      assert text == Header + body + Footer;
      assert text[..|Header|] == Header;
      assert text[|text| - |Footer|..] == Footer;
    }
    assert Header + "" == Header;
  }

  /**
   * Errors: the list of Placemarks fails exactly when some feature's Placemark fails,
   * and then with the error of the first such feature (forEach stops at the throw).
   */
  lemma {:induction false} PlacemarksError(fs: seq<Feature>, fmt: Formatting)
    ensures Placemarks(fs, fmt).Err? <==> exists i :: 0 <= i < |fs| && Placemark(fs[i], fmt).Err?
    ensures Placemarks(fs, fmt).Err? ==>
              exists i :: 0 <= i < |fs| && Placemark(fs[i], fmt) == Placemarks(fs, fmt)
                          && forall j :: 0 <= j < i ==> Placemark(fs[j], fmt).Ok?
  {
    if fs != [] {
      PlacemarksError(fs[1..], fmt);
      if Placemark(fs[0], fmt).Ok? {
        if Placemarks(fs[1..], fmt).Err? {
          var i :| 0 <= i < |fs[1..]| && Placemark(fs[1..][i], fmt) == Placemarks(fs[1..], fmt)
                   && forall j :: 0 <= j < i ==> Placemark(fs[1..][j], fmt).Ok?;
          assert Placemark(fs[i + 1], fmt) == Placemarks(fs, fmt);
          assert forall j :: 0 <= j < i + 1 ==> Placemark(fs[j], fmt).Ok? by {
            forall j | 0 <= j < i + 1
              ensures Placemark(fs[j], fmt).Ok?
            {
              if j > 0 {
                assert fs[j] == fs[1..][j - 1];
              }
            }
          }
        } else {
          forall i | 0 <= i < |fs|
            ensures Placemark(fs[i], fmt).Ok?
          {
            if i > 0 {
              assert fs[i] == fs[1..][i - 1];
            }
          }
        }
      }
    }
  }

  /**
   * One Placemark: it fails exactly on a null properties member, a null geometry, or a
   * Polygon without rings. Otherwise it opens with `<Placemark>` and the name and
   * description elements, then opens and later closes ONE geometry tag, and ends with
   * `</Placemark>`.
   */
  lemma PlacemarkShape(f: Feature, fmt: Formatting)
    ensures Placemark(f, fmt).Err? <==>
              f.properties.None? || f.geometry.None? || (f.geometry.value.Polygon? && f.geometry.value.rings == [])
    ensures Placemark(f, fmt).Ok? ==>
              var props, g := f.properties.value, f.geometry.value;
              var tag := GeometryTag(g, props);
              exists body :: Placemark(f, fmt).value ==
                PlacemarkOpen(NameText(props, fmt), DescriptionText(props, fmt), tag) + body + PlacemarkClose(tag)
  {
    if Placemark(f, fmt).Ok? {
      var props, g := f.properties.value, f.geometry.value;
      var body := GeometryBody(g, props, fmt).value;
      assert Placemark(f, fmt).value ==
        PlacemarkOpen(NameText(props, fmt), DescriptionText(props, fmt), GeometryTag(g, props)) + body
          + PlacemarkClose(GeometryTag(g, props));
    }
  }

  /**
   * The geometry tag: `Polygon` for a Point with a truthy radius (a drawn circle) and
   * for a Polygon, otherwise the geometry's own type name, which differs from
   * `Polygon`.
   */
  lemma TagChoice(g: Geometry, props: Properties)
    ensures GeometryTag(g, props) == "Polygon" <==> IsCircle(g, props) || g.Polygon?
    ensures !IsCircle(g, props) ==> GeometryTag(g, props) == TypeName(g)
  {
    if !IsCircle(g, props) && !g.Polygon? {
      var t := TypeName(g);
      assert t[0] != 'P' || t[1] != 'o' || |t| != 7;
    }
  }

  /**
   * Name and description: a falsy `name` gives "Unnamed" and a falsy `description` "";
   * a non-empty string is inserted exactly as it is, markup included.
   */
  lemma NameAndDescription(props: Properties, fmt: Formatting)
    ensures !Truthy(Get(props, "name")) ==> NameText(props, fmt) == "Unnamed"
    ensures !Truthy(Get(props, "description")) ==> DescriptionText(props, fmt) == ""
    ensures forall s :: Get(props, "name") == JStr(s) && s != "" ==> NameText(props, fmt) == s
    ensures forall s :: Get(props, "description") == JStr(s) ==> DescriptionText(props, fmt) == s
  {
  }

  /** A Polygon is written with its exterior ring only: interior rings change nothing. */
  lemma PolygonDropsHoles(outer: seq<Position>, holes: seq<seq<Position>>, props: Properties, fmt: Formatting)
    ensures Placemark(Feature(Some(Polygon([outer] + holes)), Some(props)), fmt)
         == Placemark(Feature(Some(Polygon([outer])), Some(props)), fmt)
    ensures Placemark(Feature(Some(Polygon([outer])), Some(props)), fmt) ==
              Ok(PlacemarkOpen(NameText(props, fmt), DescriptionText(props, fmt), "Polygon")
                 + OuterBoundary(PositionsText(outer, fmt)) + PlacemarkClose("Polygon"))
  {
    assert ([outer] + holes)[0] == outer;
  }

  /** Any other geometry type gives an empty element: its tag opened and closed at once. */
  lemma OtherTypesEmpty(g: Geometry, props: Properties, fmt: Formatting)
    requires !g.Point? && !g.LineString? && !g.Polygon?
    ensures Placemark(Feature(Some(g), Some(props)), fmt) ==
              Ok(PlacemarkOpen(NameText(props, fmt), DescriptionText(props, fmt), TypeName(g))
                 + PlacemarkClose(TypeName(g)))
  {
    assert PlacemarkOpen(NameText(props, fmt), DescriptionText(props, fmt), TypeName(g)) + ""
        == PlacemarkOpen(NameText(props, fmt), DescriptionText(props, fmt), TypeName(g));
  }

  /**
   * A Point without a truthy radius is written as one `coordinates` element holding
   * its numbers joined by commas; a LineString as one `coordinates` element holding
   * its positions joined by spaces.
   */
  lemma PointAndLineString(p: Position, ps: seq<Position>, props: Properties, fmt: Formatting)
    ensures !Truthy(Get(props, "radius")) ==>
              Placemark(Feature(Some(Point(p)), Some(props)), fmt) ==
                Ok(PlacemarkOpen(NameText(props, fmt), DescriptionText(props, fmt), "Point")
                   + CoordinatesElement(PositionText(p, fmt)) + PlacemarkClose("Point"))
    ensures Placemark(Feature(Some(LineString(ps)), Some(props)), fmt) ==
              Ok(PlacemarkOpen(NameText(props, fmt), DescriptionText(props, fmt), "LineString")
                 + CoordinatesElement(PositionsText(ps, fmt)) + PlacemarkClose("LineString"))
  {
  }

  /** The circle ring has NumPoints + 1 = 65 entries and is closed: its last entry is its first. */
  lemma CircleRingClosed(center: Position, radius: Json, fmt: Formatting)
    ensures var ring := CircleRing(center, radius, fmt);
            && |ring| == NumPoints + 1 == 65
            && ring[NumPoints] == ring[0]
            && forall k :: 0 <= k < NumPoints ==> ring[k] == fmt.circleVertex(center, radius, k)
  {
  }

  /**
   * Coordinates round trip: when no formatted number contains a comma, splitting a
   * position's text at commas gives the numbers' texts back; when no formatted number
   * contains a comma or a space, splitting a LineString's or ring's text at spaces
   * gives each position's text back.
   */
  lemma CoordinatesRoundTrip(ps: seq<Position>, fmt: Formatting)
    requires forall k, n :: 0 <= k < |ps| && n in ps[k] ==> ',' !in fmt.number(n) && ' ' !in fmt.number(n)
    ensures forall k :: 0 <= k < |ps| && |ps[k]| >= 1 ==>
              Split(PositionText(ps[k], fmt), ',') == seq(|ps[k]|, m requires 0 <= m < |ps[k]| => fmt.number(ps[k][m]))
    ensures |ps| >= 1 ==>
              Split(PositionsText(ps, fmt), ' ') == seq(|ps|, k requires 0 <= k < |ps| => PositionText(ps[k], fmt))
  {
    forall k | 0 <= k < |ps| && |ps[k]| >= 1
      ensures Split(PositionText(ps[k], fmt), ',') == seq(|ps[k]|, m requires 0 <= m < |ps[k]| => fmt.number(ps[k][m]))
    {
      var texts := seq(|ps[k]|, m requires 0 <= m < |ps[k]| => fmt.number(ps[k][m]));
      forall m | 0 <= m < |texts|
        ensures ',' !in texts[m]
      {
        var n := ps[k][m];
        assert n in ps[k];
        assert ',' !in fmt.number(n);
        assert texts[m] == fmt.number(n);
      }
      SplitJoin(texts, ',');
    }
    if |ps| >= 1 {
      var texts := seq(|ps|, k requires 0 <= k < |ps| => PositionText(ps[k], fmt));
      forall k | 0 <= k < |ps|
        ensures ' ' !in texts[k]
      {
        NoSpaceInPosition(ps[k], fmt);
      }
      SplitJoin(texts, ' ');
    }
  }

  lemma NoSpaceInPosition(p: Position, fmt: Formatting)
    requires forall n :: n in p ==> ' ' !in fmt.number(n)
    ensures ' ' !in PositionText(p, fmt)
  {
    var texts := seq(|p|, k requires 0 <= k < |p| => fmt.number(p[k]));
    forall k | 0 <= k < |texts|
      ensures ' ' !in texts[k]
    {
      var n := p[k];
      assert n in p;
      assert ' ' !in fmt.number(n);
      assert texts[k] == fmt.number(n);
    }
    JoinAvoids(texts, ",", ' ');
  }
}
