/**
  GeoJSON as BSON (mongo/geo: createBSON, toBSONArray and the parsing constructors).
  Coordinates are doubles, kept as their eight bytes.
 */
module GeoJson {
  import opened Bytes
  import opened Bson
  import opened BsonReader
  import opened GeoShapes

  type Bits = uint64

  function Ascii(s: string): (r: CStr)
    requires forall c :: c in s ==> 0 < c as int < 128
    ensures |r| == |s| && forall i :: 0 <= i < |s| ==> r[i] == s[i] as int
  {
    assert forall i :: 0 <= i < |s| ==> s[i] in s;
    seq(|s|, i requires 0 <= i < |s| => s[i] as int)
  }

  // mongo/geo/constants.h
  const BBOX: CStr := Ascii("bbox")
  const COORDINATES: CStr := Ascii("coordinates")
  const GEOMETRIES: CStr := Ascii("geometries")
  const TYPE: CStr := Ascii("type")
  const GEOMETRY_COLLECTION: CStr := Ascii("GeometryCollection")
  const LINE_STRING: CStr := Ascii("LineString")
  const MULTI_LINE_STRING: CStr := Ascii("MultiLineString")
  const MULTI_POINT: CStr := Ascii("MultiPoint")
  const MULTI_POLYGON: CStr := Ascii("MultiPolygon")
  const POINT: CStr := Ascii("Point")
  const POLYGON: CStr := Ascii("Polygon")

  /** The names of the fields, in the bytes they are written with. */
  lemma FieldNamesInAscii()
    ensures BBOX == [98, 98, 111, 120]
    ensures COORDINATES == [99, 111, 111, 114, 100, 105, 110, 97, 116, 101, 115]
    ensures GEOMETRIES == [103, 101, 111, 109, 101, 116, 114, 105, 101, 115]
    ensures TYPE == [116, 121, 112, 101]
  {
  }

  /** The names of the simpler types. */
  lemma TypeNamesInAscii()
    ensures POINT == [80, 111, 105, 110, 116]
    ensures LINE_STRING == [76, 105, 110, 101, 83, 116, 114, 105, 110, 103]
    ensures POLYGON == [80, 111, 108, 121, 103, 111, 110]
  {
  }

  /** And of those that hold several. */
  lemma MultiNamesInAscii()
    ensures MULTI_POINT == [77, 117, 108, 116, 105, 80, 111, 105, 110, 116]
    ensures MULTI_LINE_STRING == [77, 117, 108, 116, 105, 76, 105, 110, 101, 83, 116, 114, 105, 110, 103]
  {
  }

  /** The longest two. */
  lemma LongNamesInAscii()
    ensures MULTI_POLYGON == [77, 117, 108, 116, 105, 80, 111, 108, 121, 103, 111, 110]
    ensures GEOMETRY_COLLECTION == [71, 101, 111, 109, 101, 116, 114, 121, 67, 111, 108, 108, 101, 99, 116, 105, 111, 110]
  {
  }

  function MapSeq<A, B>(f: A -> B, xs: seq<A>): (r: seq<B>)
    ensures |r| == |xs|
  {
    seq(|xs|, i requires 0 <= i < |xs| => f(xs[i]))
  }

  // --------------------------------------------------------------- building

  function ListValue<A>(f: A -> Value, xs: seq<A>): Value
  {
    Value.Array(Indexed(MapSeq(f, xs)))
  }

  function NumberValue(bits: Bits): Value { Double(bits) }

  function PositionValue(p: Position<Bits>): Value { ListValue(NumberValue, p) }

  function PathValue(points: seq<Position<Bits>>): Value { ListValue(PositionValue, points) }

  function RingsValue(rings: seq<seq<Position<Bits>>>): Value { ListValue(PathValue, rings) }

  function PolygonsValue(polygons: seq<seq<seq<Position<Bits>>>>): Value { ListValue(RingsValue, polygons) }

  /** toBSONArray(): one flat array, the lower corner first. */
  function BoxValue(b: Box<Bits>): Value { ListValue(NumberValue, b.min + b.max) }

  function PathName(kind: Kind): CStr { if kind == Kind.MultiPoint then MULTI_POINT else LINE_STRING }

  function RingsName(kind: Kind): CStr { if kind == Kind.MultiLineString then MULTI_LINE_STRING else POLYGON }

  function WithBox(d: Doc, bbox: Option<Box<Bits>>): Doc
  {
    if bbox.None? then d else d + [Element(BBOX, BoxValue(bbox.value))]
  }

  /** createBSON(): the type name and the coordinates. */
  function Typed(name: CStr, coordinates: Value): Doc
  {
    [Element(TYPE, Str(name)), Element(COORDINATES, coordinates)]
  }

  /** The document of a geometry, in the form the classes document and create. */
  function ToDoc(g: Geo<Bits>): Doc
  {
    match g
    case Point(at, bbox) => WithBox(Typed(POINT, PositionValue(at)), bbox)
    case Path(kind, points, bbox) => WithBox(Typed(PathName(kind), PathValue(points)), bbox)
    case Rings(kind, rings, bbox) => WithBox(Typed(RingsName(kind), RingsValue(rings)), bbox)
    case MultiPolygon(polygons, bbox) => WithBox(Typed(MULTI_POLYGON, PolygonsValue(polygons)), bbox)
    case GeometryCollection(geometries, bbox) =>
      WithBox([Element(TYPE, Str(GEOMETRY_COLLECTION)), Element(GEOMETRIES, Value.Array(Indexed(ToDocs(geometries))))], bbox)
  }

  function ToDocs(gs: seq<Geo<Bits>>): (r: seq<Value>)
    ensures |r| == |gs|
  {
    if gs == [] then [] else [Object(ToDoc(gs[0]))] + ToDocs(gs[1..])
  }

  /** One document in full: { type: "Point", coordinates: [x, y], bbox: [x, y, u, v] }. */
  lemma PointDocument(x: Bits, y: Bits, u: Bits, v: Bits)
    ensures ToDoc(Point([x, y], Some(Box([x, y], [u, v])))) ==
            [Element([116, 121, 112, 101], Str([80, 111, 105, 110, 116])),
             Element([99, 111, 111, 114, 100, 105, 110, 97, 116, 101, 115], Value.Array(Indexed([Double(x), Double(y)]))),
             Element([98, 98, 111, 120], Value.Array(Indexed([Double(x), Double(y), Double(u), Double(v)])))]
  {
    FieldNamesInAscii();
    TypeNamesInAscii();
    assert MapSeq(NumberValue, [x, y]) == [Double(x), Double(y)];
    assert [x, y] + [u, v] == [x, y, u, v];
    assert MapSeq(NumberValue, [x, y, u, v]) == [Double(x), Double(y), Double(u), Double(v)];
  }

  /** Which name each of the four kinds goes by. */
  lemma KindNames()
    ensures PathName(MultiPoint) == MULTI_POINT && PathName(LineString) == LINE_STRING
    ensures RingsName(MultiLineString) == MULTI_LINE_STRING && RingsName(Polygon) == POLYGON
  {
  }

  // ---------------------------------------------------------------- parsing

  /** Array(): the items, or an exception. */
  function ItemsOf(v: Value): Option<seq<Value>>
  {
    if v.Array? then Some(seq(|v.items|, i requires 0 <= i < |v.items| => v.items[i].value)) else None
  }

  function ParseAll<A>(f: Value -> Option<A>, vs: seq<Value>): (r: Option<seq<A>>)
    ensures r.Some? <==> forall i :: 0 <= i < |vs| ==> f(vs[i]).Some?
    ensures r.Some? ==> |r.value| == |vs| && forall i :: 0 <= i < |vs| ==> f(vs[i]) == Some(r.value[i])
    decreases |vs|
  {
    if vs == [] then Some([])
    else
      var first, rest := f(vs[0]), ParseAll(f, vs[1..]);
      if first.None? || rest.None? then None else Some([first.value] + rest.value)
  }

  function ParseList<A>(f: Value -> Option<A>, v: Value): Option<seq<A>>
  {
    var items := ItemsOf(v);
    if items.None? then None else ParseAll(f, items.value)
  }

  /** Double(): an integer is refused, also where it would be a number to a reader of JSON. */
  function ParseNumber(v: Value): Option<Bits>
  {
    if v.Double? then Some(v.bits) else None
  }

  function ParsePosition(v: Value): Option<Position<Bits>> { ParseList(ParseNumber, v) }

  function ParsePath(v: Value): Option<seq<Position<Bits>>> { ParseList(ParsePosition, v) }

  function ParseRings(v: Value): Option<seq<seq<Position<Bits>>>> { ParseList(ParsePath, v) }

  function ParsePolygons(v: Value): Option<seq<seq<seq<Position<Bits>>>>> { ParseList(ParseRings, v) }

  /** parseBoundingBox(): no box, a box of `n` dimensions, or an exception. */
  function ParseBox(d: Doc, n: nat): Option<Option<Box<Bits>>>
  {
    match GetField(d, BBOX)
    case None => Some(None)
    case Some(v) =>
      var coords := ParseList(ParseNumber, v);
      if coords.None? || |coords.value| != 2 * n then None
      else Some(Some(Box(coords.value[..n], coords.value[n..])))
  }

  /** getCoordsField(). */
  function CoordsField(d: Doc): Option<Value>
  {
    match GetField(d, COORDINATES)
    case Some(Array(items)) => Some(Value.Array(items))
    case _ => None
  }

  /** The part the parsing constructors share: coordinates by `f`, then the box. */
  function ParseShape<A>(f: Value -> Option<A>, d: Doc, n: nat): Option<(A, Option<Box<Bits>>)>
  {
    match CoordsField(d)
    case None => None
    case Some(v) =>
      var coordinates, bbox := f(v), ParseBox(d, n);
      if coordinates.None? || bbox.None? then None else Some((coordinates.value, bbox.value))
  }

  /** Parser::parse(). */
  function Parse(d: Doc, n: nat): Option<Geo<Bits>>
    decreases d, 1
  {
    match GetField(d, TYPE)
    case Some(Str(name)) =>
      if name == GEOMETRY_COLLECTION then ParseCollection(d, n) else ParseLeaf(name, d, n)
    case _ => None
  }

  /** The classes whose coordinates are numbers, by the name of the type. */
  function ParseLeaf(name: ByteSeq, d: Doc, n: nat): Option<Geo<Bits>>
  {
    if name == POINT then
      match ParseShape(ParsePosition, d, n)
      case None => None
      case Some((at, bbox)) => Some(Point(at, bbox))
    else if name == LINE_STRING || name == MULTI_POINT then
      match ParseShape(ParsePath, d, n)
      case None => None
      case Some((points, bbox)) => Some(Path(if name == LINE_STRING then LineString else MultiPoint, points, bbox))
    else if name == POLYGON || name == MULTI_LINE_STRING then
      match ParseShape(ParseRings, d, n)
      case None => None
      case Some((rings, bbox)) => Some(Rings(if name == POLYGON then Polygon else MultiLineString, rings, bbox))
    else if name == MULTI_POLYGON then
      match ParseShape(ParsePolygons, d, n)
      case None => None
      case Some((polygons, bbox)) => Some(MultiPolygon(polygons, bbox))
    else None
  }

  /** GeometryCollection's constructor. */
  function ParseCollection(d: Doc, n: nat): Option<Geo<Bits>>
    decreases d, 0
  {
    GetFieldInside(d, GEOMETRIES);
    match GetField(d, GEOMETRIES)
    case Some(Array(items)) =>
      var geometries, bbox := ParseMembers(items, n), ParseBox(d, n);
      if geometries.None? || bbox.None? then None else Some(GeometryCollection(geometries.value, bbox.value))
    case _ => None
  }

  /** parseGeometries(): every item must be an object and a geometry. */
  function ParseMembers(items: Doc, n: nat): Option<seq<Geo<Bits>>>
    decreases items, 0
  {
    if items == [] then Some([])
    else
      match items[0].value
      case Object(fields) =>
        var first, rest := Parse(fields, n), ParseMembers(items[1..], n);
        if first.None? || rest.None? then None else Some([first.value] + rest.value)
      case _ => None
  }

  lemma {:induction false} GetFieldInside(d: Doc, name: ByteSeq)
    ensures GetField(d, name).Some? ==> exists i :: 0 <= i < |d| && GetField(d, name) == Some(d[i].value)
  {
    if d != [] && d[0].name != name {
      GetFieldInside(d[1..], name);
      assert forall i :: 0 <= i < |d| - 1 ==> d[1..][i] == d[i + 1];
    }
  }

  // ------------------------------------------------------------ round trips

  lemma ListBack<A(!new)>(build: A -> Value, parse: Value -> Option<A>, xs: seq<A>)
    requires forall x :: x in xs ==> parse(build(x)) == Some(x)
    ensures ParseList(parse, ListValue(build, xs)) == Some(xs)
  {
    var items := ItemsOf(ListValue(build, xs)).value;
    forall i | 0 <= i < |xs| ensures parse(items[i]) == Some(xs[i]) {
      assert items[i] == build(xs[i]);
      assert xs[i] in xs;
    }
    assert ParseAll(parse, items).value == xs;
  }

  lemma PositionBack(p: Position<Bits>)
    ensures ParsePosition(PositionValue(p)) == Some(p)
  {
    ListBack(NumberValue, ParseNumber, p);
  }

  lemma PathBack(points: seq<Position<Bits>>)
    ensures ParsePath(PathValue(points)) == Some(points)
  {
    forall p | p in points ensures ParsePosition(PositionValue(p)) == Some(p) { PositionBack(p); }
    ListBack(PositionValue, ParsePosition, points);
  }

  lemma RingsBack(rings: seq<seq<Position<Bits>>>)
    ensures ParseRings(RingsValue(rings)) == Some(rings)
  {
    forall r | r in rings ensures ParsePath(PathValue(r)) == Some(r) { PathBack(r); }
    ListBack(PathValue, ParsePath, rings);
  }

  lemma PolygonsBack(polygons: seq<seq<seq<Position<Bits>>>>)
    ensures ParsePolygons(PolygonsValue(polygons)) == Some(polygons)
  {
    forall p | p in polygons ensures ParseRings(RingsValue(p)) == Some(p) { RingsBack(p); }
    ListBack(RingsValue, ParseRings, polygons);
  }

  lemma FieldNamesDiffer()
    ensures TYPE != COORDINATES && TYPE != GEOMETRIES && TYPE != BBOX
    ensures BBOX != COORDINATES && BBOX != GEOMETRIES && COORDINATES != GEOMETRIES
  {
    assert TYPE[0] != BBOX[0];
  }

  lemma TypeNamesDiffer()
    ensures |POINT| == 5 && |LINE_STRING| == |MULTI_POINT| == 10 && |POLYGON| == 7
    ensures |MULTI_LINE_STRING| == 15 && |MULTI_POLYGON| == 12 && |GEOMETRY_COLLECTION| == 18
    ensures LINE_STRING != MULTI_POINT
  {
    assert LINE_STRING[0] != MULTI_POINT[0];
  }

  /** The fields of a document with or without a box. */
  lemma FieldsOf(name: CStr, field: CStr, v: Value, bbox: Option<Box<Bits>>)
    requires field == COORDINATES || field == GEOMETRIES
    ensures var d := WithBox([Element(TYPE, Str(name)), Element(field, v)], bbox);
            && GetField(d, TYPE) == Some(Str(name)) && GetField(d, field) == Some(v)
            && GetField(d, BBOX) == if bbox.Some? then Some(BoxValue(bbox.value)) else None
  {
    FieldNamesDiffer();
    var e, f := Element(TYPE, Str(name)), Element(field, v);
    var d := WithBox([e, f], bbox);
    assert d[0] == e && d[1..][0] == f;
    assert GetField(d, BBOX) == GetField(d[1..], BBOX) == GetField(d[1..][1..], BBOX);
    if bbox.Some? {
      assert d[1..][1..] == [Element(BBOX, BoxValue(bbox.value))];
    } else {
      assert d[1..][1..] == [];
    }
  }

  predicate BoxFits(bbox: Option<Box<Bits>>, n: nat)
  {
    bbox.Some? ==> |bbox.value.min| == n && |bbox.value.max| == n
  }

  /** A box survives the flat form of twice `n` numbers. */
  lemma BoxBack(d: Doc, bbox: Option<Box<Bits>>, n: nat)
    requires BoxFits(bbox, n)
    requires GetField(d, BBOX) == if bbox.Some? then Some(BoxValue(bbox.value)) else None
    ensures ParseBox(d, n) == Some(bbox)
  {
    if bbox.Some? {
      var flat := bbox.value.min + bbox.value.max;
      ListBack(NumberValue, ParseNumber, flat);
      assert flat[..n] == bbox.value.min && flat[n..] == bbox.value.max;
    }
  }

  lemma ShapeBack<A>(f: Value -> Option<A>, x: A, name: CStr, v: Value, bbox: Option<Box<Bits>>, n: nat)
    requires v.Array? && f(v) == Some(x) && BoxFits(bbox, n)
    ensures var d := WithBox(Typed(name, v), bbox);
            GetField(d, TYPE) == Some(Str(name)) && ParseShape(f, d, n) == Some((x, bbox))
  {
    FieldsOf(name, COORDINATES, v, bbox);
    BoxBack(WithBox(Typed(name, v), bbox), bbox, n);
  }

  /** Every box in it has `n` dimensions, and the kinds are the ones of their form. */
  predicate WellFormed(g: Geo<Bits>, n: nat)
  {
    && BoxFits(g.bbox, n)
    && (g.Path? ==> g.kind == MultiPoint || g.kind == LineString)
    && (g.Rings? ==> g.kind == MultiLineString || g.kind == Polygon)
    && (g.GeometryCollection? ==> forall i :: 0 <= i < |g.geometries| ==> WellFormed(g.geometries[i], n))
  }

  lemma PointDocBack(at: Position<Bits>, bbox: Option<Box<Bits>>, n: nat)
    requires BoxFits(bbox, n)
    ensures Parse(ToDoc(Point(at, bbox)), n) == Some(Point(at, bbox))
  {
    TypeNamesDiffer();
    PositionBack(at);
    ShapeBack(ParsePosition, at, POINT, PositionValue(at), bbox, n);
  }

  lemma PathDocBack(kind: Kind, points: seq<Position<Bits>>, bbox: Option<Box<Bits>>, n: nat)
    requires BoxFits(bbox, n) && (kind == MultiPoint || kind == LineString)
    ensures Parse(ToDoc(Path(kind, points, bbox)), n) == Some(Path(kind, points, bbox))
  {
    TypeNamesDiffer();
    PathBack(points);
    ShapeBack(ParsePath, points, PathName(kind), PathValue(points), bbox, n);
  }

  lemma RingsDocBack(kind: Kind, rings: seq<seq<Position<Bits>>>, bbox: Option<Box<Bits>>, n: nat)
    requires BoxFits(bbox, n) && (kind == MultiLineString || kind == Polygon)
    ensures Parse(ToDoc(Rings(kind, rings, bbox)), n) == Some(Rings(kind, rings, bbox))
  {
    TypeNamesDiffer();
    RingsBack(rings);
    ShapeBack(ParseRings, rings, RingsName(kind), RingsValue(rings), bbox, n);
  }

  lemma MultiPolygonDocBack(polygons: seq<seq<seq<Position<Bits>>>>, bbox: Option<Box<Bits>>, n: nat)
    requires BoxFits(bbox, n)
    ensures Parse(ToDoc(MultiPolygon(polygons, bbox)), n) == Some(MultiPolygon(polygons, bbox))
  {
    TypeNamesDiffer();
    PolygonsBack(polygons);
    ShapeBack(ParsePolygons, polygons, MULTI_POLYGON, PolygonsValue(polygons), bbox, n);
  }

  /**
    Every geometry comes back from its document: all points in order through all
    levels, the kind, the given box, and the members of nested collections.
   */
  lemma {:induction false} GeometryBack(g: Geo<Bits>, n: nat)
    requires WellFormed(g, n)
    ensures Parse(ToDoc(g), n) == Some(g)
    decreases g, 0
  {
    match g
    case Point(at, bbox) => PointDocBack(at, bbox, n);
    case Path(kind, points, bbox) => PathDocBack(kind, points, bbox, n);
    case Rings(kind, rings, bbox) => RingsDocBack(kind, rings, bbox, n);
    case MultiPolygon(polygons, bbox) => MultiPolygonDocBack(polygons, bbox, n);
    case GeometryCollection(geometries, bbox) =>
      MembersBack(geometries, Indexed(ToDocs(geometries)), n);
      CollectionDocBack(geometries, bbox, n);
  }

  lemma CollectionDocBack(geometries: seq<Geo<Bits>>, bbox: Option<Box<Bits>>, n: nat)
    requires BoxFits(bbox, n) && ParseMembers(Indexed(ToDocs(geometries)), n) == Some(geometries)
    ensures Parse(ToDoc(GeometryCollection(geometries, bbox)), n) == Some(GeometryCollection(geometries, bbox))
  {
    var d := ToDoc(GeometryCollection(geometries, bbox));
    FieldsOf(GEOMETRY_COLLECTION, GEOMETRIES, Value.Array(Indexed(ToDocs(geometries))), bbox);
    BoxBack(d, bbox, n);
    assert ParseCollection(d, n) == Some(GeometryCollection(geometries, bbox));
  }

  lemma ToDocsParts(gs: seq<Geo<Bits>>)
    requires gs != []
    ensures ToDocs(gs)[0] == Object(ToDoc(gs[0]))
    ensures forall i :: 0 <= i < |gs| - 1 ==> ToDocs(gs)[i + 1] == ToDocs(gs[1..])[i]
  {
  }

  lemma {:induction false} MembersBack(gs: seq<Geo<Bits>>, items: Doc, n: nat)
    requires forall i :: 0 <= i < |gs| ==> WellFormed(gs[i], n)
    requires |items| == |gs| && forall i :: 0 <= i < |gs| ==> items[i].value == ToDocs(gs)[i]
    ensures ParseMembers(items, n) == Some(gs)
    decreases gs, 1
  {
    if gs != [] {
      GeometryBack(gs[0], n);
      ToDocsParts(gs);
      MembersBack(gs[1..], items[1..], n);
      assert [gs[0]] + gs[1..] == gs;
    } else {
      assert items == [];
    }
  }

  /** The same through the bytes of the BSON document. */
  lemma GeometryBackThroughBytes(g: Geo<Bits>, n: nat)
    requires WellFormed(g, n) && Fits(ToDoc(g))
    ensures ParseDoc(EncodeDoc(ToDoc(g))).Some?
    ensures Parse(ParseDoc(EncodeDoc(ToDoc(g))).value, n) == Some(g)
  {
    ParseDocBack(ToDoc(g));
    GeometryBack(g, n);
  }
}
