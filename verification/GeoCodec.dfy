/**
  The loops that build and parse GeoJSON (mongo/geo), measured against the functions of
  GeoJson. A failed uassert or a wrong element type is None.
 */
module GeoCodec {
  import opened Bytes
  import opened Bson
  import opened GeoShapes
  import opened GeoJson

  lemma ParseAllIs<A>(f: Value -> Option<A>, vs: seq<Value>, xs: seq<A>)
    requires |xs| == |vs| && forall i :: 0 <= i < |vs| ==> f(vs[i]) == Some(xs[i])
    ensures ParseAll(f, vs) == Some(xs)
  {
    assert ParseAll(f, vs).value == xs;
  }

  lemma ItemsOfList<A>(f: A -> Value, xs: seq<A>, items: seq<Value>)
    requires |items| == |xs| && forall i :: 0 <= i < |xs| ==> items[i] == f(xs[i])
    ensures Value.Array(Indexed(items)) == ListValue(f, xs)
  {
    assert items == MapSeq(f, xs);
  }

  // ---------------------------------------------------------------- parsing

  /** parseCoords(). */
  method ParseCoords(coordArr: Value) returns (r: Option<Position<Bits>>)
    ensures r == ParsePosition(coordArr)
  {
    var coordElems := ItemsOf(coordArr);
    if coordElems.None? {
      return None;
    }
    var coords: Position<Bits> := [];
    for i := 0 to |coordElems.value|
      invariant |coords| == i
      invariant forall j :: 0 <= j < i ==> ParseNumber(coordElems.value[j]) == Some(coords[j])
    {
      if !coordElems.value[i].Double? {
        assert ParseNumber(coordElems.value[i]).None?;
        return None;
      }
      coords := coords + [coordElems.value[i].bits];
    }
    ParseAllIs(ParseNumber, coordElems.value, coords);
    r := Some(coords);
  }

  /** parsePointArray(). */
  method ParsePointArray(pointArr: Value) returns (r: Option<seq<Position<Bits>>>)
    ensures r == ParsePath(pointArr)
  {
    var pointElems := ItemsOf(pointArr);
    if pointElems.None? {
      return None;
    }
    var points: seq<Position<Bits>> := [];
    for i := 0 to |pointElems.value|
      invariant |points| == i
      invariant forall j :: 0 <= j < i ==> ParsePosition(pointElems.value[j]) == Some(points[j])
    {
      var point := ParseCoords(pointElems.value[i]);
      if point.None? {
        return None;
      }
      points := points + [point.value];
    }
    ParseAllIs(ParsePosition, pointElems.value, points);
    r := Some(points);
  }

  /** The loop of parseLinearRings(), and of parsePolygon() for one polygon of many. */
  method ParseLinearRings(coordinates: Value) returns (r: Option<seq<seq<Position<Bits>>>>)
    ensures r == ParseRings(coordinates)
  {
    var linearRingElems := ItemsOf(coordinates);
    if linearRingElems.None? {
      return None;
    }
    var linearRings: seq<seq<Position<Bits>>> := [];
    for i := 0 to |linearRingElems.value|
      invariant |linearRings| == i
      invariant forall j :: 0 <= j < i ==> ParsePath(linearRingElems.value[j]) == Some(linearRings[j])
    {
      var ring := ParsePointArray(linearRingElems.value[i]);
      if ring.None? {
        return None;
      }
      linearRings := linearRings + [ring.value];
    }
    ParseAllIs(ParsePath, linearRingElems.value, linearRings);
    r := Some(linearRings);
  }

  /** parseAllPolygons(). */
  method ParseAllPolygons(coordinates: Value) returns (r: Option<seq<seq<seq<Position<Bits>>>>>)
    ensures r == ParsePolygons(coordinates)
  {
    var polygonArr := ItemsOf(coordinates);
    if polygonArr.None? {
      return None;
    }
    var polygons: seq<seq<seq<Position<Bits>>>> := [];
    for i := 0 to |polygonArr.value|
      invariant |polygons| == i
      invariant forall j :: 0 <= j < i ==> ParseRings(polygonArr.value[j]) == Some(polygons[j])
    {
      var polygon := ParseLinearRings(polygonArr.value[i]);
      if polygon.None? {
        return None;
      }
      polygons := polygons + [polygon.value];
    }
    ParseAllIs(ParseRings, polygonArr.value, polygons);
    r := Some(polygons);
  }

  /** The constructor BoundingBox(bson), where the document has the field. */
  method ReadBox(bson: Doc, n: nat) returns (r: Option<Box<Bits>>)
    requires GetField(bson, BBOX).Some?
    ensures ParseBox(bson, n) == if r.Some? then Some(Some(r.value)) else None
  {
    var bbox := GetField(bson, BBOX).value;
    var bboxCoords := ItemsOf(bbox);
    if bboxCoords.None? || |bboxCoords.value| != 2 * n {
      return None;
    }
    var vs := bboxCoords.value;
    var minCoords, maxCoords: Position<Bits> := [], [];
    for i := 0 to n
      invariant |minCoords| == |maxCoords| == i
      invariant forall j :: 0 <= j < i ==> ParseNumber(vs[j]) == Some(minCoords[j])
      invariant forall j :: 0 <= j < i ==> ParseNumber(vs[n + j]) == Some(maxCoords[j])
    {
      if !vs[i].Double? || !vs[n + i].Double? {
        assert ParseNumber(vs[i]).None? || ParseNumber(vs[n + i]).None?;
        return None;
      }
      minCoords := minCoords + [vs[i].bits];
      maxCoords := maxCoords + [vs[n + i].bits];
    }
    forall i | 0 <= i < |vs| ensures ParseNumber(vs[i]) == Some((minCoords + maxCoords)[i]) {
      if i >= n {
        assert vs[n + (i - n)] == vs[i];
      }
    }
    ParseAllIs(ParseNumber, vs, minCoords + maxCoords);
    assert (minCoords + maxCoords)[..n] == minCoords && (minCoords + maxCoords)[n..] == maxCoords;
    r := Some(Box(minCoords, maxCoords));
  }

  // --------------------------------------------------------------- building

  /** toBSONArray(). */
  method ToFlatArray(b: Box<Bits>) returns (v: Value)
    ensures v == BoxValue(b)
  {
    var bab: seq<Value> := [];
    for i := 0 to |b.min|
      invariant |bab| == i && forall j :: 0 <= j < i ==> bab[j] == Double(b.min[j])
    {
      bab := bab + [Double(b.min[i])];
    }
    for i := 0 to |b.max|
      invariant |bab| == |b.min| + i
      invariant forall j :: 0 <= j < |bab| ==> bab[j] == Double((b.min + b.max)[j])
    {
      bab := bab + [Double(b.max[i])];
    }
    ItemsOfList(NumberValue, b.min + b.max, bab);
    v := Value.Array(Indexed(bab));
  }

  /** LineString::createBSON(). */
  method CreateLineString(points: seq<Position<Bits>>) returns (bson: Doc)
    ensures bson == ToDoc(Path(LineString, points, None))
  {
    var bab: seq<Value> := [];
    for i := 0 to |points|
      invariant |bab| == i && forall j :: 0 <= j < i ==> bab[j] == PositionValue(points[j])
    {
      bab := bab + [PositionValue(points[i])];
    }
    ItemsOfList(PositionValue, points, bab);
    bson := Typed(LINE_STRING, Value.Array(Indexed(bab)));
  }

  /** Polygon::createBSON(): the coordinates of every ring's own document. */
  method CreatePolygon(linearRings: seq<seq<Position<Bits>>>) returns (bson: Doc)
    ensures bson == ToDoc(Rings(Polygon, linearRings, None))
  {
    var bab: seq<Value> := [];
    for i := 0 to |linearRings|
      invariant |bab| == i && forall j :: 0 <= j < i ==> bab[j] == PathValue(linearRings[j])
    {
      var ring := CreateLineString(linearRings[i]);
      FieldsOf(LINE_STRING, COORDINATES, PathValue(linearRings[i]), None);
      bab := bab + [GetField(ring, COORDINATES).value];
    }
    ItemsOfList(PathValue, linearRings, bab);
    bson := Typed(POLYGON, Value.Array(Indexed(bab)));
  }

  /** A polygon built from rings and parsed again has the same rings and points, in order. */
  method PolygonThereAndBack(linearRings: seq<seq<Position<Bits>>>) returns (r: Option<seq<seq<Position<Bits>>>>)
    ensures r == Some(linearRings)
  {
    var bson := CreatePolygon(linearRings);
    FieldsOf(POLYGON, COORDINATES, RingsValue(linearRings), None);
    RingsBack(linearRings);
    r := ParseLinearRings(GetField(bson, COORDINATES).value);
  }

  // ----------------------------------------------------------- validateType

  /** validateType(): `||` where the message asks for `&&`, so any type name will do. */
  predicate ValidateType(d: Doc, typeStr: CStr)
  {
    match GetField(d, TYPE)
    case Some(Str(name)) => true
    case _ => false
  }

  /** The constructor Polygon(bson). */
  function PolygonFrom(d: Doc, n: nat): Option<Geo<Bits>>
  {
    if !ValidateType(d, POLYGON) then None
    else
      match ParseShape(ParseRings, d, n)
      case None => None
      case Some((rings, bbox)) => Some(Rings(Polygon, rings, bbox))
  }

  /** The constructor agrees with the parser exactly when the document names the polygon type. */
  lemma TypeNameIsNotChecked(d: Doc, n: nat)
    requires PolygonFrom(d, n).Some?
    ensures Parse(d, n) == PolygonFrom(d, n) <==> GetField(d, TYPE) == Some(Str(POLYGON))
  {
    TypeNamesDiffer();
    var name := GetField(d, TYPE).value.text;
    if name == GEOMETRY_COLLECTION {
      assert Parse(d, n) == ParseCollection(d, n);
    } else {
      assert Parse(d, n) == ParseLeaf(name, d, n);
    }
  }

  /** Such a document that is no polygon: every multi-line string. */
  lemma MultiLineStringTakenForPolygon(lines: seq<seq<Position<Bits>>>, bbox: Option<Box<Bits>>, n: nat)
    requires BoxFits(bbox, n)
    ensures var d := ToDoc(Rings(MultiLineString, lines, bbox));
            && Parse(d, n) == Some(Rings(MultiLineString, lines, bbox))
            && PolygonFrom(d, n) == Some(Rings(Polygon, lines, bbox))
  {
    RingsDocBack(MultiLineString, lines, bbox, n);
    RingsBack(lines);
    ShapeBack(ParseRings, lines, MULTI_LINE_STRING, RingsValue(lines), bbox, n);
  }
}
