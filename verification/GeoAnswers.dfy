/**
  The bounding box of a geometry tree (getBoundingBox and computeBoundingBox of the
  classes of mongo/geo): a "bbox" of the document is taken as it is, leaves are boxed
  by their points, collections by the boxes of their members.
 */
module GeoAnswers {
  import opened Bytes
  import opened GeoShapes
  import opened GeoBoxes

  predicate BBoxInDimension(bbox: Option<Box<Coord>>, n: nat)
  {
    bbox.Some? ==> BoxInDimension(bbox.value, n)
  }

  predicate GeoInDimension(g: Geo<Coord>, n: nat)
  {
    && BBoxInDimension(g.bbox, n)
    && match g
       case Point(at, _) => |at| == n
       case Path(_, points, _) => InDimension(points, n)
       case Rings(_, rings, _) => InDimension(Flatten(rings), n)
       case MultiPolygon(polygons, _) => InDimension(Flatten(Flatten(polygons)), n)
       case GeometryCollection(geometries, _) => forall i :: 0 <= i < |geometries| ==> GeoInDimension(geometries[i], n)
  }

  /** The box a geometry answers with; None where the program dereferences NULL. */
  function Answer(g: Geo<Coord>, n: nat): (r: Option<Box<Coord>>)
    requires GeoInDimension(g, n)
    ensures r.Some? ==> BoxInDimension(r.value, n)
  {
    if g.bbox.Some? then g.bbox
    else if g.GeometryCollection? then
      var boxes := Answers(g.geometries, n);
      if boxes.None? || boxes.value == [] then None else Some(MergeOf(boxes.value, n))
    else Some(LeafBox(g, n))
  }

  /** computeBoundingBox() of everything but a collection. */
  function LeafBox(g: Geo<Coord>, n: nat): (b: Box<Coord>)
    requires GeoInDimension(g, n) && !g.GeometryCollection?
    ensures BoxInDimension(b, n)
  {
    match g
    case Point(at, _) => Box(at, at)
    case Path(_, points, _) => BoxOf(points, n)
    case Rings(_, rings, _) => BoxOf(Flatten(rings), n)
    case MultiPolygon(polygons, _) => BoxOf(Flatten(Flatten(polygons)), n)
  }

  function Answers(gs: seq<Geo<Coord>>, n: nat): (r: Option<seq<Box<Coord>>>)
    requires forall i :: 0 <= i < |gs| ==> GeoInDimension(gs[i], n)
    ensures r.Some? ==> |r.value| == |gs| && BoxesInDimension(r.value, n)
    ensures r.Some? <==> forall i :: 0 <= i < |gs| ==> Answer(gs[i], n).Some?
    ensures r.Some? ==> forall i :: 0 <= i < |gs| ==> Answer(gs[i], n) == Some(r.value[i])
  {
    if gs == [] then Some([])
    else
      var first, rest := Answer(gs[0], n), Answers(gs[1..], n);
      if first.None? || rest.None? then None else Some([first.value] + rest.value)
  }

  lemma AnswersAre(gs: seq<Geo<Coord>>, n: nat, boxes: seq<Box<Coord>>)
    requires |boxes| == |gs| && forall i :: 0 <= i < |gs| ==> GeoInDimension(gs[i], n)
    requires forall i :: 0 <= i < |gs| ==> Answer(gs[i], n) == Some(boxes[i])
    ensures Answers(gs, n) == Some(boxes)
  {
    assert Answers(gs, n).value == boxes;
  }

  // ------------------------------------------------------ when there is an answer

  /** No collection without members, except below a box that the document gives. */
  predicate NoEmptyCollection(g: Geo<Coord>)
  {
    g.bbox.Some? || !g.GeometryCollection?
    || (g.geometries != [] && forall i :: 0 <= i < |g.geometries| ==> NoEmptyCollection(g.geometries[i]))
  }

  /** Asking for the box of a geometry is safe exactly if it has no such collection. */
  lemma {:induction false} AnswerExistsIff(g: Geo<Coord>, n: nat)
    requires GeoInDimension(g, n)
    ensures Answer(g, n).Some? <==> NoEmptyCollection(g)
  {
    if g.bbox.None? && g.GeometryCollection? {
      forall i | 0 <= i < |g.geometries|
        ensures Answer(g.geometries[i], n).Some? <==> NoEmptyCollection(g.geometries[i])
      {
        AnswerExistsIff(g.geometries[i], n);
      }
    }
  }

  // --------------------------------------------------------- what the answer is

  /**
    The points that decide about the lower corner, or about the upper one: that corner
    of a box the document gives, else the geometry's own points.
   */
  function Extent(g: Geo<Coord>, low: bool): Points
  {
    if g.bbox.Some? then [if low then g.bbox.value.min else g.bbox.value.max]
    else if g.GeometryCollection? then ExtentOfAll(g.geometries, low)
    else PointsOf(g)
  }

  function ExtentOfAll(gs: seq<Geo<Coord>>, low: bool): Points
  {
    if gs == [] then [] else Extent(gs[0], low) + ExtentOfAll(gs[1..], low)
  }

  predicate NoBoxGiven(g: Geo<Coord>)
  {
    g.bbox.None? && (g.GeometryCollection? ==> forall i :: 0 <= i < |g.geometries| ==> NoBoxGiven(g.geometries[i]))
  }

  lemma {:induction false} ExtentOfPlain(g: Geo<Coord>, low: bool)
    requires NoBoxGiven(g)
    ensures Extent(g, low) == PointsOf(g)
  {
    if g.GeometryCollection? {
      ExtentOfAllPlain(g.geometries, low);
    }
  }

  lemma {:induction false} ExtentOfAllPlain(gs: seq<Geo<Coord>>, low: bool)
    requires forall i :: 0 <= i < |gs| ==> NoBoxGiven(gs[i])
    ensures ExtentOfAll(gs, low) == PointsOfAll(gs)
  {
    if gs != [] {
      ExtentOfPlain(gs[0], low);
      ExtentOfAllPlain(gs[1..], low);
    }
  }

  lemma BoxOfOne(at: Position<Coord>, n: nat)
    requires |at| == n
    ensures BoxOf([at], n) == Box(at, at)
  {
    var b := BoxOf([at], n);
    forall d | 0 <= d < n ensures b.min[d] == at[d] && b.max[d] == at[d] {
      MinMaxOfAppend([], [at], d);
      assert [] + [at] == [at] && [at][..0] == [];
    }
  }

  /** The extents of the members, as a list of lists. */
  function Extents(gs: seq<Geo<Coord>>, low: bool): (r: seq<Points>)
    ensures |r| == |gs|
    ensures forall i :: 0 <= i < |gs| ==> r[i] == Extent(gs[i], low)
  {
    if gs == [] then [] else [Extent(gs[0], low)] + Extents(gs[1..], low)
  }

  lemma {:induction false} ExtentsFlatten(gs: seq<Geo<Coord>>, low: bool)
    ensures Flatten(Extents(gs, low)) == ExtentOfAll(gs, low)
  {
    if gs != [] {
      ExtentsFlatten(gs[1..], low);
    }
  }

  /**
    Whatever boxes the documents give at whatever depth, ordered or not: in each
    dimension the answer reaches from the least to the greatest of the deciding
    coordinates, of all levels at once.
   */
  lemma {:induction false} AnswerIsBoxOfExtent(g: Geo<Coord>, n: nat)
    requires GeoInDimension(g, n) && NoEmptyCollection(g)
    ensures InDimension(Extent(g, true), n) && InDimension(Extent(g, false), n)
    ensures Answer(g, n) == Some(Span(Extent(g, true), Extent(g, false), n))
  {
    if g.bbox.Some? {
      BoxOfOne(g.bbox.value.min, n);
      BoxOfOne(g.bbox.value.max, n);
    } else if g.GeometryCollection? {
      MembersAnswer(g.geometries, n);
      MergeIsSpanOfAll(Extents(g.geometries, true), Extents(g.geometries, false), Answers(g.geometries, n).value, n);
      ExtentsFlatten(g.geometries, true);
      ExtentsFlatten(g.geometries, false);
    } else if g.Point? {
      BoxOfOne(g.at, n);
    }
  }

  lemma MembersAnswer(gs: seq<Geo<Coord>>, n: nat)
    requires forall i :: 0 <= i < |gs| ==> GeoInDimension(gs[i], n) && NoEmptyCollection(gs[i])
    ensures Answers(gs, n).Some?
    ensures forall i :: 0 <= i < |gs| ==>
              && InDimension(Extents(gs, true)[i], n) && InDimension(Extents(gs, false)[i], n)
              && Answers(gs, n).value[i] == Span(Extents(gs, true)[i], Extents(gs, false)[i], n)
  {
    forall i | 0 <= i < |gs|
      ensures InDimension(Extents(gs, true)[i], n) && InDimension(Extents(gs, false)[i], n)
      ensures Answer(gs[i], n) == Some(Span(Extents(gs, true)[i], Extents(gs, false)[i], n))
    {
      AnswerIsBoxOfExtent(gs[i], n);
    }
  }

  /**
    Without boxes in the document: the answer is the box of all the points of the tree,
    and the smallest one. A box holds every point exactly when it holds the answer.
   */
  lemma AnswerIsLeastBox(g: Geo<Coord>, n: nat)
    requires GeoInDimension(g, n) && NoBoxGiven(g) && NoEmptyCollection(g)
    ensures InDimension(PointsOf(g), n)
    ensures Answer(g, n) == Some(BoxOf(PointsOf(g), n))
    ensures forall c: Box<Coord> :: BoxInDimension(c, n) ==>
              (Covers(c, PointsOf(g), n) <==> Encloses(c, Answer(g, n).value, n))
  {
    AnswerIsBoxOfExtent(g, n);
    ExtentOfPlain(g, true);
    ExtentOfPlain(g, false);
    forall c: Box<Coord> | BoxInDimension(c, n)
      ensures Covers(c, PointsOf(g), n) <==> Encloses(c, Answer(g, n).value, n)
    {
      BoxIsLeast(PointsOf(g), n, c);
    }
  }
}
