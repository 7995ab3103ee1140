/**
  Bounding boxes (mongo/geo/geometry.h): of points, with the largest double as the
  starting value, and of other boxes. Coordinates are real numbers in the range of a
  double.
 */
module GeoBoxes {
  import opened Bytes
  import opened GeoShapes

  // numeric_limits<double>::max()
  const MAX_DOUBLE: real := 179769313486231570814527423731704356798070567525844996598917476803157260780028538760589558632766878171540458953514382464234321326889464182768467546703537516986049910576551282076245490090389328944075868508455133942304583236903222948165808559332123348274797826204144723168738177180919299881250404026184124858368.0

  type Coord = r: real | -MAX_DOUBLE <= r <= MAX_DOUBLE witness 0.0

  type Points = seq<Position<Coord>>

  /** Every position has as many coordinates as the coordinate type has dimensions. */
  predicate InDimension(points: Points, n: nat)
  {
    forall p :: p in points ==> |p| == n
  }

  // --------------------------------------------------------- one dimension

  function Smaller(a: Coord, b: Coord): Coord { if b < a then b else a }

  function Larger(a: Coord, b: Coord): Coord { if b > a then b else a }

  function MinOf(points: Points, d: nat): Coord
    requires forall p :: p in points ==> d < |p|
  {
    if points == [] then MAX_DOUBLE
    else Smaller(MinOf(points[..|points| - 1], d), points[|points| - 1][d])
  }

  function MaxOf(points: Points, d: nat): Coord
    requires forall p :: p in points ==> d < |p|
  {
    if points == [] then -MAX_DOUBLE
    else Larger(MaxOf(points[..|points| - 1], d), points[|points| - 1][d])
  }

  /** findMinAndMaxCoordinatesOfDimension(). */
  method FindMinAndMax(points: Points, dimension: nat) returns (min: Coord, max: Coord)
    requires forall p :: p in points ==> dimension < |p|
    ensures min == MinOf(points, dimension) && max == MaxOf(points, dimension)
  {
    min, max := MAX_DOUBLE, -MAX_DOUBLE;
    for i := 0 to |points|
      invariant min == MinOf(points[..i], dimension) && max == MaxOf(points[..i], dimension)
    {
      if points[i][dimension] < min {
        min := points[i][dimension];
      }
      if points[i][dimension] > max {
        max := points[i][dimension];
      }
      assert points[..i + 1][..i] == points[..i];
    }
    assert points[..|points|] == points;
  }

  /**
    MinOf is the greatest lower bound and MaxOf the least upper bound. With no points
    the starting values are: every coordinate is a bound, and they are the extreme ones.
   */
  lemma {:induction false} MinMaxAreTight(points: Points, d: nat, c: Coord)
    requires forall p :: p in points ==> d < |p|
    ensures c <= MinOf(points, d) <==> forall i :: 0 <= i < |points| ==> c <= points[i][d]
    ensures c >= MaxOf(points, d) <==> forall i :: 0 <= i < |points| ==> c >= points[i][d]
    decreases |points|
  {
    if points != [] {
      var front := points[..|points| - 1];
      MinMaxAreTight(front, d, c);
      assert forall i :: 0 <= i < |front| ==> front[i] == points[i];
    }
  }

  // ----------------------------------------------------------------- boxes

  /** computeBoundingBox() of points. */
  function BoxOf(points: Points, n: nat): (b: Box<Coord>)
    requires InDimension(points, n)
  {
    Box(seq(n, d requires 0 <= d < n => MinOf(points, d)), seq(n, d requires 0 <= d < n => MaxOf(points, d)))
  }

  method ComputeBoxOfPoints(points: Points, n: nat) returns (b: Box<Coord>)
    requires InDimension(points, n)
    ensures b == BoxOf(points, n)
  {
    var minCoordComponents, maxCoordComponents: seq<Coord> := [], [];
    for i := 0 to n
      invariant minCoordComponents == BoxOf(points, n).min[..i]
      invariant maxCoordComponents == BoxOf(points, n).max[..i]
    {
      var min, max := FindMinAndMax(points, i);
      minCoordComponents := minCoordComponents + [min];
      maxCoordComponents := maxCoordComponents + [max];
    }
    b := Box(minCoordComponents, maxCoordComponents);
  }

  predicate BoxInDimension(b: Box<Coord>, n: nat)
  {
    |b.min| == n && |b.max| == n
  }

  predicate Covers(b: Box<Coord>, points: Points, n: nat)
    requires BoxInDimension(b, n) && InDimension(points, n)
  {
    forall i, d :: 0 <= i < |points| && 0 <= d < n ==> b.min[d] <= points[i][d] <= b.max[d]
  }

  predicate Encloses(b: Box<Coord>, inner: Box<Coord>, n: nat)
    requires BoxInDimension(b, n) && BoxInDimension(inner, n)
  {
    forall d :: 0 <= d < n ==> b.min[d] <= inner.min[d] && inner.max[d] <= b.max[d]
  }

  /**
    The box of the points is the smallest that holds them: a box holds all the points
    exactly when it holds that box.
   */
  lemma BoxIsLeast(points: Points, n: nat, c: Box<Coord>)
    requires InDimension(points, n) && BoxInDimension(c, n)
    ensures Covers(BoxOf(points, n), points, n)
    ensures Covers(c, points, n) <==> Encloses(c, BoxOf(points, n), n)
  {
    var b := BoxOf(points, n);
    forall d | 0 <= d < n
      ensures forall i :: 0 <= i < |points| ==> b.min[d] <= points[i][d] <= b.max[d]
      ensures c.min[d] <= b.min[d] <==> forall i :: 0 <= i < |points| ==> c.min[d] <= points[i][d]
      ensures b.max[d] <= c.max[d] <==> forall i :: 0 <= i < |points| ==> points[i][d] <= c.max[d]
    {
      MinMaxAreTight(points, d, b.min[d]);
      MinMaxAreTight(points, d, b.max[d]);
      MinMaxAreTight(points, d, c.min[d]);
      MinMaxAreTight(points, d, c.max[d]);
    }
  }

  // ---------------------------------------------------------- box of boxes

  function Mins(boxes: seq<Box<Coord>>): (r: Points)
    ensures |r| == |boxes|
  {
    seq(|boxes|, i requires 0 <= i < |boxes| => boxes[i].min)
  }

  function Maxs(boxes: seq<Box<Coord>>): (r: Points)
    ensures |r| == |boxes|
  {
    seq(|boxes|, i requires 0 <= i < |boxes| => boxes[i].max)
  }

  predicate BoxesInDimension(boxes: seq<Box<Coord>>, n: nat)
  {
    forall i :: 0 <= i < |boxes| ==> BoxInDimension(boxes[i], n)
  }

  /** The smallest of all minima and the largest of all maxima, in each dimension. */
  function MergeOf(boxes: seq<Box<Coord>>, n: nat): (b: Box<Coord>)
    requires BoxesInDimension(boxes, n)
    ensures BoxInDimension(b, n)
  {
    Box(BoxOf(Mins(boxes), n).min, BoxOf(Maxs(boxes), n).max)
  }

  /** computeBoundingBox() of boxes; NULL for none. */
  method MergeBoxes(bboxes: seq<Box<Coord>>, n: nat) returns (r: Option<Box<Coord>>)
    requires BoxesInDimension(bboxes, n)
    ensures r == if bboxes == [] then None else Some(MergeOf(bboxes, n))
  {
    if bboxes == [] {
      return None;
    }
    var minCoords, maxCoords := bboxes[0].min, bboxes[0].max;
    MergeOfOne(bboxes, n);
    for i := 1 to |bboxes|
      invariant Box(minCoords, maxCoords) == MergeOf(bboxes[..i], n)
    {
      var curMin, curMax := bboxes[i].min, bboxes[i].max;
      ghost var was := Box(minCoords, maxCoords);
      for j := 0 to |curMin|
        invariant |minCoords| == |maxCoords| == n
        invariant forall d :: 0 <= d < n ==>
                    minCoords[d] == if d < j then Smaller(was.min[d], curMin[d]) else was.min[d]
        invariant forall d :: 0 <= d < n ==>
                    maxCoords[d] == if d < j then Larger(was.max[d], curMax[d]) else was.max[d]
      {
        minCoords := minCoords[j := Smaller(minCoords[j], curMin[j])];
        maxCoords := maxCoords[j := Larger(maxCoords[j], curMax[j])];
      }
      MergeOfMore(bboxes, i, n, Box(minCoords, maxCoords));
    }
    assert bboxes[..|bboxes|] == bboxes;
    r := Some(Box(minCoords, maxCoords));
  }

  lemma MergeOfOne(boxes: seq<Box<Coord>>, n: nat)
    requires boxes != [] && BoxesInDimension(boxes, n)
    ensures MergeOf(boxes[..1], n) == boxes[0]
  {
    var m := MergeOf(boxes[..1], n);
    forall d | 0 <= d < n ensures m.min[d] == boxes[0].min[d] && m.max[d] == boxes[0].max[d] {
      assert MinOf(Mins(boxes[..1])[..0], d) == MAX_DOUBLE;
      assert MaxOf(Maxs(boxes[..1])[..0], d) == -MAX_DOUBLE;
    }
  }

  lemma MergeOfMore(boxes: seq<Box<Coord>>, i: nat, n: nat, b: Box<Coord>)
    requires i < |boxes| && BoxesInDimension(boxes, n) && BoxInDimension(b, n)
    requires var was := MergeOf(boxes[..i], n);
             forall d :: 0 <= d < n ==>
               && b.min[d] == Smaller(was.min[d], boxes[i].min[d])
               && b.max[d] == Larger(was.max[d], boxes[i].max[d])
    ensures b == MergeOf(boxes[..i + 1], n)
  {
    assert Mins(boxes[..i + 1])[..i] == Mins(boxes[..i]);
    assert Maxs(boxes[..i + 1])[..i] == Maxs(boxes[..i]);
  }

  function BoxesOf(lists: seq<Points>, n: nat): (boxes: seq<Box<Coord>>)
    requires forall i :: 0 <= i < |lists| ==> InDimension(lists[i], n)
    ensures |boxes| == |lists| && BoxesInDimension(boxes, n)
  {
    seq(|lists|, i requires 0 <= i < |lists| => BoxOf(lists[i], n))
  }

  lemma {:induction false} FlattenInDimension(lists: seq<Points>, n: nat)
    requires forall i :: 0 <= i < |lists| ==> InDimension(lists[i], n)
    ensures InDimension(Flatten(lists), n)
  {
    if lists != [] {
      FlattenInDimension(lists[1..], n);
    }
  }

  lemma {:induction false} MinMaxOfAppend(a: Points, b: Points, d: nat)
    requires forall p :: p in a ==> d < |p|
    requires forall p :: p in b ==> d < |p|
    ensures MinOf(a + b, d) == Smaller(MinOf(a, d), MinOf(b, d))
    ensures MaxOf(a + b, d) == Larger(MaxOf(a, d), MaxOf(b, d))
    decreases |b|
  {
    if b == [] {
      assert a + b == a;
    } else {
      var front := b[..|b| - 1];
      MinMaxOfAppend(a, front, d);
      assert (a + b)[..|a + b| - 1] == a + front;
    }
  }

  lemma FlattenLast(lists: seq<Points>)
    requires lists != []
    ensures Flatten(lists) == Flatten(lists[..|lists| - 1]) + lists[|lists| - 1]
  {
    FlattenSnoc(lists, |lists| - 1);
    assert lists[..|lists|] == lists;
  }

  /** One list more, whose minimum is the last of the minima. */
  lemma MergedMinStep(lists: seq<Points>, mins: Points, d: nat, n: nat)
    requires d < n && |mins| == |lists| > 0 && InDimension(mins, n) && InDimension(lists[|lists| - 1], n)
    requires InDimension(Flatten(lists[..|lists| - 1]), n)
    requires MinOf(mins[..|lists| - 1], d) == MinOf(Flatten(lists[..|lists| - 1]), d)
    requires mins[|lists| - 1][d] == MinOf(lists[|lists| - 1], d)
    ensures InDimension(Flatten(lists), n) && MinOf(mins, d) == MinOf(Flatten(lists), d)
  {
    FlattenLast(lists);
    MinMaxOfAppend(Flatten(lists[..|lists| - 1]), lists[|lists| - 1], d);
  }

  /** The smallest of the minima of several lists is the minimum of all their points. */
  lemma {:induction false} MergedMin(lists: seq<Points>, mins: Points, d: nat, n: nat)
    requires d < n && |mins| == |lists| && InDimension(mins, n)
    requires forall i :: 0 <= i < |lists| ==> InDimension(lists[i], n) && mins[i][d] == MinOf(lists[i], d)
    ensures InDimension(Flatten(lists), n) && MinOf(mins, d) == MinOf(Flatten(lists), d)
    decreases |lists|
  {
    if lists != [] {
      MergedMin(lists[..|lists| - 1], mins[..|lists| - 1], d, n);
      MergedMinStep(lists, mins, d, n);
    }
  }

  /** One list more, whose maximum is the last of the maxima. */
  lemma MergedMaxStep(lists: seq<Points>, maxs: Points, d: nat, n: nat)
    requires d < n && |maxs| == |lists| > 0 && InDimension(maxs, n) && InDimension(lists[|lists| - 1], n)
    requires InDimension(Flatten(lists[..|lists| - 1]), n)
    requires MaxOf(maxs[..|lists| - 1], d) == MaxOf(Flatten(lists[..|lists| - 1]), d)
    requires maxs[|lists| - 1][d] == MaxOf(lists[|lists| - 1], d)
    ensures InDimension(Flatten(lists), n) && MaxOf(maxs, d) == MaxOf(Flatten(lists), d)
  {
    FlattenLast(lists);
    MinMaxOfAppend(Flatten(lists[..|lists| - 1]), lists[|lists| - 1], d);
  }

  /** The largest of the maxima of several lists is the maximum of all their points. */
  lemma {:induction false} MergedMax(lists: seq<Points>, maxs: Points, d: nat, n: nat)
    requires d < n && |maxs| == |lists| && InDimension(maxs, n)
    requires forall i :: 0 <= i < |lists| ==> InDimension(lists[i], n) && maxs[i][d] == MaxOf(lists[i], d)
    ensures InDimension(Flatten(lists), n) && MaxOf(maxs, d) == MaxOf(Flatten(lists), d)
    decreases |lists|
  {
    if lists != [] {
      MergedMax(lists[..|lists| - 1], maxs[..|lists| - 1], d, n);
      MergedMaxStep(lists, maxs, d, n);
    }
  }

  /** The lower corner of the box of some points, and the upper one of the box of others. */
  function Span(lows: Points, highs: Points, n: nat): (b: Box<Coord>)
    requires InDimension(lows, n) && InDimension(highs, n)
    ensures BoxInDimension(b, n)
  {
    Box(BoxOf(lows, n).min, BoxOf(highs, n).max)
  }

  /** Merging boxes that span lists of points gives the span of all the points. */
  lemma MergeIsSpanOfAll(lows: seq<Points>, highs: seq<Points>, boxes: seq<Box<Coord>>, n: nat)
    requires |lows| == |highs| == |boxes|
    requires forall i :: 0 <= i < |boxes| ==>
               InDimension(lows[i], n) && InDimension(highs[i], n) && boxes[i] == Span(lows[i], highs[i], n)
    ensures InDimension(Flatten(lows), n) && InDimension(Flatten(highs), n) && BoxesInDimension(boxes, n)
    ensures MergeOf(boxes, n) == Span(Flatten(lows), Flatten(highs), n)
  {
    FlattenInDimension(lows, n);
    FlattenInDimension(highs, n);
    var m, b := MergeOf(boxes, n), Span(Flatten(lows), Flatten(highs), n);
    forall d | 0 <= d < n ensures m.min[d] == b.min[d] && m.max[d] == b.max[d] {
      MergedMin(lows, Mins(boxes), d, n);
      MergedMax(highs, Maxs(boxes), d, n);
    }
    assert m.min == b.min && m.max == b.max;
  }

  /**
    Merging the boxes of several lists of points gives the box of all the points, also
    where some of the lists, or all of them, have none.
   */
  lemma MergeIsBoxOfAll(lists: seq<Points>, n: nat)
    requires forall i :: 0 <= i < |lists| ==> InDimension(lists[i], n)
    ensures InDimension(Flatten(lists), n)
    ensures MergeOf(BoxesOf(lists, n), n) == BoxOf(Flatten(lists), n)
  {
    MergeIsSpanOfAll(lists, lists, BoxesOf(lists, n), n);
  }
}
