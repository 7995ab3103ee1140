/**
  The geometry objects of mongo/geo with their lazily filled box: any geometry behind
  getBoundingBox(), and Polygon with its copying.
 */
module GeoObjects {
  import opened Bytes
  import opened GeoShapes
  import opened GeoBoxes
  import opened GeoAnswers

  /** The loops of getPoints(): the points of all rings, one after the other. */
  method JoinPoints<T>(lists: seq<seq<T>>) returns (allPoints: seq<T>)
    ensures allPoints == Flatten(lists)
  {
    allPoints := [];
    for i := 0 to |lists|
      invariant allPoints == Flatten(lists[..i])
    {
      for j := 0 to |lists[i]|
        invariant allPoints == Flatten(lists[..i]) + lists[i][..j]
      {
        allPoints := allPoints + [lists[i][j]];
      }
      FlattenSnoc(lists, i);
      assert lists[i][..|lists[i]|] == lists[i];
    }
    assert lists[..|lists|] == lists;
  }

  /** A parsed geometry; the members of a collection are objects of its own. */
  class GeoObj {
    const n: nat  // TCoordinates::dimensionality()
    const shape: Geo<Coord>
    const geometries: seq<GeoObj>
    var boundingBox: Option<Box<Coord>>

    ghost const repr: set<GeoObj>

    ghost predicate Valid()
      reads repr
      decreases repr, 1
    {
      && this in repr
      && GeoInDimension(shape, n)
      && MembersValid()
      && (boundingBox.Some? ==> boundingBox == Answer(shape, n))
      && (shape.bbox.Some? ==> boundingBox == shape.bbox)
    }

    /** The members form a tree: each has objects of its own. */
    ghost predicate MembersValid()
      reads repr
      decreases repr, 0
    {
      && |geometries| == (if shape.GeometryCollection? then |shape.geometries| else 0)
      && (forall i :: 0 <= i < |geometries| ==>
            && geometries[i].repr < repr && this !in geometries[i].repr
            && geometries[i].n == n && geometries[i].shape == shape.geometries[i]
            && geometries[i].Valid())
      && (forall i, j :: 0 <= i < j < |geometries| ==> geometries[i].repr !! geometries[j].repr)
    }

    constructor (shape: Geo<Coord>, geometries: seq<GeoObj>, n: nat)
      requires GeoInDimension(shape, n)
      requires |geometries| == (if shape.GeometryCollection? then |shape.geometries| else 0)
      requires forall i :: 0 <= i < |geometries| ==>
                 geometries[i].Valid() && geometries[i].n == n && geometries[i].shape == shape.geometries[i]
      requires forall i, j :: 0 <= i < j < |geometries| ==> geometries[i].repr !! geometries[j].repr
      ensures Valid() && this.shape == shape && this.n == n && boundingBox == shape.bbox
      ensures forall o :: o in repr ==> o == this || exists i :: 0 <= i < |geometries| && o in geometries[i].repr
    {
      this.n, this.shape, this.geometries := n, shape, geometries;
      boundingBox := shape.bbox;
      repr := {this} + set i, o | 0 <= i < |geometries| && o in geometries[i].repr :: o;
    }

    /**
      getBoundingBox(): the same answer at every call, since it depends on the parsed
      geometry only. A box once there is not replaced.
     */
    method GetBoundingBox() returns (r: Option<Box<Coord>>)
      requires Valid()
      modifies repr
      ensures Valid() && r == Answer(shape, n)
      ensures r == boundingBox
      ensures old(boundingBox).Some? ==> unchanged(repr)
      decreases repr, 3
    {
      if boundingBox.None? {
        boundingBox := ComputeBoundingBox();
      }
      r := boundingBox;
    }

    /** computeBoundingBox() of every class; it fills the caches of the members on the way. */
    method ComputeBoundingBox() returns (r: Option<Box<Coord>>)
      requires Valid() && boundingBox.None?
      modifies repr
      ensures Valid() && boundingBox.None? && r == Answer(shape, n)
      decreases repr, 2
    {
      match shape
      case Point(at, _) => r := Some(Box(at, at));
      case Path(_, points, _) =>
        var b := ComputeBoxOfPoints(points, n);
        r := Some(b);
      case Rings(_, rings, _) =>
        var points := JoinPoints(rings);
        var b := ComputeBoxOfPoints(points, n);
        r := Some(b);
      case MultiPolygon(polygons, _) =>
        var rings := JoinPoints(polygons);
        var points := JoinPoints(rings);
        var b := ComputeBoxOfPoints(points, n);
        r := Some(b);
      case GeometryCollection(_, _) =>
        var bboxes := BoxesOfMembers();
        if bboxes.None? {
          r := None;
        } else {
          r := MergeBoxes(bboxes.value, n);
        }
    }

    method BoxesOfMembers() returns (r: Option<seq<Box<Coord>>>)
      requires Valid() && boundingBox.None? && shape.GeometryCollection?
      modifies repr - {this}
      ensures Valid() && r == Answers(shape.geometries, n)
      decreases repr, 1
    {
      var bboxes: seq<Box<Coord>> := [];
      for i := 0 to |geometries|
        invariant |bboxes| == i
        invariant forall j :: 0 <= j < i ==> Answer(shape.geometries[j], n) == Some(bboxes[j])
        invariant MembersValid()
      {
        var b := BoxOfMember(i);
        if b.None? {
          assert Answer(shape.geometries[i], n).None?;
          return None;
        }
        bboxes := bboxes + [b.value];
      }
      AnswersAre(shape.geometries, n, bboxes);
      r := Some(bboxes);
    }

    method BoxOfMember(i: nat) returns (r: Option<Box<Coord>>)
      requires this in repr && MembersValid() && GeoInDimension(shape, n)
      requires shape.GeometryCollection? && i < |geometries|
      modifies geometries[i].repr
      ensures MembersValid() && r == Answer(shape.geometries[i], n)
      decreases repr, 0
    {
      r := geometries[i].GetBoundingBox();
      forall j | 0 <= j < |geometries| && j != i ensures geometries[j].Valid() {
        assert geometries[j].repr !! geometries[i].repr;
      }
    }
  }

  /** class Polygon (mongo/geo/polygon.h), which can be copied and assigned. */
  class Polygon {
    var n: nat
    var linearRings: seq<Points>
    var boundingBox: Option<Box<Coord>>
    ghost var given: Option<Box<Coord>>  // the box of the document

    ghost predicate Valid()
      reads this
    {
      && InDimension(Flatten(linearRings), n)
      && BBoxInDimension(given, n)
      && (boundingBox.Some? ==> boundingBox.value == Box())
      && (given.Some? ==> boundingBox == given)
    }

    ghost function Shape(): Geo<Coord>
      reads this
    {
      Rings(Kind.Polygon, linearRings, given)
    }

    ghost function Box(): Box<Coord>
      reads this
      requires InDimension(Flatten(linearRings), n) && BBoxInDimension(given, n)
    {
      Answer(Shape(), n).value
    }

    constructor (n: nat, linearRings: seq<Points>, bbox: Option<Box<Coord>>)
      requires InDimension(Flatten(linearRings), n) && BBoxInDimension(bbox, n)
      ensures Valid() && Shape() == Rings(Kind.Polygon, linearRings, bbox) && this.n == n
    {
      this.n, this.linearRings, boundingBox, given := n, linearRings, bbox, bbox;
    }

    /** The copy constructor: the copy starts with the box the original has by now. */
    constructor Copy(other: Polygon)
      requires other.Valid()
      ensures Valid() && n == other.n && Shape() == other.Shape() && boundingBox == other.boundingBox
    {
      n, linearRings, boundingBox, given := other.n, other.linearRings, other.boundingBox, other.given;
    }

    /** operator=: the argument is a copy, with which all fields are swapped. */
    method Assign(other: Polygon)
      requires Valid() && other.Valid()
      modifies this
      ensures Valid() && n == old(other.n) && Shape() == old(other.Shape())
      ensures boundingBox == old(other.boundingBox)
      ensures other != this ==> unchanged(other)
    {
      var copy := new Polygon.Copy(other);
      n, copy.n := copy.n, n;
      linearRings, copy.linearRings := copy.linearRings, linearRings;
      boundingBox, copy.boundingBox := copy.boundingBox, boundingBox;
      given, copy.given := copy.given, given;
    }

    method GetPoints() returns (points: Points)
      requires Valid()
      ensures points == PointsOf(Shape())
    {
      points := JoinPoints(linearRings);
    }

    method GetBoundingBox() returns (b: Box<Coord>)
      requires Valid()
      modifies this
      ensures Valid() && n == old(n) && Shape() == old(Shape())
      ensures Some(b) == Answer(Shape(), n) == boundingBox
    {
      if boundingBox.None? {
        var points := GetPoints();
        var box := ComputeBoxOfPoints(points, n);
        boundingBox := Some(box);
      }
      b := boundingBox.value;
    }
  }
}
