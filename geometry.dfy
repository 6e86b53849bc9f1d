/** Geometry values as the helpers see them: a tagged union over the geometry kinds,
    axis-aligned envelopes with the Union and Expand operations, and the geometry
    engine whose mathematics (distance, buffer, envelope, spatial relations) is
    passed in rather than modelled. */
module Geometry {
  import opened Wrappers

  /** `esriGeometryType`. */
  datatype GeometryType =
    | NullType | PointType | MultipointType | PolylineType | PolygonType
    | EnvelopeType | AnyType | MultiPatchType | OtherType(code: int)

  /** Every kind the flattening code has no branch for. */
  type OtherKind = k: GeometryType | !(k.PointType? || k.PolylineType? || k.PolygonType? || k.EnvelopeType?)
    witness MultipointType

  datatype XY = XY(x: real, y: real)

  /** A planar segment; curve and vertical augmentation is not represented. */
  datatype Segment = Segment(from: XY, to: XY)

  datatype SpatialReference = SpatialReference(factoryCode: int)

  /** An envelope by its four bounds. */
  datatype Box = Box(xmin: real, ymin: real, xmax: real, ymax: real) {

    function UpperLeft(): XY { XY(xmin, ymax) }

    function LowerRight(): XY { XY(xmax, ymin) }

    function Width(): real { xmax - xmin }

    function Height(): real { ymax - ymin }

    function Centre(): XY { XY((xmin + xmax) / 2.0, (ymin + ymax) / 2.0) }

    predicate Contains(other: Box) {
      xmin <= other.xmin && ymin <= other.ymin && other.xmax <= xmax && other.ymax <= ymax
    }

    /** `IEnvelope.Union`: the smallest envelope holding both. */
    function Union(other: Box): (r: Box)
      ensures r.Contains(this) && r.Contains(other)
      ensures forall c: Box :: c.Contains(this) && c.Contains(other) ==> c.Contains(r)
    {
      Box(Min(xmin, other.xmin), Min(ymin, other.ymin), Max(xmax, other.xmax), Max(ymax, other.ymax))
    }

    /** `IEnvelope.Expand(dx, dy, true)`: width and height are multiplied by the
        ratios while the centre stays where it was. */
    function Expand(dx: real, dy: real): (r: Box)
      ensures r.Centre() == Centre()
      ensures r.Width() == dx * Width() && r.Height() == dy * Height()
    {
      var c := Centre();
      Box(c.x - dx * Width() / 2.0, c.y - dy * Height() / 2.0,
          c.x + dx * Width() / 2.0, c.y + dy * Height() / 2.0)
    }
  }

  function Min(a: real, b: real): real { if a <= b then a else b }

  function Max(a: real, b: real): real { if a <= b then b else a }

  datatype Geometry =
    | Point(at: XY, zAware: bool, sr: Option<SpatialReference>)
    | Polyline(segments: seq<Segment>, zAware: bool, sr: Option<SpatialReference>)
    | Polygon(segments: seq<Segment>, zAware: bool, sr: Option<SpatialReference>)
    | Envelope(bounds: Box, zAware: bool, sr: Option<SpatialReference>)
    | OtherGeometry(kind: OtherKind, empty: bool, sr: Option<SpatialReference>)
  {
    /** `IGeometry.GeometryType`. */
    function Kind(): GeometryType {
      match this
      case Point(_, _, _) => PointType
      case Polyline(_, _, _) => PolylineType
      case Polygon(_, _, _) => PolygonType
      case Envelope(_, _, _) => EnvelopeType
      case OtherGeometry(k, _, _) => k
    }

    /** `IGeometry.IsEmpty`: a path without segments, or an other kind flagged empty. */
    predicate IsEmpty() {
      match this
      case Point(_, _, _) => false
      case Polyline(segs, _, _) => segs == []
      case Polygon(segs, _, _) => segs == []
      case Envelope(_, _, _) => false
      case OtherGeometry(_, e, _) => e
    }
  }

  /** The vertices of a single connected path of segments (`IPointCollection`):
      the start of the first segment, then the end of every segment. */
  function Vertices(segs: seq<Segment>): (pts: seq<XY>)
    ensures |pts| == if segs == [] then 0 else |segs| + 1
    ensures segs != [] ==> pts[0] == segs[0].from
    ensures forall i :: 0 <= i < |segs| ==> pts[i + 1] == segs[i].to
  {
    if segs == [] then [] else [segs[0].from] + seq(|segs|, i requires 0 <= i < |segs| => segs[i].to)
  }

  /** `esriSpatialRelEnum`. */
  datatype SpatialRelation =
    | Intersects | EnvelopeIntersects | Touches | Overlaps | Crosses | Within | Contains
    | OtherRelation(code: int)

  /** The geometry engine behind `IProximityOperator`, `ITopologicalOperator`,
      `IGeometry.Envelope` and the spatial filters: its mathematics is not modelled,
      only the interface. `distance` yields `None` where `ReturnDistance` throws;
      `isProximityOperator` and `isTopologicalOperator` say whether a geometry
      implements those interfaces. */
  datatype GeometryEngine = GeometryEngine(
    distance: (Geometry, Geometry) -> Option<real>,
    isProximityOperator: Geometry -> bool,
    isTopologicalOperator: Geometry -> bool,
    buffer: (Geometry, real) -> Geometry,
    envelope: Geometry -> Box,
    relation: (SpatialRelation, Geometry, Geometry) -> bool)

  ghost predicate DistancesNonNegative(e: GeometryEngine) {
    forall a, b :: e.distance(a, b).Some? ==> e.distance(a, b).value >= 0.0
  }

  /** The running union of a sequence of envelopes, in order; `None` for no envelope. */
  function UnionAll(bs: seq<Box>): (r: Option<Box>)
    ensures r.None? <==> bs == []
    decreases |bs|
  {
    if bs == [] then None
    else match UnionAll(bs[..|bs| - 1])
      case None => Some(bs[|bs| - 1])
      case Some(u) => Some(u.Union(bs[|bs| - 1]))
  }

  /** One more envelope is unioned into the running union, or starts it. */
  lemma UnionAllSnoc(bs: seq<Box>, b: Box)
    ensures UnionAll(bs + [b]) == match UnionAll(bs) case None => Some(b) case Some(u) => Some(u.Union(b))
  {
    assert (bs + [b])[..|bs|] == bs;
  }

  /** `u` is the bounding box of the envelopes in `bs`: it contains each of them and
      every one of its four bounds is the bound of one of them. */
  ghost predicate IsBoundingBox(u: Box, bs: seq<Box>) {
    && (forall b :: b in bs ==> u.Contains(b))
    && (exists b :: b in bs && b.xmin == u.xmin)
    && (exists b :: b in bs && b.ymin == u.ymin)
    && (exists b :: b in bs && b.xmax == u.xmax)
    && (exists b :: b in bs && b.ymax == u.ymax)
  }

  /** Unioning one more envelope into a bounding box gives the bounding box of the
      longer sequence. */
  lemma BoundingBoxSnoc(u: Box, init: seq<Box>, last: Box)
    requires IsBoundingBox(u, init)
    ensures IsBoundingBox(u.Union(last), init + [last])
  {
    var bs := init + [last];
    var r := u.Union(last);
    forall b | b in bs ensures r.Contains(b) {
      if b in init { assert u.Contains(b); }
    }
    var bx :| bx in init && bx.xmin == u.xmin;
    var q :| q in init && q.ymin == u.ymin;
    var cx :| cx in init && cx.xmax == u.xmax;
    var cy :| cy in init && cy.ymax == u.ymax;
    assert bx in bs && q in bs && cx in bs && cy in bs && last in bs;
  }

  lemma {:induction false} UnionAllIsBoundingBox(bs: seq<Box>)
    requires bs != []
    ensures IsBoundingBox(UnionAll(bs).value, bs)
    decreases |bs|
  {
    var init, last := bs[..|bs| - 1], bs[|bs| - 1];
    assert bs == init + [last];
    if init != [] {
      UnionAllIsBoundingBox(init);
      assert UnionAll(bs).value == UnionAll(init).value.Union(last);
      BoundingBoxSnoc(UnionAll(init).value, init, last);
    } else {
      assert bs == [last] && last in bs;
      assert UnionAll(bs).value == last;
    }
  }

  /** The bounding box of a collection of envelopes is unique. */
  lemma BoundingBoxUnique(u: Box, v: Box, bs: seq<Box>)
    requires IsBoundingBox(u, bs) && IsBoundingBox(v, bs)
    ensures u == v
  {
    var bx :| bx in bs && bx.xmin == u.xmin;
    var cx :| cx in bs && cx.xmin == v.xmin;
    var q :| q in bs && q.ymin == u.ymin;
    var cy :| cy in bs && cy.ymin == v.ymin;
    var dx :| dx in bs && dx.xmax == u.xmax;
    var ex :| ex in bs && ex.xmax == v.xmax;
    var dy :| dy in bs && dy.ymax == u.ymax;
    var ey :| ey in bs && ey.ymax == v.ymax;
    assert u.Contains(cx) && v.Contains(bx) && u.Contains(cy) && v.Contains(q);
    assert u.Contains(ex) && v.Contains(dx) && u.Contains(ey) && v.Contains(dy);
  }

  /** The running union depends only on which envelopes come, not on their order
      nor on how often each one comes. */
  lemma UnionAllOrderIndependent(a: seq<Box>, b: seq<Box>)
    requires forall x :: x in a <==> x in b
    ensures UnionAll(a) == UnionAll(b)
  {
    assert a != [] ==> a[0] in b;
    assert b != [] ==> b[0] in a;
    if a != [] {
      UnionAllIsBoundingBox(a);
      UnionAllIsBoundingBox(b);
      assert IsBoundingBox(UnionAll(b).value, a);
      BoundingBoxUnique(UnionAll(a).value, UnionAll(b).value, a);
    }
  }
}
