/** `GeomtryExtensions`: dropping the z-dimension of a geometry, reading a four-sided
    polygon as an envelope, and the nearest-feature scan over a cursor. */
module GeometryExtensions {
  import opened Wrappers
  import opened Geometry
  import opened Geodatabase
  import opened FeatureClassExtensions

  // ---------------------------------------------------------------- CreateFlatGeometry

  /** `CreateFlatGeometry`: a new, not z-aware geometry of the same kind. A point keeps
      its coordinates and its spatial reference; a polyline or polygon gets the same
      segments and an envelope the same bounds, both without a spatial reference.
      Every other kind gives null, and a null geometry throws when its type is read. */
  function CreateFlatGeometry(geometry: Option<Geometry>): (r: Result<Option<Geometry>>)
    ensures r.Failure? <==> geometry.None?
    ensures r.Failure? ==> r.error == NullReference
    ensures r.Success? ==> (r.value.None? <==> geometry.value.OtherGeometry?)
    ensures r.Success? && r.value.Some? ==> var g, f := geometry.value, r.value.value;
      && !f.OtherGeometry? && f.Kind() == g.Kind() && !f.zAware
      && f.sr == (if g.Point? then g.sr else None)
      && (g.Point? ==> f.at == g.at)
      && (g.Polyline? || g.Polygon? ==> f.segments == g.segments)
      && (g.Envelope? ==> f.bounds == g.bounds)
  {
    match geometry
    case None => Failure(NullReference)
    case Some(g) =>
      match g
      case Point(at, _, sr) => Success(Some(Point(at, false, sr)))
      case Polyline(segs, _, _) => Success(Some(Polyline(segs, false, None)))
      case Polygon(segs, _, _) => Success(Some(Polygon(segs, false, None)))
      case Envelope(b, _, _) => Success(Some(Envelope(b, false, None)))
      case OtherGeometry(_, _, _) => Success(None)
  }

  /** Flattening a flattened geometry changes nothing more. */
  lemma FlatGeometryIdempotent(geometry: Option<Geometry>)
    requires CreateFlatGeometry(geometry).Success? && CreateFlatGeometry(geometry).value.Some?
    ensures CreateFlatGeometry(CreateFlatGeometry(geometry).value) == CreateFlatGeometry(geometry)
  {
  }

  // ---------------------------------------------------------------- ConvertPolygonToEnvelope

  /** `IPointCollection.PointCount` of a single-ring polygon. */
  function PointCount(polygon: Geometry): nat
    requires polygon.Polygon?
  {
    |Vertices(polygon.segments)|
  }

  /** `ConvertPolygonToEnvelope`: null for null; for a ring of four sides (five points,
      the first repeated at the end) the envelope whose upper-left corner is the first
      point and whose lower-right corner is the third; otherwise the polygon's envelope. */
  function ConvertPolygonToEnvelope(polygon: Option<Geometry>, geo: GeometryEngine): (r: Option<Box>)
    requires polygon.Some? ==> polygon.value.Polygon?
    ensures r.Some? <==> polygon.Some?
    ensures polygon.Some? && PointCount(polygon.value) - 1 == 4 ==>
      var pts := Vertices(polygon.value.segments);
      r.value.UpperLeft() == pts[0] && r.value.LowerRight() == pts[2]
    ensures polygon.Some? && PointCount(polygon.value) - 1 != 4 ==> r.value == geo.envelope(polygon.value)
  {
    if polygon.None? then None
    else
      var p := polygon.value;
      var pts := Vertices(p.segments);
      if |pts| - 1 == 4 then Some(Box(pts[0].x, pts[2].y, pts[2].x, pts[0].y))
      else Some(geo.envelope(p))
  }

  /** The ring of a rectangle drawn clockwise from its upper-left corner. */
  function RectangleRing(b: Box): seq<Segment> {
    var ul, ur, lr, ll := b.UpperLeft(), XY(b.xmax, b.ymax), b.LowerRight(), XY(b.xmin, b.ymin);
    [Segment(ul, ur), Segment(ur, lr), Segment(lr, ll), Segment(ll, ul)]
  }

  /** A rectangle drawn from its upper-left corner converts to its own bounds, whatever
      the geometry engine would have computed. */
  lemma RectangleConvertsToItsBounds(b: Box, zAware: bool, sr: Option<SpatialReference>, geo: GeometryEngine)
    ensures ConvertPolygonToEnvelope(Some(Polygon(RectangleRing(b), zAware, sr)), geo) == Some(b)
  {
    var pts := Vertices(RectangleRing(b));
    assert pts[0] == b.UpperLeft() && pts[2] == b.LowerRight();
  }

  // ---------------------------------------------------------------- distances

  /** Every feature's distance from `g` can be measured. */
  predicate Measured(g: Geometry, fs: seq<Feature>, geo: GeometryEngine) {
    forall i :: 0 <= i < |fs| ==> geo.distance(g, fs[i].shape).Some?
  }

  /** The distances from `g` to each feature, in order. */
  function Distances(g: Geometry, fs: seq<Feature>, geo: GeometryEngine): (ds: seq<real>)
    requires Measured(g, fs, geo)
    ensures |ds| == |fs| && forall i :: 0 <= i < |fs| ==> geo.distance(g, fs[i].shape) == Some(ds[i])
  {
    seq(|fs|, i requires 0 <= i < |fs| && Measured(g, fs, geo) => geo.distance(g, fs[i].shape).value)
  }

  lemma DistancesSnoc(g: Geometry, fs: seq<Feature>, f: Feature, geo: GeometryEngine)
    requires Measured(g, fs, geo) && geo.distance(g, f.shape).Some?
    ensures Measured(g, fs + [f], geo)
    ensures Distances(g, fs + [f], geo) == Distances(g, fs, geo) + [geo.distance(g, f.shape).value]
  {
    var u := fs + [f];
    assert forall i :: 0 <= i < |fs| ==> u[i] == fs[i];
    assert u[|fs|] == f;
  }

  /** The index of the first smallest value: a running minimum that is replaced only
      by a strictly smaller value. */
  function ArgMinFirst(ds: seq<real>): (k: nat)
    requires ds != []
    ensures k < |ds|
    ensures forall j :: 0 <= j < |ds| ==> ds[k] <= ds[j]
    ensures forall j :: 0 <= j < k ==> ds[j] > ds[k]
    decreases |ds|
  {
    if |ds| == 1 then 0
    else
      var k := ArgMinFirst(ds[..|ds| - 1]);
      if ds[|ds| - 1] < ds[k] then |ds| - 1 else k
  }

  /** The first smallest value is the only index that is smallest and strictly below
      everything before it. */
  lemma ArgMinFirstUnique(ds: seq<real>, k: nat)
    requires k < |ds|
    requires forall j :: 0 <= j < |ds| ==> ds[k] <= ds[j]
    requires forall j :: 0 <= j < k ==> ds[j] > ds[k]
    ensures ArgMinFirst(ds) == k
  {
  }

  lemma ArgMinFirstSnoc(ds: seq<real>, d: real)
    requires ds != []
    ensures ArgMinFirst(ds + [d]) == if d < ds[ArgMinFirst(ds)] then |ds| else ArgMinFirst(ds)
  {
    assert (ds + [d])[..|ds|] == ds;
  }

  // ---------------------------------------------------------------- FindNearest

  /** The `KeyValuePair<int, double>` `FindNearest` returns: an OID and its distance. */
  datatype Nearest = Nearest(oid: int, distance: real)

  /** Feature `i` is at the smallest distance from `g`, and every feature before it is
      strictly farther. */
  predicate IsFirstNearest(g: Geometry, fs: seq<Feature>, geo: GeometryEngine, i: int)
    requires Measured(g, fs, geo)
  {
    var ds := Distances(g, fs, geo);
    && 0 <= i < |fs|
    && (forall j :: 0 <= j < |fs| ==> ds[i] <= ds[j])
    && (forall j :: 0 <= j < i ==> ds[j] > ds[i])
  }

  /** What the cursor `FindNearest` yields for the features `fs`: (-1, 0.0) when there
      are none; an invalid cast when `g` is not an `IProximityOperator`; a geometry
      failure when some distance cannot be measured; otherwise the OID and distance of
      the first feature at the smallest distance. */
  function NearestOf(g: Geometry, fs: seq<Feature>, geo: GeometryEngine): (r: Result<Nearest>)
    ensures fs == [] ==> r == Success(Nearest(-1, 0.0))
    ensures fs != [] ==> (r.Success? <==> geo.isProximityOperator(g) && Measured(g, fs, geo))
    ensures r.Failure? ==> r.error == if geo.isProximityOperator(g) then GeometryFailure else InvalidCast
    ensures r.Success? && fs != [] ==>
      exists i :: IsFirstNearest(g, fs, geo, i) && r.value == Nearest(fs[i].oid, Distances(g, fs, geo)[i])
  {
    if fs == [] then Success(Nearest(-1, 0.0))
    else if !geo.isProximityOperator(g) then Failure(InvalidCast)
    else if !Measured(g, fs, geo) then Failure(GeometryFailure)
    else
      var ds := Distances(g, fs, geo);
      var k := ArgMinFirst(ds);
      assert IsFirstNearest(g, fs, geo, k);
      Success(Nearest(fs[k].oid, ds[k]))
  }

  /** Ties go to the first feature, in cursor order, at the smallest distance. */
  lemma NearestTakesFirstOfTies(g: Geometry, fs: seq<Feature>, geo: GeometryEngine, i: int)
    requires geo.isProximityOperator(g) && Measured(g, fs, geo)
    requires IsFirstNearest(g, fs, geo, i)
    ensures NearestOf(g, fs, geo) == Success(Nearest(fs[i].oid, Distances(g, fs, geo)[i]))
  {
    ArgMinFirstUnique(Distances(g, fs, geo), i);
  }

  /** Measuring one more feature: it replaces the current nearest one when there is
      none yet or when it is strictly closer. */
  lemma NearestOfSnoc(g: Geometry, fs: seq<Feature>, f: Feature, geo: GeometryEngine)
    requires geo.isProximityOperator(g) && Measured(g, fs, geo) && geo.distance(g, f.shape).Some?
    ensures var d := geo.distance(g, f.shape).value;
      NearestOf(g, fs + [f], geo) ==
        if fs == [] || d < NearestOf(g, fs, geo).value.distance then Success(Nearest(f.oid, d))
        else NearestOf(g, fs, geo)
  {
    DistancesSnoc(g, fs, f, geo);
    var u := fs + [f];
    assert u[|fs|] == f;
    if fs != [] {
      ArgMinFirstSnoc(Distances(g, fs, geo), geo.distance(g, f.shape).value);
      assert u[ArgMinFirst(Distances(g, fs, geo))] == fs[ArgMinFirst(Distances(g, fs, geo))];
    } else {
      assert u == [f];
    }
  }

  /** The OID `NearestOf` reports for a non-empty sequence belongs to one of the features. */
  lemma NearestOidIsAFeature(g: Geometry, fs: seq<Feature>, geo: GeometryEngine)
    requires fs != [] && NearestOf(g, fs, geo).Success?
    ensures exists i :: 0 <= i < |fs| && fs[i].oid == NearestOf(g, fs, geo).value.oid
  {
    var i :| IsFirstNearest(g, fs, geo, i) && NearestOf(g, fs, geo).value == Nearest(fs[i].oid, Distances(g, fs, geo)[i]);
  }

  /** The state of the `FindNearest` loop after the features `fs`: it starts at
      (-1, 0.0), and a feature takes its place when the kept OID is -1 or when the
      feature is strictly closer. The test is on the OID, so a kept feature whose OID
      is -1 gives way to the next one whatever its distance. */
  function ScanState(g: Geometry, fs: seq<Feature>, geo: GeometryEngine): Nearest
    requires Measured(g, fs, geo)
    decreases |fs|
  {
    if fs == [] then Nearest(-1, 0.0)
    else
      var s := ScanState(g, fs[..|fs| - 1], geo);
      var d := geo.distance(g, fs[|fs| - 1].shape).value;
      if s.oid == -1 || d < s.distance then Nearest(fs[|fs| - 1].oid, d) else s
  }

  /** What the cursor `FindNearest` yields for the features `fs`, as written: (-1, 0.0)
      when there are none; an invalid cast when `g` is not an `IProximityOperator`; a
      geometry failure when some distance cannot be measured; otherwise the final
      loop state. */
  function ScanNearest(g: Geometry, fs: seq<Feature>, geo: GeometryEngine): (r: Result<Nearest>)
    ensures fs == [] ==> r == Success(Nearest(-1, 0.0))
    ensures fs != [] ==> (r.Success? <==> geo.isProximityOperator(g) && Measured(g, fs, geo))
    ensures r.Failure? ==> r.error == if geo.isProximityOperator(g) then GeometryFailure else InvalidCast
  {
    if fs == [] then Success(Nearest(-1, 0.0))
    else if !geo.isProximityOperator(g) then Failure(InvalidCast)
    else if !Measured(g, fs, geo) then Failure(GeometryFailure)
    else Success(ScanState(g, fs, geo))
  }

  /** On measurable features with non-negative OIDs the loop state is the first
      nearest feature. */
  lemma {:induction false} ScanStateIsNearest(g: Geometry, fs: seq<Feature>, geo: GeometryEngine)
    requires fs != [] && geo.isProximityOperator(g) && Measured(g, fs, geo) && OidsNonNegative(fs)
    ensures NearestOf(g, fs, geo) == Success(ScanState(g, fs, geo))
    decreases |fs|
  {
    var n := |fs| - 1;
    var init, f := fs[..n], fs[n];
    assert Measured(g, init, geo);
    assert fs[..n + 1] == fs;
    ScanStep(g, fs, geo, n);
    assert fs == init + [f];
    NearestOfSnoc(g, init, f, geo);
    if init != [] {
      assert OidsNonNegative(init);
      ScanStateIsNearest(g, init, geo);
      NearestOidIsAFeature(g, init, geo);
      var i :| 0 <= i < |init| && init[i].oid == NearestOf(g, init, geo).value.oid;
      assert init[i] == fs[i];
      assert ScanState(g, init, geo).oid != -1;
    }
  }

  /** When no feature has OID -1, the loop as written computes the first nearest
      feature: the sentinel is only ever seen before the first feature. */
  lemma ScanNearestIsNearestOf(g: Geometry, fs: seq<Feature>, geo: GeometryEngine)
    requires OidsNonNegative(fs)
    ensures ScanNearest(g, fs, geo) == NearestOf(g, fs, geo)
  {
    if fs != [] && geo.isProximityOperator(g) && Measured(g, fs, geo) {
      ScanStateIsNearest(g, fs, geo);
    }
  }

  /** A first feature whose OID is -1 re-arms the sentinel: the second feature is kept
      whatever its distance. */
  lemma SentinelOidRearms(g: Geometry, a: Feature, b: Feature, geo: GeometryEngine)
    requires geo.isProximityOperator(g) && a.oid == -1
    requires geo.distance(g, a.shape).Some? && geo.distance(g, b.shape).Some?
    ensures ScanNearest(g, [a, b], geo) == Success(Nearest(b.oid, geo.distance(g, b.shape).value))
  {
    assert [a, b][..1] == [a] && [a][..0] == [];
    assert Measured(g, [a], geo) && Measured(g, [a, b], geo);
    assert ScanState(g, [a], geo).oid == -1;
  }

  /** With the same two features the first nearest is the first one when it is closer,
      so the loop and NearestOf part ways once an OID is -1. */
  lemma SentinelFeatureNearest(g: Geometry, a: Feature, b: Feature, geo: GeometryEngine)
    requires geo.isProximityOperator(g) && a.oid == -1
    requires geo.distance(g, a.shape).Some? && geo.distance(g, b.shape).Some?
    requires geo.distance(g, a.shape).value < geo.distance(g, b.shape).value
    ensures NearestOf(g, [a, b], geo) == Success(Nearest(-1, geo.distance(g, a.shape).value))
  {
    assert [] + [a] == [a] && [a] + [b] == [a, b];
    NearestOfSnoc(g, [], a, geo);
    NearestOfSnoc(g, [a], b, geo);
  }

  /** A feature whose distance cannot be measured makes the scan fail. */
  lemma ScanFailsUnmeasured(g: Geometry, fs: seq<Feature>, geo: GeometryEngine, n: nat)
    requires geo.isProximityOperator(g) && n < |fs| && geo.distance(g, fs[n].shape).None?
    ensures ScanNearest(g, fs, geo) == Failure(GeometryFailure)
  {
    assert !Measured(g, fs, geo);
  }

  /** One step of the `FindNearest` loop: measuring feature `n` and keeping it when the
      kept OID is -1 or it is strictly closer extends the loop state by one feature. */
  lemma ScanStep(g: Geometry, fs: seq<Feature>, geo: GeometryEngine, n: nat)
    requires n < |fs| && Measured(g, fs[..n], geo) && geo.distance(g, fs[n].shape).Some?
    ensures Measured(g, fs[..n + 1], geo)
    ensures var s, d := ScanState(g, fs[..n], geo), geo.distance(g, fs[n].shape).value;
      ScanState(g, fs[..n + 1], geo) == if s.oid == -1 || d < s.distance then Nearest(fs[n].oid, d) else s
  {
    assert fs[..n + 1][..n] == fs[..n];
  }

  /** The cursor `FindNearest(g, cursor)`: every remaining feature is measured, empty
      shapes included, and the kept feature is replaced while the kept OID is -1 or
      by a strictly closer feature. The cursor is not released. */
  method FindNearest(g: Geometry, cursor: FeatureCursor, geo: GeometryEngine) returns (r: Result<Nearest>)
    requires cursor.Valid() && cursor.releaseCount == 0
    modifies cursor`position
    ensures cursor.Valid() && cursor.releaseCount == 0
    ensures r == ScanNearest(g, old(cursor.features[cursor.position..]), geo)
    ensures r.Success? ==> cursor.position == |cursor.features|
  {
    ghost var start := cursor.position;
    ghost var fs := cursor.features[start..];
    ghost var n := 0;
    var closestOid := -1;
    var closestDistance := 0.0;
    while true
      invariant cursor.Valid() && cursor.releaseCount == 0
      invariant n <= |fs| && cursor.position == start + n
      invariant Measured(g, fs[..n], geo) && ScanState(g, fs[..n], geo) == Nearest(closestOid, closestDistance)
      invariant n > 0 ==> geo.isProximityOperator(g)
      decreases |fs| - n
    {
      var next := cursor.NextFeature();
      if next.None? {
        break;
      }
      var feature := next.value;
      assert feature == fs[n];
      if !geo.isProximityOperator(g) {
        r := Failure(InvalidCast);
        return;
      }
      var distance := geo.distance(g, feature.shape);
      if distance.None? {
        ScanFailsUnmeasured(g, fs, geo, n);
        r := Failure(GeometryFailure);
        return;
      }
      ScanStep(g, fs, geo, n);
      if closestOid == -1 || distance.value < closestDistance {
        closestOid := feature.oid;
        closestDistance := distance.value;
      }
      n := n + 1;
    }
    assert fs[..n] == fs;
    r := Success(Nearest(closestOid, closestDistance));
  }

  /** What `FindNearest(g, fclass, searchradius, where)` yields: the cursor scan over
      the rows `g` intersects. The search radius and the clause play no part. */
  function NearestInClass(g: Geometry, rows: seq<Feature>, whereHolds: (string, Feature) -> bool,
                          geo: GeometryEngine): Result<Nearest>
  {
    NearestOf(g, Matching(rows, SearchByGeometry(g).filter, whereHolds, geo), geo)
  }

  /** `FindNearest(g, fclass, searchradius, where)`: searches with `Search(g)`, scans the
      cursor and releases it; when the scan throws, the cursor is left unreleased. */
  method FindNearestInClass(g: Geometry, fclass: FeatureClass, searchRadius: real, where: Option<string>,
                            geo: GeometryEngine) returns (r: Result<Nearest>, cursor: FeatureCursor)
    requires fclass.Valid()
    ensures r == NearestInClass(g, fclass.rows, fclass.whereHolds, geo)
    ensures cursor.releaseCount == if r.Success? then 1 else 0
  {
    cursor := fclass.Search(SearchByGeometry(g).filter, geo);
    assert cursor.features[cursor.position..] == cursor.features;
    r := FindNearest(g, cursor, geo);
    ScanNearestIsNearestOf(g, cursor.features, geo);
    if r.Success? {
      cursor.Release();
    }
  }

  /** The features the class scan measures are exactly the rows `g` intersects. */
  lemma NearestInClassMeasuresIntersected(g: Geometry, rows: seq<Feature>, whereHolds: (string, Feature) -> bool,
                                          geo: GeometryEngine, f: Feature)
    ensures f in Matching(rows, SearchByGeometry(g).filter, whereHolds, geo) <==> f in rows && geo.relation(Intersects, g, f.shape)
  {
    SearchByGeometrySelects(g, whereHolds, geo, f);
  }
}
