/** `FeatureExtensions`: the nearest-line scan and the field-change test of an edited
    feature. */
module FeatureExtensions {
  import opened Wrappers
  import opened Geometry
  import opened DotNetStrings
  import opened Geodatabase
  import opened Seqs
  import opened GeometryExtensions

  // ---------------------------------------------------------------- NearestLineFeature

  /** The running state of the `NearestLineFeature` loop after the features `fs`:
      the feature kept so far and the shortest distance, which starts at 0.0 and is
      replaced only by a strictly smaller distance. */
  function NearestLineState(g: Geometry, fs: seq<Feature>, geo: GeometryEngine): (s: (Option<Feature>, real))
    requires Measured(g, fs, geo)
    ensures s.0.None? ==> s.1 == 0.0 && forall i :: 0 <= i < |fs| ==> Distances(g, fs, geo)[i] >= 0.0
    ensures s.0.Some? ==>
      && s.0.value in fs && s.1 < 0.0 && geo.distance(g, s.0.value.shape) == Some(s.1)
      && forall i :: 0 <= i < |fs| ==> s.1 <= Distances(g, fs, geo)[i]
  {
    if fs == [] then (None, 0.0)
    else
      var ds := Distances(g, fs, geo);
      var k := ArgMinFirst(ds);
      if ds[k] < 0.0 then (Some(fs[k]), ds[k]) else (None, 0.0)
  }

  lemma NearestLineStateSnoc(g: Geometry, fs: seq<Feature>, f: Feature, geo: GeometryEngine)
    requires Measured(g, fs, geo) && geo.distance(g, f.shape).Some?
    ensures Measured(g, fs + [f], geo)
    ensures var d := geo.distance(g, f.shape).value;
      NearestLineState(g, fs + [f], geo) ==
        if d < NearestLineState(g, fs, geo).1 then (Some(f), d) else NearestLineState(g, fs, geo)
  {
    DistancesSnoc(g, fs, f, geo);
    var u := fs + [f];
    assert u[|fs|] == f;
    if fs != [] {
      var ds := Distances(g, fs, geo);
      ArgMinFirstSnoc(ds, geo.distance(g, f.shape).value);
      assert u[ArgMinFirst(ds)] == fs[ArgMinFirst(ds)];
    } else {
      assert u == [f];
    }
  }

  /** What `NearestLineFeature` yields for the rows `fs` of the class: an invalid cast
      when the feature's shape is not an `IProximityOperator` (before any cursor is
      opened), a geometry failure when some distance cannot be measured, and otherwise
      the feature the loop keeps, if any. */
  function NearestLineOf(g: Geometry, fs: seq<Feature>, geo: GeometryEngine): (r: Result<Option<Feature>>)
    ensures r.Failure? <==> !geo.isProximityOperator(g) || !Measured(g, fs, geo)
    ensures r.Failure? ==> r.error == if geo.isProximityOperator(g) then GeometryFailure else InvalidCast
    ensures r.Success? && r.value.Some? ==>
      && r.value.value in fs
      && geo.distance(g, r.value.value.shape).value < 0.0
      && forall i :: 0 <= i < |fs| ==> geo.distance(g, r.value.value.shape).value <= Distances(g, fs, geo)[i]
    ensures r.Success? && r.value.None? ==> forall i :: 0 <= i < |fs| ==> Distances(g, fs, geo)[i] >= 0.0
  {
    if !geo.isProximityOperator(g) then Failure(InvalidCast)
    else if !Measured(g, fs, geo) then Failure(GeometryFailure)
    else Success(NearestLineState(g, fs, geo).0)
  }

  /** With distances that are never negative, `NearestLineFeature` never finds a
      feature, however many the class holds. */
  lemma NearestLineNeverFound(g: Geometry, fs: seq<Feature>, geo: GeometryEngine)
    requires DistancesNonNegative(geo)
    ensures NearestLineOf(g, fs, geo).Success? ==> NearestLineOf(g, fs, geo).value.None?
  {
  }

  /** The loop of `NearestLineFeature` inside its `try` block: the cursor is walked to
      its end unless a distance cannot be measured. */
  method ScanNearestLine(g: Geometry, c: FeatureCursor, geo: GeometryEngine) returns (r: Result<Option<Feature>>)
    requires geo.isProximityOperator(g)
    requires c.Valid() && c.position == 0 && c.releaseCount == 0
    modifies c`position
    ensures c.Valid() && c.releaseCount == 0
    ensures r == NearestLineOf(g, c.features, geo)
  {
    ghost var fs := c.features;
    var shortestDist := 0.0;
    var nearestFeature: Option<Feature> := None;
    while true
      invariant c.Valid() && c.releaseCount == 0
      invariant Measured(g, fs[..c.position], geo)
      invariant NearestLineState(g, fs[..c.position], geo) == (nearestFeature, shortestDist)
      decreases |fs| - c.position
    {
      ghost var n := c.position;
      var next := c.NextFeature();
      if next.None? {
        break;
      }
      var destFeature := next.value;
      var distance := geo.distance(g, destFeature.shape);
      if distance.None? {
        assert !Measured(g, fs, geo) by { assert fs[n] == destFeature; }
        r := Failure(GeometryFailure);
        return;
      }
      assert fs[..n + 1] == fs[..n] + [destFeature];
      NearestLineStateSnoc(g, fs[..n], destFeature, geo);
      if distance.value < shortestDist {
        nearestFeature := Some(destFeature);
        shortestDist := distance.value;
      }
    }
    assert fs[..c.position] == fs;
    r := Success(nearestFeature);
  }

  /** `feature.NearestLineFeature(featureClass)`: casts the feature's shape, searches
      the whole class, keeps a feature only when it is strictly closer than the
      shortest distance so far, and releases the cursor in a `finally` block, so on a
      normal return and when a distance cannot be measured alike. A failed cast comes
      before the cursor is opened. */
  method NearestLineFeature(feature: Feature, fclass: FeatureClass, geo: GeometryEngine)
    returns (r: Result<Option<Feature>>, cursor: Option<FeatureCursor>)
    requires fclass.Valid()
    ensures r == NearestLineOf(feature.shape, fclass.rows, geo)
    ensures cursor.Some? <==> geo.isProximityOperator(feature.shape)
    ensures cursor.Some? ==> cursor.value.releaseCount == 1
  {
    if !geo.isProximityOperator(feature.shape) {
      r := Failure(InvalidCast);
      cursor := None;
      return;
    }
    var c := fclass.Search(None, geo);
    FilterAll(fclass.rows, f => Selects(None, fclass.whereHolds, geo, f));
    r := ScanNearestLine(feature.shape, c, geo);
    c.Release();
    cursor := Some(c);
  }

  // ---------------------------------------------------------------- FieldChanged

  /** `feature.FieldChanged(fieldName)`: whether the string forms of the original and
      the current value of the field differ once trimmed. `show` is `object.ToString`.
      A field that is not found is read at index -1, which fails. */
  function FieldChanged(fields: seq<Field>, original: seq<Value>, current: seq<Value>, fieldName: string,
                        show: Value -> string): (r: Result<bool>)
    requires |original| == |fields| && |current| == |fields|
    ensures r.Failure? <==> FindField(fields, fieldName) == -1
    ensures r.Failure? ==> r.error == NotFound
    ensures r.Success? ==> var k := FindField(fields, fieldName);
      r.value <==> Trim(show(original[k])) != Trim(show(current[k]))
  {
    var k := FindField(fields, fieldName);
    if k == -1 then Failure(NotFound)
    else Success(Trim(show(original[k])) != Trim(show(current[k])))
  }

  /** Values with the same string form never count as changed. */
  lemma FieldUnchangedForSameText(fields: seq<Field>, original: seq<Value>, current: seq<Value>, fieldName: string,
                                  show: Value -> string)
    requires |original| == |fields| && |current| == |fields|
    requires var k := FindField(fields, fieldName); k >= 0 && show(original[k]) == show(current[k])
    ensures FieldChanged(fields, original, current, fieldName, show) == Success(false)
  {
  }

  /** White space added around the string form of the value is not a change. */
  lemma FieldUnchangedForPadding(fields: seq<Field>, original: seq<Value>, current: seq<Value>, fieldName: string,
                                 show: Value -> string, w1: string, w2: string)
    requires |original| == |fields| && |current| == |fields|
    requires AllWhiteSpace(w1) && AllWhiteSpace(w2)
    requires var k := FindField(fields, fieldName); k >= 0 && show(current[k]) == w1 + show(original[k]) + w2
    ensures FieldChanged(fields, original, current, fieldName, show) == Success(false)
  {
    var k := FindField(fields, fieldName);
    TrimPadded(w1, show(original[k]), w2);
  }

  /** Which of the two values is the original makes no difference. */
  lemma FieldChangedSymmetric(fields: seq<Field>, original: seq<Value>, current: seq<Value>, fieldName: string,
                              show: Value -> string)
    requires |original| == |fields| && |current| == |fields|
    ensures FieldChanged(fields, original, current, fieldName, show) == FieldChanged(fields, current, original, fieldName, show)
  {
  }
}
