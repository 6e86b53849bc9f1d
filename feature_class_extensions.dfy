/** `FeatureClassExtensions`: names and paths of classes, the filters behind the
    `Search`/`Update`/`FeatureCount` overloads, and the cursor-driven edits
    `DeleteFeatures`, `CopyFeaturesAttributes`, `GetIDs` and `AddNewField`. */
module FeatureClassExtensions {
  import opened Wrappers
  import opened Geometry
  import opened DotNetStrings
  import opened Seqs
  import opened Geodatabase

  // ---------------------------------------------------------------- names and paths

  /** The `IDataset` side of an `IClass`: the path of its workspace and its name. */
  datatype DatasetName = DatasetName(workspacePath: string, name: string)

  /** `GetName`: the dataset name, or null for a class that is not a dataset. */
  function GetName(c: Option<DatasetName>): (r: Option<string>)
    ensures r.Some? <==> c.Some?
    ensures c.Some? ==> r == Some(c.value.name)
  {
    if c.Some? then Some(c.value.name) else None
  }

  /** `GetPath(class)`: workspace path, a backslash, the name; a class that is not a
      dataset contributes two nulls, which concatenate as empty strings. */
  function GetPath(c: Option<DatasetName>): (r: string)
    ensures c.None? ==> r == "\\"
    ensures c.Some? ==> r == c.value.workspacePath + "\\" + c.value.name
  {
    OrEmpty(if c.Some? then Some(c.value.workspacePath) else None) + "\\" + OrEmpty(GetName(c))
  }

  /** `GetPath(class, out className)`. */
  function GetPathAndName(c: Option<DatasetName>): (r: (string, Option<string>))
    ensures r.0 == GetPath(c) && r.1 == GetName(c)
  {
    var className := GetName(c);
    (OrEmpty(if c.Some? then Some(c.value.workspacePath) else None) + "\\" + OrEmpty(className), className)
  }

  /** `GetPath(class, datasetName)`: the path of a class inside the named feature dataset. */
  function GetPathInDataset(c: Option<DatasetName>, datasetName: Option<string>): (r: string)
    ensures c.None? ==> r == "\\" + OrEmpty(datasetName) + "\\"
    ensures c.Some? ==> r == c.value.workspacePath + "\\" + OrEmpty(datasetName) + "\\" + c.value.name
  {
    OrEmpty(if c.Some? then Some(c.value.workspacePath) else None) + "\\" + OrEmpty(datasetName) + "\\" + OrEmpty(GetName(c))
  }

  /** `GetPath(class, datasetName, out className)`. */
  function GetPathInDatasetAndName(c: Option<DatasetName>, datasetName: Option<string>): (r: (string, Option<string>))
    ensures r.0 == GetPathInDataset(c, datasetName) && r.1 == GetName(c)
  {
    var className := GetName(c);
    (OrEmpty(if c.Some? then Some(c.value.workspacePath) else None) + "\\" + OrEmpty(datasetName) + "\\" + OrEmpty(className),
     className)
  }

  /** The text after the last backslash of a path. */
  function LastSegment(p: string): (r: string)
    ensures '\\' !in r
    decreases |p|
  {
    if p == [] || p[|p| - 1] == '\\' then [] else LastSegment(p[..|p| - 1]) + [p[|p| - 1]]
  }

  /** A name without backslashes is read back as the last segment of the path. */
  lemma {:induction false} LastSegmentOfJoin(prefix: string, name: string)
    requires '\\' !in name
    ensures LastSegment(prefix + "\\" + name) == name
    decreases |name|
  {
    if name == [] {
      assert (prefix + "\\" + name)[|prefix + "\\" + name| - 1] == '\\';
    } else {
      var init := name[..|name| - 1];
      LastSegmentOfJoin(prefix, init);
      var p := prefix + "\\" + name;
      assert p[..|p| - 1] == prefix + "\\" + init;
      assert name == init + [name[|name| - 1]];
    }
  }

  /** Both `GetPath` flavours end with the class name. */
  lemma PathsEndWithName(c: DatasetName, datasetName: Option<string>)
    requires '\\' !in c.name
    ensures LastSegment(GetPath(Some(c))) == c.name
    ensures LastSegment(GetPathInDataset(Some(c), datasetName)) == c.name
  {
    LastSegmentOfJoin(c.workspacePath, c.name);
    LastSegmentOfJoin(c.workspacePath + "\\" + OrEmpty(datasetName), c.name);
  }

  /** A class inside a dataset has the path it would have at the root of a workspace
      whose path is the dataset's folder. */
  lemma PathInDatasetIsNestedPath(c: DatasetName, datasetName: string)
    ensures GetPathInDataset(Some(c), Some(datasetName))
         == GetPath(Some(DatasetName(c.workspacePath + "\\" + datasetName, c.name)))
  {
  }

  // ---------------------------------------------------------------- filters

  /** The filter `Search(where)` and `FeatureCount(where)` use: none for a null or
      blank clause, otherwise a query filter with that clause. */
  function WhereFilter(where: Option<string>): (r: Option<QueryFilter>)
    ensures r.None? <==> IsNullOrWhiteSpace(where)
    ensures r.Some? ==> r.value == QueryFilter(where.value, "*", None)
  {
    if IsNullOrWhiteSpace(where) then None else Some(QueryFilter(where.value, "*", None))
  }

  /** A blank clause makes the search return every row. */
  lemma {:induction false} BlankWhereSelectsAll(rows: seq<Feature>, where: Option<string>,
                                                whereHolds: (string, Feature) -> bool, geo: GeometryEngine)
    requires IsNullOrWhiteSpace(where)
    ensures Matching(rows, WhereFilter(where), whereHolds, geo) == rows
  {
    FilterAll(rows, f => Selects(WhereFilter(where), whereHolds, geo, f));
  }

  /** A row is returned for a non-blank clause exactly when the clause holds for it. */
  lemma WhereSelects(where: string, whereHolds: (string, Feature) -> bool, geo: GeometryEngine, f: Feature)
    requires !AllWhiteSpace(where)
    ensures Selects(WhereFilter(Some(where)), whereHolds, geo, f) <==> whereHolds(where, f)
  {
    assert where != [];
  }

  /** Which cursor a call opens: a search cursor or an update cursor, with its filter. */
  datatype CursorRequest = SearchCall(filter: Option<QueryFilter>) | UpdateCall(filter: Option<QueryFilter>)

  /** `Search(where)`. */
  function SearchRequest(where: Option<string>): (r: CursorRequest)
    ensures r.SearchCall? && r.filter == WhereFilter(where)
  {
    SearchCall(WhereFilter(where))
  }

  /** `Update(where)`: a blank clause opens a search cursor with no filter, not an
      update cursor. */
  function UpdateRequest(where: Option<string>): (r: CursorRequest)
    ensures r.UpdateCall? <==> !IsNullOrWhiteSpace(where)
    ensures r.filter == WhereFilter(where)
  {
    if IsNullOrWhiteSpace(where) then SearchCall(None) else UpdateCall(Some(QueryFilter(where.value, "*", None)))
  }

  predicate IsComma(c: char) { c == ',' }

  /** `Enumerable.Aggregate((a, b) => a + "," + b)`: the names joined by commas; an
      empty sequence has nothing to aggregate and throws. */
  function Joined(names: seq<string>): (r: Result<string>)
    ensures r.Failure? <==> names == []
    ensures r.Failure? ==> r.error == InvalidOperation
    ensures |names| == 1 ==> r == Success(names[0])
    decreases |names|
  {
    if names == [] then Failure(InvalidOperation)
    else if |names| == 1 then Success(names[0])
    else Success(names[0] + "," + Joined(names[1..]).value)
  }

  /** Splitting a field list at its commas. */
  function SplitFields(s: string): (r: seq<string>)
    ensures r != []
    decreases |s|
  {
    var k := FirstIndex(s, IsComma);
    if k == |s| then [s] else [s[..k]] + SplitFields(s[k + 1..])
  }

  /** A name without a comma, a comma and the rest split into the name and the split rest. */
  lemma SplitAtFirstComma(n: string, tail: string)
    requires ',' !in n
    ensures SplitFields(n + "," + tail) == [n] + SplitFields(tail)
  {
    var s := n + "," + tail;
    assert forall j :: 0 <= j < |n| ==> s[j] == n[j];
    FirstIndexUnique(s, IsComma, |n|);
    assert s[..|n|] == n;
    assert s[|n| + 1..] == tail;
  }

  /** The joined list splits back into the names, in order, when no name holds a comma. */
  lemma {:induction false} SplitJoined(names: seq<string>)
    requires names != []
    requires forall i :: 0 <= i < |names| ==> ',' !in names[i]
    ensures SplitFields(Joined(names).value) == names
    decreases |names|
  {
    var n := names[0];
    if |names| == 1 {
      FirstIndexUnique(n, IsComma, |n|);
    } else {
      var rest := names[1..];
      assert forall i :: 0 <= i < |rest| ==> ',' !in rest[i] by {
        forall i | 0 <= i < |rest| ensures ',' !in rest[i] { assert rest[i] == names[i + 1]; }
      }
      SplitJoined(rest);
      SplitAtFirstComma(n, Joined(rest).value);
      assert names == [n] + rest;
    }
  }

  /** `Search(where, subFields)`: the sub-fields joined by commas, the clause as given. */
  function SearchWithSubFields(where: Option<string>, subFields: seq<string>): (r: Result<CursorRequest>)
    ensures r.Failure? <==> subFields == []
    ensures r.Success? ==> r.value.SearchCall? && r.value.filter.Some?
    ensures r.Success? ==> r.value.filter.value.subFields == Joined(subFields).value
    ensures r.Success? ==> r.value.filter.value.whereClause == OrEmpty(where) && r.value.filter.value.spatial.None?
  {
    match Joined(subFields)
    case Failure(e) => Failure(e)
    case Success(list) => Success(SearchCall(Some(QueryFilter(OrEmpty(where), list, None))))
  }

  /** `Search(geometry)`: a spatial filter for the rows the geometry intersects. */
  function SearchByGeometry(g: Geometry): (r: CursorRequest)
    ensures r.SearchCall? && r.filter.Some? && r.filter.value.whereClause == ""
    ensures r.filter.value.spatial == Some(SpatialCondition("", Intersects, g))
  {
    SearchCall(Some(QueryFilter("", "*", Some(SpatialCondition("", Intersects, g)))))
  }

  /** The rows `Search(geometry)` returns are the rows the geometry intersects. */
  lemma SearchByGeometrySelects(g: Geometry, whereHolds: (string, Feature) -> bool, geo: GeometryEngine, f: Feature)
    ensures Selects(SearchByGeometry(g).filter, whereHolds, geo, f) <==> geo.relation(Intersects, g, f.shape)
  {
  }

  /** `CreateSpatialFilter`: the search geometry (or its buffer by a positive distance),
      the requested relation on the shape field, only the OID and shape sub-fields, and
      the where clause when one is given. Buffering casts the search geometry to
      `ITopologicalOperator`, which throws for a geometry without that interface. */
  function CreateSpatialFilter(fclass: FeatureClass, searchGeometry: Geometry, relation: SpatialRelation,
                               bufferDistance: real, where: Option<string>, geo: GeometryEngine): (r: Result<QueryFilter>)
    ensures r.Failure? <==> bufferDistance > 0.0 && !geo.isTopologicalOperator(searchGeometry)
    ensures r.Failure? ==> r.error == InvalidCast
    ensures r.Success? ==> r.value.spatial.Some? && r.value.spatial.value.geometryField == fclass.shapeFieldName
    ensures r.Success? ==> r.value.spatial.value.relation == relation
    ensures r.Success? ==>
      r.value.spatial.value.geometry == if bufferDistance > 0.0 then geo.buffer(searchGeometry, bufferDistance) else searchGeometry
    ensures r.Success? && ',' !in fclass.oidFieldName && ',' !in fclass.shapeFieldName ==>
      SplitFields(r.value.subFields) == [fclass.oidFieldName, fclass.shapeFieldName]
    ensures r.Success? ==> r.value.whereClause == if IsNullOrEmpty(where) then "" else where.value
  {
    if bufferDistance > 0.0 && !geo.isTopologicalOperator(searchGeometry) then Failure(InvalidCast)
    else
      var g := if bufferDistance > 0.0 then geo.buffer(searchGeometry, bufferDistance) else searchGeometry;
      var subFields := fclass.oidFieldName + "," + fclass.shapeFieldName;
      assert subFields == Joined([fclass.oidFieldName, fclass.shapeFieldName]).value;
      assert ',' !in fclass.oidFieldName && ',' !in fclass.shapeFieldName ==>
        SplitFields(subFields) == [fclass.oidFieldName, fclass.shapeFieldName] by {
        if ',' !in fclass.oidFieldName && ',' !in fclass.shapeFieldName {
          SplitJoined([fclass.oidFieldName, fclass.shapeFieldName]);
        }
      }
      Success(QueryFilter(if IsNullOrEmpty(where) then "" else where.value, subFields,
                          Some(SpatialCondition(fclass.shapeFieldName, relation, g))))
  }

  /** A row passes a spatial filter that could be built when it stands in the relation
      to the (buffered) geometry and, if a clause was given, the clause holds for it. */
  lemma SpatialFilterSelects(fclass: FeatureClass, searchGeometry: Geometry, relation: SpatialRelation,
                             bufferDistance: real, where: Option<string>, geo: GeometryEngine, f: Feature)
    requires CreateSpatialFilter(fclass, searchGeometry, relation, bufferDistance, where, geo).Success?
    ensures var q := CreateSpatialFilter(fclass, searchGeometry, relation, bufferDistance, where, geo).value;
      Selects(Some(q), fclass.whereHolds, geo, f) <==>
        && (IsNullOrEmpty(where) || fclass.whereHolds(where.value, f))
        && geo.relation(relation, if bufferDistance > 0.0 then geo.buffer(searchGeometry, bufferDistance) else searchGeometry, f.shape)
  {
  }

  /** The rows for which the database finds the clause true. */
  function ClauseHolds(whereHolds: (string, Feature) -> bool, where: string): Feature -> bool {
    f => whereHolds(where, f)
  }

  /** `FeatureCount(where)`: every row for a blank clause, otherwise the rows for which
      the clause holds. */
  function FeatureCountWhere(fclass: FeatureClass, where: Option<string>, geo: GeometryEngine): (n: nat)
    reads fclass
    ensures IsNullOrWhiteSpace(where) ==> n == |fclass.rows|
    ensures !IsNullOrWhiteSpace(where) ==> n == |Filter(fclass.rows, ClauseHolds(fclass.whereHolds, where.value))|
  {
    var q := WhereFilter(where);
    if IsNullOrWhiteSpace(where) then BlankWhereSelectsAll(fclass.rows, where, fclass.whereHolds, geo); fclass.FeatureCount(q, geo)
    else
      forall f | f in fclass.rows
        ensures Selects(q, fclass.whereHolds, geo, f) == ClauseHolds(fclass.whereHolds, where.value)(f)
      {
        WhereSelects(where.value, fclass.whereHolds, geo, f);
      }
      FilterEquivalent(fclass.rows, f => Selects(q, fclass.whereHolds, geo, f), ClauseHolds(fclass.whereHolds, where.value));
      fclass.FeatureCount(q, geo)
  }

  // ---------------------------------------------------------------- DeleteFeatures

  /** The filter `DeleteFeatures` opens its update cursor with: the clause as given. */
  function DeleteFilter(where: Option<string>): Option<QueryFilter> {
    Some(QueryFilter(OrEmpty(where), "*", None))
  }

  /** For a clause that is not blank, the counted rows and the deleted rows are the same. */
  lemma DeleteFilterAgrees(rows: seq<Feature>, where: string, whereHolds: (string, Feature) -> bool, geo: GeometryEngine)
    requires !AllWhiteSpace(where)
    ensures Matching(rows, DeleteFilter(Some(where)), whereHolds, geo) == Matching(rows, WhereFilter(Some(where)), whereHolds, geo)
  {
  }

  /** Deleting the OID of one more delivered feature extends the set of deleted OIDs. */
  lemma DeleteStep(rows: seq<Feature>, fs: seq<Feature>, n: nat)
    requires n < |fs|
    ensures WithoutOids(WithoutOids(rows, OidSet(fs[..n])), {fs[n].oid}) == WithoutOids(rows, OidSet(fs[..n + 1]))
  {
    assert fs[..n + 1] == fs[..n] + [fs[n]];
    assert OidSet(fs[..n + 1]) == OidSet(fs[..n]) + {fs[n].oid};
    WithoutOidsTwice(rows, OidSet(fs[..n]), {fs[n].oid});
  }

  /** The loop of `DeleteFeatures`: each feature the cursor yields is deleted from the
      class, until the cursor is exhausted. */
  method DeleteDelivered(fclass: FeatureClass, c: FeatureCursor)
    requires fclass.Valid() && c.Valid() && c.position == 0 && c.releaseCount == 0
    modifies fclass`rows, c`position
    ensures fclass.Valid() && c.position == |c.features|
    ensures fclass.rows == WithoutOids(old(fclass.rows), OidSet(c.features))
  {
    ghost var rows0 := fclass.rows;
    assert c.features[..c.position] == [];
    assert OidSet([]) == {};
    FilterAll(rows0, Alive({}));
    while true
      invariant c.Valid() && c.releaseCount == 0
      invariant fclass.Valid()
      invariant fclass.rows == WithoutOids(rows0, OidSet(c.features[..c.position]))
      decreases |c.features| - c.position
    {
      var f := c.NextFeature();
      if f.None? {
        break;
      }
      DeleteStep(rows0, c.features, c.position - 1);
      fclass.DeleteRow(f.value.oid);
    }
    assert c.features[..c.position] == c.features;
  }

  /** `DeleteFeatures(where)`: when the count for `where` is positive, an update cursor
      is walked and each feature it yields is deleted; the cursor is then released.
      Otherwise no cursor is opened and nothing changes. */
  method DeleteFeatures(fclass: FeatureClass, where: Option<string>, geo: GeometryEngine) returns (cursor: Option<FeatureCursor>)
    requires fclass.Valid()
    modifies fclass`rows
    ensures fclass.Valid()
    ensures old(FeatureCountWhere(fclass, where, geo)) > 0 ==>
      && fclass.rows == NotMatching(old(fclass.rows), DeleteFilter(where), fclass.whereHolds, geo)
      && cursor.Some? && cursor.value.releaseCount == 1
    ensures old(FeatureCountWhere(fclass, where, geo)) == 0 ==> fclass.rows == old(fclass.rows) && cursor.None?
  {
    var q := DeleteFilter(where);
    if FeatureCountWhere(fclass, where, geo) > 0 {
      var c := fclass.Search(q, geo);
      ghost var rows0 := fclass.rows;
      DeleteDelivered(fclass, c);
      DeletingMatchedOids(rows0, q, fclass.whereHolds, geo);
      c.Release();
      cursor := Some(c);
    } else {
      cursor := None;
    }
  }

  // ---------------------------------------------------------------- CopyFeaturesAttributes

  /** The target field the value of source field `i` is copied into, or -1: the source
      field must be neither the OID nor the geometry field, and the target field of the
      same name (found without regard to case) must be editable. */
  function TargetIndex(src: seq<Field>, tgt: seq<Field>, i: nat): (t: int)
    requires i < |src|
    ensures -1 <= t < |tgt|
    ensures t >= 0 <==>
      && src[i].fieldType != OIDField && src[i].fieldType != GeometryField
      && FindField(tgt, src[i].name) >= 0 && tgt[FindField(tgt, src[i].name)].editable
    ensures t >= 0 ==> t == FindField(tgt, src[i].name)
  {
    if src[i].fieldType != OIDField && src[i].fieldType != GeometryField then
      var k := FindField(tgt, src[i].name);
      if k > -1 && tgt[k].editable then k else -1
    else -1
  }

  /** For each source field, the target field its value is copied into, or -1. */
  function CopyTargets(src: seq<Field>, tgt: seq<Field>): (ts: seq<int>)
    ensures |ts| == |src| && TargetsIn(ts, |tgt|)
    ensures forall i :: 0 <= i < |src| ==> ts[i] == TargetIndex(src, tgt, i)
  {
    seq(|src|, i requires 0 <= i < |src| => TargetIndex(src, tgt, i))
  }

  ghost predicate TargetsIn(ts: seq<int>, width: nat) {
    forall i :: 0 <= i < |ts| ==> -1 <= ts[i] < width
  }

  /** The feature buffer after the values of the first `n` source fields have been
      copied into it. */
  function CopyPrefix(buffer: seq<Value>, ts: seq<int>, values: seq<Value>, n: nat): (r: seq<Value>)
    requires n <= |ts| <= |values| && TargetsIn(ts, |buffer|)
    ensures |r| == |buffer|
    decreases n
  {
    if n == 0 then buffer
    else
      var b := CopyPrefix(buffer, ts, values, n - 1);
      if ts[n - 1] >= 0 then b[ts[n - 1] := values[n - 1]] else b
  }

  /** The last of the first `n` source fields that is copied into target field `j`, or -1. */
  function LastWriter(ts: seq<int>, j: int, n: nat): (w: int)
    requires n <= |ts|
    ensures -1 <= w < n
    ensures w >= 0 ==> ts[w] == j
    ensures forall i :: w < i < n ==> ts[i] != j
    decreases n
  {
    if n == 0 then -1
    else if ts[n - 1] == j then n - 1
    else LastWriter(ts, j, n - 1)
  }

  /** Each target field ends up holding the value of the last source field copied into
      it; a field nothing is copied into keeps what the buffer held. */
  lemma {:induction false} CopyPrefixValue(buffer: seq<Value>, ts: seq<int>, values: seq<Value>, n: nat, j: int)
    requires n <= |ts| <= |values| && TargetsIn(ts, |buffer|) && 0 <= j < |buffer|
    ensures var w := LastWriter(ts, j, n);
      CopyPrefix(buffer, ts, values, n)[j] == if w >= 0 then values[w] else buffer[j]
    decreases n
  {
    if n > 0 {
      CopyPrefixValue(buffer, ts, values, n - 1, j);
    }
  }

  /** `a` and `b` agree on every target field no source field is copied into. */
  ghost predicate Untouched(a: seq<Value>, b: seq<Value>, ts: seq<int>)
    requires |a| == |b|
  {
    forall j :: 0 <= j < |a| && LastWriter(ts, j, |ts|) < 0 ==> a[j] == b[j]
  }

  /** Two buffers that agree on every field nothing is copied into give the same record,
      and the record agrees with them there: reusing one feature buffer for every
      inserted record does not leak values from one record into the next. */
  lemma {:induction false} CopyPrefixReuse(b1: seq<Value>, b2: seq<Value>, ts: seq<int>, values: seq<Value>)
    requires |ts| <= |values| && |b1| == |b2| && TargetsIn(ts, |b1|)
    requires Untouched(b1, b2, ts)
    ensures CopyPrefix(b1, ts, values, |ts|) == CopyPrefix(b2, ts, values, |ts|)
    ensures Untouched(CopyPrefix(b1, ts, values, |ts|), b2, ts)
  {
    var c1, c2 := CopyPrefix(b1, ts, values, |ts|), CopyPrefix(b2, ts, values, |ts|);
    forall j | 0 <= j < |b1| ensures c1[j] == c2[j] && (LastWriter(ts, j, |ts|) < 0 ==> c1[j] == b2[j]) {
      ReuseAt(b1, b2, ts, values, j);
    }
  }

  lemma {:induction false} ReuseAt(b1: seq<Value>, b2: seq<Value>, ts: seq<int>, values: seq<Value>, j: int)
    requires |ts| <= |values| && |b1| == |b2| && TargetsIn(ts, |b1|) && 0 <= j < |b1|
    requires LastWriter(ts, j, |ts|) < 0 ==> b1[j] == b2[j]
    ensures CopyPrefix(b1, ts, values, |ts|)[j] == CopyPrefix(b2, ts, values, |ts|)[j]
    ensures LastWriter(ts, j, |ts|) < 0 ==> CopyPrefix(b1, ts, values, |ts|)[j] == b2[j]
  {
    CopyPrefixValue(b1, ts, values, |ts|, j);
    CopyPrefixValue(b2, ts, values, |ts|, j);
  }

  /** A target field no source field is copied into keeps the buffer's value. */
  lemma {:induction false} CopyRuleUntouched(buffer: seq<Value>, src: seq<Field>, tgt: seq<Field>, values: seq<Value>, j: int)
    requires |src| <= |values| && |buffer| == |tgt| && 0 <= j < |tgt|
    requires forall i :: 0 <= i < |src| ==> TargetIndex(src, tgt, i) != j
    ensures CopyPrefix(buffer, CopyTargets(src, tgt), values, |src|)[j] == buffer[j]
  {
    var ts := CopyTargets(src, tgt);
    CopyPrefixValue(buffer, ts, values, |src|, j);
    LastWriterNone(ts, j, |src|);
  }

  /** A target field receives the value of the last source field copied into it. */
  lemma {:induction false} CopyRuleLast(buffer: seq<Value>, src: seq<Field>, tgt: seq<Field>, values: seq<Value>, j: int, i: nat)
    requires |src| <= |values| && |buffer| == |tgt| && 0 <= j < |tgt| && i < |src|
    requires TargetIndex(src, tgt, i) == j
    requires forall i' :: i < i' < |src| ==> TargetIndex(src, tgt, i') != j
    ensures CopyPrefix(buffer, CopyTargets(src, tgt), values, |src|)[j] == values[i]
  {
    var ts := CopyTargets(src, tgt);
    CopyPrefixValue(buffer, ts, values, |src|, j);
    LastWriterIs(ts, j, |src|, i);
  }

  lemma {:induction false} LastWriterNone(ts: seq<int>, j: int, n: nat)
    requires n <= |ts| && forall i :: 0 <= i < n ==> ts[i] != j
    ensures LastWriter(ts, j, n) == -1
    decreases n
  {
    if n > 0 {
      LastWriterNone(ts, j, n - 1);
    }
  }

  lemma {:induction false} LastWriterIs(ts: seq<int>, j: int, n: nat, i: nat)
    requires i < n <= |ts| && ts[i] == j
    requires forall i' :: i < i' < n ==> ts[i'] != j
    ensures LastWriter(ts, j, n) == i
    decreases n
  {
    if n - 1 != i {
      LastWriterIs(ts, j, n - 1, i);
    }
  }

  /** The inner loop of `CopyFeaturesAttributes`: every source field that has an
      editable counterpart in the target is copied into the buffer. */
  method FillBuffer(buffer: seq<Value>, src: seq<Field>, tgt: seq<Field>, values: seq<Value>) returns (b: seq<Value>)
    requires |src| <= |values| && |buffer| == |tgt|
    ensures b == CopyPrefix(buffer, CopyTargets(src, tgt), values, |src|)
  {
    ghost var ts := CopyTargets(src, tgt);
    b := buffer;
    var i := 0;
    while i < |src|
      invariant 0 <= i <= |src|
      invariant b == CopyPrefix(buffer, ts, values, i)
    {
      var sourceField := src[i];
      if sourceField.fieldType != OIDField && sourceField.fieldType != GeometryField {
        var k := FindField(tgt, sourceField.name);
        if k > -1 && tgt[k].editable {
          b := b[k := values[i]];
        }
      }
      i := i + 1;
    }
  }

  /** A new feature buffer holds each field's default value. */
  function Defaults(fields: seq<Field>): (r: seq<Value>)
    ensures |r| == |fields| && forall j :: 0 <= j < |r| ==> r[j] == fields[j].defaultValue
  {
    seq(|fields|, j requires 0 <= j < |fields| => fields[j].defaultValue)
  }

  /** A source feature is copied when its shape is not empty and it has an OID. */
  predicate Eligible(f: Feature) {
    !f.shape.IsEmpty() && f.hasOid
  }

  /** The records `CopyFeaturesAttributes` inserts for the source features `fs`: one per
      eligible feature, in order, with its shape and the copied values. */
  function CopiedRows(fs: seq<Feature>, src: seq<Field>, tgt: seq<Field>, buffer: seq<Value>): (r: seq<RowData>)
    requires forall f :: f in fs ==> |f.values| == |src|
    requires |buffer| == |tgt|
    ensures |r| == |Filter(fs, Eligible)|
    ensures forall i :: 0 <= i < |r| ==> |r[i].values| == |tgt|
    ensures forall i :: 0 <= i < |r| ==> r[i].shape == Filter(fs, Eligible)[i].shape
  {
    var e := Filter(fs, Eligible);
    var ts := CopyTargets(src, tgt);
    seq(|e|, i requires 0 <= i < |e| => RowData(e[i].shape, CopyPrefix(buffer, ts, e[i].values, |src|)))
  }

  lemma {:induction false} CopiedRowsSnoc(fs: seq<Feature>, f: Feature, src: seq<Field>, tgt: seq<Field>, buffer: seq<Value>)
    requires forall g :: g in fs + [f] ==> |g.values| == |src|
    requires |buffer| == |tgt|
    ensures CopiedRows(fs + [f], src, tgt, buffer) ==
      CopiedRows(fs, src, tgt, buffer) +
      (if Eligible(f) then [RowData(f.shape, CopyPrefix(buffer, CopyTargets(src, tgt), f.values, |src|))] else [])
  {
    FilterSnoc(fs, f, Eligible);
  }

  /** The copy loop of `CopyFeaturesAttributes`: every remaining source feature with a
      shape and an OID is copied, through one reused feature buffer, into the insert
      cursor's queue. */
  method InsertCopies(sc: FeatureCursor, ic: InsertCursor, src: seq<Field>, tgt: seq<Field>)
    requires sc.Valid() && sc.position == 0 && sc.releaseCount == 0 && ic.pending == []
    requires forall f :: f in sc.features ==> |f.values| == |src|
    modifies sc`position, ic`pending
    ensures sc.Valid() && sc.position == |sc.features|
    ensures ic.pending == CopiedRows(sc.features, src, tgt, Defaults(tgt))
  {
    ghost var fs := sc.features;
    var initial := Defaults(tgt);
    var buffer := initial;
    ghost var ts := CopyTargets(src, tgt);
    var shape := OtherGeometry(NullType, true, None);
    while true
      invariant sc.Valid() && sc.releaseCount == 0
      invariant |buffer| == |tgt| && Untouched(buffer, initial, ts)
      invariant ic.pending == CopiedRows(fs[..sc.position], src, tgt, initial)
      decreases |fs| - sc.position
    {
      var next := sc.NextFeature();
      if next.None? {
        break;
      }
      var f := next.value;
      assert fs[..sc.position] == fs[..sc.position - 1] + [f];
      assert f in fs;
      CopiedRowsSnoc(fs[..sc.position - 1], f, src, tgt, initial);
      if Eligible(f) {
        shape := f.shape;
        CopyPrefixReuse(buffer, initial, ts, f.values);
        buffer := FillBuffer(buffer, src, tgt, f.values);
        ic.InsertFeature(shape, buffer);
      }
    }
    assert fs[..sc.position] == fs;
  }

  /** `CopyFeaturesAttributes(source, target, where)`: when the source has features for
      `where`, an insert cursor on the target is filled from a search cursor, flushed
      once and released. The source search cursor is not released. */
  method CopyFeaturesAttributes(source: FeatureClass, target: FeatureClass, where: Option<string>, geo: GeometryEngine)
    returns (inserter: Option<InsertCursor>)
    requires source.Valid() && target.Valid()
    modifies target`rows, target`nextOid
    ensures target.Valid()
    ensures var fs := Matching(old(source.rows), WhereFilter(where), source.whereHolds, geo);
      var added := CopiedRows(fs, source.fields, target.fields, Defaults(target.fields));
      && (|fs| > 0 ==>
        && inserter.Some? && inserter.value.flushCount == 1 && inserter.value.releaseCount == 1
        && target.rows == old(target.rows) + Numbered(old(target.nextOid), added)
        && target.nextOid == old(target.nextOid) + |added|)
      && (|fs| == 0 ==> inserter.None? && target.rows == old(target.rows) && target.nextOid == old(target.nextOid))
  {
    if FeatureCountWhere(source, where, geo) > 0 {
      var ic := target.Insert();
      var sc := source.Search(WhereFilter(where), geo);
      assert forall f :: f in sc.features ==> |f.values| == |source.fields|;
      InsertCopies(sc, ic, source.fields, target.fields);
      ic.Flush();
      ic.Release();
      inserter := Some(ic);
    } else {
      inserter := None;
    }
  }

  // ---------------------------------------------------------------- GetIDs

  /** Which value `GetIDs` reads: the index of `idFieldName` when it is given and found,
      otherwise -1 (the OID is read). */
  function IdFieldIndex(fields: seq<Field>, idFieldName: Option<string>): (k: int)
    ensures -1 <= k < |fields|
    ensures k >= 0 <==> !IsNullOrWhiteSpace(idFieldName) && FindField(fields, idFieldName.value) >= 0
    ensures k >= 0 ==> k == FindField(fields, idFieldName.value)
  {
    if IsNullOrWhiteSpace(idFieldName) then -1 else FindField(fields, idFieldName.value)
  }

  /** The ids `GetIDs` collects from `fs`: each feature's OID, or its value at `k`
      through `Convert.ToInt32`, which may reject a value. */
  function IdsOf(fs: seq<Feature>, k: int, toInt32: Value -> Option<int>): (r: Result<seq<int>>)
    requires k >= 0 ==> forall f :: f in fs ==> k < |f.values|
    ensures r.Failure? <==> k >= 0 && exists f :: f in fs && toInt32(f.values[k]).None?
    ensures r.Failure? ==> r.error == ConversionFailure
    ensures r.Success? ==> |r.value| == |fs|
    ensures r.Success? && k < 0 ==> forall i :: 0 <= i < |fs| ==> r.value[i] == fs[i].oid
    ensures r.Success? && k >= 0 ==> forall i :: 0 <= i < |fs| ==> toInt32(fs[i].values[k]) == Some(r.value[i])
  {
    if k < 0 then Success(seq(|fs|, i requires 0 <= i < |fs| => fs[i].oid))
    else if exists f :: f in fs && toInt32(f.values[k]).None? then Failure(ConversionFailure)
    else Success(seq(|fs|, i requires 0 <= i < |fs| => assert fs[i] in fs; toInt32(fs[i].values[k]).value))
  }

  /** The `else` loop of `GetIDs`: the OID of every feature, in cursor order. */
  method CollectOids(cursor: FeatureCursor) returns (ids: seq<int>)
    requires cursor.Valid() && cursor.position == 0 && cursor.releaseCount == 0
    modifies cursor`position
    ensures cursor.Valid() && cursor.releaseCount == 0 && cursor.position == |cursor.features|
    ensures |ids| == |cursor.features| && forall i :: 0 <= i < |ids| ==> ids[i] == cursor.features[i].oid
  {
    ids := [];
    while true
      invariant cursor.Valid() && cursor.releaseCount == 0
      invariant |ids| == cursor.position
      invariant forall i :: 0 <= i < |ids| ==> ids[i] == cursor.features[i].oid
      decreases |cursor.features| - cursor.position
    {
      var next := cursor.NextFeature();
      if next.None? {
        break;
      }
      ids := ids + [next.value.oid];
    }
  }

  /** The first loop of `GetIDs`: the ID field's value of every feature, converted,
      in cursor order; a value that does not convert throws. */
  method CollectFieldIds(cursor: FeatureCursor, k: nat, toInt32: Value -> Option<int>) returns (r: Result<seq<int>>)
    requires cursor.Valid() && cursor.position == 0 && cursor.releaseCount == 0
    requires forall f :: f in cursor.features ==> k < |f.values|
    modifies cursor`position
    ensures cursor.Valid() && cursor.releaseCount == 0
    ensures r == IdsOf(cursor.features, k, toInt32)
  {
    ghost var fs := cursor.features;
    var ids: seq<int> := [];
    while true
      invariant cursor.Valid() && cursor.releaseCount == 0
      invariant |ids| == cursor.position
      invariant forall i :: 0 <= i < |ids| ==> toInt32(fs[i].values[k]) == Some(ids[i])
      decreases |fs| - cursor.position
    {
      var next := cursor.NextFeature();
      if next.None? {
        break;
      }
      assert next.value in fs;
      var v := toInt32(next.value.values[k]);
      if v.None? {
        assert next.value in fs && toInt32(next.value.values[k]).None?;
        r := Failure(ConversionFailure);
        return;
      }
      ids := ids + [v.value];
    }
    forall f | f in fs ensures toInt32(f.values[k]).Some? {
      var i :| 0 <= i < |fs| && fs[i] == f;
    }
    ghost var spec := IdsOf(fs, k, toInt32);
    assert spec.Success? && |spec.value| == |ids|;
    forall i | 0 <= i < |ids| ensures spec.value[i] == ids[i] {
    }
    assert spec.value == ids;
    r := Success(ids);
  }

  /** `GetIDs(filter, idFldName)`: one int per feature of `Search(filter)`, in cursor
      order. The cursor is never released. */
  method GetIDs(fclass: FeatureClass, filter: Option<string>, idFieldName: Option<string>,
                toInt32: Value -> Option<int>, geo: GeometryEngine)
    returns (r: Result<seq<int>>, cursor: FeatureCursor)
    requires fclass.Valid()
    ensures r == IdsOf(Matching(fclass.rows, WhereFilter(filter), fclass.whereHolds, geo),
                       IdFieldIndex(fclass.fields, idFieldName), toInt32)
    ensures cursor.releaseCount == 0
  {
    cursor := fclass.Search(WhereFilter(filter), geo);
    var k := IdFieldIndex(fclass.fields, idFieldName);
    if k >= 0 {
      assert forall f :: f in cursor.features ==> |f.values| == |fclass.fields|;
      r := CollectFieldIds(cursor, k, toInt32);
    } else {
      var ids := CollectOids(cursor);
      r := Success(ids);
      assert IdsOf(cursor.features, k, toInt32).value == ids;
    }
  }

  // ---------------------------------------------------------------- AddNewField

  /** The field `AddNewField` builds: `Length` is set only for a string field. */
  function NewField(name: string, fieldType: FieldType, length: int, nullable: bool, defaultValue: Value): (f: Field)
    ensures f.name == name && f.fieldType == fieldType && f.nullable == nullable && f.defaultValue == defaultValue
    ensures f.length.Some? <==> fieldType == StringField
    ensures f.length.Some? ==> f.length.value == length
  {
    Field(name, fieldType, if fieldType == StringField then Some(length) else None, nullable, defaultValue, true)
  }

  /** `AddNewField`: take the exclusive schema lock, add the field, and go back to the
      shared lock whatever happened. It fails when the lock cannot be had or the name is
      taken. */
  method AddNewField(fclass: FeatureClass, name: string, fieldType: FieldType, length: int, nullable: bool,
                     defaultValue: Value) returns (o: Outcome)
    requires fclass.Valid()
    modifies fclass`schemaLock, fclass`fields, fclass`rows
    ensures fclass.Valid() && fclass.schemaLock == SharedLock
    ensures o == Pass <==> fclass.otherSharedLocks == 0 && FindField(old(fclass.fields), name) == -1
    ensures fclass.otherSharedLocks > 0 ==> o == Fail(SchemaLockConflict)
    ensures fclass.otherSharedLocks == 0 && FindField(old(fclass.fields), name) >= 0 ==> o == Fail(FieldExists)
    ensures o == Pass ==> fclass.fields == old(fclass.fields) + [NewField(name, fieldType, length, nullable, defaultValue)]
    ensures o == Pass ==> |fclass.rows| == |old(fclass.rows)|
    ensures o == Pass ==>
      forall i :: 0 <= i < |fclass.rows| ==> fclass.rows[i] == old(fclass.rows[i]).(values := old(fclass.rows[i]).values + [defaultValue])
    ensures o != Pass ==> fclass.fields == old(fclass.fields) && fclass.rows == old(fclass.rows)
  {
    o := fclass.ChangeSchemaLock(ExclusiveLock);
    if o == Pass {
      var f := NewField(name, fieldType, length, nullable, defaultValue);
      o := fclass.AddField(f);
    }
    var _ := fclass.ChangeSchemaLock(SharedLock);
  }
}
