/** The slice of the geodatabase the helpers drive: records keyed by OID with a
    field schema, query filters, forward-only cursors, feature classes with a
    schema lock, and buffered insert cursors. The database engine itself (how a
    where clause is evaluated, how a spatial relation is tested) is passed in. */
module Geodatabase {
  import opened Wrappers
  import opened Geometry
  import opened DotNetStrings
  import opened Seqs

  /** A field value; `NullValue` is `DBNull`. */
  datatype Value = NullValue | IntegerValue(i: int) | TextValue(s: string) | OtherValue(display: string)

  /** `esriFieldType`. */
  datatype FieldType =
    | OIDField | GeometryField | StringField | IntegerField | SmallIntegerField
    | DoubleField | DateField | OtherFieldType(code: int)

  /** `IField`; `length` is `None` when it was never set. */
  datatype Field = Field(name: string, fieldType: FieldType, length: Option<int>, nullable: bool,
                         defaultValue: Value, editable: bool)

  /** A row of a feature class: its OID, whether it has one (`HasOID`), its shape and
      one value per field of the schema. */
  datatype Feature = Feature(oid: int, hasOid: bool, shape: Geometry, values: seq<Value>)

  /** `IFields.FindField`: the index of the first field whose name matches without
      regard to case, or -1. */
  function FindField(fields: seq<Field>, name: string): (r: int)
    ensures -1 <= r < |fields|
    ensures r >= 0 ==> EqualsIgnoreCase(fields[r].name, name)
    ensures r >= 0 ==> forall j :: 0 <= j < r ==> !EqualsIgnoreCase(fields[j].name, name)
    ensures r == -1 <==> forall j :: 0 <= j < |fields| ==> !EqualsIgnoreCase(fields[j].name, name)
    decreases |fields|
  {
    if fields == [] then -1
    else if EqualsIgnoreCase(fields[0].name, name) then 0
    else var k := FindField(fields[1..], name); if k == -1 then -1 else k + 1
  }

  datatype SpatialCondition = SpatialCondition(geometryField: string, relation: SpatialRelation, geometry: Geometry)

  /** `IQueryFilter`, or an `ISpatialFilter` when `spatial` is present. An empty
      where clause selects every row; `subFields` is "*" unless set. */
  datatype QueryFilter = QueryFilter(whereClause: string, subFields: string, spatial: Option<SpatialCondition>)

  /** Whether a search with `filter` (`None` is a null filter) returns `f`. */
  predicate Selects(filter: Option<QueryFilter>, whereHolds: (string, Feature) -> bool,
                    geo: GeometryEngine, f: Feature)
  {
    match filter
    case None => true
    case Some(q) =>
      && (q.whereClause == "" || whereHolds(q.whereClause, f))
      && (q.spatial.None? || geo.relation(q.spatial.value.relation, q.spatial.value.geometry, f.shape))
  }

  /** The rows a search with `filter` returns, in storage order. */
  function Matching(rows: seq<Feature>, filter: Option<QueryFilter>, whereHolds: (string, Feature) -> bool,
                    geo: GeometryEngine): seq<Feature>
  {
    Filter(rows, f => Selects(filter, whereHolds, geo, f))
  }

  /** The rows a search with `filter` does not return, in storage order. */
  function NotMatching(rows: seq<Feature>, filter: Option<QueryFilter>, whereHolds: (string, Feature) -> bool,
                       geo: GeometryEngine): seq<Feature>
  {
    Filter(rows, f => !Selects(filter, whereHolds, geo, f))
  }

  ghost predicate OidsNonNegative(fs: seq<Feature>) {
    forall i :: 0 <= i < |fs| ==> fs[i].oid >= 0
  }

  ghost predicate UniqueOids(fs: seq<Feature>) {
    forall i, j :: 0 <= i < j < |fs| ==> fs[i].oid != fs[j].oid
  }

  function OidSet(fs: seq<Feature>): set<int> {
    set f | f in fs :: f.oid
  }

  /** The rows whose OID is not in `dead`. */
  function WithoutOids(rows: seq<Feature>, dead: set<int>): seq<Feature> {
    Filter(rows, Alive(dead))
  }

  function Alive(dead: set<int>): Feature -> bool {
    (f: Feature) => f.oid !in dead
  }

  lemma {:induction false} FilterKeepsUniqueOids(rows: seq<Feature>, p: Feature -> bool)
    requires UniqueOids(rows)
    ensures UniqueOids(Filter(rows, p))
    decreases |rows|
  {
    if rows != [] {
      var tail := rows[1..];
      assert UniqueOids(tail) by {
        forall i, j | 0 <= i < j < |tail| ensures tail[i].oid != tail[j].oid {
          assert tail[i] == rows[i + 1] && tail[j] == rows[j + 1];
        }
      }
      FilterKeepsUniqueOids(tail, p);
      var ft, out := Filter(tail, p), Filter(rows, p);
      if p(rows[0]) {
        assert out == [rows[0]] + ft;
        forall i, j | 0 <= i < j < |out| ensures out[i].oid != out[j].oid {
          assert out[j] == ft[j - 1];
          if i == 0 {
            assert ft[j - 1] in tail;
            var k :| 0 <= k < |tail| && tail[k] == ft[j - 1];
            assert rows[k + 1] == out[j];
          } else {
            assert out[i] == ft[i - 1];
          }
        }
      } else {
        assert out == ft;
      }
    }
  }

  lemma {:induction false} WithoutOidsTwice(rows: seq<Feature>, a: set<int>, b: set<int>)
    ensures WithoutOids(WithoutOids(rows, a), b) == WithoutOids(rows, a + b)
    decreases |rows|
  {
    if rows != [] {
      WithoutOidsTwice(rows[1..], a, b);
      var head := if rows[0].oid !in a then [rows[0]] else [];
      FilterConcat(head, WithoutOids(rows[1..], a), Alive(b));
    }
  }

  /** Deleting, one OID at a time, the OIDs of the rows a filter matches leaves
      exactly the rows it does not match, because OIDs are unique. */
  lemma {:induction false} DeletingMatchedOids(rows: seq<Feature>, filter: Option<QueryFilter>,
                                               whereHolds: (string, Feature) -> bool, geo: GeometryEngine)
    requires UniqueOids(rows)
    ensures WithoutOids(rows, OidSet(Matching(rows, filter, whereHolds, geo))) == NotMatching(rows, filter, whereHolds, geo)
    decreases |rows|
  {
    if rows != [] {
      UniqueOidsTail(rows);
      DeletingMatchedOids(rows[1..], filter, whereHolds, geo);
      DeletingMatchedStep(rows, filter, whereHolds, geo);
    }
  }

  /** The rows after the first keep unique OIDs, none of them the first row's. */
  lemma UniqueOidsTail(rows: seq<Feature>)
    requires rows != [] && UniqueOids(rows)
    ensures UniqueOids(rows[1..]) && rows[0].oid !in OidSet(rows[1..])
  {
    var tail := rows[1..];
    forall i, j | 0 <= i < j < |tail| ensures tail[i].oid != tail[j].oid {
      assert tail[i] == rows[i + 1] && tail[j] == rows[j + 1];
    }
    forall x | x in tail ensures x.oid != rows[0].oid {
      var k :| 0 <= k < |tail| && tail[k] == x;
      assert rows[k + 1] == x;
    }
  }

  /** The inductive step of `DeletingMatchedOids`: one more row in front. */
  lemma DeletingMatchedStep(rows: seq<Feature>, filter: Option<QueryFilter>,
                            whereHolds: (string, Feature) -> bool, geo: GeometryEngine)
    requires rows != [] && rows[0].oid !in OidSet(rows[1..])
    requires WithoutOids(rows[1..], OidSet(Matching(rows[1..], filter, whereHolds, geo)))
             == NotMatching(rows[1..], filter, whereHolds, geo)
    ensures WithoutOids(rows, OidSet(Matching(rows, filter, whereHolds, geo))) == NotMatching(rows, filter, whereHolds, geo)
  {
    var r, tail := rows[0], rows[1..];
    var d' := OidSet(Matching(tail, filter, whereHolds, geo));
    assert d' <= OidSet(tail);
    if Selects(filter, whereHolds, geo, r) {
      assert Matching(rows, filter, whereHolds, geo) == [r] + Matching(tail, filter, whereHolds, geo);
      assert OidSet(Matching(rows, filter, whereHolds, geo)) == {r.oid} + d';
      WithoutOidsNotPresent(tail, {r.oid}, d');
      WithoutOidsTwice(tail, {r.oid}, d');
    } else {
      assert Matching(rows, filter, whereHolds, geo) == Matching(tail, filter, whereHolds, geo);
    }
  }

  /** Removing OIDs that do not occur changes nothing. */
  lemma {:induction false} WithoutOidsNotPresent(rows: seq<Feature>, absent: set<int>, b: set<int>)
    requires absent !! OidSet(rows)
    ensures WithoutOids(WithoutOids(rows, absent), b) == WithoutOids(rows, b)
    decreases |rows|
  {
    if rows != [] {
      assert OidSet(rows[1..]) <= OidSet(rows);
      WithoutOidsNotPresent(rows[1..], absent, b);
      FilterConcat([rows[0]], WithoutOids(rows[1..], absent), Alive(b));
    }
  }

  /** `IFeatureCursor` (search or update): a forward-only pass over the records it was
      opened on. `releaseCount` counts `Marshal.(Final)ReleaseComObject` calls. */
  class FeatureCursor {
    const features: seq<Feature>
    var position: nat
    var releaseCount: nat

    ghost predicate Valid()
      reads this
    {
      position <= |features|
    }

    constructor (fs: seq<Feature>)
      ensures Valid() && features == fs && position == 0 && releaseCount == 0
    {
      features := fs;
      position := 0;
      releaseCount := 0;
    }

    /** `NextFeature`: the next record, or null once every record has been delivered. */
    method NextFeature() returns (f: Option<Feature>)
      requires Valid() && releaseCount == 0
      modifies this`position
      ensures Valid()
      ensures old(position) < |features| ==> f == Some(features[old(position)]) && position == old(position) + 1
      ensures old(position) == |features| ==> f.None? && position == old(position)
    {
      if position < |features| {
        f := Some(features[position]);
        position := position + 1;
      } else {
        f := None;
      }
    }

    method Release()
      modifies this`releaseCount
      ensures releaseCount == old(releaseCount) + 1
    {
      releaseCount := releaseCount + 1;
    }
  }

  datatype SchemaLock = SharedLock | ExclusiveLock

  /** The shape and values an insert cursor has buffered for one new row. */
  datatype RowData = RowData(shape: Geometry, values: seq<Value>)

  /** New rows numbered from `start` on, in the order they were buffered. */
  function Numbered(start: int, data: seq<RowData>): (r: seq<Feature>)
    ensures |r| == |data|
    ensures forall i :: 0 <= i < |r| ==> r[i] == Feature(start + i, true, data[i].shape, data[i].values)
  {
    seq(|data|, i requires 0 <= i < |data| => Feature(start + i, true, data[i].shape, data[i].values))
  }

  /** `IFeatureClass` with its rows, its field schema and its schema lock.
      `whereHolds` is the database's evaluation of a where clause on a row;
      `otherSharedLocks` counts the shared schema locks other applications hold. */
  class FeatureClass {
    const name: string
    const oidFieldName: string
    const shapeFieldName: string
    const shapeType: GeometryType
    const whereHolds: (string, Feature) -> bool
    const otherSharedLocks: nat
    var fields: seq<Field>
    var rows: seq<Feature>
    var nextOid: nat
    var schemaLock: SchemaLock

    /** OIDs are non-negative, unique and below the next OID to hand out, and every
        row has one value per field. */
    ghost predicate Valid()
      reads this
    {
      && UniqueOids(rows)
      && (forall r :: r in rows ==> 0 <= r.oid < nextOid && |r.values| == |fields|)
    }

    constructor (name: string, oidFieldName: string, shapeFieldName: string, shapeType: GeometryType,
                 whereHolds: (string, Feature) -> bool, otherSharedLocks: nat, fields: seq<Field>)
      ensures Valid() && rows == [] && nextOid == 1 && schemaLock == SharedLock
      ensures this.name == name && this.oidFieldName == oidFieldName && this.shapeFieldName == shapeFieldName
      ensures this.shapeType == shapeType && this.whereHolds == whereHolds
      ensures this.otherSharedLocks == otherSharedLocks && this.fields == fields
    {
      this.name := name;
      this.oidFieldName := oidFieldName;
      this.shapeFieldName := shapeFieldName;
      this.shapeType := shapeType;
      this.whereHolds := whereHolds;
      this.otherSharedLocks := otherSharedLocks;
      this.fields := fields;
      rows := [];
      nextOid := 1;
      schemaLock := SharedLock;
    }

    /** `IFeatureClass.FeatureCount(filter)`. */
    function FeatureCount(filter: Option<QueryFilter>, geo: GeometryEngine): nat
      reads this
    {
      |Matching(rows, filter, whereHolds, geo)|
    }

    /** `IFeatureClass.Search(filter, false)` and `Update(filter, false)`: a new cursor
        over the matching rows. */
    method Search(filter: Option<QueryFilter>, geo: GeometryEngine) returns (c: FeatureCursor)
      requires Valid()
      ensures fresh(c) && c.Valid() && c.position == 0 && c.releaseCount == 0
      ensures c.features == Matching(rows, filter, whereHolds, geo)
      ensures OidsNonNegative(c.features)
    {
      var fs := Matching(rows, filter, whereHolds, geo);
      forall i | 0 <= i < |fs| ensures fs[i].oid >= 0 {
        assert fs[i] in rows;
      }
      c := new FeatureCursor(fs);
    }

    /** `IFeature.Delete` on the row with OID `oid`. */
    method DeleteRow(oid: int)
      requires Valid()
      modifies this`rows
      ensures Valid()
      ensures rows == WithoutOids(old(rows), {oid})
    {
      FilterKeepsUniqueOids(rows, Alive({oid}));
      rows := WithoutOids(rows, {oid});
    }

    /** `ISchemaLock.ChangeSchemaLock`: the exclusive lock is refused while other
        applications hold shared ones; going back to shared always succeeds. */
    method ChangeSchemaLock(lock: SchemaLock) returns (o: Outcome)
      modifies this`schemaLock
      ensures lock == ExclusiveLock && otherSharedLocks > 0 ==> o == Fail(SchemaLockConflict) && schemaLock == old(schemaLock)
      ensures !(lock == ExclusiveLock && otherSharedLocks > 0) ==> o == Pass && schemaLock == lock
    {
      if lock == ExclusiveLock && otherSharedLocks > 0 {
        o := Fail(SchemaLockConflict);
      } else {
        o := Pass;
        schemaLock := lock;
      }
    }

    /** `IClass.AddField`: needs the exclusive schema lock and a name not yet in use;
        every existing row gets the field's default value. */
    method AddField(f: Field) returns (o: Outcome)
      requires Valid() && schemaLock == ExclusiveLock
      modifies this`fields, this`rows
      ensures Valid()
      ensures FindField(old(fields), f.name) >= 0 ==> o == Fail(FieldExists) && fields == old(fields) && rows == old(rows)
      ensures FindField(old(fields), f.name) == -1 ==> o == Pass && fields == old(fields) + [f]
      ensures FindField(old(fields), f.name) == -1 ==>
        |rows| == |old(rows)| &&
        forall i :: 0 <= i < |rows| ==> rows[i] == old(rows[i]).(values := old(rows[i]).values + [f.defaultValue])
    {
      if FindField(fields, f.name) >= 0 {
        o := Fail(FieldExists);
      } else {
        var rs := rows;
        rows := seq(|rs|, i requires 0 <= i < |rs| => rs[i].(values := rs[i].values + [f.defaultValue]));
        fields := fields + [f];
        o := Pass;
        forall r | r in rows ensures 0 <= r.oid < nextOid && |r.values| == |fields| {
          var i :| 0 <= i < |rows| && rows[i] == r;
          assert rs[i] in rs;
        }
      }
    }

    /** `IFeatureClass.Insert(true)`: a new buffering insert cursor on this class. */
    method Insert() returns (c: InsertCursor)
      ensures fresh(c) && c.target == this && c.pending == [] && c.flushCount == 0 && c.releaseCount == 0
    {
      c := new InsertCursor(this);
    }
  }

  /** `IFeatureCursor` opened by `Insert(true)`: inserted rows are buffered and
      reach the class only when `Flush` is called. */
  class InsertCursor {
    const target: FeatureClass
    var pending: seq<RowData>
    var flushCount: nat
    var releaseCount: nat

    constructor (target: FeatureClass)
      ensures this.target == target && pending == [] && flushCount == 0 && releaseCount == 0
    {
      this.target := target;
      pending := [];
      flushCount := 0;
      releaseCount := 0;
    }

    /** `InsertFeature(buffer)`: the buffer's current shape and values are queued. */
    method InsertFeature(shape: Geometry, values: seq<Value>)
      modifies this`pending
      ensures pending == old(pending) + [RowData(shape, values)]
    {
      pending := pending + [RowData(shape, values)];
    }

    /** `Flush`: the queued rows are written, in order, under fresh OIDs. */
    method Flush()
      requires target.Valid()
      requires forall d :: d in pending ==> |d.values| == |target.fields|
      modifies this`pending, this`flushCount, target`rows, target`nextOid
      ensures target.Valid()
      ensures target.rows == old(target.rows) + Numbered(old(target.nextOid), old(pending))
      ensures target.nextOid == old(target.nextOid) + |old(pending)|
      ensures pending == [] && flushCount == old(flushCount) + 1
    {
      var added := Numbered(target.nextOid, pending);
      var rs := target.rows;
      var base := target.nextOid;
      target.rows := rs + added;
      target.nextOid := base + |pending|;
      forall i, j | 0 <= i < j < |target.rows| ensures target.rows[i].oid != target.rows[j].oid {
        if j >= |rs| && i < |rs| { assert rs[i] in rs; }
      }
      forall r | r in target.rows ensures 0 <= r.oid < target.nextOid && |r.values| == |target.fields| {
        if r in rs { } else {
          var k :| 0 <= k < |added| && added[k] == r;
          assert pending[k] in pending;
        }
      }
      pending := [];
      flushCount := flushCount + 1;
    }

    method Release()
      modifies this`releaseCount
      ensures releaseCount == old(releaseCount) + 1
    {
      releaseCount := releaseCount + 1;
    }
  }
}
