/** `WorkspaceExtensions`: opening a feature dataset, the extent of the classes of a
    workspace or dataset, and the feature-class listings by name and geometry type. */
module WorkspaceExtensions {
  import opened Wrappers
  import opened Geometry
  import opened DotNetStrings
  import opened Seqs
  import opened Catalog
  import FeatureDatasetExtensions

  // ---------------------------------------------------------------- OpenFeatureDataset

  /** `workspace.OpenFeatureDataset(name)`: null when the workspace is null or not an
      `IFeatureWorkspace`; otherwise the dataset of that name, and a missing one throws. */
  function OpenFeatureDataset(ws: Option<Workspace>, name: string): (r: Result<Option<FeatureDataset>>)
    ensures r.Failure? <==> ws.Some? && ws.value.isFeatureWorkspace && OpenDataset(ws.value, name).Failure?
    ensures r.Failure? ==> r.error == NotFound
    ensures r.Success? && r.value.Some? <==> ws.Some? && ws.value.isFeatureWorkspace && OpenDataset(ws.value, name).Success?
    ensures r.Success? && r.value.Some? ==>
      r.value.value in ws.value.featureDatasets && EqualsIgnoreCase(r.value.value.name, name)
  {
    if ws.None? || !ws.value.isFeatureWorkspace then Success(None)
    else match OpenDataset(ws.value, name)
      case Failure(e) => Failure(e)
      case Success(d) => Success(Some(d))
  }

  /** `OpenFeatureDataset` yields a dataset rather than null or an exception. */
  predicate DatasetOpens(ws: Option<Workspace>, name: string) {
    var r := OpenFeatureDataset(ws, name);
    r.Success? && r.value.Some?
  }

  // ---------------------------------------------------------------- FindExtent

  /** The test of the `FindExtent` loop: a class with at least one feature. */
  predicate HasFeatures(c: ClassInfo) {
    c.featureCount > 0
  }

  function Extents(cs: seq<ClassInfo>): (r: seq<Box>)
    ensures |r| == |cs|
    ensures forall i :: 0 <= i < |r| ==> r[i] == cs[i].extent
  {
    seq(|cs|, i requires 0 <= i < |cs| => cs[i].extent)
  }

  lemma ExtentsSnoc(cs: seq<ClassInfo>, c: ClassInfo)
    ensures Extents(cs + [c]) == Extents(cs) + [c.extent]
  {
  }

  /** Every item of the enumeration is a feature class. */
  predicate AllClasses(items: seq<DatasetItem>) {
    forall j :: 0 <= j < |items| ==> items[j].FeatureClassItem?
  }

  /** The extents the loop unions: those of the classes with features, in order. */
  function Contributing(items: seq<DatasetItem>): seq<Box>
    requires AllClasses(items)
  {
    Extents(Filter(ClassesOf(items), HasFeatures))
  }

  /** What the `FindExtent` loop and the `Expand` after it yield for the items of the
      enumeration: a null reference as soon as an item is not a feature class (its
      feature count is read through a null cast); null when no class has features;
      otherwise the union of the extents of the classes with features, scaled by 1.25
      about its centre. */
  function ExtentOf(items: seq<DatasetItem>): (r: Result<Option<Box>>)
    ensures r.Failure? <==> !AllClasses(items)
    ensures r.Failure? ==> r.error == NullReference
    ensures r.Success? ==>
      AllClasses(items) && (r.value.None? <==> forall c :: c in ClassesOf(items) ==> !HasFeatures(c))
  {
    if !AllClasses(items) then Failure(NullReference)
    else
      var kept := Filter(ClassesOf(items), HasFeatures);
      assert kept != [] ==> kept[0] in kept;
      match UnionAll(Extents(kept))
      case None => Success(None)
      case Some(u) => Success(Some(u.Expand(1.25, 1.25)))
  }

  /** `workspace.FindExtent(featureDatasetName)`, before any enumerator is touched:
      null for a null workspace, the root feature classes for a blank name, and
      otherwise the subsets of the named dataset, where a dataset that cannot be
      opened makes `Subsets` a null reference. */
  function FindExtentOf(ws: Option<Workspace>, dsName: Option<string>): (r: Result<Option<Box>>)
    ensures ws.None? ==> r == Success(None)
    ensures r.Failure? ==> ws.Some? && !IsNullOrWhiteSpace(dsName)
    ensures ws.Some? && IsNullOrWhiteSpace(dsName) ==> r == ExtentOf(ClassItems(ws.value.featureClasses))
    ensures ws.Some? && !IsNullOrWhiteSpace(dsName) ==>
      r == if !ws.value.isFeatureWorkspace then Failure(NullReference)
           else if OpenDataset(ws.value, dsName.value).Failure? then Failure(NotFound)
           else ExtentOf(OpenDataset(ws.value, dsName.value).value.subsets)
  {
    if ws.None? then Success(None)
    else if IsNullOrWhiteSpace(dsName) then
      RootNeverFails(ws.value.featureClasses);
      ExtentOf(ClassItems(ws.value.featureClasses))
    else match OpenFeatureDataset(ws, dsName.value)
      case Failure(e) => Failure(e)
      case Success(None) => Failure(NullReference)
      case Success(Some(d)) => ExtentOf(d.subsets)
  }

  /** The root listing holds feature classes only, so its extent can always be computed. */
  lemma RootNeverFails(cs: seq<ClassInfo>)
    ensures ExtentOf(ClassItems(cs)).Success?
  {
    assert AllClasses(ClassItems(cs));
  }

  /** One more feature class read by the loop contributes its extent when it has features. */
  lemma ContributingSnoc(items: seq<DatasetItem>, n: nat)
    requires n < |items| && AllClasses(items[..n]) && items[n].FeatureClassItem?
    ensures AllClasses(items[..n + 1])
    ensures Contributing(items[..n + 1]) ==
      Contributing(items[..n]) + if HasFeatures(items[n].info) then [items[n].info.extent] else []
  {
    assert items[..n + 1] == items[..n] + [items[n]];
    ClassesOfSnoc(items, n);
    FilterSnoc(ClassesOf(items[..n]), items[n].info, HasFeatures);
    ExtentsSnoc(Filter(ClassesOf(items[..n]), HasFeatures), items[n].info);
  }

  /** The loop of `FindExtent` after `Reset`. */
  method ScanExtents(e: Enumerator<DatasetItem>) returns (r: Result<Option<Box>>)
    requires e.Valid() && e.position == 0
    modifies e`position
    ensures e.Valid() && e.releaseCount == old(e.releaseCount)
    ensures r == ExtentOf(e.items)
  {
    ghost var items := e.items;
    var extent: Option<Box> := None;
    while true
      invariant e.Valid() && e.releaseCount == old(e.releaseCount)
      invariant AllClasses(items[..e.position])
      invariant extent == UnionAll(Contributing(items[..e.position]))
      decreases |items| - e.position
    {
      ghost var n := e.position;
      var fcDataset := e.Next();
      if fcDataset.None? {
        break;
      }
      if fcDataset.value.OtherDataset? {
        assert !AllClasses(items) by { assert items[n] == fcDataset.value; }
        r := Failure(NullReference);
        return;
      }
      var featureClass := fcDataset.value.info;
      assert items[n].info == featureClass;
      ContributingSnoc(items, n);
      if featureClass.featureCount > 0 {
        UnionAllSnoc(Contributing(items[..n]), featureClass.extent);
        if extent.None? {
          extent := Some(featureClass.extent);
        } else {
          extent := Some(extent.value.Union(featureClass.extent));
        }
      } else {
        assert Contributing(items[..n + 1]) == Contributing(items[..n]);
      }
    }
    assert items[..e.position] == items;
    if extent.Some? {
      r := Success(Some(extent.value.Expand(1.25, 1.25)));
    } else {
      r := Success(None);
    }
  }

  /** `workspace.FindExtent(featureDatasetName)`. The enumerator, when one was
      obtained, is handed back: it is released once after a complete walk, and not at
      all when the walk throws. */
  method FindExtent(ws: Option<Workspace>, dsName: Option<string>)
    returns (r: Result<Option<Box>>, e: Option<Enumerator<DatasetItem>>)
    ensures r == FindExtentOf(ws, dsName)
    ensures e.Some? <==>
      ws.Some? && (IsNullOrWhiteSpace(dsName) || DatasetOpens(ws, OrEmpty(dsName)))
    ensures e.Some? ==> e.value.releaseCount == if r.Success? then 1 else 0
  {
    if ws.None? {
      r := Success(None);
      e := None;
      return;
    }
    var featureClasses: Enumerator<DatasetItem>;
    if IsNullOrWhiteSpace(dsName) {
      featureClasses := RootFeatureClasses(ws.value);
    } else {
      var featureDataset := OpenFeatureDataset(ws, dsName.value);
      if featureDataset.Failure? {
        r := Failure(featureDataset.error);
        e := None;
        return;
      }
      if featureDataset.value.None? {
        r := Failure(NullReference);
        e := None;
        return;
      }
      featureClasses := Subsets(featureDataset.value.value);
    }
    featureClasses.Reset();
    r := ScanExtents(featureClasses);
    if r.Success? {
      featureClasses.Release();
    }
    e := Some(featureClasses);
  }

  /** The extent found contains the extent of every class with features, provided the
      extents are well formed (minimum below maximum). */
  lemma ExtentContainsEveryClass(items: seq<DatasetItem>, c: ClassInfo)
    requires AllClasses(items)
    requires forall d :: d in ClassesOf(items) ==> d.extent.xmin <= d.extent.xmax && d.extent.ymin <= d.extent.ymax
    requires c in ClassesOf(items) && HasFeatures(c)
    ensures ExtentOf(items).Success? && ExtentOf(items).value.Some?
    ensures ExtentOf(items).value.value.Contains(c.extent)
  {
    var bs := Contributing(items);
    var kept := Filter(ClassesOf(items), HasFeatures);
    assert c in kept;
    var j :| 0 <= j < |kept| && kept[j] == c;
    assert bs[j] == c.extent;
    UnionAllIsBoundingBox(bs);
    var u := UnionAll(bs).value;
    assert u.Contains(c.extent);
    ExpandContains(u);
  }

  /** Scaling a well-formed envelope by 1.25 about its centre keeps it inside. */
  lemma ExpandContains(u: Box)
    requires u.xmin <= u.xmax && u.ymin <= u.ymax
    ensures u.Expand(1.25, 1.25).Contains(u)
  {
  }

  /** The extent is exactly the union of the contributing extents, scaled: each of its
      bounds comes from some class with features, moved out by an eighth of the width
      or height. */
  lemma ExtentIsScaledBoundingBox(items: seq<DatasetItem>)
    requires AllClasses(items)
    requires ExtentOf(items).Success? && ExtentOf(items).value.Some?
    ensures exists u :: IsBoundingBox(u, Contributing(items)) && ExtentOf(items).value.value == u.Expand(1.25, 1.25)
  {
    UnionAllIsBoundingBox(Contributing(items));
  }

  /** The extent does not depend on the order of the enumeration, nor on items that
      come twice. */
  lemma ExtentOrderIndependent(a: seq<DatasetItem>, b: seq<DatasetItem>)
    requires forall x :: x in a <==> x in b
    ensures ExtentOf(a) == ExtentOf(b)
  {
    assert !AllClasses(a) ==> !AllClasses(b) by {
      if !AllClasses(a) {
        var i :| 0 <= i < |a| && a[i].OtherDataset?;
        assert a[i] in b;
      }
    }
    assert !AllClasses(b) ==> !AllClasses(a) by {
      if !AllClasses(b) {
        var i :| 0 <= i < |b| && b[i].OtherDataset?;
        assert b[i] in a;
      }
    }
    if AllClasses(a) {
      var ca, cb := ClassesOf(a), ClassesOf(b);
      forall c ensures c in ca <==> c in cb {
        if c in ca {
          var j :| 0 <= j < |ca| && ca[j] == c;
          assert a[j] == FeatureClassItem(c) && a[j] in a;
          var i :| 0 <= i < |b| && b[i] == FeatureClassItem(c);
          assert cb[i] == c;
        }
        if c in cb {
          var j :| 0 <= j < |cb| && cb[j] == c;
          assert b[j] == FeatureClassItem(c) && b[j] in b;
          var i :| 0 <= i < |a| && a[i] == FeatureClassItem(c);
          assert ca[i] == c;
        }
      }
      var fa, fb := Filter(ca, HasFeatures), Filter(cb, HasFeatures);
      forall x ensures x in Extents(fa) <==> x in Extents(fb) {
        ExtentsMembers(fa, x);
        ExtentsMembers(fb, x);
      }
      UnionAllOrderIndependent(Extents(fa), Extents(fb));
    }
  }

  lemma ExtentsMembers(cs: seq<ClassInfo>, x: Box)
    ensures x in Extents(cs) <==> exists c :: c in cs && c.extent == x
  {
    if x in Extents(cs) {
      var j :| 0 <= j < |cs| && Extents(cs)[j] == x;
      assert cs[j] in cs;
    }
  }

  // ---------------------------------------------------------------- OpenFeatureClasses

  /** `workspace.OpenFeatureClasses(geoType)`: the root feature classes of that shape
      type (all of them for `esriGeometryAny`), in enumeration order. The enumerator is
      handed back to show it is never released. */
  method OpenFeatureClasses(ws: Workspace, geoType: GeometryType)
    returns (r: seq<ClassInfo>, enumDataset: Enumerator<DatasetItem>)
    ensures r == Filter(ws.featureClasses, TypeMatches(geoType))
    ensures enumDataset.releaseCount == 0
  {
    enumDataset := RootFeatureClasses(ws);
    r := CollectFeatureClasses(enumDataset, TypeMatches(geoType));
    LeadingClassesOfClassItems(ws.featureClasses);
  }

  /** What the two dataset overloads yield: `OpenFeatureDataset` is null for a workspace
      that is not a feature workspace, and listing the classes of a null dataset reads
      `Subsets` through a null reference; a missing dataset throws. */
  function DatasetClasses(ws: Workspace, dsName: string, keep: ClassInfo -> bool): (r: Result<seq<ClassInfo>>)
    ensures r.Success? <==> ws.isFeatureWorkspace && OpenDataset(ws, dsName).Success?
    ensures r.Failure? ==> r.error == if ws.isFeatureWorkspace then NotFound else NullReference
    ensures r.Success? ==> r.value == Filter(LeadingClasses(OpenDataset(ws, dsName).value.subsets), keep)
  {
    match OpenFeatureDataset(Some(ws), dsName)
      case Failure(e) => Failure(e)
      case Success(None) => Failure(NullReference)
      case Success(Some(d)) => Success(Filter(LeadingClasses(d.subsets), keep))
  }

  /** `workspace.OpenFeatureClasses(featureDatasetName, geoType)`. */
  method OpenFeatureClassesInDataset(ws: Workspace, dsName: string, geoType: GeometryType)
    returns (r: Result<seq<ClassInfo>>)
    ensures r == DatasetClasses(ws, dsName, TypeMatches(geoType))
  {
    var featureDataset := OpenFeatureDataset(Some(ws), dsName);
    if featureDataset.Failure? {
      r := Failure(featureDataset.error);
      return;
    }
    if featureDataset.value.None? {
      r := Failure(NullReference);
      return;
    }
    var classes, _ := FeatureDatasetExtensions.OpenFeatureClasses(featureDataset.value.value, geoType);
    r := Success(classes);
  }

  /** `workspace.OpenFeatureClasses(featureDatasetName, params geoTypes)`. */
  method OpenFeatureClassesInDatasetOfTypes(ws: Workspace, dsName: string, geoTypes: seq<GeometryType>)
    returns (r: Result<seq<ClassInfo>>)
    ensures r == DatasetClasses(ws, dsName, TypeIn(geoTypes))
  {
    var featureDataset := OpenFeatureDataset(Some(ws), dsName);
    if featureDataset.Failure? {
      r := Failure(featureDataset.error);
      return;
    }
    if featureDataset.value.None? {
      r := Failure(NullReference);
      return;
    }
    var classes, _ := FeatureDatasetExtensions.OpenFeatureClassesOfTypes(featureDataset.value.value, geoTypes);
    r := Success(classes);
  }

  // ---------------------------------------------------------------- FindFeatureClassesNames

  /** The names `GetName` reads of the classes, in order. */
  function Names(cs: seq<ClassInfo>): (r: seq<string>)
    ensures |r| == |cs|
    ensures forall i :: 0 <= i < |r| ==> r[i] == cs[i].name
  {
    seq(|cs|, i requires 0 <= i < |cs| => cs[i].name)
  }

  /** The classes `FindFeatureClassesNames` walks: every root feature class for a blank
      dataset name, otherwise every feature class the named dataset lists before the
      first dataset of another kind. */
  function NamedClasses(ws: Workspace, dsName: Option<string>): (r: Result<seq<ClassInfo>>)
    ensures IsNullOrWhiteSpace(dsName) ==> r == Success(ws.featureClasses)
    ensures !IsNullOrWhiteSpace(dsName) ==> (r.Success? <==> ws.isFeatureWorkspace && OpenDataset(ws, dsName.value).Success?)
    ensures !IsNullOrWhiteSpace(dsName) && r.Success? ==> r.value == LeadingClasses(OpenDataset(ws, dsName.value).value.subsets)
  {
    if IsNullOrWhiteSpace(dsName) then
      FilterAll(ws.featureClasses, TypeMatches(AnyType));
      Success(Filter(ws.featureClasses, TypeMatches(AnyType)))
    else
      var r := DatasetClasses(ws, dsName.value, TypeMatches(AnyType));
      if r.Success? then
        FeatureDatasetExtensions.AnyListsEveryLeadingClass(OpenDataset(ws, dsName.value).value.subsets);
        r
      else r
  }

  /** `workspace.FindFeatureClassesNames(featureDatasetName)`: the names of the classes
      the `esriGeometryAny` listing gives, in order; every class is finally released
      exactly once, which `released` records. */
  method FindFeatureClassesNames(ws: Workspace, dsName: Option<string>)
    returns (r: Result<seq<string>>, released: seq<ClassInfo>)
    ensures r.Success? <==> NamedClasses(ws, dsName).Success?
    ensures r.Failure? ==> r.error == NamedClasses(ws, dsName).error && released == []
    ensures r.Success? ==> r.value == Names(NamedClasses(ws, dsName).value)
    ensures r.Success? ==> released == NamedClasses(ws, dsName).value
  {
    var classes: seq<ClassInfo>;
    if IsNullOrWhiteSpace(dsName) {
      var enumDataset;
      classes, enumDataset := OpenFeatureClasses(ws, AnyType);
    } else {
      var listed := OpenFeatureClassesInDataset(ws, dsName.value, AnyType);
      if listed.Failure? {
        r := Failure(listed.error);
        released := [];
        return;
      }
      classes := listed.value;
    }
    var names: seq<string> := [];
    released := [];
    for i := 0 to |classes|
      invariant names == Names(classes[..i])
      invariant released == classes[..i]
    {
      assert classes[..i + 1] == classes[..i] + [classes[i]];
      names := names + [classes[i].name];
      released := released + [classes[i]];
    }
    assert classes[..|classes|] == classes;
    r := Success(names);
  }
}
