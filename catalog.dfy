/** Workspaces, feature datasets, maps and the enumerators (`IEnumDataset`,
    `IEnumLayer`) the helpers walk. A feature class is seen here through what the
    listings read of it: name, shape type, feature count and extent. */
module Catalog {
  import opened Wrappers
  import opened Geometry
  import opened DotNetStrings
  import opened Seqs

  /** What `IDataset`, `IFeatureClass` and `IGeoDataset` report about one feature class. */
  datatype ClassInfo = ClassInfo(name: string, shapeType: GeometryType, featureCount: nat, extent: Box)

  /** An entry of a dataset enumeration: a feature class, or some other dataset
      (a relationship class, a topology, ...). */
  datatype DatasetItem = FeatureClassItem(info: ClassInfo) | OtherDataset(name: string)

  datatype FeatureDataset = FeatureDataset(name: string, subsets: seq<DatasetItem>)

  /** `IWorkspace`; `isFeatureWorkspace` says whether it also implements `IFeatureWorkspace`.
      `featureClasses` are the feature classes at its root. */
  datatype Workspace = Workspace(isFeatureWorkspace: bool, pathName: string,
                                 featureClasses: seq<ClassInfo>, featureDatasets: seq<FeatureDataset>)

  /** A forward enumerator over a fixed list (`IEnumDataset`, `IEnumLayer`).
      `releaseCount` counts `Marshal.ReleaseComObject` calls. */
  class Enumerator<T> {
    const items: seq<T>
    var position: nat
    var releaseCount: nat

    ghost predicate Valid()
      reads this
    {
      position <= |items|
    }

    constructor (items: seq<T>)
      ensures Valid() && this.items == items && position == 0 && releaseCount == 0
    {
      this.items := items;
      position := 0;
      releaseCount := 0;
    }

    /** `Next`: the next item, or null at the end. */
    method Next() returns (x: Option<T>)
      requires Valid()
      modifies this`position
      ensures Valid()
      ensures old(position) < |items| ==> x == Some(items[old(position)]) && position == old(position) + 1
      ensures old(position) == |items| ==> x.None? && position == old(position)
    {
      if position < |items| {
        x := Some(items[position]);
        position := position + 1;
      } else {
        x := None;
      }
    }

    /** `Reset`: back to the first item. */
    method Reset()
      modifies this`position
      ensures Valid() && position == 0
    {
      position := 0;
    }

    method Release()
      modifies this`releaseCount
      ensures releaseCount == old(releaseCount) + 1
    {
      releaseCount := releaseCount + 1;
    }
  }

  function ClassItems(cs: seq<ClassInfo>): (r: seq<DatasetItem>)
    ensures |r| == |cs|
    ensures forall i :: 0 <= i < |r| ==> r[i] == FeatureClassItem(cs[i])
  {
    seq(|cs|, i requires 0 <= i < |cs| => FeatureClassItem(cs[i]))
  }

  /** `IWorkspace.Datasets[esriDTFeatureClass]`: a fresh enumerator over the root feature classes. */
  method RootFeatureClasses(ws: Workspace) returns (e: Enumerator<DatasetItem>)
    ensures fresh(e) && e.Valid() && e.position == 0 && e.releaseCount == 0
    ensures e.items == ClassItems(ws.featureClasses)
  {
    e := new Enumerator(ClassItems(ws.featureClasses));
  }

  /** `IFeatureDataset.Subsets`: a fresh enumerator over the datasets it holds. */
  method Subsets(d: FeatureDataset) returns (e: Enumerator<DatasetItem>)
    ensures fresh(e) && e.Valid() && e.position == 0 && e.releaseCount == 0
    ensures e.items == d.subsets
  {
    e := new Enumerator(d.subsets);
  }

  /** `IFeatureWorkspace.OpenFeatureDataset(name)`: the first feature dataset of that
      name (names compare without regard to case); opening a missing one throws. */
  function OpenDataset(ws: Workspace, name: string): (r: Result<FeatureDataset>)
    ensures r.Success? <==> exists d :: d in ws.featureDatasets && EqualsIgnoreCase(d.name, name)
    ensures r.Success? ==> r.value in ws.featureDatasets && EqualsIgnoreCase(r.value.name, name)
    ensures r.Failure? ==> r.error == NotFound
  {
    var k := FirstIndex(ws.featureDatasets, (d: FeatureDataset) => EqualsIgnoreCase(d.name, name));
    if k < |ws.featureDatasets| then Success(ws.featureDatasets[k])
    else
      assert forall d :: d in ws.featureDatasets ==> !EqualsIgnoreCase(d.name, name);
      Failure(NotFound)
  }

  /** How many items a `while (e.Next() is IFeatureClass c)` loop accepts before it stops:
      the length of the longest prefix made of feature classes. */
  function LeadingCount(items: seq<DatasetItem>): (k: nat)
    ensures k <= |items|
    ensures forall j :: 0 <= j < k ==> items[j].FeatureClassItem?
    ensures k < |items| ==> items[k].OtherDataset?
    decreases |items|
  {
    if items == [] || items[0].OtherDataset? then 0 else 1 + LeadingCount(items[1..])
  }

  /** The longest feature-class prefix is determined by where the first other dataset sits. */
  lemma LeadingCountUnique(items: seq<DatasetItem>, k: nat)
    requires k <= |items| && (k < |items| ==> items[k].OtherDataset?)
    requires forall j :: 0 <= j < k ==> items[j].FeatureClassItem?
    ensures LeadingCount(items) == k
  {
  }

  /** The feature classes of a list of items that are all feature classes. */
  function ClassesOf(items: seq<DatasetItem>): (r: seq<ClassInfo>)
    requires forall j :: 0 <= j < |items| ==> items[j].FeatureClassItem?
    ensures |r| == |items|
    ensures forall j :: 0 <= j < |r| ==> items[j] == FeatureClassItem(r[j])
  {
    seq(|items|, j requires 0 <= j < |items| && items[j].FeatureClassItem? => items[j].info)
  }

  lemma ClassesOfSnoc(items: seq<DatasetItem>, n: nat)
    requires n < |items| && forall j :: 0 <= j <= n ==> items[j].FeatureClassItem?
    ensures ClassesOf(items[..n + 1]) == ClassesOf(items[..n]) + [items[n].info]
  {
    assert items[..n + 1] == items[..n] + [items[n]];
  }

  /** The feature classes such a loop sees, in enumeration order. */
  function LeadingClasses(items: seq<DatasetItem>): seq<ClassInfo> {
    ClassesOf(items[..LeadingCount(items)])
  }

  /** Over a list of feature classes only, the loop sees all of them. */
  lemma {:induction false} LeadingClassesOfClassItems(cs: seq<ClassInfo>)
    ensures LeadingClasses(ClassItems(cs)) == cs
  {
    var items := ClassItems(cs);
    LeadingCountUnique(items, |items|);
    assert items[..|items|] == items;
  }

  /** The loop stops at the first item that is not a feature class: nothing after
      it is seen, whatever it is. */
  lemma LeadingClassesStop(items: seq<DatasetItem>, k: nat)
    requires k < |items| && items[k].OtherDataset?
    ensures LeadingClasses(items) == LeadingClasses(items[..k])
  {
    var n := LeadingCount(items);
    assert n <= k;
    LeadingCountUnique(items[..k], n);
    assert items[..k][..n] == items[..n];
  }

  /** The shape test of the single-type `OpenFeatureClasses`: the type itself, or any
      class at all when the type is `esriGeometryAny`. */
  function TypeMatches(geoType: GeometryType): ClassInfo -> bool {
    (c: ClassInfo) => c.shapeType == geoType || geoType == AnyType
  }

  /** The shape test of the `params` overload: membership, with no special case. */
  function TypeIn(geoTypes: seq<GeometryType>): ClassInfo -> bool {
    (c: ClassInfo) => c.shapeType in geoTypes
  }

  /** The loop shared by every `OpenFeatureClasses`: walk the enumerator from where it
      stands until it yields something that is not a feature class (or nothing), and
      keep, in order, the classes `keep` accepts. The enumerator is not released. */
  method CollectFeatureClasses(e: Enumerator<DatasetItem>, keep: ClassInfo -> bool) returns (r: seq<ClassInfo>)
    requires e.Valid()
    modifies e`position
    ensures e.Valid() && e.releaseCount == old(e.releaseCount)
    ensures r == Filter(LeadingClasses(old(e.items[e.position..])), keep)
    ensures var n := old(e.position) + LeadingCount(old(e.items[e.position..]));
      e.position == if n < |e.items| then n + 1 else |e.items|
  {
    ghost var rest := e.items[e.position..];
    ghost var start := e.position;
    ghost var n: nat := 0;
    r := [];
    var x := e.Next();
    while x.Some? && x.value.FeatureClassItem?
      invariant e.Valid() && e.releaseCount == old(e.releaseCount)
      invariant n <= |rest| && start + n <= |e.items|
      invariant forall j :: 0 <= j < n ==> rest[j].FeatureClassItem?
      invariant r == Filter(ClassesOf(rest[..n]), keep)
      invariant n < |rest| ==> x == Some(rest[n]) && e.position == start + n + 1
      invariant n == |rest| ==> x.None? && e.position == |e.items|
      decreases |rest| - n
    {
      var c := x.value.info;
      ClassesOfSnoc(rest, n);
      FilterSnoc(ClassesOf(rest[..n]), c, keep);
      if keep(c) {
        r := r + [c];
      }
      n := n + 1;
      x := e.Next();
    }
    LeadingCountUnique(rest, n);
  }

  /** A layer of a map; a feature layer whose feature class cannot be reached has
      `featureClass == None`. */
  datatype Layer = FeatureLayer(name: string, featureClass: Option<ClassInfo>) | OtherLayer(name: string)

  /** `IMap` with its layers in table-of-contents order. */
  class Map {
    const layers: seq<Layer>

    constructor (layers: seq<Layer>)
      ensures this.layers == layers
    {
      this.layers := layers;
    }

    /** `IMap.Layers`: an enumerator over the layers. Where a fresh enumerator stands
        is not promised; callers `Reset` it. */
    method Layers() returns (e: Enumerator<Layer>)
      ensures fresh(e) && e.Valid() && e.items == layers && e.releaseCount == 0
    {
      e := new Enumerator(layers);
    }
  }
}
