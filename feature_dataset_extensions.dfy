/** `FeatureDatasetExtensions`: listing the feature classes of a feature dataset,
    by one geometry type or by a list of them. */
module FeatureDatasetExtensions {
  import opened Geometry
  import opened Seqs
  import opened Catalog

  /** `featureDataset.OpenFeatureClasses(geoType)`: walks `Subsets` until something
      that is not a feature class comes, keeping the classes of that shape type (every
      class for `esriGeometryAny`). The `Subsets` enumerator is handed back to show it
      is never released. */
  method OpenFeatureClasses(d: FeatureDataset, geoType: GeometryType)
    returns (r: seq<ClassInfo>, subSets: Enumerator<DatasetItem>)
    ensures r == Filter(LeadingClasses(d.subsets), TypeMatches(geoType))
    ensures subSets.releaseCount == 0
  {
    subSets := Subsets(d);
    r := CollectFeatureClasses(subSets, TypeMatches(geoType));
  }

  /** `featureDataset.OpenFeatureClasses(params geoTypes)`: the same walk, keeping the
      classes whose shape type is in the list. */
  method OpenFeatureClassesOfTypes(d: FeatureDataset, geoTypes: seq<GeometryType>)
    returns (r: seq<ClassInfo>, subSets: Enumerator<DatasetItem>)
    ensures r == Filter(LeadingClasses(d.subsets), TypeIn(geoTypes))
    ensures subSets.releaseCount == 0
  {
    subSets := Subsets(d);
    r := CollectFeatureClasses(subSets, TypeIn(geoTypes));
  }

  /** Each class listed for a type is a feature class seen before the walk stopped,
      of that type or listed under `esriGeometryAny`, and every such class is listed. */
  lemma ListedForType(items: seq<DatasetItem>, geoType: GeometryType, c: ClassInfo)
    ensures c in Filter(LeadingClasses(items), TypeMatches(geoType)) <==>
      FeatureClassItem(c) in items[..LeadingCount(items)] && (c.shapeType == geoType || geoType == AnyType)
  {
    var pre := items[..LeadingCount(items)];
    var cs := LeadingClasses(items);
    if FeatureClassItem(c) in pre {
      var j :| 0 <= j < |pre| && pre[j] == FeatureClassItem(c);
      assert cs[j] == c;
    }
    if c in cs {
      var j :| 0 <= j < |cs| && cs[j] == c;
      assert pre[j] == FeatureClassItem(c);
    }
  }

  /** With `esriGeometryAny` every feature class seen is listed, in enumeration order. */
  lemma AnyListsEveryLeadingClass(items: seq<DatasetItem>)
    ensures Filter(LeadingClasses(items), TypeMatches(AnyType)) == LeadingClasses(items)
  {
    FilterAll(LeadingClasses(items), TypeMatches(AnyType));
  }

  /** For a concrete type the single-type overload and the list overload with just
      that type list the same classes. */
  lemma SingleTypeIsOneElementList(items: seq<DatasetItem>, geoType: GeometryType)
    requires geoType != AnyType
    ensures Filter(LeadingClasses(items), TypeMatches(geoType)) == Filter(LeadingClasses(items), TypeIn([geoType]))
  {
    FilterEquivalent(LeadingClasses(items), TypeMatches(geoType), TypeIn([geoType]));
  }

  /** The list overload has no special case for `esriGeometryAny`: it is compared
      like any other type, so a polygon class is not listed for `[esriGeometryAny]`,
      while the single-type overload lists it. */
  lemma AnyInListIsLiteral(c: ClassInfo)
    requires c.shapeType == PolygonType
    ensures Filter(LeadingClasses([FeatureClassItem(c)]), TypeMatches(AnyType)) == [c]
    ensures Filter(LeadingClasses([FeatureClassItem(c)]), TypeIn([AnyType])) == []
  {
    LeadingClassesOfClassItems([c]);
    assert ClassItems([c]) == [FeatureClassItem(c)];
  }

  /** An empty list of types lists nothing. */
  lemma NoTypesListsNothing(items: seq<DatasetItem>)
    ensures Filter(LeadingClasses(items), TypeIn([])) == []
  {
    FilterNone(LeadingClasses(items), TypeIn([]));
  }

  /** Whatever follows the first dataset that is not a feature class (a relationship
      class, a topology) is never listed, by either overload. */
  lemma NothingListedAfterOther(items: seq<DatasetItem>, k: nat, keep: ClassInfo -> bool)
    requires k < |items| && items[k].OtherDataset?
    ensures Filter(LeadingClasses(items), keep) == Filter(LeadingClasses(items[..k]), keep)
    ensures forall c :: c in Filter(LeadingClasses(items), keep) ==> FeatureClassItem(c) in items[..k]
  {
    LeadingClassesStop(items, k);
    var pre := items[..k];
    var cs := LeadingClasses(pre);
    forall c | c in Filter(cs, keep) ensures FeatureClassItem(c) in pre {
      var j :| 0 <= j < |cs| && cs[j] == c;
      assert pre[j] == FeatureClassItem(c);
    }
  }

  /** Every listing is a subsequence of the feature classes seen: order is kept and no
      class is listed more often than it is enumerated. */
  lemma ListingIsSubsequence(items: seq<DatasetItem>, keep: ClassInfo -> bool)
    ensures IsSubsequence(Filter(LeadingClasses(items), keep), LeadingClasses(items))
    ensures multiset(Filter(LeadingClasses(items), keep)) <= multiset(LeadingClasses(items))
  {
    FilterIsSubsequence(LeadingClasses(items), keep);
    FilterCountBound(LeadingClasses(items), keep);
  }
}
