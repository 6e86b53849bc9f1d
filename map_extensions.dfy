/** `MapExtensions`: finding a layer of a map by its name or by the name of its
    feature class. */
module MapExtensions {
  import opened Wrappers
  import opened DotNetStrings
  import opened Seqs
  import opened Catalog

  // ---------------------------------------------------------------- LayerByName

  /** The test of the `LayerByName` loop: lower-cased names are equal. */
  function NameIs(layerName: string): Layer -> bool {
    (l: Layer) => EqualsIgnoreCase(l.name, layerName)
  }

  /** The layer `LayerByName` finds among `layers`: the first whose name matches. */
  function FirstLayerNamed(layers: seq<Layer>, layerName: string): (r: Option<Layer>)
    ensures r.Some? <==> exists l :: l in layers && EqualsIgnoreCase(l.name, layerName)
    ensures r.Some? ==> EqualsIgnoreCase(r.value.name, layerName)
    ensures r.Some? ==> exists k :: 0 <= k < |layers| && layers[k] == r.value &&
                                  forall j :: 0 <= j < k ==> !EqualsIgnoreCase(layers[j].name, layerName)
  {
    var k := FirstIndex(layers, NameIs(layerName));
    if k < |layers| then Some(layers[k])
    else
      assert forall l :: l in layers ==> !EqualsIgnoreCase(l.name, layerName);
      None
  }

  /** A matching layer with no matching layer before it is the one found, so a later
      layer of the same name never replaces it. */
  lemma FirstNamedWins(layers: seq<Layer>, layerName: string, k: nat)
    requires k < |layers| && EqualsIgnoreCase(layers[k].name, layerName)
    requires forall j :: 0 <= j < k ==> !EqualsIgnoreCase(layers[j].name, layerName)
    ensures FirstLayerNamed(layers, layerName) == Some(layers[k])
  {
    FirstIndexUnique(layers, NameIs(layerName), k);
  }

  /** `map.LayerByName(layerName)`: null for a null map or a blank name; otherwise the
      enumerator is reset and walked until a layer matches. The enumerator is handed
      back to show it is never released. */
  method LayerByName(m: Option<Map>, layerName: Option<string>)
    returns (r: Option<Layer>, enumLayer: Option<Enumerator<Layer>>)
    ensures m.None? || IsNullOrWhiteSpace(layerName) ==> r.None? && enumLayer.None?
    ensures m.Some? && !IsNullOrWhiteSpace(layerName) ==>
      r == FirstLayerNamed(m.value.layers, layerName.value) && enumLayer.Some? && enumLayer.value.releaseCount == 0
  {
    if m.None? || IsNullOrWhiteSpace(layerName) {
      r := None;
      enumLayer := None;
      return;
    }
    var name := layerName.value;
    var e := m.value.Layers();
    ghost var layers := e.items;
    e.Reset();
    var foundLayer: Option<Layer> := None;
    ghost var n: nat := 0;
    var layer := e.Next();
    while layer.Some? && foundLayer.None?
      invariant e.Valid() && e.items == layers && e.releaseCount == 0
      invariant n <= |layers|
      invariant n < |layers| ==> layer == Some(layers[n]) && e.position == n + 1
      invariant n == |layers| ==> layer.None?
      invariant foundLayer.None? ==> forall j :: 0 <= j < n ==> !EqualsIgnoreCase(layers[j].name, name)
      invariant foundLayer.Some? ==>
        0 < n && foundLayer == Some(layers[n - 1]) && EqualsIgnoreCase(layers[n - 1].name, name) && forall j :: 0 <= j < n - 1 ==> !EqualsIgnoreCase(layers[j].name, name)
      decreases |layers| - n
    {
      if EqualsIgnoreCase(layer.value.name, name) {
        foundLayer := layer;
      }
      n := n + 1;
      layer := e.Next();
    }
    if foundLayer.Some? {
      FirstNamedWins(layers, name, n - 1);
    } else {
      FirstIndexUnique(layers, NameIs(name), n);
    }
    r := foundLayer;
    enumLayer := Some(e);
  }

  // ---------------------------------------------------------------- LayerByFeatureClass

  /** A layer that stops the `LayerByFeatureClass` loop: a feature layer whose class
      matches, or one whose class cannot be reached, since reading its name then
      throws. */
  function StopsClassScan(className: string): Layer -> bool {
    (l: Layer) => l.FeatureLayer? && (l.featureClass.None? || EqualsIgnoreCase(l.featureClass.value.name, className))
  }

  /** What `LayerByFeatureClass` yields for `layers`: the first feature layer whose
      feature class has the name, a null reference when a feature layer without a
      feature class comes first, and null when no layer matches. */
  function FirstLayerOfClass(layers: seq<Layer>, className: string): (r: Result<Option<Layer>>)
    ensures r.Success? && r.value.Some? ==>
      && r.value.value in layers && r.value.value.FeatureLayer? && r.value.value.featureClass.Some?
      && EqualsIgnoreCase(r.value.value.featureClass.value.name, className)
    ensures r.Success? && r.value.None? <==>
      forall l :: l in layers && l.FeatureLayer? ==> l.featureClass.Some? && !EqualsIgnoreCase(l.featureClass.value.name, className)
    ensures r.Failure? ==> r.error == NullReference && exists l :: l in layers && l.FeatureLayer? && l.featureClass.None?
  {
    var k := FirstIndex(layers, StopsClassScan(className));
    if k == |layers| then
      assert forall l :: l in layers ==> !StopsClassScan(className)(l);
      Success(None)
    else if layers[k].featureClass.None? then Failure(NullReference)
    else Success(Some(layers[k]))
  }

  predicate IsFeatureLayer(l: Layer) {
    l.FeatureLayer?
  }

  /** A first layer that does not stop the scan makes no difference. */
  lemma ClassScanPassesHead(layers: seq<Layer>, className: string)
    requires layers != [] && !StopsClassScan(className)(layers[0])
    ensures FirstLayerOfClass(layers, className) == FirstLayerOfClass(layers[1..], className)
  {
  }

  /** A first layer that stops the scan decides the result. */
  lemma ClassScanStopsAtHead(layers: seq<Layer>, className: string)
    requires layers != [] && StopsClassScan(className)(layers[0])
    ensures FirstLayerOfClass(layers, className) ==
      if layers[0].featureClass.None? then Failure(NullReference) else Success(Some(layers[0]))
  {
  }

  /** Layers that are not feature layers are skipped: removing them changes nothing. */
  lemma {:induction false} OtherLayersSkipped(layers: seq<Layer>, className: string)
    ensures FirstLayerOfClass(Filter(layers, IsFeatureLayer), className) == FirstLayerOfClass(layers, className)
    decreases |layers|
  {
    var p := StopsClassScan(className);
    if layers != [] {
      var rest := layers[1..];
      OtherLayersSkipped(rest, className);
      var fl := Filter(layers, IsFeatureLayer);
      var fr := Filter(rest, IsFeatureLayer);
      if IsFeatureLayer(layers[0]) {
        assert fl == [layers[0]] + fr;
        if p(layers[0]) {
          ClassScanStopsAtHead(fl, className);
          ClassScanStopsAtHead(layers, className);
        } else {
          assert fl[1..] == fr;
          ClassScanPassesHead(fl, className);
          ClassScanPassesHead(layers, className);
        }
      } else {
        assert fl == fr;
        ClassScanPassesHead(layers, className);
      }
    }
  }

  /** `map.LayerByFeatureClass(featureClassName)`: null for a null map or a blank name;
      otherwise the enumerator is reset and walked until a feature layer's class
      matches. The enumerator is handed back to show it is never released. */
  method LayerByFeatureClass(m: Option<Map>, featureClassName: Option<string>)
    returns (r: Result<Option<Layer>>, enumLayer: Option<Enumerator<Layer>>)
    ensures m.None? || IsNullOrWhiteSpace(featureClassName) ==> r == Success(None) && enumLayer.None?
    ensures m.Some? && !IsNullOrWhiteSpace(featureClassName) ==>
      r == FirstLayerOfClass(m.value.layers, featureClassName.value) && enumLayer.Some? &&
      enumLayer.value.releaseCount == 0
  {
    if m.None? || IsNullOrWhiteSpace(featureClassName) {
      r := Success(None);
      enumLayer := None;
      return;
    }
    var name := featureClassName.value;
    ghost var p := StopsClassScan(name);
    var e := m.value.Layers();
    ghost var layers := e.items;
    e.Reset();
    enumLayer := Some(e);
    var foundLayer: Option<Layer> := None;
    ghost var n: nat := 0;
    var layer := e.Next();
    while layer.Some? && foundLayer.None?
      invariant e.Valid() && e.items == layers && e.releaseCount == 0
      invariant n <= |layers|
      invariant n < |layers| ==> layer == Some(layers[n]) && e.position == n + 1
      invariant n == |layers| ==> layer.None?
      invariant foundLayer.None? ==> forall j :: 0 <= j < n ==> !p(layers[j])
      invariant foundLayer.Some? ==>
        0 < n && foundLayer == Some(layers[n - 1]) && p(layers[n - 1]) && layers[n - 1].featureClass.Some? && forall j :: 0 <= j < n - 1 ==> !p(layers[j])
      decreases |layers| - n
    {
      var l := layer.value;
      if l.FeatureLayer? {
        if l.featureClass.None? {
          FirstIndexUnique(layers, p, n);
          r := Failure(NullReference);
          return;
        }
        if EqualsIgnoreCase(l.featureClass.value.name, name) {
          foundLayer := layer;
        }
      }
      n := n + 1;
      layer := e.Next();
    }
    if foundLayer.Some? {
      FirstIndexUnique(layers, p, n - 1);
    } else {
      FirstIndexUnique(layers, p, n);
    }
    r := Success(foundLayer);
  }
}
