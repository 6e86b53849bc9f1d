# ArcObjects helpers, modelled in Dafny

The `ArcGIS.Desktop.Helpers` library is a set of C# extension methods over ESRI
ArcObjects. It covers these areas:

- Workspaces and feature datasets: open a dataset, list their feature classes by
  geometry type, collect the names of those classes, and compute the expanded extent
  of all classes that hold features.
- Feature classes: names and paths, cursor-opening wrappers, a spatial-filter
  builder, a feature count for a where clause, deletion through an update cursor,
  copying features into another class through an insert cursor, collecting IDs,
  and adding a field under an exclusive schema lock.
- Geometries: a 2-D copy of a geometry, a four-sided polygon read as an envelope,
  and the nearest feature to a geometry.
- Features: the nearest line feature, and whether a field's value has changed.
- Maps: finding a layer by its own name or by the name of its feature class.
- Coded-value domains: the description of a coded value.
- Strings: the `Flatten` helper.

This project models those operations and proves what each one computes.

## How the model is built

**Library substitutes.** ArcObjects itself is not modelled. Its parts appear in
the model as follows:

- Geodatabase objects:
  - A feature class is the class `Geodatabase.FeatureClass`. Its rows, fields,
    next OID and schema lock are fields that its methods update in place.
  - Cursors (`IFeatureCursor`, the insert cursor) are the classes
    `Geodatabase.FeatureCursor` and `Geodatabase.InsertCursor`.
  - Enumerators (`IEnumDataset`, `IEnumLayer`) are `Catalog.Enumerator<T>`.
- Geometry:
  - Geometry math is a `GeometryEngine` value of functions, passed as a parameter.
    This covers distance, buffer, envelope, spatial relation and the
    `IProximityOperator` and `ITopologicalOperator` casts.
  - A query's where clause is decided by a caller-supplied predicate.
- Release counting: every cursor and enumerator counts its releases
  (`releaseCount`). The operations that open one hand it back as an out-parameter,
  so the model can state whether `Marshal.ReleaseComObject` is reached.
- Exceptions: a thrown exception is a `Failure` of `Wrappers.Result` carrying its
  kind, such as a null reference or an invalid cast.
- Null receivers and arguments are `Option`s where the source tests for null or
  uses `?.`. Elsewhere they are plain values, and "## Left out" lists them.

**Imperative operations.** These become methods whose loops are proved against a
specification function:

- the extent scan, the feature class listings and the name collection;
- the two layer searches and the coded-domain scan;
- the nearest-feature scans;
- deletion, copying, ID collection and field addition.

**Pure operations.** These become functions: `Flatten`, `CreateFlatGeometry`,
`ConvertPolygonToEnvelope`, `FieldChanged`, the names and paths, and the filter
builders.

**.NET string behaviour** is written out in `DotNetStrings`:

- `String.Trim` over the `char.IsWhiteSpace` set;
- `Replace(x, string.Empty)`;
- `IsNullOrWhiteSpace`;
- ASCII case mapping.

`Environment.NewLine` is taken to be "\r\n".

## Model

All source paths are relative to `ArcObjectsHelper/ArcGIS.Desktop.Helpers/`.

| member | source | states |
|---|---|---|
| ExtensionMethods.Flatten | ArcObjectsHelper/ArcGIS.Desktop.Helpers/ExtensionMethods.cs:13-23 | null or blank input is returned unchanged; any other result is no longer than the input and holds no space, CR, LF or tab |
| ExtensionMethods.Replacements | ArcObjectsHelper/ArcGIS.Desktop.Helpers/ExtensionMethods.cs:18-22 | the chain of five `Replace(x, "")` calls deletes exactly the characters space, CR, LF and tab, keeping every other character in order |
| ExtensionMethods.FlattenDeletes | ArcObjectsHelper/ArcGIS.Desktop.Helpers/ExtensionMethods.cs:18-22 | replacing " ", "\r\n", "\n", "\r", "\t" in that order equals deleting the four characters (the "\r\n" step is absorbed by the single-character steps) |
| ExtensionMethods.FlattenIsStrippedTrim | ArcObjectsHelper/ArcGIS.Desktop.Helpers/ExtensionMethods.cs:15-18 | a string that is not blank flattens to its trim with the four characters deleted |
| ExtensionMethods.StripKeepsEnds | ArcObjectsHelper/ArcGIS.Desktop.Helpers/ExtensionMethods.cs:18-22 | deleting characters that do not occur at either end keeps both ends of the string |
| ExtensionMethods.StrippedEnds | ArcObjectsHelper/ArcGIS.Desktop.Helpers/ExtensionMethods.cs:18-22 | deleting the four characters from a trimmed, non-empty string leaves a non-empty string that starts and ends with a non-white-space character |
| ExtensionMethods.FlattenFixes | ArcObjectsHelper/ArcGIS.Desktop.Helpers/ExtensionMethods.cs:13-23 | a string with non-white-space ends and none of the four characters is a fixed point of `Flatten` |
| ExtensionMethods.NotFlattened | ArcObjectsHelper/ArcGIS.Desktop.Helpers/ExtensionMethods.cs:18-22 | each of the four deleted characters is white space |
| ExtensionMethods.FlattenIdempotent | ArcObjectsHelper/ArcGIS.Desktop.Helpers/ExtensionMethods.cs:13-23 | flattening twice gives the same result as flattening once, for every input including null |
| ExtensionMethods.FlattenKeepsVerticalTab | ArcObjectsHelper/ArcGIS.Desktop.Helpers/ExtensionMethods.cs:9-22 | the doc comment promises no white space remains, yet a vertical tab inside the string survives |
| FeatureClassExtensions.GetName | ArcObjectsHelper/ArcGIS.Desktop.Helpers/FeatureClassExtensions.cs:57-60 | a class that is not a dataset has a null name; a dataset's name is its `IDataset.Name` |
| Geodatabase.FindField | ArcObjectsHelper/ArcGIS.Desktop.Helpers/FeatureClassExtensions.cs:267 | `IFields.FindField`: the index of the first field whose name matches ignoring case, or -1 exactly when none does |
| Geodatabase.DeletingMatchedOids | ArcObjectsHelper/ArcGIS.Desktop.Helpers/FeatureClassExtensions.cs:225-229 | removing the OIDs of the matched rows leaves exactly the rows that do not match |
| Geodatabase.WithoutOidsTwice | ArcObjectsHelper/ArcGIS.Desktop.Helpers/FeatureClassExtensions.cs:228-229 | deleting one set of OIDs, then another, is deleting their union |
| FeatureClassExtensions.GetPath | ArcObjectsHelper/ArcGIS.Desktop.Helpers/FeatureClassExtensions.cs:67-70 | a class that is not a dataset gives "\\"; a dataset gives its workspace path, one backslash and its name |
| FeatureClassExtensions.GetPathAndName | ArcObjectsHelper/ArcGIS.Desktop.Helpers/FeatureClassExtensions.cs:77-81 | the out-parameter overload returns the same path as `GetPath` and the class name as its out value |
| FeatureClassExtensions.GetPathInDataset | ArcObjectsHelper/ArcGIS.Desktop.Helpers/FeatureClassExtensions.cs:88-91 | a class that is not a dataset gives "\\" + dataset name + "\\"; a dataset gives workspace path, backslash, dataset name, backslash, class name; a null dataset name reads as empty |
| FeatureClassExtensions.GetPathInDatasetAndName | ArcObjectsHelper/ArcGIS.Desktop.Helpers/FeatureClassExtensions.cs:98-102 | the out-parameter overload returns the dataset path and the class name |
| FeatureClassExtensions.LastSegmentOfJoin | ArcObjectsHelper/ArcGIS.Desktop.Helpers/FeatureClassExtensions.cs:69 | the part after the last backslash of prefix + "\\" + name is name, when name holds no backslash |
| FeatureClassExtensions.PathsEndWithName | ArcObjectsHelper/ArcGIS.Desktop.Helpers/FeatureClassExtensions.cs:67-102 | both path forms of a dataset end, after their last backslash, with the class name |
| FeatureClassExtensions.PathInDatasetIsNestedPath | ArcObjectsHelper/ArcGIS.Desktop.Helpers/FeatureClassExtensions.cs:88-91 | a class inside a dataset has the path it would have at the root of a workspace whose path is the dataset's folder |
| FeatureClassExtensions.WhereFilter | ArcObjectsHelper/ArcGIS.Desktop.Helpers/FeatureClassExtensions.cs:137-145 | no filter exactly when the clause is null or white space; otherwise a query filter carrying the clause |
| FeatureClassExtensions.BlankWhereSelectsAll | ArcObjectsHelper/ArcGIS.Desktop.Helpers/FeatureClassExtensions.cs:139-140 | with a blank clause every row is selected, in order |
| FeatureClassExtensions.WhereSelects | ArcObjectsHelper/ArcGIS.Desktop.Helpers/FeatureClassExtensions.cs:142-144 | with a non-blank clause a row is selected exactly when the clause holds for it |
| FeatureClassExtensions.SearchRequest | ArcObjectsHelper/ArcGIS.Desktop.Helpers/FeatureClassExtensions.cs:137-145 | `Search(where)` always opens a search cursor, with the filter for the clause |
| FeatureClassExtensions.UpdateRequest | ArcObjectsHelper/ArcGIS.Desktop.Helpers/FeatureClassExtensions.cs:153-161 | `Update(where)` opens an update cursor only for a non-blank clause; a blank clause gives a search cursor |
| FeatureClassExtensions.Joined | ArcObjectsHelper/ArcGIS.Desktop.Helpers/FeatureClassExtensions.cs:174 | aggregating the subfields fails with an invalid operation exactly when there are none; one name is returned as it is |
| FeatureClassExtensions.SplitJoined | ArcObjectsHelper/ArcGIS.Desktop.Helpers/FeatureClassExtensions.cs:174 | names without commas are recovered by splitting their comma-joined form |
| FeatureClassExtensions.SearchWithSubFields | ArcObjectsHelper/ArcGIS.Desktop.Helpers/FeatureClassExtensions.cs:170-179 | fails exactly for an empty subfield list; otherwise a search whose filter carries the joined subfields and the clause |
| FeatureClassExtensions.SearchByGeometry | ArcObjectsHelper/ArcGIS.Desktop.Helpers/FeatureClassExtensions.cs:187-197 | a search with no clause and an "intersects" condition on the given geometry |
| FeatureClassExtensions.SearchByGeometrySelects | ArcObjectsHelper/ArcGIS.Desktop.Helpers/FeatureClassExtensions.cs:187-197 | a row is selected exactly when the geometry intersects its shape |
| FeatureClassExtensions.CreateSpatialFilter | ArcObjectsHelper/ArcGIS.Desktop.Helpers/FeatureClassExtensions.cs:107-129 | a positive buffer distance with a search geometry that is not an `ITopologicalOperator` throws an invalid cast, and nothing else fails; otherwise the filter's geometry field is the shape field, its geometry is the buffer when the distance is positive and the search geometry otherwise, the subfields are "OID,Shape", and the clause is set only when non-empty |
| FeatureClassExtensions.SpatialFilterSelects | ArcObjectsHelper/ArcGIS.Desktop.Helpers/FeatureClassExtensions.cs:107-129 | a filter that was built selects a row exactly when the relation holds for the used geometry and, when non-empty, the clause holds |
| FeatureClassExtensions.FeatureCountWhere | ArcObjectsHelper/ArcGIS.Desktop.Helpers/FeatureClassExtensions.cs:205-213 | a blank clause counts every row; any other clause counts exactly the rows for which the database finds it true |
| FeatureClassExtensions.DeleteFilterAgrees | ArcObjectsHelper/ArcGIS.Desktop.Helpers/FeatureClassExtensions.cs:222-225 | for a non-blank clause the filter of `DeleteFeatures` selects the same rows as the count's filter |
| FeatureClassExtensions.DeleteStep | ArcObjectsHelper/ArcGIS.Desktop.Helpers/FeatureClassExtensions.cs:228-229 | deleting one more delivered feature removes one more OID from the rows |
| FeatureClassExtensions.DeleteDelivered | ArcObjectsHelper/ArcGIS.Desktop.Helpers/FeatureClassExtensions.cs:227-229 | the loop drains the cursor and removes exactly the delivered features' OIDs from the class |
| FeatureClassExtensions.DeleteFeatures | ArcObjectsHelper/ArcGIS.Desktop.Helpers/FeatureClassExtensions.cs:220-234 | with a positive count the class keeps exactly the rows the filter does not match, and the update cursor is released once; with a zero count nothing changes and no cursor is opened |
| FeatureClassExtensions.TargetIndex | ArcObjectsHelper/ArcGIS.Desktop.Helpers/FeatureClassExtensions.cs:263-269 | a source field is copied, at the target's first field of the same name (case-insensitive), exactly when it exists, is not OID or geometry, and that target field is editable |
| FeatureClassExtensions.CopyTargets | ArcObjectsHelper/ArcGIS.Desktop.Helpers/FeatureClassExtensions.cs:261-272 | one target index per source field, each inside the target's fields or -1 |
| FeatureClassExtensions.LastWriter | ArcObjectsHelper/ArcGIS.Desktop.Helpers/FeatureClassExtensions.cs:261-272 | the last source field written to a target slot, or -1 when none is |
| FeatureClassExtensions.CopyPrefixValue | ArcObjectsHelper/ArcGIS.Desktop.Helpers/FeatureClassExtensions.cs:261-272 | after the field loop each slot holds the value of its last writer, or its earlier value when nothing wrote it |
| FeatureClassExtensions.CopyPrefixReuse | ArcObjectsHelper/ArcGIS.Desktop.Helpers/FeatureClassExtensions.cs:251-274 | the reused feature buffer yields the same copy whatever was left in the slots the loop overwrites |
| FeatureClassExtensions.ReuseAt | ArcObjectsHelper/ArcGIS.Desktop.Helpers/FeatureClassExtensions.cs:251-274 | slot by slot, a reused buffer agrees with a fresh one wherever the two agree on slots nobody writes |
| FeatureClassExtensions.CopyRuleUntouched | ArcObjectsHelper/ArcGIS.Desktop.Helpers/FeatureClassExtensions.cs:265-270 | a target field no source field maps to keeps what the buffer held |
| FeatureClassExtensions.CopyRuleLast | ArcObjectsHelper/ArcGIS.Desktop.Helpers/FeatureClassExtensions.cs:265-270 | a target field several source fields map to holds the value of the last of them |
| FeatureClassExtensions.LastWriterNone | ArcObjectsHelper/ArcGIS.Desktop.Helpers/FeatureClassExtensions.cs:261-272 | a slot no index names has no last writer |
| FeatureClassExtensions.LastWriterIs | ArcObjectsHelper/ArcGIS.Desktop.Helpers/FeatureClassExtensions.cs:261-272 | the last index naming a slot is its last writer |
| FeatureClassExtensions.FillBuffer | ArcObjectsHelper/ArcGIS.Desktop.Helpers/FeatureClassExtensions.cs:261-272 | the `for` loop leaves the buffer as the copy rule defines it |
| FeatureClassExtensions.Defaults | ArcObjectsHelper/ArcGIS.Desktop.Helpers/FeatureClassExtensions.cs:251 | a fresh feature buffer holds each target field's default value |
| FeatureClassExtensions.CopiedRows | ArcObjectsHelper/ArcGIS.Desktop.Helpers/FeatureClassExtensions.cs:255-276 | one inserted row per source feature with a non-empty shape and an OID, in order, each with that feature's shape and one value per target field |
| FeatureClassExtensions.CopiedRowsSnoc | ArcObjectsHelper/ArcGIS.Desktop.Helpers/FeatureClassExtensions.cs:255-276 | one more source feature adds its copy only when it is eligible, filled into the buffer the previous copy left |
| FeatureClassExtensions.InsertCopies | ArcObjectsHelper/ArcGIS.Desktop.Helpers/FeatureClassExtensions.cs:250-276 | the cursor loop drains the source cursor and queues exactly the copied rows on the insert cursor |
| FeatureClassExtensions.CopyFeaturesAttributes | ArcObjectsHelper/ArcGIS.Desktop.Helpers/FeatureClassExtensions.cs:242-284 | with matching features the target gains exactly the copied rows under fresh consecutive OIDs, after one flush, and the insert cursor is released once; with none the target is unchanged |
| FeatureClassExtensions.IdFieldIndex | ArcObjectsHelper/ArcGIS.Desktop.Helpers/FeatureClassExtensions.cs:297-299 | the ID field is read exactly when its name is given, non-blank and found, at the index `FindField` gives |
| FeatureClassExtensions.IdsOf | ArcObjectsHelper/ArcGIS.Desktop.Helpers/FeatureClassExtensions.cs:299-312 | one ID per feature, in order: the converted ID field value, or the OID when no field is used; it fails exactly when a value does not convert |
| FeatureClassExtensions.CollectFieldIds | ArcObjectsHelper/ArcGIS.Desktop.Helpers/FeatureClassExtensions.cs:301-303 | the first loop yields `IdsOf` the cursor's features with the ID field: their converted values in order, or the conversion failure |
| FeatureClassExtensions.CollectOids | ArcObjectsHelper/ArcGIS.Desktop.Helpers/FeatureClassExtensions.cs:307-309 | the second loop yields the OID of every feature, in cursor order, draining the cursor |
| FeatureClassExtensions.GetIDs | ArcObjectsHelper/ArcGIS.Desktop.Helpers/FeatureClassExtensions.cs:293-313 | the loops collect the IDs of the rows the filter matches, and the cursor is never released |
| FeatureClassExtensions.NewField | ArcObjectsHelper/ArcGIS.Desktop.Helpers/FeatureClassExtensions.cs:331-337 | the new field takes the given name, type, nullability and default; it has a length exactly when it is a string field |
| FeatureClassExtensions.AddNewField | ArcObjectsHelper/ArcGIS.Desktop.Helpers/FeatureClassExtensions.cs:324-345 | the field is appended exactly when the exclusive lock is granted and the name is new, and then every row gets the field's default value appended to its values; a lock conflict fails with SchemaLockConflict and a taken name with FieldExists, leaving fields and rows unchanged; the lock is shared again in every case |
| GeometryExtensions.CreateFlatGeometry | ArcObjectsHelper/ArcGIS.Desktop.Helpers/GeomtryExtensions.cs:28-74 | a null geometry throws a null reference; null exactly for kinds other than point, polyline, polygon and envelope; otherwise a non-z-aware geometry of the same kind with the same coordinates, segments or bounds; only a point keeps its spatial reference |
| GeometryExtensions.FlatGeometryIdempotent | ArcObjectsHelper/ArcGIS.Desktop.Helpers/GeomtryExtensions.cs:28-74 | flattening a flattened geometry gives it back |
| GeometryExtensions.ConvertPolygonToEnvelope | ArcObjectsHelper/ArcGIS.Desktop.Helpers/GeomtryExtensions.cs:120-139 | null for null; for five points the envelope from corner 0 (upper left) to corner 2 (lower right); otherwise the polygon's envelope |
| GeometryExtensions.RectangleConvertsToItsBounds | ArcObjectsHelper/ArcGIS.Desktop.Helpers/GeomtryExtensions.cs:128-134 | a rectangle ring drawn from its upper-left corner converts back to its own bounds |
| GeometryExtensions.Distances | ArcObjectsHelper/ArcGIS.Desktop.Helpers/GeomtryExtensions.cs:104 | one measured distance per feature, in cursor order |
| GeometryExtensions.DistancesSnoc | ArcObjectsHelper/ArcGIS.Desktop.Helpers/GeomtryExtensions.cs:102-104 | one more feature appends its own distance |
| GeometryExtensions.ArgMinFirst | ArcObjectsHelper/ArcGIS.Desktop.Helpers/GeomtryExtensions.cs:106 | an index of the smallest distance, with every earlier distance strictly larger |
| GeometryExtensions.ArgMinFirstUnique | ArcObjectsHelper/ArcGIS.Desktop.Helpers/GeomtryExtensions.cs:106 | the first index of the minimum is the only index with that property |
| GeometryExtensions.ArgMinFirstSnoc | ArcObjectsHelper/ArcGIS.Desktop.Helpers/GeomtryExtensions.cs:106-110 | a next distance replaces the best one only when strictly smaller |
| GeometryExtensions.NearestOf | ArcObjectsHelper/ArcGIS.Desktop.Helpers/GeomtryExtensions.cs:97-113 | (-1, 0.0) for no features; an invalid cast when the geometry is not a proximity operator; a geometry failure when a distance cannot be measured; otherwise the OID and distance of the first feature at the smallest distance |
| GeometryExtensions.NearestTakesFirstOfTies | ArcObjectsHelper/ArcGIS.Desktop.Helpers/GeomtryExtensions.cs:106 | among features at equal smallest distance the first in cursor order is chosen |
| GeometryExtensions.NearestOfSnoc | ArcObjectsHelper/ArcGIS.Desktop.Helpers/GeomtryExtensions.cs:102-111 | a next feature becomes the nearest when there was none or it is strictly closer |
| GeometryExtensions.NearestOidIsAFeature | ArcObjectsHelper/ArcGIS.Desktop.Helpers/GeomtryExtensions.cs:97-113 | for a non-empty cursor the OID returned is that of one of the features, not the -1 of an empty cursor |
| GeometryExtensions.ScanNearest | ArcObjectsHelper/ArcGIS.Desktop.Helpers/GeomtryExtensions.cs:97-113 | the loop as written: (-1, 0.0) for no features, an invalid cast or a geometry failure exactly when the cast or a distance fails, otherwise the final loop state |
| GeometryExtensions.ScanStateIsNearest | ArcObjectsHelper/ArcGIS.Desktop.Helpers/GeomtryExtensions.cs:99-110 | on features with non-negative OIDs the final loop state is the first nearest feature and its distance |
| GeometryExtensions.ScanNearestIsNearestOf | ArcObjectsHelper/ArcGIS.Desktop.Helpers/GeomtryExtensions.cs:97-113 | when no OID is negative the loop as written equals `NearestOf`, the first feature at the smallest distance |
| GeometryExtensions.SentinelOidRearms | ArcObjectsHelper/ArcGIS.Desktop.Helpers/GeomtryExtensions.cs:106 | a kept feature with OID -1 is replaced by the next feature whatever its distance, since -1 is the loop's sentinel |
| GeometryExtensions.SentinelFeatureNearest | ArcObjectsHelper/ArcGIS.Desktop.Helpers/GeomtryExtensions.cs:99-110 | for those two features the first nearest is the one with OID -1 when it is closer, so the loop and `NearestOf` part ways |
| GeometryExtensions.ScanFailsUnmeasured | ArcObjectsHelper/ArcGIS.Desktop.Helpers/GeomtryExtensions.cs:104 | a feature whose distance cannot be measured makes the scan fail with a geometry failure |
| GeometryExtensions.ScanStep | ArcObjectsHelper/ArcGIS.Desktop.Helpers/GeomtryExtensions.cs:102-110 | measuring the next feature and keeping it when the kept OID is -1 or it is strictly closer extends the loop state by one feature |
| GeometryExtensions.FindNearest | ArcObjectsHelper/ArcGIS.Desktop.Helpers/GeomtryExtensions.cs:97-113 | the cursor loop computes `ScanNearest` of the remaining features and drains the cursor on success |
| GeometryExtensions.FindNearestInClass | ArcObjectsHelper/ArcGIS.Desktop.Helpers/GeomtryExtensions.cs:81-90 | the nearest among the rows the geometry intersects (`NearestOf`, as the class's OIDs are non-negative); the cursor is released once on success and left unreleased when the scan throws |
| GeometryExtensions.NearestInClassMeasuresIntersected | ArcObjectsHelper/ArcGIS.Desktop.Helpers/GeomtryExtensions.cs:83 | the class scan measures exactly the rows the geometry intersects |
| FeatureExtensions.NearestLineState | ArcObjectsHelper/ArcGIS.Desktop.Helpers/FeatureExtensions.cs:25-37 | the loop's state: a kept feature is one of the features, at a negative distance no other distance is below; none is kept exactly while the distance stays 0.0 and every distance is non-negative |
| FeatureExtensions.NearestLineStateSnoc | ArcObjectsHelper/ArcGIS.Desktop.Helpers/FeatureExtensions.cs:30-36 | a next feature replaces the kept one only when its distance is below the shortest so far |
| FeatureExtensions.NearestLineOf | ArcObjectsHelper/ArcGIS.Desktop.Helpers/FeatureExtensions.cs:15-46 | fails with an invalid cast or a geometry failure exactly as the cast and distances fail; a found feature is at a negative distance; none is found when all distances are non-negative |
| FeatureExtensions.NearestLineNeverFound | ArcObjectsHelper/ArcGIS.Desktop.Helpers/FeatureExtensions.cs:25-36 | because `shortestDist` starts at 0.0, a geometry engine whose distances are never negative makes every successful call return null |
| FeatureExtensions.ScanNearestLine | ArcObjectsHelper/ArcGIS.Desktop.Helpers/FeatureExtensions.cs:27-37 | the cursor loop computes `NearestLineOf` over the class's features |
| FeatureExtensions.NearestLineFeature | ArcObjectsHelper/ArcGIS.Desktop.Helpers/FeatureExtensions.cs:15-46 | the result is `NearestLineOf` the rows; a cursor is opened exactly when the cast succeeds, and then released once in the `finally` |
| FeatureExtensions.FieldChanged | ArcObjectsHelper/ArcGIS.Desktop.Helpers/FeatureExtensions.cs:75-84 | fails when the field is missing; otherwise true exactly when the trimmed text forms of the original and current values differ |
| FeatureExtensions.FieldUnchangedForSameText | ArcObjectsHelper/ArcGIS.Desktop.Helpers/FeatureExtensions.cs:78-83 | equal text forms never count as a change |
| FeatureExtensions.FieldUnchangedForPadding | ArcObjectsHelper/ArcGIS.Desktop.Helpers/FeatureExtensions.cs:80 | white space added around a value is not a change |
| FeatureExtensions.FieldChangedSymmetric | ArcObjectsHelper/ArcGIS.Desktop.Helpers/FeatureExtensions.cs:80 | swapping the original and current values gives the same answer |
| DotNetStrings.Trim | ArcObjectsHelper/ArcGIS.Desktop.Helpers/FeatureExtensions.cs:80 | `String.Trim`: no white space at either end, empty exactly for an all-white-space string |
| DotNetStrings.TrimPadded | ArcObjectsHelper/ArcGIS.Desktop.Helpers/FeatureExtensions.cs:80 | white space added at either end does not change the trim |
| DotNetStrings.TrimOfTrimmed | ArcObjectsHelper/ArcGIS.Desktop.Helpers/ExtensionMethods.cs:18 | a string with non-white-space ends is its own trim |
| DotNetStrings.StripStrip | ArcObjectsHelper/ArcGIS.Desktop.Helpers/ExtensionMethods.cs:18-22 | deleting one set of characters after another is deleting both sets |
| DotNetStrings.StripConcat | ArcObjectsHelper/ArcGIS.Desktop.Helpers/ExtensionMethods.cs:18-22 | deleting characters from a concatenation deletes them from each part |
| DotNetStrings.ReplaceCharWithEmpty | ArcObjectsHelper/ArcGIS.Desktop.Helpers/ExtensionMethods.cs:18-22 | `Replace(c, "")` for a single character deletes exactly that character |
| DotNetStrings.CrLfReplaceAbsorbed | ArcObjectsHelper/ArcGIS.Desktop.Helpers/ExtensionMethods.cs:19-21 | once the later single-character deletions run, replacing "\r\n" first makes no difference |
| WorkspaceExtensions.OpenFeatureDataset | ArcObjectsHelper/ArcGIS.Desktop.Helpers/WorkspaceExtensions.cs:14-19 | null for a null or non-feature workspace; not found exactly when a feature workspace has no such dataset; otherwise the dataset of that name |
| WorkspaceExtensions.Extents | ArcObjectsHelper/ArcGIS.Desktop.Helpers/WorkspaceExtensions.cs:47-55 | the extents of the given classes, one per class, in order |
| WorkspaceExtensions.ExtentsSnoc | ArcObjectsHelper/ArcGIS.Desktop.Helpers/WorkspaceExtensions.cs:50-55 | one class more appends its extent |
| WorkspaceExtensions.ExtentOf | ArcObjectsHelper/ArcGIS.Desktop.Helpers/WorkspaceExtensions.cs:42-59 | a null reference exactly when an enumerated dataset is not a feature class; null when no class has features; otherwise the union of the extents of the classes with features, expanded by 1.25 |
| WorkspaceExtensions.FindExtentOf | ArcObjectsHelper/ArcGIS.Desktop.Helpers/WorkspaceExtensions.cs:28-64 | null for a null workspace; a blank name gives the extent of the workspace's root feature classes; a named dataset gives the extent of its subsets, a not-found failure when it does not exist, and a null reference when the workspace is not a feature workspace |
| WorkspaceExtensions.RootNeverFails | ArcObjectsHelper/ArcGIS.Desktop.Helpers/WorkspaceExtensions.cs:37-38 | the scan of the root feature classes never throws |
| WorkspaceExtensions.ContributingSnoc | ArcObjectsHelper/ArcGIS.Desktop.Helpers/WorkspaceExtensions.cs:45-56 | one more feature class adds its extent exactly when it has features |
| WorkspaceExtensions.ScanExtents | ArcObjectsHelper/ArcGIS.Desktop.Helpers/WorkspaceExtensions.cs:42-59 | the `Next` loop computes `ExtentOf` the enumerated items |
| WorkspaceExtensions.FindExtent | ArcObjectsHelper/ArcGIS.Desktop.Helpers/WorkspaceExtensions.cs:28-64 | the result is `FindExtentOf`; an enumerator exists exactly when the workspace is given and the name is blank or its dataset opens; it is released once on success and left unreleased when the loop throws |
| WorkspaceExtensions.ExtentContainsEveryClass | ArcObjectsHelper/ArcGIS.Desktop.Helpers/WorkspaceExtensions.cs:50-59 | the extent found contains the extent of every class that has features |
| WorkspaceExtensions.ExpandContains | ArcObjectsHelper/ArcGIS.Desktop.Helpers/WorkspaceExtensions.cs:59 | expanding by 1.25 keeps the box inside |
| WorkspaceExtensions.ExtentIsScaledBoundingBox | ArcObjectsHelper/ArcGIS.Desktop.Helpers/WorkspaceExtensions.cs:45-59 | the extent is the smallest box around the contributing extents, expanded by 1.25 about its centre |
| WorkspaceExtensions.ExtentOrderIndependent | ArcObjectsHelper/ArcGIS.Desktop.Helpers/WorkspaceExtensions.cs:45-59 | enumerating the same datasets in another order, or with repeats, gives the same extent |
| WorkspaceExtensions.ExtentsMembers | ArcObjectsHelper/ArcGIS.Desktop.Helpers/WorkspaceExtensions.cs:47-55 | a box is among the extents exactly when some class has it as its extent |
| Geometry.Box.Union | ArcObjectsHelper/ArcGIS.Desktop.Helpers/WorkspaceExtensions.cs:55 | the union contains both envelopes and lies inside every envelope that contains both |
| Geometry.Box.Expand | ArcObjectsHelper/ArcGIS.Desktop.Helpers/WorkspaceExtensions.cs:59 | expanding keeps the centre and multiplies width and height by the ratios |
| Geometry.UnionAllSnoc | ArcObjectsHelper/ArcGIS.Desktop.Helpers/WorkspaceExtensions.cs:52-55 | the first envelope starts the running union; each later one is unioned into it |
| Geometry.BoundingBoxSnoc | ArcObjectsHelper/ArcGIS.Desktop.Helpers/WorkspaceExtensions.cs:55 | unioning one more envelope into a bounding box gives the bounding box of the longer sequence |
| Geometry.UnionAllIsBoundingBox | ArcObjectsHelper/ArcGIS.Desktop.Helpers/WorkspaceExtensions.cs:52-55 | the running union contains every envelope and each of its four bounds comes from one of them |
| Geometry.BoundingBoxUnique | ArcObjectsHelper/ArcGIS.Desktop.Helpers/WorkspaceExtensions.cs:52-55 | two bounding boxes of the same envelopes are equal |
| Geometry.UnionAllOrderIndependent | ArcObjectsHelper/ArcGIS.Desktop.Helpers/WorkspaceExtensions.cs:45-57 | the running union depends only on which envelopes come, not on their order or repeats |
| Catalog.OpenDataset | ArcObjectsHelper/ArcGIS.Desktop.Helpers/WorkspaceExtensions.cs:18 | `IFeatureWorkspace.OpenFeatureDataset` finds a dataset of that name, ignoring case, and throws not-found when there is none |
| Catalog.LeadingCount | ArcObjectsHelper/ArcGIS.Desktop.Helpers/FeatureDatasetExtensions.cs:21 | the number of subsets before the first one that is not a feature class |
| Catalog.LeadingCountUnique | ArcObjectsHelper/ArcGIS.Desktop.Helpers/FeatureDatasetExtensions.cs:21 | that number is the only one with the property |
| Catalog.LeadingClassesStop | ArcObjectsHelper/ArcGIS.Desktop.Helpers/FeatureDatasetExtensions.cs:21 | whatever follows a subset that is not a feature class never comes into the listing |
| Catalog.LeadingClassesOfClassItems | ArcObjectsHelper/ArcGIS.Desktop.Helpers/WorkspaceExtensions.cs:165-166 | an enumeration of feature classes only is listed whole |
| Catalog.CollectFeatureClasses | ArcObjectsHelper/ArcGIS.Desktop.Helpers/FeatureDatasetExtensions.cs:18-27 | the `is IFeatureClass` loop keeps, in order, the leading feature classes that pass the test, and stops after the first other subset |
| WorkspaceExtensions.OpenFeatureClasses | ArcObjectsHelper/ArcGIS.Desktop.Helpers/WorkspaceExtensions.cs:161-173 | the root feature classes of the given shape type (all of them for `esriGeometryAny`), in order; the enumerator is never released |
| WorkspaceExtensions.DatasetClasses | ArcObjectsHelper/ArcGIS.Desktop.Helpers/WorkspaceExtensions.cs:126-153 | succeeds exactly when a feature workspace has the dataset; otherwise not found, or a null reference for a workspace that is not a feature workspace; on success, the dataset's listing |
| WorkspaceExtensions.OpenFeatureClassesInDataset | ArcObjectsHelper/ArcGIS.Desktop.Helpers/WorkspaceExtensions.cs:126-135 | opening the dataset and listing its classes of one type gives `DatasetClasses` with the single-type test |
| WorkspaceExtensions.OpenFeatureClassesInDatasetOfTypes | ArcObjectsHelper/ArcGIS.Desktop.Helpers/WorkspaceExtensions.cs:144-153 | the same with the list-of-types test |
| WorkspaceExtensions.Names | ArcObjectsHelper/ArcGIS.Desktop.Helpers/WorkspaceExtensions.cs:110-114 | one name per class, in order |
| WorkspaceExtensions.NamedClasses | ArcObjectsHelper/ArcGIS.Desktop.Helpers/WorkspaceExtensions.cs:104-108 | a blank dataset name lists every root feature class; otherwise every leading class of the named dataset, when it opens |
| WorkspaceExtensions.FindFeatureClassesNames | ArcObjectsHelper/ArcGIS.Desktop.Helpers/WorkspaceExtensions.cs:100-117 | the names of the listed classes, in order; each listed class is released; the failures of the dataset listing pass through |
| FeatureDatasetExtensions.OpenFeatureClasses | ArcObjectsHelper/ArcGIS.Desktop.Helpers/FeatureDatasetExtensions.cs:16-28 | the feature classes met before the first other subset, kept when of the shape type or for `esriGeometryAny`; the enumerator is never released |
| FeatureDatasetExtensions.OpenFeatureClassesOfTypes | ArcObjectsHelper/ArcGIS.Desktop.Helpers/FeatureDatasetExtensions.cs:36-48 | the same walk, keeping the classes whose shape type is in the list |
| FeatureDatasetExtensions.ListedForType | ArcObjectsHelper/ArcGIS.Desktop.Helpers/FeatureDatasetExtensions.cs:21-24 | a class is listed exactly when it was enumerated before the walk stopped and its type matches or the type is `esriGeometryAny` |
| FeatureDatasetExtensions.AnyListsEveryLeadingClass | ArcObjectsHelper/ArcGIS.Desktop.Helpers/FeatureDatasetExtensions.cs:23 | `esriGeometryAny` lists every class the walk meets, in order |
| FeatureDatasetExtensions.SingleTypeIsOneElementList | ArcObjectsHelper/ArcGIS.Desktop.Helpers/FeatureDatasetExtensions.cs:16-48 | for a concrete type the two overloads agree |
| FeatureDatasetExtensions.AnyInListIsLiteral | ArcObjectsHelper/ArcGIS.Desktop.Helpers/FeatureDatasetExtensions.cs:23-43 | the list overload does not treat `esriGeometryAny` specially: a polygon class is listed for `Any` by one overload and not by the other |
| FeatureDatasetExtensions.NoTypesListsNothing | ArcObjectsHelper/ArcGIS.Desktop.Helpers/FeatureDatasetExtensions.cs:43 | an empty list of types lists nothing |
| FeatureDatasetExtensions.NothingListedAfterOther | ArcObjectsHelper/ArcGIS.Desktop.Helpers/FeatureDatasetExtensions.cs:21-41 | nothing after the first subset that is not a feature class is listed |
| FeatureDatasetExtensions.ListingIsSubsequence | ArcObjectsHelper/ArcGIS.Desktop.Helpers/FeatureDatasetExtensions.cs:18-27 | every listing keeps enumeration order and lists no class more often than it is met |
| MapExtensions.FirstLayerNamed | ArcObjectsHelper/ArcGIS.Desktop.Helpers/MapExtensions.cs:18-30 | a layer is found exactly when some layer's name equals the given one ignoring case, and it is the first such layer |
| MapExtensions.FirstNamedWins | ArcObjectsHelper/ArcGIS.Desktop.Helpers/MapExtensions.cs:24-28 | a later layer of the same name never replaces the first |
| MapExtensions.LayerByName | ArcObjectsHelper/ArcGIS.Desktop.Helpers/MapExtensions.cs:13-32 | null for a null map or a blank name; otherwise the loop finds `FirstLayerNamed`; the enumerator is never released |
| MapExtensions.FirstLayerOfClass | ArcObjectsHelper/ArcGIS.Desktop.Helpers/MapExtensions.cs:45-57 | a found layer is a feature layer whose class has the name; null exactly when every feature layer has a class of another name; a null reference when a feature layer without a class is met first |
| MapExtensions.ClassScanPassesHead | ArcObjectsHelper/ArcGIS.Desktop.Helpers/MapExtensions.cs:51-55 | a first layer that does not stop the scan can be dropped |
| MapExtensions.ClassScanStopsAtHead | ArcObjectsHelper/ArcGIS.Desktop.Helpers/MapExtensions.cs:51-55 | a first layer that stops the scan decides the result |
| MapExtensions.OtherLayersSkipped | ArcObjectsHelper/ArcGIS.Desktop.Helpers/MapExtensions.cs:53 | removing every layer that is not a feature layer changes nothing |
| MapExtensions.LayerByFeatureClass | ArcObjectsHelper/ArcGIS.Desktop.Helpers/MapExtensions.cs:40-58 | null for a null map or a blank name; otherwise the loop computes `FirstLayerOfClass`; the enumerator is never released |
| ArcGISHelper.CodedDescription | ArcObjectsHelper/ArcGIS.Desktop.Helpers/ArcGISHelper.cs:127-138 | null exactly when every value is non-null and none matches; a failure is a null reference and needs a null value |
| ArcGISHelper.DomainDescription | ArcObjectsHelper/ArcGIS.Desktop.Helpers/ArcGISHelper.cs:119-142 | null for a blank value, a null domain or a domain that is not coded-value; otherwise exactly `CodedDescription` of the domain's codes, so the first matching code decides; a description found is the trim of a code's name |
| ArcGISHelper.FindCodedDomainDescription | ArcObjectsHelper/ArcGIS.Desktop.Helpers/ArcGISHelper.cs:119-142 | the guard and the scan compute `DomainDescription` |
| ArcGISHelper.ScanCodes | ArcObjectsHelper/ArcGIS.Desktop.Helpers/ArcGISHelper.cs:127-138 | the `while` loop computes `CodedDescription` |
| ArcGISHelper.FirstCodeWins | ArcObjectsHelper/ArcGIS.Desktop.Helpers/ArcGISHelper.cs:128-135 | the first matching code gives the description; later codes of the same value do not |
| ArcGISHelper.NoCodeMatches | ArcObjectsHelper/ArcGIS.Desktop.Helpers/ArcGISHelper.cs:128-141 | no matching code and no null value gives null |
| ArcGISHelper.NullCodeFails | ArcObjectsHelper/ArcGIS.Desktop.Helpers/ArcGISHelper.cs:130-132 | a null value met before any match throws a null reference |
| ArcGISHelper.PaddingIgnored | ArcObjectsHelper/ArcGIS.Desktop.Helpers/ArcGISHelper.cs:132 | white space around the field value makes no difference |

## Left out

- I/O and COM: the COM reference counting beyond the release counters, and every
  ArcObjects call whose behaviour is not written into the library substitutes.
- Geometry arithmetic: distances, buffers, envelopes and spatial relations are
  parameters (`GeometryEngine`). Doubles are `real`, so NaN and rounding are not
  modelled.
- Parsing and evaluating a where clause: this is a parameter of each feature class.
  Convert.ToInt32 and ToString of field values are parameters too.
- Case mapping in `ToLower`, `ToUpper` and `EqualsIgnoreCase` covers ASCII only;
  culture-sensitive mapping is not modelled.
- Polygons are single rings: `PointCount` is read off the segment list. Multi-part
  polygons are not modelled.
- Geometry.Box.Union and Geometry.Box.Expand work on values. `FindExtent` unions
  into the first class's own extent object, which the model does not capture.
- ShapeCopy in `CopyFeaturesAttributes` is taken to be the shape's value.
- The subfield projection of a query filter (`SubFields`) is recorded but does not
  restrict the values a cursor delivers.
- FeatureClassExtensions.CopyFeaturesAttributes: the source search cursor is never
  released by the source; the model does not return it, so it does not state that.
- `Marshal.FinalReleaseComObject` of the dataset in the two
  `OpenFeatureClasses(workspace, featureDatasetName, …)` overloads has no counter.
  The same holds for each feature class in `FindFeatureClassesNames`.
  What is stated is which classes pass through that release.
- WorkspaceExtensions.DatasetClasses: a null dataset name is not modelled;
  the name is a plain string.
- MapExtensions.LayerByName: a layer with a null name is not modelled, because
  layer names are plain strings.
- ArcGISHelper.CodedDescription: a code with a null description is not modelled.
  The first-match property is stated by the lemmas FirstCodeWins, NoCodeMatches and
  NullCodeFails rather than in the function's own contract.
- MapExtensions.LayerByFeatureClass: a feature class that is not a dataset is
  modelled like one without a class; both make `GetName` null and the scan throw.
- GeometryExtensions.FindNearestInClass: `searchradius` and `where` are unused,
  as in the source.
- Geodatabase.FeatureClass: stored rows have non-negative OIDs, as geodatabase
  ObjectIDs are. A class whose rows report OID -1 is not modelled. That is why
  `FindNearestInClass` equals `NearestOf`. `FindNearest` over a cursor makes no such
  assumption; there `SentinelOidRearms` shows what an OID of -1 does.
- FeatureClassExtensions.CopyFeaturesAttributes: a feature's shape is never null,
  because `Feature.shape` is a `Geometry`. So the null reference that
  `sourceFeature.Shape.IsEmpty` would throw is not modelled, nor the insert cursor
  it would leave unflushed and unreleased. The other helpers that read `Shape`
  (the spatial filters and both nearest-feature scans) likewise never see a null
  shape.
- Null receivers that the source does not test are not modelled. There, a null
  reference would throw at the first member access. The members concerned:
  - `WorkspaceExtensions.OpenFeatureClasses` takes a plain `Workspace`, as does
    `FindFeatureClassesNames` through it (`workspace.Datasets`,
    WorkspaceExtensions.cs:165).
  - `FeatureDatasetExtensions.OpenFeatureClasses` and
    `FeatureDatasetExtensions.OpenFeatureClassesOfTypes` take a plain
    `FeatureDataset` (`featureDataset.Subsets`).
  - `FeatureClassExtensions.FeatureCountWhere`, `DeleteFeatures`,
    `CopyFeaturesAttributes`, `GetIDs` and `AddNewField` take a `FeatureClass`
    reference, which is never null in Dafny.
  - `FeatureExtensions.NearestLineFeature` takes a plain `Feature`.
  - `FeatureExtensions.FieldChanged` takes the feature's fields and values, not a
    possibly null feature (`feature.Fields`, FeatureExtensions.cs:78).
  - `GeometryExtensions.FindNearest` takes a plain `Geometry`. With a null `g` the
    source returns (-1, 0.0) for an empty cursor, and throws once a feature is read
    (GeomtryExtensions.cs:104).
  - `GeometryExtensions.FindNearestInClass` takes a `FeatureClass` reference
    (`fclass.Search`, GeomtryExtensions.cs:83).
  - `FeatureClassExtensions.CreateSpatialFilter` takes a `FeatureClass` reference
    (`fclass.ShapeFieldName`, FeatureClassExtensions.cs:111).
  - `FeatureClassExtensions.SearchWithSubFields` takes a sequence of names. A null
    `subFields` would throw an ArgumentNullException, not a null reference, from
    `Aggregate` (FeatureClassExtensions.cs:174).
  - `WorkspaceExtensions.DatasetClasses`, `OpenFeatureClassesInDataset` and
    `OpenFeatureClassesInDatasetOfTypes` take a plain `Workspace`
    (WorkspaceExtensions.cs:128 and 146). A null workspace would make
    `OpenFeatureDataset` return null, and `Subsets` would then throw the same null
    reference these members give for a workspace that is not a feature workspace.
- Geodatabase.FeatureClass.AddField: gives every existing row the new field's
  default value. This is an assumption about ArcObjects that the helpers do not
  show; a nullable field may instead leave existing rows null. The row contents
  that `FeatureClassExtensions.AddNewField` states for success rest on it.
- Not modelled at all:
  - `GeometryExtensions.Contains`, a one-line forward to ArcObjects.
  - `FeatureClassExtensions.CreateFieldMap`, geoprocessing field maps.
  - The two `GetObjectClassID` overloads, which read an ArcObjects property.
  - `FeatureExtensions.FeatureClass` and `FeatureExtensions.ShapeChanged`,
    which are casts and property reads.
  - `ExtensionMethods.FindPropValue`, which uses reflection.
  - The rest of `ArcGISHelper.cs` and the toolbox and general helpers. These are
    geoprocessing and application-level code outside this model.
