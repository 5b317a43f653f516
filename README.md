# merge-package.json: the dependency-field merge, in Dafny

This project models the core of `merge-package.json`, a three-way merge of
`package.json` manifests (base, ours, theirs). It covers the part with its
own logic, in `src/index.js`:

- `applyDependencyOperations` replays the add, remove and change lists for
  one dependency field onto a name-to-version object, in that order.
- `mergeDependencyChanges` works on a clone of ours. For each designated
  dependency key it puts `{}` in place of a missing or falsy field, replays
  that key's operations, then deletes the field if it is empty, or otherwise
  rebuilds it with its keys sorted.
- `sortObjectKeys` rebuilds an object with its keys in ascending order.
- The reassembly in `mergePackageJson` defaults the key list to the five
  standard fields. It then overwrites each designated field of the generic
  merge result with the dependency merge's result. An absent result becomes
  `undefined`, which serialization drops.
- The tail of `stringify` turns every line feed into the platform line
  terminator and appends one more.

JavaScript values are the datatype `Json.Value`, `undefined` included. An
object is its list of own properties in enumeration order (`Json.Props`),
with distinct keys. Assignment (`Json.Put`) replaces a value in place or
appends a new key. `delete` (`Json.Remove`) is a no-op on a missing key. The
objects the source changes in place are instances of the class
`Json.JsObject`: the dependency object, the clone of ours and the final
object. Each such operation is a method whose loops are proved against a
specification function. Those functions are `Applied`, `MergeFields` and
`Overwrite`, and the lemmas state what they mean name by name and key by key.

Three points of the code's behaviour shape the model:

- The three-way classifier is called with the three documents only. The code
  then reads `mergeOperations[key]` for each designated key, and a key with
  no operations list there throws a `TypeError`. The model returns
  `MissingOperations(key)` for it.
- The code does not check the shape of a designated field. The model
  requires every designated field of ours to be missing, falsy or an object
  (`DependencyField`).
- An empty key list is truthy, so it is not replaced by the default list.
  Both loops then do nothing, and the generic merge result comes through
  unchanged (`PackageMerge.DependencyKeysDefault`).

## Model

| member | source | states |
|---|---|---|
| `Json.Get` | src/index.js:40 | reading a property that is not there yields `undefined` |
| `Json.Put` | src/index.js:27-29 | after `p[k] = v`, `k` holds `v` and every other key its old value; an existing key keeps its place, a new key is appended |
| `Json.Remove` | src/index.js:28 | after `delete p[k]`, `k` is absent and every other key keeps its value and presence |
| `Json.RemoveDistinct` | src/index.js:28 | deleting never duplicates a key |
| `Json.PutPut` | src/index.js:41-49 | assigning a key twice leaves the object as the second assignment alone would |
| `Json.RemovePut` | src/index.js:41-47 | deleting a key just assigned leaves the object as deleting it alone would, so `{}` put in place and then deleted leaves no trace |
| `Json.OmitUndefined` | src/index.js:65 | serialization keeps every property except those whose value is `undefined`, with the same values, and the kept keys stay in their order |
| `Json.PropsByContent` | src/index.js:19-24 | two objects listing the same keys in the same order with the same values are the same object |
| `Json.JsObject.Assign` | src/index.js:27-29 | the object's properties become `Put` of the old ones; keys stay distinct |
| `Json.JsObject.Delete` | src/index.js:28 | the object's properties become `Remove` of the old ones |
| `KeyOrder.BelowIrreflexive` | src/index.js:20 | no string sorts before itself |
| `KeyOrder.BelowTransitive` | src/index.js:20 | the string order that `sort()` uses is transitive |
| `KeyOrder.BelowTotal` | src/index.js:20 | any two different strings are ordered one way or the other |
| `KeyOrder.InsertPermutes` | src/index.js:20 | inserting a key adds exactly that key |
| `KeyOrder.InsertAscending` | src/index.js:20 | inserting a new key into a strictly ascending list keeps it strictly ascending |
| `KeyOrder.SortStringsSorts` | src/index.js:20 | sorting keeps the same keys (a permutation), and distinct keys come out strictly ascending |
| `KeyOrder.AscendingDistinct` | src/index.js:20 | strictly ascending keys are distinct |
| `KeyOrder.AscendingUnique` | src/index.js:20 | two strictly ascending lists of the same keys are the same list |
| `SortKeys.RebuildSpec` | src/index.js:20-23 | the `reduce` from `{}` over distinct keys lists exactly those keys, in that order, each with its value in the source object |
| `SortKeys.SortObjectKeys` | src/index.js:19-24 | the result has the same keys as the input, each with the same value, in strictly ascending order, distinct |
| `SortKeys.SortObjectKeysCanonical` | src/index.js:19-24 | two objects with the same keys and values, in whatever order, sort to the same object |
| `DependencyOperations.LastVersion` | src/index.js:27-29 | a list gives a version for exactly the names it mentions |
| `DependencyOperations.LastVersionSpec` | src/index.js:27-29 | the version found is that of the last entry naming the dependency |
| `DependencyOperations.AssignAllEffect` | src/index.js:27 | after the assignments a mentioned name holds its last version and is present; any other name keeps its value and presence |
| `DependencyOperations.DeleteAllEffect` | src/index.js:28 | after the deletions a mentioned name is absent; any other name keeps its value and presence |
| `DependencyOperations.ApplyOperationsEffect` | src/index.js:26-30 | a name in `change` holds its last change version; one in `remove` but not `change` is absent; one only in `add` holds its last add version whatever ours had (theirs wins); a name in no list keeps its value or absence; keys stay distinct |
| `DependencyOperations.ApplyOperationsIdempotent` | src/index.js:26-30 | replaying the same operations a second time changes no name's value or presence |
| `DependencyOperations.AppliedByContent` | src/index.js:26-30 | the outcome of the operations depends only on which names are present and their values, not on their order |
| `DependencyOperations.AssignEach` | src/index.js:27 | the `forEach` of assignments leaves `deps` holding `AssignAll` of its old properties |
| `DependencyOperations.DeleteEach` | src/index.js:28 | the `forEach` of deletions leaves `deps` holding `DeleteAll` of its old properties |
| `DependencyOperations.ApplyDependencyOperations` | src/index.js:26-30 | the three loops leave `deps` holding exactly the adds, then removes, then changes replayed onto its old properties |
| `PackageMerge.DepsOf` | src/index.js:40-42 | a missing or falsy field is worked on as `{}` |
| `PackageMerge.FieldOutcome` | src/index.js:40-50 | a designated field ends up absent exactly when no entry is left after the operations, and otherwise as a non-empty object with strictly ascending keys and the same entries; never as `{}` |
| `PackageMerge.FieldOutcomeIdempotent` | src/index.js:40-50 | replaying a field's operations onto its own outcome leaves the outcome as it is |
| `PackageMerge.MergeField` | src/index.js:39-50 | one iteration sets the designated key to its outcome (or removes it) and leaves every other key's value and presence as they were |
| `PackageMerge.MergeFields` | src/index.js:38-51 | the loop succeeds exactly when every designated key has operations, and otherwise fails naming a designated key without them; on success keys not designated keep their value and presence |
| `PackageMerge.MergeFieldsStep` | src/index.js:38-51 | each turn of the loop finds the field in a shape the merge handles, and either extends the result by one `MergeField` or fails with that key |
| `PackageMerge.MergeFieldByAssignments` | src/index.js:40-50 | the successive assignments and the deletion the loop body makes to the field come to `MergeField` |
| `PackageMerge.MergeFieldsErrStays` | src/index.js:38-51 | once a key lacks operations, later keys do not change the failure |
| `PackageMerge.MergeFieldsEffect` | src/index.js:38-53 | each designated key, even one listed twice, holds exactly the outcome of its own operations on ours' field, and is present exactly when that outcome is not empty |
| `PackageMerge.MergeOneField` | src/index.js:39-50 | the loop body on the clone: `{}` for a falsy field, the operations applied to the field in place, then delete or re-sort, amounts to `MergeField` |
| `PackageMerge.MergeDependencyChanges` | src/index.js:32-54 | the result is a fresh object equal to `MergeFields` on ours' properties, or the same error; ours is not changed |
| `PackageMerge.AddedKeys` | src/index.js:78-80 | the designated keys the generic result lacks are listed once each; with them the key list stays distinct |
| `PackageMerge.OverwriteStep` | src/index.js:79 | one more assignment keeps the earlier values and key order and puts the next designated key's value in place, appending the key when it is new |
| `PackageMerge.Overwrite` | src/index.js:77-80 | every designated key holds the dependency merge's value for it (`undefined` when it has none) and every other key the generic merge's value; the generic result's keys keep their order and the designated keys it lacks follow them in list order; keys stay distinct |
| `PackageMerge.Reassemble` | src/index.js:77-80 | the final object is a fresh copy of the generic merge result overwritten as `Overwrite` says |
| `PackageMerge.MergePackageJson` | src/index.js:68-82 | the object to serialize is `MergedManifest` of the inputs, or the same error |
| `PackageMerge.DependencyKeysDefault` | src/index.js:7-13 | no key list means the five standard fields, which are distinct; an empty list leaves the generic merge result as it is |
| `PackageMerge.MergedManifestFields` | src/index.js:72-82 | the merge succeeds exactly when every designated key has operations; then, after serialization, each designated field is the outcome of its operations on ours' field and is left out exactly when no entry is left, and every other field is the generic merge's; the serialized fields keep the generic result's order, followed by the designated fields it lacked |
| `LineEndings.WithLineEndings` | src/index.js:65 | the output ends with the line terminator |
| `LineEndings.ReplaceNewlinesAppend` | src/index.js:65 | the replacement distributes over concatenation |
| `LineEndings.ReplaceNewlinesNoLineFeed` | src/index.js:65 | text without line feeds is unchanged |
| `LineEndings.ReplaceNewlinesLength` | src/index.js:65 | each line feed becomes as long as the terminator and every other character stays one |
| `LineEndings.LineFeedUnchanged` | src/index.js:65 | with a line feed terminator the replacement is the identity |
| `LineEndings.LineFeedTerminator` | src/index.js:65 | with a line feed terminator the output is the text plus one line feed |
| `LineEndings.CrLfRoundTrip` | src/index.js:65 | with a CR LF terminator, text without carriage returns is recovered by collapsing each CR LF back to a line feed |
| `LineEndings.CrLfTerminator` | src/index.js:65 | with a CR LF terminator the output collapses back to the text plus one line feed |
| `Scenarios.AddToMissingField` | src/index.js:40-50 | theirs adding `foo` to a field ours lacks yields exactly `{"foo": "1.0.0"}` |
| `Scenarios.LocalAdditionSurvives` | src/index.js:40-50 | with no operations ours' local entries survive, re-sorted |
| `Scenarios.TheirsWinsCollision` | src/index.js:27-29 | when ours and theirs both changed `a`, theirs' version is kept |
| `Scenarios.RemovalDropsEmptyField` | src/index.js:46-47 | removing the only dependency drops the field instead of leaving `{}` |

## Left out

- The generic merge of the other fields (`mergeNonDependencyChanges`, src/index.js:56-62) is not modelled. It is a wrapper over a JSON Patch (RFC 6902) library whose diff and collision logic is not part of this model. Its result is the parameter `mergedOther`. The code patches the parsed ours in place, so the dependency merge must read ours first. `MergePackageJson` takes the patched result separately for this reason.
- How the three-way classifier sorts names into add, remove and change is not modelled (src/index.js:33). It is foreign code, and its per-key lists are the parameter `opsByKey`.
- `JSON.parse` and the text produced by `JSON.stringify` (indentation, escaping) are not modelled. Only two parts of serialization are: dropping `undefined` properties (`OmitUndefined`) and the line-terminator step, which takes the JSON text as a parameter. `clone` is value copying, because values here are immutable.
- `os.EOL` is the parameter `eol`. `WithLineEndings` requires that it contain no `$`, since `String.prototype.replace` treats `$` specially. The platform terminators contain none.
- The module-export plumbing is not modelled.
- A designated field of ours that is truthy but not an object is excluded by precondition. Examples are an array-valued `bundledDependencies`, `true`, a non-zero number or a non-empty string. The code would either mutate the array as an object or throw.
- Nested objects are values. While the operations run, the dependency object is its own `JsObject`, and it is then stored back under its key. This has the same effect as the shared reference in the code, since nothing else refers to that object.
- `PackageMerge.MergeDependencyChanges` checks for a missing operations list before putting `{}` in place, while the code checks after. The clone is discarded on that path either way.
- `SortKeys.SortObjectKeys` states that keys come out in assignment order. A JavaScript engine instead lists array-index keys such as `"10"` first, in numeric order. That ordering is not modelled.
- `KeyOrder.Below` compares characters as Unicode scalar values, while `sort()` compares UTF-16 code units. The two orders differ only between characters above U+FFFF and those from U+E000 to U+FFFF.
- Numbers are `real`, used only to decide falsiness. `NaN` does not arise from parsed JSON.
