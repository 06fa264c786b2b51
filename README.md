# Dataset access-list reconciler

A Dafny model of the mutating admission webhook for Dataset resources in
`dataset/main.go`. The webhook finds `spec.forProvider.access` in the decoded
object and merges a fixed list of required access entries into it. An entry is
appended only when its access key (role, a colon, and the first non-empty
identifier value) is missing from the list's original entries. The list is
then written back into `forProvider`.

- `json.dfy` (module `Json`): the decoded object as a `Value` tree (null, bool,
  number, string, array, object).
- `access_keys.dfy` (module `AccessKeys`) covers three things. The `AccessEntry`
  record. `generateAccessKey`, as the method `GenerateAccessKey` (the loop with
  an early return) proved equal to the function `AccessKeyOf`. The canonical map
  built for a required record (`CanonicalEntry`) and the key read off a record's
  own fields (`RecordKey`).
- `merge.dfy` (module `Merge`): `mergeAccess` as the method `MergeAccess`. Its
  first loop is the method `ExistingSet`. The body of its second loop is the
  method `AddIfMissing`, and the map-building if-chain is `EntryMap`. The method
  is proved equal to the function `Merged`, which is the
  existing list followed by `Appended(ExistingKeys(existing), required)`. The
  properties proved about `Merged` are: prefix preservation, exactly what is
  appended, coverage of every required key and idempotence. It also creates
  no duplicate keys when neither the existing list nor the required records
  contain one; a missing record listed twice is appended twice.
- `dataset_mutator.dfy` (module `DatasetMutator`) covers the navigation and
  write-back of `Handle` (method `Handle`, specified by the function
  `Reconcile`), the required-entry list `RequiredAccess`, and the lemmas about
  the whole mutation.
- `scenarios.dfy` (module `Scenarios`): the proved result of the model on
  concrete objects.

Go panics become preconditions. `KeyDefined` covers line 124: the first
identifier field that is set must hold a string. `WellFormedList` covers line 79:
every existing entry must be an object. `HandleDefined` lifts both to the
object. In Go, `value != ""` on an `interface{}` is false only for the string
"". So null, a number or a boolean counts as a set identifier, and the
following `.(string)` would panic on it.

A missing `access` field, and one that is not a list, are both handled at
`dataset/main.go:46-48`. The value is replaced by an empty list, the required
entries are merged into it, and the result is written back. The object is
therefore patched rather than left alone (`AccessNotListStartsEmpty`,
`StringAccessReplaced`).

## Model

| member | source | states |
|---|---|---|
| AccessKeys.FirstSetFrom | dataset/main.go:121-126 | the index of the first identifier field, in precedence order, that is present with a value other than the string "": every earlier field is unset, and the returned one is set |
| AccessKeys.AccessKeyCharacterized | dataset/main.go:117-130 | the key is role + ":" + the value of the first set identifier field, returned with that field's name; with none set, the key is role + ":unknown" and the field name is ""; a missing or non-string role reads as "" |
| AccessKeys.GenerateAccessKey | dataset/main.go:117-130 | the scanning loop with its early return produces exactly the (key, field) pair of the specification function |
| AccessKeys.GroupByEmailWins | dataset/main.go:121-125 | with groupByEmail set to a non-empty string, the key comes from groupByEmail whatever the other identifier fields hold |
| AccessKeys.FirstNonEmpty | dataset/main.go:92-101 | the index of the record's first non-empty identifier value, in the same precedence order |
| AccessKeys.CanonicalEntryShape | dataset/main.go:87-105 | the map built for a required record holds role plus exactly one identifier field, the first non-empty one in precedence order and holding its value, or no identifier field when all are empty |
| AccessKeys.CanonicalKey | dataset/main.go:87-107 | the canonical map is safe to key, and its generated key equals the key read off the record's own fields |
| Merge.EntryMap | dataset/main.go:87-105 | the if-chain of the second loop builds exactly the canonical map of the record |
| Merge.ExistingSet | dataset/main.go:75-82 | the first loop's lookup map has exactly the keys of the existing entries |
| Merge.AddIfMissing | dataset/main.go:86-110 | one pass of the second loop appends the record's canonical map exactly when the record's key is not in the lookup map, and otherwise leaves the list alone |
| Merge.MergeAccess | dataset/main.go:74-114 | the two loops give the existing list followed by the canonical maps of the required records whose key is not among the original existing keys, in required order |
| Merge.AppendedMembers | dataset/main.go:85-111 | an entry is appended if and only if it is the canonical map of a required record whose key is not in the original key set; at most one entry per record |
| Merge.AppendedNothingWhenCovered | dataset/main.go:107-110 | when every required key is already present, nothing is appended |
| Merge.MergePreservesExisting | dataset/main.go:78-113 | the existing list is an unchanged prefix of the result, and the appended tail is exactly the canonical maps of the records whose key was missing |
| Merge.MergeCoversRequired | dataset/main.go:107-110 | every required record's key is among the keys of the result |
| Merge.MergeIdempotent | dataset/main.go:74-114 | merging the same required records into the merged list returns it unchanged |
| Merge.ExistingKeysAppend | dataset/main.go:78-82 | the key set of a concatenation is the union of the key sets |
| Merge.AppendedWellFormed | dataset/main.go:87-109 | every appended entry is an object that can be keyed without a panic |
| Merge.AppendedKeysAmong | dataset/main.go:107-110 | every appended entry's key is the key of one of the required records |
| Merge.AppendedKeys | dataset/main.go:107-110 | no appended entry has a key from the original key set |
| Merge.DuplicateRecordsBothAppended | dataset/main.go:75-110 | the key set is not updated in the second loop, so a missing record listed twice is appended twice |
| Merge.MergeIntoEmpty | dataset/main.go:85-111 | merging into an empty list appends the canonical map of every required record, in order |
| Merge.AppendedAllWhenNoKeys | dataset/main.go:107-110 | with an empty key set every record's canonical map is appended |
| Merge.AppendedDistinct | dataset/main.go:85-111 | records with pairwise distinct keys give appended entries with pairwise distinct keys |
| Merge.MergeKeepsKeysDistinct | dataset/main.go:74-114 | if the existing entries have distinct keys and so do the required records, the merged list has distinct keys |
| DatasetMutator.Handle | dataset/main.go:37-61 | the navigation, the replacement of a non-list access by [], the merge with the required entries and the write-back give exactly the specified response |
| DatasetMutator.NoMutationIffNotNavigable | dataset/main.go:38-45 | the response is "no mutation" if and only if spec or spec.forProvider is missing or not an object |
| DatasetMutator.AccessNotListStartsEmpty | dataset/main.go:46-60 | a missing or non-list access is replaced by the merge of the required entries into an empty list |
| DatasetMutator.OnlyAccessChanges | dataset/main.go:61 | only forProvider["access"] changes: every other field at every level keeps its value, no other field appears or disappears, and access becomes the merge of the old list |
| DatasetMutator.HandleKeepsAndCovers | dataset/main.go:46-61 | the old access list is a prefix of the new one, and every required key is among the new list's keys |
| DatasetMutator.HandleIdempotent | dataset/main.go:37-61 | running the mutation on its own output gives the same object |
| Scenarios.WriteBack | dataset/main.go:61 | writing the merged list into a Dataset object gives that object with the new access list |
| Scenarios.AppendOne | dataset/main.go:107-110 | one record whose key is missing is appended as its canonical map |
| Scenarios.EmptyListGetsRequired | dataset/main.go:46-61 | an empty access list receives the required OWNER userByEmail entry |
| Scenarios.PresentEntryNotDuplicated | dataset/main.go:78-110 | an entry already present is not appended again |
| Scenarios.ReaderKeptOwnerAppended | dataset/main.go:78-113 | an existing READER entry is kept, the OWNER entry is appended after it, and the READER record is not appended again |
| Scenarios.StringAccessReplaced | dataset/main.go:46-61 | an access field holding a string becomes a list of the required entries |
| Scenarios.SpecialGroupKey | dataset/main.go:92-98 | a record with only specialGroup set has the key role + ":" + specialGroup |
| Scenarios.UserByEmailKey | dataset/main.go:92-100 | a record with only userByEmail set has the key role + ":" + userByEmail |
| Scenarios.RequiredAccessKeysDistinct | dataset/main.go:52-57 | the four hard-coded required entries have four different keys |
| Scenarios.MissingAccessGetsAllRequired | dataset/main.go:46-61 | a Dataset without an access field gets the four required entries, in the order listed |
| Scenarios.FieldNameNotPartOfKey | dataset/main.go:117-129 | the key ignores which identifier field holds the value: an existing groupByEmail "projectOwners" grant blocks the required specialGroup "projectOwners" grant for the same role |

## Left out

- JSON decoding and encoding (`dataset/main.go:32-35`, `63-67`): the model starts from the decoded object. So the 400 response for bad input and the 500 response for a marshalling failure are not modelled. Marshalling cannot fail on a decoded tree anyway.
- `admission.PatchResponseFromRaw` (`dataset/main.go:70`): this JSON-Patch diff is computed by the webhook framework, whose code is not part of this model. `Response.Patched` carries the whole mutated object instead.
- `main` (`dataset/main.go:132-152`) and all of `main.go`: manager bootstrap, certificate directory, webhook registration and signal handling, plus a Pod handler that returns a fixed patch.
- In-place mutation through shared Go maps: `Handle` writes into maps that belong to an object it decoded itself, so no caller can see the write. The model rebuilds the object as a value along the path spec, forProvider, access.
- The field names stored as values of `existingSet` (`dataset/main.go:81`): `MergeAccess` keeps them, but nothing reads them, so `Merged` uses only the key set.
- The Go runtime panics at `dataset/main.go:79` and `:124` are preconditions (`WellFormedList`, `KeyDefined`, `HandleDefined`), not modelled behaviour.
- JSON numbers are floating point in Go. `JNum` holds an integer, because numbers never influence the merge.
- The unused `decoder` field of `DatasetMutator` is not modelled.
