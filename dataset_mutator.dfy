/** `DatasetMutator.Handle`: navigate to `spec.forProvider.access` in the
    decoded Dataset object, merge the required access entries into it and
    write the list back. */
module DatasetMutator {
  import opened Json
  import opened AccessKeys
  import opened Merge

  /** The two outcomes of `Handle` once the object is decoded: allowed without
      mutation, or a patch towards the mutated object (carried whole here; the
      JSON-Patch diff is computed by the webhook framework). */
  datatype Response = NoMutation | Patched(mutated: map<string, Value>)

  /** The access entries every Dataset must carry, in this order. */
  const RequiredAccess: seq<AccessEntry> := [
    AccessEntry("OWNER", "", "", "", "crossplane@axial-life-395119.iam.gserviceaccount.com"),
    AccessEntry("OWNER", "", "", "projectOwners", ""),
    AccessEntry("READER", "", "", "projectReaders", ""),
    AccessEntry("WRITER", "", "", "projectWriters", "")
  ]

  /** `spec` and `spec.forProvider` are both objects, so `Handle` goes on to merge. */
  predicate Navigable(dataset: map<string, Value>) {
    "spec" in dataset && dataset["spec"].JObj? &&
    "forProvider" in dataset["spec"].fields && dataset["spec"].fields["forProvider"].JObj?
  }

  /** `access, ok := forProvider["access"].([]interface{})`, with a missing or
      non-list value replaced by the empty list. */
  function CurrentAccess(forProvider: map<string, Value>): (access: seq<Value>) {
    if "access" in forProvider && forProvider["access"].JArr? then forProvider["access"].items else []
  }

  /** `Handle` reaches no runtime panic in `mergeAccess`. */
  predicate HandleDefined(dataset: map<string, Value>) {
    Navigable(dataset) ==> WellFormedList(CurrentAccess(dataset["spec"].fields["forProvider"].fields))
  }

  /** The object `Handle` produces, with `forProvider["access"]` replaced. */
  function Reconcile(dataset: map<string, Value>, required: seq<AccessEntry>): (response: Response)
    requires HandleDefined(dataset)
  {
    if !Navigable(dataset) then NoMutation
    else
      var spec := dataset["spec"].fields;
      var forProvider := spec["forProvider"].fields;
      var access := Merged(CurrentAccess(forProvider), required);
      Patched(dataset["spec" := JObj(spec["forProvider" := JObj(forProvider["access" := JArr(access)])])])
  }

  /** `Handle` from the decoded object onwards: each step of the navigation
      either stops with no mutation or descends; the merged list is written
      back into `forProvider`. The object is decoded afresh for each request,
      so the in-place write is seen by nobody but the encoder. */
  method Handle(dataset: map<string, Value>) returns (response: Response)
    requires HandleDefined(dataset)
    ensures response == Reconcile(dataset, RequiredAccess)
  {
    if !("spec" in dataset && dataset["spec"].JObj?) {
      return NoMutation;
    }
    var spec := dataset["spec"].fields;
    if !("forProvider" in spec && spec["forProvider"].JObj?) {
      return NoMutation;
    }
    var forProvider := spec["forProvider"].fields;
    var access: seq<Value>;
    if "access" in forProvider && forProvider["access"].JArr? {
      access := forProvider["access"].items;
    } else {
      access := [];
    }
    access := MergeAccess(access, RequiredAccess);
    forProvider := forProvider["access" := JArr(access)];
    return Patched(dataset["spec" := JObj(spec["forProvider" := JObj(forProvider)])]);
  }

  /** No mutation exactly when `spec` or `spec.forProvider` is missing or not
      an object. */
  lemma NoMutationIffNotNavigable(dataset: map<string, Value>, required: seq<AccessEntry>)
    requires HandleDefined(dataset)
    ensures Reconcile(dataset, required) == NoMutation <==> !Navigable(dataset)
  {
  }

  /** A missing or non-list `access` field is replaced by the required entries
      merged into an empty list: the entries of `required` whose keys are new,
      with no pre-existing entry kept. */
  lemma AccessNotListStartsEmpty(dataset: map<string, Value>, required: seq<AccessEntry>)
    requires Navigable(dataset)
    requires var fp := dataset["spec"].fields["forProvider"].fields;
      !("access" in fp && fp["access"].JArr?)
    ensures HandleDefined(dataset)
    ensures Reconcile(dataset, required).Patched?
    ensures Reconcile(dataset, required).mutated["spec"].fields["forProvider"].fields["access"]
      == JArr(Merged([], required))
  {
  }

  /** Only `forProvider["access"]` changes: every other top-level field, every
      other field of `spec` and every other field of `forProvider` keeps its
      value, and no field appears or disappears except `access`, which is the
      merge of the old list. */
  lemma OnlyAccessChanges(dataset: map<string, Value>, required: seq<AccessEntry>)
    requires HandleDefined(dataset)
    requires Reconcile(dataset, required).Patched?
    ensures var m := Reconcile(dataset, required).mutated;
      var spec := dataset["spec"].fields;
      var fp := spec["forProvider"].fields;
      && m.Keys == dataset.Keys
      && (forall k :: k in dataset && k != "spec" ==> m[k] == dataset[k])
      && m["spec"].JObj? && m["spec"].fields.Keys == spec.Keys
      && (forall k :: k in spec && k != "forProvider" ==> m["spec"].fields[k] == spec[k])
      && m["spec"].fields["forProvider"].JObj?
      && m["spec"].fields["forProvider"].fields.Keys == fp.Keys + {"access"}
      && (forall k :: k in fp && k != "access" ==> m["spec"].fields["forProvider"].fields[k] == fp[k])
      && m["spec"].fields["forProvider"].fields["access"] == JArr(Merged(CurrentAccess(fp), required))
  {
  }

  /** Preservation and superset through `Handle`: the old access list (or the
      empty list) is a prefix of the new one, and every required record's key
      is among the new list's keys. */
  lemma HandleKeepsAndCovers(dataset: map<string, Value>, required: seq<AccessEntry>)
    requires HandleDefined(dataset)
    requires Reconcile(dataset, required).Patched?
    ensures var m := Reconcile(dataset, required).mutated;
      var old_ := CurrentAccess(dataset["spec"].fields["forProvider"].fields);
      var new_ := CurrentAccess(m["spec"].fields["forProvider"].fields);
      && |new_| >= |old_| && new_[..|old_|] == old_
      && WellFormedList(new_)
      && (forall r :: r in required ==> RecordKey(r) in ExistingKeys(new_))
  {
    var old_ := CurrentAccess(dataset["spec"].fields["forProvider"].fields);
    MergePreservesExisting(old_, required);
    MergeCoversRequired(old_, required);
  }

  /** Running `Handle` on its own output patches to the same object. */
  lemma HandleIdempotent(dataset: map<string, Value>, required: seq<AccessEntry>)
    requires HandleDefined(dataset)
    requires Reconcile(dataset, required).Patched?
    ensures HandleDefined(Reconcile(dataset, required).mutated)
    ensures Reconcile(Reconcile(dataset, required).mutated, required) == Reconcile(dataset, required)
  {
    var m := Reconcile(dataset, required).mutated;
    var spec := dataset["spec"].fields;
    var fp := spec["forProvider"].fields;
    var merged := Merged(CurrentAccess(fp), required);
    MergeIdempotent(CurrentAccess(fp), required);
    var fp2 := m["spec"].fields["forProvider"].fields;
    assert CurrentAccess(fp2) == merged;
    assert fp2["access" := JArr(merged)] == fp2;
    assert m["spec"].fields["forProvider" := JObj(fp2)] == m["spec"].fields;
    assert m["spec" := JObj(m["spec"].fields)] == m;
  }
}
