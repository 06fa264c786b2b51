/** What the model of the reconciler yields, as proved, on small concrete Dataset objects. */
module Scenarios {
  import opened Json
  import opened AccessKeys
  import opened Merge
  import opened DatasetMutator

  const ServiceOwner := AccessEntry("OWNER", "", "", "", "svc@x.iam")
  const ServiceOwnerMap := map["role" := JStr("OWNER"), "userByEmail" := JStr("svc@x.iam")]
  const ReadersMap := map["role" := JStr("READER"), "specialGroup" := JStr("projectReaders")]
  const OwnersMap := map["role" := JStr("OWNER"), "specialGroup" := JStr("projectOwners")]

  function DatasetWithAccess(access: Value): (dataset: map<string, Value>) {
    map["kind" := JStr("Dataset"), "spec" := JObj(map["forProvider" := JObj(map["access" := access])])]
  }

  /** Writing a new access list into a Dataset built by `DatasetWithAccess`. */
  lemma WriteBack(access: Value, merged: seq<Value>)
    ensures var spec := DatasetWithAccess(access)["spec"].fields;
      var fp := spec["forProvider"].fields;
      DatasetWithAccess(access)["spec" := JObj(spec["forProvider" := JObj(fp["access" := JArr(merged)])])]
        == DatasetWithAccess(JArr(merged))
  {
    var newFp := map["access" := JArr(merged)];
    assert map["access" := access]["access" := JArr(merged)] == newFp;
    var newSpec := map["forProvider" := JObj(newFp)];
    assert map["forProvider" := JObj(map["access" := access])]["forProvider" := JObj(newFp)] == newSpec;
    var d := DatasetWithAccess(access);
    var d' := DatasetWithAccess(JArr(merged));
    assert d["spec" := JObj(newSpec)].Keys == d'.Keys;
  }

  /** Merging a single record into a list whose keys do not include its key. */
  lemma AppendOne(keys: set<string>, r: AccessEntry)
    requires RecordKey(r) !in keys
    ensures Appended(keys, [r]) == [JObj(CanonicalEntry(r))]
  {
  }

  /** An empty access list receives the one required entry. */
  lemma EmptyListGetsRequired()
    ensures Reconcile(DatasetWithAccess(JArr([])), [ServiceOwner])
      == Patched(DatasetWithAccess(JArr([JObj(ServiceOwnerMap)])))
  {
    assert CanonicalEntry(ServiceOwner) == ServiceOwnerMap;
    AppendOne({}, ServiceOwner);
    assert ExistingKeys([]) == {};
    assert Merged([], [ServiceOwner]) == [JObj(ServiceOwnerMap)];
    WriteBack(JArr([]), [JObj(ServiceOwnerMap)]);
  }

  /** An entry that is already present is not added a second time. */
  lemma PresentEntryNotDuplicated()
    ensures Reconcile(DatasetWithAccess(JArr([JObj(ServiceOwnerMap)])), [ServiceOwner])
      == Patched(DatasetWithAccess(JArr([JObj(ServiceOwnerMap)])))
  {
    CanonicalKey(ServiceOwner);
    assert CanonicalEntry(ServiceOwner) == ServiceOwnerMap;
    var existing := [JObj(ServiceOwnerMap)];
    assert KeyOf(existing[0]) in ExistingKeys(existing);
    assert [ServiceOwner][..0] == [];
    assert Appended(ExistingKeys(existing), [ServiceOwner]) == [];
    assert Merged(existing, [ServiceOwner]) == existing;
    WriteBack(JArr(existing), existing);
  }

  /** The existing READER entry is kept, the OWNER entry appended after it,
      and the READER record not appended again. */
  lemma ReaderKeptOwnerAppended()
    ensures Reconcile(DatasetWithAccess(JArr([JObj(ReadersMap)])),
                      [AccessEntry("OWNER", "", "", "projectOwners", ""),
                       AccessEntry("READER", "", "", "projectReaders", "")])
      == Patched(DatasetWithAccess(JArr([JObj(ReadersMap), JObj(OwnersMap)])))
  {
    var owner := AccessEntry("OWNER", "", "", "projectOwners", "");
    var reader := AccessEntry("READER", "", "", "projectReaders", "");
    CanonicalKey(owner);
    CanonicalKey(reader);
    assert CanonicalEntry(owner) == OwnersMap;
    assert CanonicalEntry(reader) == ReadersMap;
    var existing := [JObj(ReadersMap)];
    var keys := ExistingKeys(existing);
    assert KeyOf(existing[0]) == RecordKey(reader);
    assert RecordKey(reader) in keys;
    assert keys <= {RecordKey(reader)};
    assert RecordKey(owner) != RecordKey(reader) by {
      assert RecordKey(owner)[0] == 'O' && RecordKey(reader)[0] == 'R';
    }
    AppendOne(keys, owner);
    assert [owner, reader][..1] == [owner];
    assert Appended(keys, [owner, reader]) == [JObj(OwnersMap)];
    assert Merged(existing, [owner, reader]) == existing + [JObj(OwnersMap)];
    assert existing + [JObj(OwnersMap)] == [JObj(ReadersMap), JObj(OwnersMap)];
    WriteBack(JArr(existing), [JObj(ReadersMap), JObj(OwnersMap)]);
  }

  /** An `access` field holding a string is replaced by a list holding the
      required entries. */
  lemma StringAccessReplaced()
    ensures Reconcile(DatasetWithAccess(JStr("not a list")), [ServiceOwner])
      == Patched(DatasetWithAccess(JArr([JObj(ServiceOwnerMap)])))
  {
    assert CanonicalEntry(ServiceOwner) == ServiceOwnerMap;
    AppendOne({}, ServiceOwner);
    assert ExistingKeys([]) == {};
    assert Merged([], [ServiceOwner]) == [JObj(ServiceOwnerMap)];
    WriteBack(JStr("not a list"), [JObj(ServiceOwnerMap)]);
  }

  lemma SpecialGroupKey(r: AccessEntry)
    requires r.groupByEmail == "" && r.iamMember == "" && r.specialGroup != ""
    ensures RecordKey(r) == r.role + ":" + r.specialGroup
  {
    var vals := IdentifierValues(r);
    assert FirstNonEmpty(vals, 0) == FirstNonEmpty(vals, 1) == FirstNonEmpty(vals, 2) == 2;
  }

  lemma UserByEmailKey(r: AccessEntry)
    requires r.groupByEmail == "" && r.iamMember == "" && r.specialGroup == "" && r.userByEmail != ""
    ensures RecordKey(r) == r.role + ":" + r.userByEmail
  {
    var vals := IdentifierValues(r);
    assert FirstNonEmpty(vals, 0) == FirstNonEmpty(vals, 1) == FirstNonEmpty(vals, 2) == FirstNonEmpty(vals, 3) == 3;
  }

  /** The four required records of `Handle` have four different keys, so the
      merge never appends two entries with one key. */
  lemma RequiredAccessKeysDistinct()
    ensures forall i, j :: 0 <= i < j < |RequiredAccess| ==>
      RecordKey(RequiredAccess[i]) != RecordKey(RequiredAccess[j])
  {
    var rs := RequiredAccess;
    UserByEmailKey(rs[0]);
    SpecialGroupKey(rs[1]);
    SpecialGroupKey(rs[2]);
    SpecialGroupKey(rs[3]);
    var k0, k1, k2, k3 := RecordKey(rs[0]), RecordKey(rs[1]), RecordKey(rs[2]), RecordKey(rs[3]);
    assert k0[0] == 'O' && k1[0] == 'O' && k2[0] == 'R' && k3[0] == 'W';
    assert |k0| != |k1|;
  }

  /** A Dataset whose `forProvider` has no `access` field gets the four
      required entries, in the order they are listed. */
  lemma MissingAccessGetsAllRequired(dataset: map<string, Value>)
    requires Navigable(dataset)
    requires "access" !in dataset["spec"].fields["forProvider"].fields
    ensures HandleDefined(dataset)
    ensures Reconcile(dataset, RequiredAccess).Patched?
    ensures Reconcile(dataset, RequiredAccess).mutated["spec"].fields["forProvider"].fields["access"]
      == JArr(seq(|RequiredAccess|, i requires 0 <= i < |RequiredAccess| => JObj(CanonicalEntry(RequiredAccess[i]))))
  {
    AccessNotListStartsEmpty(dataset, RequiredAccess);
    MergeIntoEmpty(RequiredAccess);
  }

  /** The key does not record which identifier field the value came from: an
      existing entry granting OWNER to the group "projectOwners" by email
      keeps the required OWNER grant to the special group "projectOwners"
      from being appended. */
  lemma FieldNameNotPartOfKey()
    ensures var existing := [JObj(map["role" := JStr("OWNER"), "groupByEmail" := JStr("projectOwners")])];
      WellFormedList(existing) &&
      Merged(existing, [AccessEntry("OWNER", "", "", "projectOwners", "")]) == existing
  {
    var e := map["role" := JStr("OWNER"), "groupByEmail" := JStr("projectOwners")];
    var existing := [JObj(e)];
    var r := AccessEntry("OWNER", "", "", "projectOwners", "");
    GroupByEmailWins(e, "projectOwners");
    SpecialGroupKey(r);
    assert KeyOf(existing[0]) == RecordKey(r);
    assert RecordKey(r) in ExistingKeys(existing);
    assert [r][..0] == [];
  }
}
