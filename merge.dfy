/** `mergeAccess`: append the canonical map of every required record whose key
    is not among the keys of the existing access list. */
module Merge {
  import opened Json
  import opened AccessKeys

  /** An existing element `mergeAccess` can handle without a runtime panic: an
      object (the unchecked `entry.(map[string]interface{})`) whose key scan is
      safe. */
  predicate WellFormedEntry(v: Value) {
    v.JObj? && KeyDefined(v.fields)
  }

  predicate WellFormedList(s: seq<Value>) {
    forall i :: 0 <= i < |s| ==> WellFormedEntry(s[i])
  }

  function KeyOf(v: Value): (key: string)
    requires WellFormedEntry(v)
  {
    AccessKeyOf(v.fields).0
  }

  /** The key set the first loop of `mergeAccess` collects. */
  function ExistingKeys(s: seq<Value>): (keys: set<string>)
    requires WellFormedList(s)
  {
    set i | 0 <= i < |s| :: KeyOf(s[i])
  }

  /** The entries the second loop appends when the existing key set is `keys`:
      one canonical map per record of `rs` whose key is not in `keys`, in the
      order of `rs`. The key set is not extended as records are appended. */
  function Appended(keys: set<string>, rs: seq<AccessEntry>): (out: seq<Value>)
  {
    if rs == [] then []
    else
      var last := rs[|rs| - 1];
      Appended(keys, rs[..|rs| - 1]) +
        (if RecordKey(last) in keys then [] else [JObj(CanonicalEntry(last))])
  }

  /** The list `mergeAccess` returns. */
  function Merged(existing: seq<Value>, required: seq<AccessEntry>): (m: seq<Value>)
    requires WellFormedList(existing)
  {
    existing + Appended(ExistingKeys(existing), required)
  }

  /** The map the second loop of `mergeAccess` builds for one required record. */
  method EntryMap(r: AccessEntry) returns (entryMap: map<string, Value>)
    ensures entryMap == CanonicalEntry(r)
  {
    entryMap := map["role" := JStr(r.role)];
    var identifierField, identifierValue := "", "";
    if r.groupByEmail != "" {
      identifierField, identifierValue := "groupByEmail", r.groupByEmail;
    } else if r.iamMember != "" {
      identifierField, identifierValue := "iamMember", r.iamMember;
    } else if r.specialGroup != "" {
      identifierField, identifierValue := "specialGroup", r.specialGroup;
    } else if r.userByEmail != "" {
      identifierField, identifierValue := "userByEmail", r.userByEmail;
    }
    if identifierField != "" {
      entryMap := entryMap[identifierField := JStr(identifierValue)];
    }
  }

  lemma ExistingKeysStep(s: seq<Value>, i: nat)
    requires WellFormedList(s) && i < |s|
    ensures WellFormedList(s[..i]) && WellFormedList(s[..i + 1])
    ensures ExistingKeys(s[..i + 1]) == ExistingKeys(s[..i]) + {KeyOf(s[i])}
  {
    var a, b := s[..i], s[..i + 1];
    assert forall j :: 0 <= j < i ==> a[j] == b[j];
    assert b[i] == s[i];
  }

  lemma AppendedStep(keys: set<string>, rs: seq<AccessEntry>, j: nat)
    requires j < |rs|
    ensures Appended(keys, rs[..j + 1]) == Appended(keys, rs[..j]) +
      (if RecordKey(rs[j]) in keys then [] else [JObj(CanonicalEntry(rs[j]))])
  {
    assert rs[..j + 1][..j] == rs[..j];
  }

  /** The first loop of `mergeAccess`: the lookup map from the key of every
      existing entry to the identifier field it came from. */
  method ExistingSet(existing: seq<Value>) returns (existingSet: map<string, string>)
    requires WellFormedList(existing)
    ensures existingSet.Keys == ExistingKeys(existing)
  {
    existingSet := map[];
    var i := 0;
    while i < |existing|
      invariant 0 <= i <= |existing|
      invariant existingSet.Keys == ExistingKeys(existing[..i])
    {
      var key, field := GenerateAccessKey(existing[i].fields);
      existingSet := existingSet[key := field];
      ExistingKeysStep(existing, i);
      i := i + 1;
    }
    assert existing[..i] == existing;
  }

  /** One pass of the second loop of `mergeAccess`: build the record's map,
      key it, and append it when the key is not in `existingSet`. */
  method AddIfMissing(existing: seq<Value>, existingSet: map<string, string>, r: AccessEntry)
    returns (result: seq<Value>)
    ensures result == existing +
      (if RecordKey(r) in existingSet then [] else [JObj(CanonicalEntry(r))])
  {
    var entryMap := EntryMap(r);
    CanonicalKey(r);
    var key, _ := GenerateAccessKey(entryMap);
    result := existing;
    if key !in existingSet {
      result := result + [JObj(entryMap)];
    }
  }

  /** `mergeAccess` as written: `existingSet` is filled from the existing
      entries, then a loop appends the canonical map of each required record
      whose key is not in `existingSet`. */
  method MergeAccess(existing: seq<Value>, required: seq<AccessEntry>) returns (result: seq<Value>)
    requires WellFormedList(existing)
    ensures result == Merged(existing, required)
  {
    var existingSet := ExistingSet(existing);
    result := existing;
    var j := 0;
    while j < |required|
      invariant 0 <= j <= |required|
      invariant result == existing + Appended(existingSet.Keys, required[..j])
    {
      result := AddIfMissing(result, existingSet, required[j]);
      AppendedStep(existingSet.Keys, required, j);
      j := j + 1;
    }
    assert required[..j] == required;
  }

  lemma {:induction false} ExistingKeysAppend(a: seq<Value>, b: seq<Value>)
    requires WellFormedList(a) && WellFormedList(b)
    ensures WellFormedList(a + b)
    ensures ExistingKeys(a + b) == ExistingKeys(a) + ExistingKeys(b)
  {
    var ab := a + b;
    forall k | k in ExistingKeys(ab) ensures k in ExistingKeys(a) + ExistingKeys(b) {
      var i :| 0 <= i < |ab| && KeyOf(ab[i]) == k;
      if i < |a| { assert ab[i] == a[i]; } else { assert ab[i] == b[i - |a|]; }
    }
    forall k | k in ExistingKeys(a) + ExistingKeys(b) ensures k in ExistingKeys(ab) {
      if k in ExistingKeys(a) {
        var i :| 0 <= i < |a| && KeyOf(a[i]) == k;
        assert ab[i] == a[i];
      } else {
        var i :| 0 <= i < |b| && KeyOf(b[i]) == k;
        assert ab[|a| + i] == b[i];
      }
    }
  }

  /** An entry is appended exactly when it is the canonical map of a record
      whose key is not in `keys`. */
  lemma {:induction false} AppendedMembers(keys: set<string>, rs: seq<AccessEntry>)
    ensures |Appended(keys, rs)| <= |rs|
    ensures forall v :: v in Appended(keys, rs) ==>
      exists r :: r in rs && RecordKey(r) !in keys && v == JObj(CanonicalEntry(r))
    ensures forall r :: r in rs && RecordKey(r) !in keys ==> JObj(CanonicalEntry(r)) in Appended(keys, rs)
  {
    if rs != [] {
      var init, last := rs[..|rs| - 1], rs[|rs| - 1];
      AppendedMembers(keys, init);
      assert rs == init + [last];
      forall v | v in Appended(keys, rs)
        ensures exists r :: r in rs && RecordKey(r) !in keys && v == JObj(CanonicalEntry(r))
      {
        if v in Appended(keys, init) {
          var r :| r in init && RecordKey(r) !in keys && v == JObj(CanonicalEntry(r));
          assert r in rs;
        } else {
          assert RecordKey(last) !in keys && v == JObj(CanonicalEntry(last));
        }
      }
    }
  }

  /** Every map `mergeAccess` appends is itself a well-formed access entry. */
  lemma AppendedWellFormed(keys: set<string>, rs: seq<AccessEntry>)
    ensures WellFormedList(Appended(keys, rs))
  {
  }

  /** When every record's key is already present, nothing is appended. */
  lemma {:induction false} AppendedNothingWhenCovered(keys: set<string>, rs: seq<AccessEntry>)
    requires forall r :: r in rs ==> RecordKey(r) in keys
    ensures Appended(keys, rs) == []
  {
    if rs != [] {
      assert forall r :: r in rs[..|rs| - 1] ==> r in rs;
      AppendedNothingWhenCovered(keys, rs[..|rs| - 1]);
    }
  }

  /** The existing list is an unchanged prefix of the result; what follows it
      is exactly the canonical maps of the required records whose key is not
      among the ORIGINAL existing keys, in the order of `required`. */
  lemma MergePreservesExisting(existing: seq<Value>, required: seq<AccessEntry>)
    requires WellFormedList(existing)
    ensures WellFormedList(Merged(existing, required))
    ensures |Merged(existing, required)| >= |existing|
    ensures Merged(existing, required)[..|existing|] == existing
    ensures Merged(existing, required)[|existing|..] == Appended(ExistingKeys(existing), required)
    ensures forall v :: v in Merged(existing, required)[|existing|..] ==>
      exists r :: r in required && RecordKey(r) !in ExistingKeys(existing) && v == JObj(CanonicalEntry(r))
    ensures forall r :: r in required && RecordKey(r) !in ExistingKeys(existing) ==>
      JObj(CanonicalEntry(r)) in Merged(existing, required)[|existing|..]
  {
    var m := Merged(existing, required);
    AppendedMembers(ExistingKeys(existing), required);
    AppendedWellFormed(ExistingKeys(existing), required);
    ExistingKeysAppend(existing, Appended(ExistingKeys(existing), required));
    assert m[|existing|..] == Appended(ExistingKeys(existing), required);
  }

  /** Every required record's key is among the keys of the result. */
  lemma MergeCoversRequired(existing: seq<Value>, required: seq<AccessEntry>)
    requires WellFormedList(existing)
    ensures WellFormedList(Merged(existing, required))
    ensures forall r :: r in required ==> RecordKey(r) in ExistingKeys(Merged(existing, required))
  {
    var keys := ExistingKeys(existing);
    var added := Appended(keys, required);
    AppendedMembers(keys, required);
    AppendedWellFormed(keys, required);
    ExistingKeysAppend(existing, added);
    forall r | r in required ensures RecordKey(r) in ExistingKeys(existing + added) {
      if RecordKey(r) !in keys {
        CanonicalKey(r);
        var i :| 0 <= i < |added| && added[i] == JObj(CanonicalEntry(r));
        assert KeyOf(added[i]) == RecordKey(r);
      }
    }
  }

  /** Merging the same required records a second time changes nothing. */
  lemma MergeIdempotent(existing: seq<Value>, required: seq<AccessEntry>)
    requires WellFormedList(existing)
    ensures WellFormedList(Merged(existing, required))
    ensures Merged(Merged(existing, required), required) == Merged(existing, required)
  {
    var m := Merged(existing, required);
    MergeCoversRequired(existing, required);
    AppendedNothingWhenCovered(ExistingKeys(m), required);
  }

  /** No two entries of the list share a key. */
  predicate KeysDistinct(s: seq<Value>)
    requires WellFormedList(s)
  {
    forall i, j :: 0 <= i < j < |s| ==> KeyOf(s[i]) != KeyOf(s[j])
  }

  /** No appended entry carries a key from the key set it was checked against. */
  lemma {:induction false} AppendedKeys(keys: set<string>, rs: seq<AccessEntry>)
    ensures WellFormedList(Appended(keys, rs))
    ensures forall i :: 0 <= i < |Appended(keys, rs)| ==> KeyOf(Appended(keys, rs)[i]) !in keys
  {
    AppendedWellFormed(keys, rs);
    AppendedMembers(keys, rs);
    var out := Appended(keys, rs);
    forall i | 0 <= i < |out| ensures KeyOf(out[i]) !in keys {
      assert out[i] in out;
      var r :| r in rs && RecordKey(r) !in keys && out[i] == JObj(CanonicalEntry(r));
      CanonicalKey(r);
    }
  }

  /** The key set is not extended while appending: a record whose key is
      missing is appended once per occurrence in `required`. */
  lemma {:induction false} DuplicateRecordsBothAppended(r: AccessEntry)
    ensures Merged([], [r, r]) == [JObj(CanonicalEntry(r)), JObj(CanonicalEntry(r))]
  {
    assert ExistingKeys([]) == {};
    assert [r, r][..1] == [r];
    assert [r][..0] == [];
    var c := JObj(CanonicalEntry(r));
    assert Appended({}, [r]) == [c];
    assert Appended({}, [r, r]) == Appended({}, [r]) + [c];
  }

  /** Merging into an empty list appends the canonical map of every required
      record, one per record, in order. */
  lemma {:induction false} MergeIntoEmpty(required: seq<AccessEntry>)
    ensures Merged([], required) ==
      seq(|required|, i requires 0 <= i < |required| => JObj(CanonicalEntry(required[i])))
  {
    assert ExistingKeys([]) == {};
    AppendedAllWhenNoKeys(required);
  }

  lemma {:induction false} AppendedAllWhenNoKeys(rs: seq<AccessEntry>)
    ensures Appended({}, rs) == seq(|rs|, i requires 0 <= i < |rs| => JObj(CanonicalEntry(rs[i])))
  {
    if rs != [] {
      AppendedAllWhenNoKeys(rs[..|rs| - 1]);
    }
  }

  /** When the existing entries have distinct keys and so do the required
      records, the merged list has distinct keys: the merge never creates a
      duplicate. */
  lemma {:induction false} MergeKeepsKeysDistinct(existing: seq<Value>, required: seq<AccessEntry>)
    requires WellFormedList(existing) && KeysDistinct(existing)
    requires forall i, j :: 0 <= i < j < |required| ==> RecordKey(required[i]) != RecordKey(required[j])
    ensures WellFormedList(Merged(existing, required))
    ensures KeysDistinct(Merged(existing, required))
  {
    var keys := ExistingKeys(existing);
    AppendedDistinct(keys, required);
    AppendedKeys(keys, required);
    var added := Appended(keys, required);
    var m := existing + added;
    ExistingKeysAppend(existing, added);
    forall i, j | 0 <= i < j < |m| ensures KeyOf(m[i]) != KeyOf(m[j]) {
      if j < |existing| {
        assert m[i] == existing[i] && m[j] == existing[j];
      } else if i < |existing| {
        assert m[i] == existing[i] && KeyOf(m[i]) in keys;
        assert m[j] == added[j - |existing|];
      } else {
        assert m[i] == added[i - |existing|] && m[j] == added[j - |existing|];
      }
    }
  }

  /** Appending from records with distinct keys gives entries with distinct keys. */
  lemma {:induction false} AppendedDistinct(keys: set<string>, rs: seq<AccessEntry>)
    requires forall i, j :: 0 <= i < j < |rs| ==> RecordKey(rs[i]) != RecordKey(rs[j])
    ensures WellFormedList(Appended(keys, rs))
    ensures KeysDistinct(Appended(keys, rs))
  {
    AppendedWellFormed(keys, rs);
    if rs != [] {
      var init, last := rs[..|rs| - 1], rs[|rs| - 1];
      AppendedDistinct(keys, init);
      var prev := Appended(keys, init);
      if RecordKey(last) !in keys {
        CanonicalKey(last);
        AppendedKeysAmong(keys, init);
        LastKeyFresh(rs);
        var out := Appended(keys, rs);
        assert out == prev + [JObj(CanonicalEntry(last))];
        forall i, j | 0 <= i < j < |out| ensures KeyOf(out[i]) != KeyOf(out[j]) {
          assert out[i] == prev[i];
          if j < |prev| {
            assert out[j] == prev[j];
          } else {
            assert prev[i] in prev;
          }
        }
      }
    }
  }

  /** The keys of the given records. */
  function RecordKeys(rs: seq<AccessEntry>): (keys: set<string>) {
    set r | r in rs :: RecordKey(r)
  }

  /** Every appended entry's key is the key of one of the records. */
  lemma AppendedKeysAmong(keys: set<string>, rs: seq<AccessEntry>)
    ensures WellFormedList(Appended(keys, rs))
    ensures forall v :: v in Appended(keys, rs) ==> WellFormedEntry(v) && KeyOf(v) in RecordKeys(rs)
  {
    AppendedWellFormed(keys, rs);
    AppendedMembers(keys, rs);
    forall v | v in Appended(keys, rs) ensures WellFormedEntry(v) && KeyOf(v) in RecordKeys(rs) {
      var r :| r in rs && RecordKey(r) !in keys && v == JObj(CanonicalEntry(r));
      CanonicalKey(r);
    }
  }

  /** With pairwise distinct keys, the last record's key is not among the
      keys of the records before it. */
  lemma LastKeyFresh(rs: seq<AccessEntry>)
    requires rs != []
    requires forall i, j :: 0 <= i < j < |rs| ==> RecordKey(rs[i]) != RecordKey(rs[j])
    ensures RecordKey(rs[|rs| - 1]) !in RecordKeys(rs[..|rs| - 1])
  {
    var init := rs[..|rs| - 1];
    forall r | r in init ensures RecordKey(r) != RecordKey(rs[|rs| - 1]) {
      var k :| 0 <= k < |init| && init[k] == r;
      assert rs[k] == r;
    }
  }
}
