/** The identity of an access entry (`generateAccessKey`) and the canonical map
    built from an `AccessEntry` record (the body of `mergeAccess`'s second loop). */
module AccessKeys {
  import opened Json

  /** The typed access record: a role and four identifier fields, of which at
      most one is meant to be non-empty. */
  datatype AccessEntry = AccessEntry(
    role: string,
    groupByEmail: string,
    iamMember: string,
    specialGroup: string,
    userByEmail: string)

  /** The identifier fields, in the order in which they take precedence. */
  const Identifiers: seq<string> := ["groupByEmail", "iamMember", "specialGroup", "userByEmail"]

  /** The record's identifier values, aligned with `Identifiers`. */
  function IdentifierValues(r: AccessEntry): (vals: seq<string>) {
    [r.groupByEmail, r.iamMember, r.specialGroup, r.userByEmail]
  }

  /** Go's `exists && value != ""` on an `interface{}` value: only the string ""
      counts as empty; null, numbers, booleans and containers count as set. */
  predicate IsSet(entry: map<string, Value>, field: string) {
    field in entry && entry[field] != JStr("")
  }

  /** The scan never reaches the unchecked `value.(string)` assertion with a
      non-string: the first identifier that is set holds a string. Fields after
      it are never inspected, so they may hold anything. */
  predicate KeyDefined(entry: map<string, Value>) {
    forall i :: 0 <= i < |Identifiers| ==>
      (IsSet(entry, Identifiers[i]) && (forall j :: 0 <= j < i ==> !IsSet(entry, Identifiers[j])))
      ==> entry[Identifiers[i]].JStr?
  }

  /** The index of the first identifier at or after `from` that is set, or
      `|Identifiers|` when there is none. */
  function FirstSetFrom(entry: map<string, Value>, from: nat): (i: nat)
    requires from <= |Identifiers|
    ensures from <= i <= |Identifiers|
    ensures forall j :: from <= j < i ==> !IsSet(entry, Identifiers[j])
    ensures i < |Identifiers| ==> IsSet(entry, Identifiers[i])
    decreases |Identifiers| - from
  {
    if from == |Identifiers| then from
    else if IsSet(entry, Identifiers[from]) then from
    else FirstSetFrom(entry, from + 1)
  }

  /** `role, _ := entry["role"].(string)`: a missing or non-string role reads as "". */
  function RoleOf(entry: map<string, Value>): (role: string) {
    if "role" in entry && entry["role"].JStr? then entry["role"].s else ""
  }

  /** What `generateAccessKey` returns: the key and the name of the identifier
      field it was taken from ("" for the fallback key). */
  function AccessKeyOf(entry: map<string, Value>): (r: (string, string))
    requires KeyDefined(entry)
  {
    var i := FirstSetFrom(entry, 0);
    if i < |Identifiers| then (RoleOf(entry) + ":" + entry[Identifiers[i]].s, Identifiers[i])
    else (RoleOf(entry) + ":unknown", "")
  }

  /** The key comes from the first identifier field, in precedence order, that
      is present and not "": its value after the role and a colon, with that
      field's name; with no such field, the key is the role and ":unknown" and
      the field name is "". */
  lemma AccessKeyCharacterized(entry: map<string, Value>)
    requires KeyDefined(entry)
    ensures var r := AccessKeyOf(entry);
      && (r.1 == "" <==> forall j :: 0 <= j < |Identifiers| ==> !IsSet(entry, Identifiers[j]))
      && (r.1 == "" ==> r.0 == RoleOf(entry) + ":unknown")
      && (r.1 != "" ==>
        exists i :: 0 <= i < |Identifiers| && Identifiers[i] == r.1 &&
          (forall j :: 0 <= j < i ==> !IsSet(entry, Identifiers[j])) &&
          r.1 in entry && entry[r.1].JStr? && entry[r.1].s != "" &&
          r.0 == RoleOf(entry) + ":" + entry[r.1].s)
  {
  }

  /** `generateAccessKey`: scans the identifier fields in precedence order and
      returns at the first one that is set. */
  method GenerateAccessKey(entry: map<string, Value>) returns (key: string, field: string)
    requires KeyDefined(entry)
    ensures (key, field) == AccessKeyOf(entry)
  {
    var role := RoleOf(entry);
    var i := 0;
    while i < |Identifiers|
      invariant 0 <= i <= |Identifiers|
      invariant forall j :: 0 <= j < i ==> !IsSet(entry, Identifiers[j])
    {
      var f := Identifiers[i];
      if f in entry && entry[f] != JStr("") {
        return role + ":" + entry[f].s, f;
      }
      i := i + 1;
    }
    return role + ":unknown", "";
  }

  /** The index of the first non-empty identifier value of a record, or
      `|vals|` when all are empty. */
  function FirstNonEmpty(vals: seq<string>, from: nat): (i: nat)
    requires from <= |vals|
    ensures from <= i <= |vals|
    ensures forall j :: from <= j < i ==> vals[j] == ""
    ensures i < |vals| ==> vals[i] != ""
    decreases |vals| - from
  {
    if from == |vals| then from
    else if vals[from] != "" then from
    else FirstNonEmpty(vals, from + 1)
  }

  /** The key a record stands for, read off its own fields: the role, a colon,
      and the first non-empty identifier value, or "unknown". */
  function RecordKey(r: AccessEntry): (key: string) {
    var vals := IdentifierValues(r);
    var i := FirstNonEmpty(vals, 0);
    r.role + ":" + (if i < |vals| then vals[i] else "unknown")
  }

  /** The map `mergeAccess` builds for a required record: `role` plus the
      first non-empty identifier field, tested in precedence order. */
  function CanonicalEntry(r: AccessEntry): (e: map<string, Value>) {
    var base := map["role" := JStr(r.role)];
    if r.groupByEmail != "" then base["groupByEmail" := JStr(r.groupByEmail)]
    else if r.iamMember != "" then base["iamMember" := JStr(r.iamMember)]
    else if r.specialGroup != "" then base["specialGroup" := JStr(r.specialGroup)]
    else if r.userByEmail != "" then base["userByEmail" := JStr(r.userByEmail)]
    else base
  }

  /** The canonical map holds `role` and at most one identifier field: the
      first one, in precedence order, whose value in the record is non-empty,
      with that value. */
  lemma CanonicalEntryShape(r: AccessEntry)
    ensures var e := CanonicalEntry(r);
      && "role" in e && e["role"] == JStr(r.role)
      && (forall k :: k in e ==> k == "role" || k in Identifiers)
      && (forall i :: 0 <= i < |Identifiers| ==>
           (Identifiers[i] in e <==> i == FirstNonEmpty(IdentifierValues(r), 0)))
      && (forall i :: 0 <= i < |Identifiers| && Identifiers[i] in e ==>
           e[Identifiers[i]] == JStr(IdentifierValues(r)[i]))
  {
    var vals := IdentifierValues(r);
    assert vals[0] == "" && vals[1] == "" && vals[2] != "" ==> FirstNonEmpty(vals, 2) == 2;
    assert vals[0] == "" && vals[1] == "" && vals[2] == "" ==> FirstNonEmpty(vals, 2) == FirstNonEmpty(vals, 3);
  }

  /** The canonical map of a record is safe to key, and its key is the one
      read off the record's own fields. */
  lemma CanonicalKey(r: AccessEntry)
    ensures KeyDefined(CanonicalEntry(r))
    ensures AccessKeyOf(CanonicalEntry(r)).0 == RecordKey(r)
  {
    CanonicalEntryShape(r);
    var e := CanonicalEntry(r);
    var k := FirstNonEmpty(IdentifierValues(r), 0);
    forall j | 0 <= j < |Identifiers|
      ensures IsSet(e, Identifiers[j]) <==> j == k
    {
    }
    assert FirstSetFrom(e, 0) == k;
  }

  /** Precedence: with `groupByEmail` set, the key is taken from it whatever
      the other identifier fields hold. */
  lemma GroupByEmailWins(entry: map<string, Value>, v: string)
    requires "groupByEmail" in entry && entry["groupByEmail"] == JStr(v) && v != ""
    ensures KeyDefined(entry)
    ensures AccessKeyOf(entry) == (RoleOf(entry) + ":" + v, "groupByEmail")
  {
    assert IsSet(entry, Identifiers[0]);
  }
}
