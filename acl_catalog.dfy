/** The permission catalog: every code an administrator can assign for the
    ACL-extended classes, keyed by code, with its category, display name and
    sort weight. providePermissionsFor and providePermissions are modelled as
    methods building a map in a loop; PermissionsFor and Catalog are the
    folds they are proved against, and the lemmas below state what those
    folds contain. */
module AclCatalog {
  import opened Decimal
  import opened AclCodes

  datatype Option<T> = None | Some(value: T)

  /** One catalog entry. Only the administration entries carry a sort weight. */
  datatype Entry = Entry(category: string, name: string, sort: Option<int>)

  /** A class of the data-object registry: its name, its plural label, whether
      it carries the ACL extension, and the records stored for it. */
  datatype DataClass = DataClass(name: string, pluralName: string, hasAcl: bool, records: seq<Record>)

  /** The sort weight that places the ACCESS_ADMIN entry after the others. */
  const AdminSort := 100

  function StandardCategory(classLabel: string): string {
    classLabel + " (A): access standard items"
  }

  function RestrictedCategory(classLabel: string): string {
    classLabel + " (B): access restricted items - record-specific"
  }

  function AllItemsCategory(classLabel: string): string {
    classLabel + " (C): access all items, restricted and standard"
  }

  /** The entry for one record-level record ("<Title> - <Label>"). */
  function RecordEntry(classLabel: string, opLabel: string, r: Record): Entry {
    Entry(RestrictedCategory(classLabel), r.title + " - " + opLabel, None)
  }

  /** The entry for a class's ACCESS_ADMIN code. */
  function AdminEntry(classLabel: string): Entry {
    Entry(AllItemsCategory(classLabel), "View/Edit permissions for " + classLabel, Some(AdminSort))
  }

  predicate DistinctIds(records: seq<Record>) {
    forall i, j :: 0 <= i < j < |records| ==> records[i].id != records[j].id
  }

  predicate DistinctNames(classes: seq<DataClass>) {
    forall i, j :: 0 <= i < j < |classes| ==> classes[i].name != classes[j].name
  }

  /** The number of record-level records. */
  function RecordLevelCount(records: seq<Record>): nat {
    if records == [] then 0
    else RecordLevelCount(records[..|records| - 1]) + (if IsRecordLevel(records[|records| - 1]) then 1 else 0)
  }

  /** The record-specific codes of the record-level records. */
  function RecordKeys(className: string, permission: string, records: seq<Record>): set<string> {
    set r | r in records && IsRecordLevel(r) :: Code(className, permission, RecordScope(r.id))
  }

  // ---------------------------------------------------------------------------
  // providePermissionsFor

  /** The entries providePermissionsFor holds once it has visited `records`:
      DEFAULT and ALL first, then one entry per record-level record, a later
      record overwriting an earlier one with the same code. */
  function PermissionsFor(className: string, classLabel: string, permission: string, opLabel: string,
                          records: seq<Record>): map<string, Entry>
    decreases |records|
  {
    if records == [] then
      map[Code(className, permission, "DEFAULT") := Entry(StandardCategory(classLabel), opLabel + " standard " + classLabel, None),
          Code(className, permission, "ALL") := Entry(AllItemsCategory(classLabel), opLabel + " all " + classLabel, None)]
    else
      var m := PermissionsFor(className, classLabel, permission, opLabel, records[..|records| - 1]);
      var r := records[|records| - 1];
      if IsRecordLevel(r) then m[Code(className, permission, RecordScope(r.id)) := RecordEntry(classLabel, opLabel, r)] else m
  }

  /** The catalog entries of one class for one operation. */
  method ProvidePermissionsFor(dataClass: DataClass, permission: string, opLabel: string) returns (result: map<string, Entry>)
    ensures result == PermissionsFor(dataClass.name, dataClass.pluralName, permission, opLabel, dataClass.records)
  {
    var permissionBase := Base(dataClass.name, permission);
    var classLabel := dataClass.pluralName;
    result := map[
      permissionBase + "_DEFAULT" := Entry(StandardCategory(classLabel), opLabel + " standard " + classLabel, None),
      permissionBase + "_ALL" := Entry(AllItemsCategory(classLabel), opLabel + " all " + classLabel, None)];
    var records := dataClass.records;
    assert permissionBase + "_DEFAULT" == Code(dataClass.name, permission, "DEFAULT");
    assert permissionBase + "_ALL" == Code(dataClass.name, permission, "ALL");
    assert records[..0] == [];
    for i := 0 to |records|
      invariant result == PermissionsFor(dataClass.name, classLabel, permission, opLabel, records[..i])
    {
      var record := records[i];
      if record.permissionModel == RecordLevel {
        assert permissionBase + "_RECORD." + NatToString(record.id) == Code(dataClass.name, permission, RecordScope(record.id));
        result := result[permissionBase + "_RECORD." + NatToString(record.id) :=
          Entry(RestrictedCategory(classLabel), record.title + " - " + opLabel, None)];
      }
      assert records[..i + 1][..i] == records[..i];
    }
    assert records[..|records|] == records;
  }

  /** The keys: DEFAULT, ALL and the code of each record-level record. */
  lemma {:induction false} PermissionsForKeys(className: string, classLabel: string, permission: string, opLabel: string,
                                              records: seq<Record>)
    ensures PermissionsFor(className, classLabel, permission, opLabel, records).Keys ==
      {Code(className, permission, "DEFAULT"), Code(className, permission, "ALL")} + RecordKeys(className, permission, records)
    decreases |records|
  {
    if records != [] {
      var front := records[..|records| - 1];
      var r := records[|records| - 1];
      PermissionsForKeys(className, classLabel, permission, opLabel, front);
      assert forall x :: x in records <==> x in front || x == r by {
        assert records == front + [r];
      }
      if IsRecordLevel(r) {
        assert RecordKeys(className, permission, records) ==
          RecordKeys(className, permission, front) + {Code(className, permission, RecordScope(r.id))};
      } else {
        assert RecordKeys(className, permission, records) == RecordKeys(className, permission, front);
      }
    }
  }

  /** A record code is a key exactly when some record-level record carries that ID. */
  lemma PermissionsForRecordKey(className: string, classLabel: string, permission: string, opLabel: string,
                                records: seq<Record>, id: nat)
    requires '_' !in permission
    ensures Code(className, permission, RecordScope(id)) in PermissionsFor(className, classLabel, permission, opLabel, records)
        <==> exists i :: 0 <= i < |records| && IsRecordLevel(records[i]) && records[i].id == id
  {
    var k := Code(className, permission, RecordScope(id));
    PermissionsForKeys(className, classLabel, permission, opLabel, records);
    RecordCodeDistinct(className, permission, id, id);
    if k in RecordKeys(className, permission, records) {
      var w :| w in records && IsRecordLevel(w) && k == Code(className, permission, RecordScope(w.id));
      RecordCodeDistinct(className, permission, id, w.id);
      var i :| 0 <= i < |records| && records[i] == w;
    }
    if exists i :: 0 <= i < |records| && IsRecordLevel(records[i]) && records[i].id == id {
      var i :| 0 <= i < |records| && IsRecordLevel(records[i]) && records[i].id == id;
      assert records[i] in records;
    }
  }

  /** DEFAULT is in category (A), ALL in category (C), every other key is a
      record code in category (B); no entry carries a sort weight. */
  lemma {:induction false} PermissionsForCategories(className: string, classLabel: string, permission: string, opLabel: string,
                                                    records: seq<Record>)
    requires '_' !in permission
    ensures var m := PermissionsFor(className, classLabel, permission, opLabel, records);
      && Code(className, permission, "DEFAULT") in m && Code(className, permission, "ALL") in m
      && m[Code(className, permission, "DEFAULT")] == Entry(StandardCategory(classLabel), opLabel + " standard " + classLabel, None)
      && m[Code(className, permission, "ALL")] == Entry(AllItemsCategory(classLabel), opLabel + " all " + classLabel, None)
      && forall k :: k in m && k != Code(className, permission, "DEFAULT") && k != Code(className, permission, "ALL") ==>
           m[k].category == RestrictedCategory(classLabel) && m[k].sort == None
    decreases |records|
  {
    if records != [] {
      var r := records[|records| - 1];
      PermissionsForCategories(className, classLabel, permission, opLabel, records[..|records| - 1]);
      RecordCodeDistinct(className, permission, r.id, r.id);
    }
  }

  /** With distinct IDs, a stored record has a key exactly when it is
      record-level, and that key holds the record's own entry. */
  lemma {:induction false} PermissionsForRecords(className: string, classLabel: string, permission: string, opLabel: string,
                                                 records: seq<Record>)
    requires '_' !in permission
    requires DistinctIds(records)
    ensures var m := PermissionsFor(className, classLabel, permission, opLabel, records);
      forall i :: 0 <= i < |records| ==>
        && (Code(className, permission, RecordScope(records[i].id)) in m <==> IsRecordLevel(records[i]))
        && (IsRecordLevel(records[i]) ==>
              m[Code(className, permission, RecordScope(records[i].id))] == RecordEntry(classLabel, opLabel, records[i]))
    decreases |records|
  {
    if records != [] {
      var n := |records| - 1;
      var front := records[..n];
      var last := records[n];
      PermissionsForRecords(className, classLabel, permission, opLabel, front);
      forall i | 0 <= i < |records|
        ensures Code(className, permission, RecordScope(records[i].id)) in PermissionsFor(className, classLabel, permission, opLabel, records)
            <==> IsRecordLevel(records[i])
        ensures IsRecordLevel(records[i]) ==>
              PermissionsFor(className, classLabel, permission, opLabel, records)[Code(className, permission, RecordScope(records[i].id))]
              == RecordEntry(classLabel, opLabel, records[i])
      {
        PermissionsForRecordKey(className, classLabel, permission, opLabel, records, records[i].id);
        RecordCodeDistinct(className, permission, records[i].id, last.id);
        if i < n {
          assert front[i] == records[i];
        }
      }
    }
  }

  /** With distinct IDs the entries number 2 + the record-level records. */
  lemma {:induction false} PermissionsForSize(className: string, classLabel: string, permission: string, opLabel: string,
                                              records: seq<Record>)
    requires '_' !in permission
    requires DistinctIds(records)
    ensures |PermissionsFor(className, classLabel, permission, opLabel, records)| == 2 + RecordLevelCount(records)
    decreases |records|
  {
    RecordCodeDistinct(className, permission, 0, 0);
    if records != [] {
      var n := |records| - 1;
      var front := records[..n];
      var last := records[n];
      PermissionsForSize(className, classLabel, permission, opLabel, front);
      PermissionsForRecordKey(className, classLabel, permission, opLabel, front, last.id);
    }
  }

  // ---------------------------------------------------------------------------
  // providePermissions

  /** PHP's `acc += extra`: keys already in `acc` keep their entries, the
      other keys of `extra` are added. */
  function AddMissing(acc: map<string, Entry>, extra: map<string, Entry>): (r: map<string, Entry>)
    ensures r.Keys == acc.Keys + extra.Keys
    ensures forall k :: k in acc ==> r[k] == acc[k]
    ensures forall k :: k in extra && k !in acc ==> r[k] == extra[k]
  {
    extra + acc
  }

  function ViewEntries(c: DataClass): map<string, Entry> {
    PermissionsFor(c.name, c.pluralName, "VIEW", "View", c.records)
  }

  function EditEntries(c: DataClass): map<string, Entry> {
    PermissionsFor(c.name, c.pluralName, "EDIT", "Edit", c.records)
  }

  /** What one pass of providePermissions' loop does to the catalog. */
  function AddClass(acc: map<string, Entry>, c: DataClass): map<string, Entry> {
    if c.hasAcl then
      AddMissing(AddMissing(acc, ViewEntries(c)), EditEntries(c))[AdminCode(c.name) := AdminEntry(c.pluralName)]
    else
      acc
  }

  /** The catalog providePermissions holds once it has visited `classes`. */
  function Catalog(classes: seq<DataClass>): map<string, Entry>
    decreases |classes|
  {
    if classes == [] then map[] else AddClass(Catalog(classes[..|classes| - 1]), classes[|classes| - 1])
  }

  /** The catalog of every ACL-extended class of the registry. */
  method ProvidePermissions(classes: seq<DataClass>) returns (permissions: map<string, Entry>)
    ensures permissions == Catalog(classes)
  {
    permissions := map[];
    assert classes[..0] == [];
    for i := 0 to |classes|
      invariant permissions == Catalog(classes[..i])
    {
      var dataClass := classes[i];
      if dataClass.hasAcl {
        var view := ProvidePermissionsFor(dataClass, "VIEW", "View");
        permissions := AddMissing(permissions, view);
        var edit := ProvidePermissionsFor(dataClass, "EDIT", "Edit");
        permissions := AddMissing(permissions, edit);
        var classLabel := dataClass.pluralName;
        permissions := permissions["ACL_" + dataClass.name + "_ACCESS_ADMIN" := Entry(
          AllItemsCategory(classLabel), "View/Edit permissions for " + classLabel, Some(AdminSort))];
      }
      assert classes[..i + 1][..i] == classes[..i];
    }
    assert classes[..|classes|] == classes;
  }

  /** The codes one class contributes when it carries the extension. */
  function ClassKeys(c: DataClass): set<string> {
    ViewEntries(c).Keys + EditEntries(c).Keys + {AdminCode(c.name)}
  }

  /** `k` is a code of class `className` and operation `op`. */
  ghost predicate IsCode(k: string, className: string, op: string) {
    exists scope :: '_' !in scope && k == Code(className, op, scope)
  }

  /** A code names its class and operation. */
  lemma IsCodeUnique(k: string, c1: string, o1: string, c2: string, o2: string)
    requires '_' !in o1 && '_' !in o2
    requires IsCode(k, c1, o1) && IsCode(k, c2, o2)
    ensures c1 == c2 && o1 == o2
  {
    var s1 :| '_' !in s1 && k == Code(c1, o1, s1);
    var s2 :| '_' !in s2 && k == Code(c2, o2, s2);
    CodeInjective(c1, o1, s1, c2, o2, s2);
  }

  /** Every key of PermissionsFor is a code of its class and operation. */
  lemma PermissionsForShape(className: string, classLabel: string, permission: string, opLabel: string,
                            records: seq<Record>)
    ensures forall k :: k in PermissionsFor(className, classLabel, permission, opLabel, records) ==>
      IsCode(k, className, permission)
  {
    PermissionsForKeys(className, classLabel, permission, opLabel, records);
    forall k | k in PermissionsFor(className, classLabel, permission, opLabel, records)
      ensures IsCode(k, className, permission)
    {
      if k == Code(className, permission, "DEFAULT") {
        assert '_' !in "DEFAULT";
      } else if k == Code(className, permission, "ALL") {
        assert '_' !in "ALL";
      } else {
        var r :| r in records && IsRecordLevel(r) && k == Code(className, permission, RecordScope(r.id));
        assert '_' !in RecordScope(r.id);
      }
    }
  }

  /** The VIEW keys, the EDIT keys and the ACCESS_ADMIN key of a class are
      codes of that class, and no two of the three groups share a key. */
  lemma ClassKeysShape(c: DataClass)
    ensures forall k :: k in ViewEntries(c) ==> IsCode(k, c.name, "VIEW") && k !in EditEntries(c) && k != AdminCode(c.name)
    ensures forall k :: k in EditEntries(c) ==> IsCode(k, c.name, "EDIT") && k != AdminCode(c.name)
    ensures IsCode(AdminCode(c.name), c.name, "ACCESS")
  {
    PermissionsForShape(c.name, c.pluralName, "VIEW", "View", c.records);
    PermissionsForShape(c.name, c.pluralName, "EDIT", "Edit", c.records);
    AdminCodeIsCode(c.name);
    assert '_' !in "ADMIN";
    forall k | k in ViewEntries(c) ensures k !in EditEntries(c) && k != AdminCode(c.name) {
      if k in EditEntries(c) {
        IsCodeUnique(k, c.name, "VIEW", c.name, "EDIT");
      }
      if k == AdminCode(c.name) {
        IsCodeUnique(k, c.name, "VIEW", c.name, "ACCESS");
      }
    }
    forall k | k in EditEntries(c) ensures k != AdminCode(c.name) {
      if k == AdminCode(c.name) {
        IsCodeUnique(k, c.name, "EDIT", c.name, "ACCESS");
      }
    }
  }

  /** The VIEW keys, the EDIT keys and the ACCESS_ADMIN key of a class do not overlap. */
  lemma ClassPartsDisjoint(c: DataClass)
    ensures ViewEntries(c).Keys !! EditEntries(c).Keys
    ensures AdminCode(c.name) !in ViewEntries(c) && AdminCode(c.name) !in EditEntries(c)
  {
    ClassKeysShape(c);
  }

  /** Classes with different names contribute disjoint sets of keys. */
  lemma ClassKeysDisjoint(c1: DataClass, c2: DataClass)
    requires c1.name != c2.name
    ensures ClassKeys(c1) !! ClassKeys(c2)
  {
    ClassKeysShape(c1);
    ClassKeysShape(c2);
    forall k | k in ClassKeys(c1) && k in ClassKeys(c2) ensures false {
      var o1 := if k in ViewEntries(c1) then "VIEW" else if k in EditEntries(c1) then "EDIT" else "ACCESS";
      var o2 := if k in ViewEntries(c2) then "VIEW" else if k in EditEntries(c2) then "EDIT" else "ACCESS";
      IsCodeUnique(k, c1.name, o1, c2.name, o2);
    }
  }

  /** The catalog's keys are exactly the keys of the extended classes. */
  lemma {:induction false} CatalogKeys(classes: seq<DataClass>)
    ensures forall k :: k in Catalog(classes) <==>
      exists i :: 0 <= i < |classes| && classes[i].hasAcl && k in ClassKeys(classes[i])
    decreases |classes|
  {
    if classes != [] {
      var n := |classes| - 1;
      CatalogKeys(classes[..n]);
      AddClassKeys(Catalog(classes[..n]), classes[n]);
      ExtendKeys(classes, ClassKeys, Catalog(classes[..n]).Keys, Catalog(classes).Keys);
    }
  }

  /** The inductive step of CatalogKeys, for any per-class key sets: if
      `before` holds the keys of the extended classes of all but the last
      class, and `after` adds the last class's keys when it is extended, then
      `after` holds the keys of the extended classes of all of them. */
  lemma ExtendKeys(classes: seq<DataClass>, keysOf: DataClass -> set<string>, before: set<string>, after: set<string>)
    requires |classes| > 0
    requires forall k :: k in before <==>
      exists i :: 0 <= i < |classes| - 1 && classes[i].hasAcl && k in keysOf(classes[i])
    requires after == before + (if classes[|classes| - 1].hasAcl then keysOf(classes[|classes| - 1]) else {})
    ensures forall k :: k in after <==>
      exists i :: 0 <= i < |classes| && classes[i].hasAcl && k in keysOf(classes[i])
  {
    var n := |classes| - 1;
    forall k | k in after
      ensures exists i :: 0 <= i < |classes| && classes[i].hasAcl && k in keysOf(classes[i])
    {
      if k !in before {
        assert classes[n].hasAcl && k in keysOf(classes[n]);
      }
    }
  }

  /** Visiting a class adds exactly its keys when it carries the extension, and nothing otherwise. */
  lemma AddClassKeys(acc: map<string, Entry>, c: DataClass)
    ensures AddClass(acc, c).Keys == acc.Keys + (if c.hasAcl then ClassKeys(c) else {})
  {
  }

  /** Catalog completeness: every code derived for a stored record of an
      extended class, for VIEW or EDIT, is a key of the catalog. */
  lemma CatalogComplete(classes: seq<DataClass>, i: nat, r: Record, permission: string)
    requires i < |classes| && classes[i].hasAcl && r in classes[i].records
    requires permission == "VIEW" || permission == "EDIT"
    ensures forall k :: k in PermissionCodes(classes[i].name, r, permission) ==> k in Catalog(classes)
  {
    var c := classes[i];
    var opLabel := if permission == "VIEW" then "View" else "Edit";
    CatalogKeys(classes);
    PermissionsForKeys(c.name, c.pluralName, permission, opLabel, c.records);
    assert PermissionsFor(c.name, c.pluralName, permission, opLabel, c.records).Keys <= ClassKeys(c);
    if IsRecordLevel(r) {
      assert Code(c.name, permission, RecordScope(r.id)) in RecordKeys(c.name, permission, c.records);
    }
  }

  /** The entries one extended class contributes: its VIEW entries, its EDIT
      entries and its ACCESS_ADMIN entry. */
  function ClassEntries(c: DataClass): (m: map<string, Entry>)
    ensures m.Keys == ClassKeys(c)
  {
    AddMissing(ViewEntries(c), EditEntries(c))[AdminCode(c.name) := AdminEntry(c.pluralName)]
  }

  /** Every stored record of every class has a distinct ID. */
  predicate StoredIdsDistinct(classes: seq<DataClass>) {
    forall i :: 0 <= i < |classes| ==> DistinctIds(classes[i].records)
  }

  /** 2 VIEW + 2 EDIT + 2 per record-level record + 1 ACCESS_ADMIN, per extended class. */
  function EntryCount(classes: seq<DataClass>): nat
    decreases |classes|
  {
    if classes == [] then 0
    else
      var c := classes[|classes| - 1];
      EntryCount(classes[..|classes| - 1]) + (if c.hasAcl then 2 + 2 + 2 * RecordLevelCount(c.records) + 1 else 0)
  }

  /** The keys a new class brings are not yet in the catalog of classes with other names. */
  lemma NewClassKeysAreFresh(classes: seq<DataClass>, c: DataClass)
    requires forall i :: 0 <= i < |classes| ==> classes[i].name != c.name
    ensures Catalog(classes).Keys !! ClassKeys(c)
  {
    CatalogKeys(classes);
    forall k | k in Catalog(classes) ensures k !in ClassKeys(c) {
      var i :| 0 <= i < |classes| && classes[i].hasAcl && k in ClassKeys(classes[i]);
      ClassKeysDisjoint(classes[i], c);
    }
  }

  /** One extended class with distinct record IDs adds 2 + 2 + 2 * (record-level records) + 1
      entries to a catalog that holds none of its keys. */
  lemma AddClassSize(acc: map<string, Entry>, c: DataClass)
    requires c.hasAcl && DistinctIds(c.records)
    requires acc.Keys !! ClassKeys(c)
    ensures |AddClass(acc, c)| == |acc| + 2 + 2 + 2 * RecordLevelCount(c.records) + 1
  {
    var v, e, k := ViewEntries(c), EditEntries(c), AdminCode(c.name);
    ClassPartsDisjoint(c);
    MergeSize(acc, v, e, k, AdminEntry(c.pluralName));
    PermissionsForSize(c.name, c.pluralName, "VIEW", "View", c.records);
    PermissionsForSize(c.name, c.pluralName, "EDIT", "Edit", c.records);
  }

  /** Two `+=` merges and one assignment, all on keys new to the map, add one
      entry per key. */
  lemma MergeSize(acc: map<string, Entry>, v: map<string, Entry>, e: map<string, Entry>, k: string, x: Entry)
    requires acc.Keys !! v.Keys && acc.Keys !! e.Keys && v.Keys !! e.Keys
    requires k !in acc && k !in v && k !in e
    ensures |AddMissing(AddMissing(acc, v), e)[k := x]| == |acc| + |v| + |e| + 1
  {
    var m := AddMissing(AddMissing(acc, v), e)[k := x];
    assert m.Keys == acc.Keys + v.Keys + e.Keys + {k};
    DisjointKeysSize(acc.Keys, v.Keys, e.Keys, k);
  }

  /** Three pairwise disjoint key sets and one further key have the sum of
      their sizes plus one members together. */
  lemma DisjointKeysSize(a: set<string>, b: set<string>, c: set<string>, k: string)
    requires a !! b && a !! c && b !! c
    requires k !in a && k !in b && k !in c
    ensures |a + b + c + {k}| == |a| + |b| + |c| + 1
  {
    assert (a + b) * c == {};
    assert (a + b + c) * {k} == {};
  }

  /** With distinct class names and distinct record IDs, the `+=` merges never
      meet an existing key: the catalog has exactly EntryCount entries. */
  lemma {:induction false} CatalogSize(classes: seq<DataClass>)
    requires DistinctNames(classes) && StoredIdsDistinct(classes)
    ensures |Catalog(classes)| == EntryCount(classes)
    decreases |classes|
  {
    if classes != [] {
      var n := |classes| - 1;
      var front := classes[..n];
      var c := classes[n];
      CatalogSize(front);
      if c.hasAcl {
        NewClassKeysAreFresh(front, c);
        AddClassSize(Catalog(front), c);
      }
    }
  }

  /** Adding a class keeps every entry already present, except at its own
      ACCESS_ADMIN key. */
  lemma AddClassKeeps(acc: map<string, Entry>, c: DataClass, k: string)
    requires k in acc && k != AdminCode(c.name)
    ensures k in AddClass(acc, c) && AddClass(acc, c)[k] == acc[k]
  {
  }

  /** Adding an extended class to a catalog that holds none of its keys
      brings exactly its own entries. */
  lemma AddClassBrings(acc: map<string, Entry>, c: DataClass)
    requires c.hasAcl && acc.Keys !! ClassKeys(c)
    ensures forall k :: k in ClassEntries(c) ==> k in AddClass(acc, c) && AddClass(acc, c)[k] == ClassEntries(c)[k]
  {
    ClassPartsDisjoint(c);
    MergeValues(acc, ViewEntries(c), EditEntries(c), AdminCode(c.name), AdminEntry(c.pluralName));
  }

  /** Merging maps with disjoint keys into a map without them gives each key
      the value of the map it came from. */
  lemma MergeValues(acc: map<string, Entry>, v: map<string, Entry>, e: map<string, Entry>, k: string, x: Entry)
    requires acc.Keys !! v.Keys && acc.Keys !! e.Keys && v.Keys !! e.Keys && k !in acc
    ensures var m := AddMissing(v, e)[k := x];
      forall j :: j in m ==> j in AddMissing(AddMissing(acc, v), e)[k := x] && AddMissing(AddMissing(acc, v), e)[k := x][j] == m[j]
  {
  }

  /** With distinct class names, each extended class's entries reach the
      catalog unchanged: neither a `+=` merge nor a later ACCESS_ADMIN
      assignment replaces them. */
  lemma {:induction false} CatalogEntries(classes: seq<DataClass>, i: nat)
    requires DistinctNames(classes)
    requires i < |classes| && classes[i].hasAcl
    ensures forall k :: k in ClassEntries(classes[i]) ==>
      k in Catalog(classes) && Catalog(classes)[k] == ClassEntries(classes[i])[k]
    decreases |classes|
  {
    var n := |classes| - 1;
    var front := classes[..n];
    var c := classes[n];
    if i < n {
      assert front[i] == classes[i];
      CatalogEntries(front, i);
      ClassKeysDisjoint(classes[i], c);
      forall k | k in ClassEntries(classes[i])
        ensures k in Catalog(classes) && Catalog(classes)[k] == ClassEntries(classes[i])[k]
      {
        assert AdminCode(c.name) in ClassKeys(c);
        AddClassKeeps(Catalog(front), c, k);
      }
    } else {
      NewClassKeysAreFresh(front, c);
      AddClassBrings(Catalog(front), c);
    }
  }

  /** Each extended class has its ACCESS_ADMIN entry, in category (C), sorted at 100. */
  lemma CatalogAdminEntry(classes: seq<DataClass>, i: nat)
    requires DistinctNames(classes)
    requires i < |classes| && classes[i].hasAcl
    ensures AdminCode(classes[i].name) in Catalog(classes)
    ensures Catalog(classes)[AdminCode(classes[i].name)] ==
      Entry(AllItemsCategory(classes[i].pluralName), "View/Edit permissions for " + classes[i].pluralName, Some(100))
  {
    var k := AdminCode(classes[i].name);
    var ce := ClassEntries(classes[i]);
    assert k in ce && ce[k] == AdminEntry(classes[i].pluralName);
    CatalogEntries(classes, i);
  }

  /** The registry of the worked example: a Page class with one record-level
      record (ID 5, "Secret") and one class-level record. */
  function PageRegistry(): seq<DataClass> {
    [DataClass("Page", "Pages", true, [Record(5, "Secret", "RecordLevel"), Record(6, "Public", "ClassLevel")])]
  }

  /** The example's catalog has seven entries. */
  lemma PageCatalogSize()
    ensures |Catalog(PageRegistry())| == 7
  {
    var pages := PageRegistry()[0];
    assert pages.records[..1] == [Record(5, "Secret", "RecordLevel")];
    assert RecordLevelCount(pages.records) == 1;
    assert PageRegistry()[..0] == [];
    CatalogSize(PageRegistry());
  }

  /** In the example, the record-level record is reachable through its
      RECORD.5 codes and the ALL codes. */
  lemma PageSecretKeys(registry: seq<DataClass>)
    requires registry == PageRegistry()
    ensures "ACL_Page_VIEW_ALL" in Catalog(registry) && "ACL_Page_VIEW_RECORD.5" in Catalog(registry)
    ensures "ACL_Page_EDIT_ALL" in Catalog(registry) && "ACL_Page_EDIT_RECORD.5" in Catalog(registry)
  {
    var secret := Record(5, "Secret", "RecordLevel");
    assert secret in registry[0].records;
    SecretCodes(secret);
    CatalogComplete(registry, 0, secret, "VIEW");
    CatalogComplete(registry, 0, secret, "EDIT");
  }

  /** The codes derivation gives the example's record-level record. */
  lemma SecretCodes(secret: Record)
    requires secret == Record(5, "Secret", "RecordLevel")
    ensures PermissionCodes("Page", secret, "VIEW")[0] == "ACL_Page_VIEW_ALL"
    ensures PermissionCodes("Page", secret, "VIEW")[1] == "ACL_Page_VIEW_RECORD.5"
    ensures PermissionCodes("Page", secret, "EDIT")[0] == "ACL_Page_EDIT_ALL"
    ensures PermissionCodes("Page", secret, "EDIT")[1] == "ACL_Page_EDIT_RECORD.5"
  {
    assert NatToString(5) == "5";
  }

  /** In the example, the class-level record is reachable through the DEFAULT codes. */
  lemma PagePublicKeys(registry: seq<DataClass>)
    requires registry == PageRegistry()
    ensures "ACL_Page_VIEW_DEFAULT" in Catalog(registry) && "ACL_Page_EDIT_DEFAULT" in Catalog(registry)
  {
    var public := Record(6, "Public", "ClassLevel");
    assert public in registry[0].records;
    CatalogComplete(registry, 0, public, "VIEW");
    assert PermissionCodes("Page", public, "VIEW")[1] == "ACL_Page_VIEW_DEFAULT";
    CatalogComplete(registry, 0, public, "EDIT");
    assert PermissionCodes("Page", public, "EDIT")[1] == "ACL_Page_EDIT_DEFAULT";
  }

  /** In the example, Page has its ACCESS_ADMIN entry, sorted at 100. */
  lemma PageAdminKey(registry: seq<DataClass>)
    requires registry == PageRegistry()
    ensures "ACL_Page_ACCESS_ADMIN" in Catalog(registry) && Catalog(registry)["ACL_Page_ACCESS_ADMIN"].sort == Some(100)
  {
    assert DistinctNames(registry);
    CatalogAdminEntry(registry, 0);
    assert AdminCode("Page") == "ACL_Page_ACCESS_ADMIN";
  }
}
