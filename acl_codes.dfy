/** Permission-code derivation for ACL-extended records, and the selection of
    codes each access check (view, create, edit, delete) hands to the
    framework's member check. */
module AclCodes {
  import opened Decimal

  /** The PermissionModel value that switches a record to record-level grants. */
  const RecordLevel := "RecordLevel"

  /** The framework-wide administrator code, which every lookup also accepts. */
  const Admin := "ADMIN"

  /** A record of an ACL-extended class: its ID (0 while unsaved), its Title and
      its stored PermissionModel ("ClassLevel", "RecordLevel", empty, or any
      other string). */
  datatype Record = Record(id: nat, title: string, permissionModel: string)

  predicate IsRecordLevel(r: Record) {
    r.permissionModel == RecordLevel
  }

  /** "ACL_<Class>_<Permission>": the prefix shared by a class's codes for one operation. */
  function Base(className: string, permission: string): string {
    "ACL_" + className + "_" + permission
  }

  /** A full code: the base followed by "_" and a scope (ALL, DEFAULT or RECORD.<ID>). */
  function Code(className: string, permission: string, scope: string): string {
    Base(className, permission) + "_" + scope
  }

  /** The scope of a record-specific code. */
  function RecordScope(id: nat): (scope: string)
    ensures '_' !in scope
    ensures |scope| > 0 && scope[0] == 'R'
  {
    "RECORD." + NatToString(id)
  }

  /** "ACL_<Class>_ACCESS_ADMIN": the right to manage a class's record-level grants. */
  function AdminCode(className: string): string {
    "ACL_" + className + "_ACCESS_ADMIN"
  }

  /** The two codes either of which grants `permission` on `owner`:
      the class-wide ALL code first, then the record's own code when the
      record is record-level, or the class DEFAULT code otherwise. */
  function PermissionCodes(className: string, owner: Record, permission: string): (codes: seq<string>)
    ensures |codes| == 2 && codes[0] == Code(className, permission, "ALL")
    ensures codes[1] == Code(className, permission, if IsRecordLevel(owner) then RecordScope(owner.id) else "DEFAULT")
  {
    var base := Base(className, permission);
    if owner.permissionModel == RecordLevel then
      [base + "_ALL", base + "_RECORD." + NatToString(owner.id)]
    else
      [base + "_ALL", base + "_DEFAULT"]
  }

  /** canView: the member check over the VIEW codes. */
  function CanView(className: string, owner: Record, checkMember: seq<string> -> bool): bool {
    checkMember(PermissionCodes(className, owner, "VIEW"))
  }

  /** canCreate: the member check over the EDIT codes. */
  function CanCreate(className: string, owner: Record, checkMember: seq<string> -> bool): bool {
    checkMember(PermissionCodes(className, owner, "EDIT"))
  }

  /** canEdit: the member check over the EDIT codes. */
  function CanEdit(className: string, owner: Record, checkMember: seq<string> -> bool): bool {
    checkMember(PermissionCodes(className, owner, "EDIT"))
  }

  /** canDelete: the member check over the EDIT codes. */
  function CanDelete(className: string, owner: Record, checkMember: seq<string> -> bool): bool {
    checkMember(PermissionCodes(className, owner, "EDIT"))
  }

  /** Create, edit and delete are decided on the same code list; view on the VIEW list. */
  lemma ActionAliases(className: string, owner: Record, checkMember: seq<string> -> bool)
    ensures CanView(className, owner, checkMember) == checkMember(PermissionCodes(className, owner, "VIEW"))
    ensures CanCreate(className, owner, checkMember) == CanEdit(className, owner, checkMember)
    ensures CanDelete(className, owner, checkMember) == CanEdit(className, owner, checkMember)
    ensures CanEdit(className, owner, checkMember) == checkMember(PermissionCodes(className, owner, "EDIT"))
  {
  }

  // ---------------------------------------------------------------------------
  // Structure of codes: a code determines its class, operation and scope.

  /** Cutting a string at its last underscore is unambiguous. */
  lemma SplitAtLastUnderscore(a1: string, s1: string, a2: string, s2: string)
    requires a1 + "_" + s1 == a2 + "_" + s2
    requires '_' !in s1 && '_' !in s2
    ensures a1 == a2 && s1 == s2
  {
    var k := a1 + "_" + s1;
    if |s1| < |s2| {
      UnderscoreFallsInTail(a1, s1, a2, s2);
      assert false;
    } else if |s2| < |s1| {
      UnderscoreFallsInTail(a2, s2, a1, s1);
      assert false;
    }
    assert a1 == k[..|a1|] == a2;
    assert s1 == k[|a1| + 1..] == s2;
  }

  /** When two splittings of one string differ in tail length, the separator
      of the shorter-headed one falls inside the other's tail. */
  lemma UnderscoreFallsInTail(a1: string, s1: string, a2: string, s2: string)
    requires a1 + "_" + s1 == a2 + "_" + s2
    requires |s1| < |s2|
    ensures '_' in s2
  {
    var k := a1 + "_" + s1;
    assert k[|a1|] == '_';
    assert k[|a1|] == s2[|a1| - |a2| - 1];
  }

  /** Codes whose operation and scope contain no underscore identify their
      class, operation and scope, whatever underscores the class name holds. */
  lemma CodeInjective(c1: string, p1: string, s1: string, c2: string, p2: string, s2: string)
    requires '_' !in p1 && '_' !in s1 && '_' !in p2 && '_' !in s2
    requires Code(c1, p1, s1) == Code(c2, p2, s2)
    ensures c1 == c2 && p1 == p2 && s1 == s2
  {
    SplitAtLastUnderscore(Base(c1, p1), s1, Base(c2, p2), s2);
    SplitAtLastUnderscore("ACL_" + c1, p1, "ACL_" + c2, p2);
    assert c1 == ("ACL_" + c1)[4..] == ("ACL_" + c2)[4..] == c2;
  }

  /** The administration code is a code with operation ACCESS and scope ADMIN. */
  lemma AdminCodeIsCode(className: string)
    ensures AdminCode(className) == Code(className, "ACCESS", "ADMIN")
  {
    assert "ACL_" + className + "_ACCESS_ADMIN" == "ACL_" + className + "_" + "ACCESS" + "_" + "ADMIN";
  }

  /** The scopes ALL, DEFAULT and RECORD.<ID> never coincide, and a record scope names one ID. */
  lemma ScopesDistinct(id: nat, other: nat)
    ensures RecordScope(id) != "ALL" && RecordScope(id) != "DEFAULT" && "ALL" != "DEFAULT"
    ensures RecordScope(id) == RecordScope(other) ==> id == other
  {
    assert "ALL"[0] == 'A' && "DEFAULT"[0] == 'D';
    if RecordScope(id) == RecordScope(other) {
      assert NatToString(id) == RecordScope(id)[7..] == RecordScope(other)[7..] == NatToString(other);
      NatToStringInjective(id, other);
    }
  }

  /** Within one class and operation, DEFAULT, ALL and the record codes are
      pairwise distinct, and a record code names one ID. */
  lemma RecordCodeDistinct(className: string, permission: string, id: nat, other: nat)
    requires '_' !in permission
    ensures Code(className, permission, RecordScope(id)) != Code(className, permission, "DEFAULT")
    ensures Code(className, permission, RecordScope(id)) != Code(className, permission, "ALL")
    ensures Code(className, permission, "DEFAULT") != Code(className, permission, "ALL")
    ensures Code(className, permission, RecordScope(id)) == Code(className, permission, RecordScope(other)) ==> id == other
  {
    ScopesDistinct(id, other);
    var r := Code(className, permission, RecordScope(id));
    if r == Code(className, permission, "DEFAULT") {
      CodeInjective(className, permission, RecordScope(id), className, permission, "DEFAULT");
    }
    if r == Code(className, permission, "ALL") {
      CodeInjective(className, permission, RecordScope(id), className, permission, "ALL");
    }
    if Code(className, permission, "DEFAULT") == Code(className, permission, "ALL") {
      CodeInjective(className, permission, "DEFAULT", className, permission, "ALL");
    }
    if r == Code(className, permission, RecordScope(other)) {
      CodeInjective(className, permission, RecordScope(id), className, permission, RecordScope(other));
    }
  }

  // ---------------------------------------------------------------------------
  // What the derived codes grant.

  /** A record-specific code opens a record exactly when that record is
      record-level and carries that ID. */
  lemma RecordCodeOpensOnlyItsRecord(className: string, owner: Record, permission: string, id: nat)
    requires '_' !in permission
    ensures Code(className, permission, RecordScope(id)) in PermissionCodes(className, owner, permission)
        <==> IsRecordLevel(owner) && owner.id == id
  {
    var codes := PermissionCodes(className, owner, permission);
    var k := Code(className, permission, RecordScope(id));
    ScopesDistinct(id, owner.id);
    if k == codes[0] {
      CodeInjective(className, permission, RecordScope(id), className, permission, "ALL");
    }
    if k == codes[1] {
      CodeInjective(className, permission, RecordScope(id), className, permission,
        if IsRecordLevel(owner) then RecordScope(owner.id) else "DEFAULT");
    }
  }

  /** The class DEFAULT code opens a record exactly when the record is not record-level. */
  lemma DefaultCodeOpensOnlyClassLevel(className: string, owner: Record, permission: string)
    requires '_' !in permission
    ensures Code(className, permission, "DEFAULT") in PermissionCodes(className, owner, permission)
        <==> !IsRecordLevel(owner)
  {
    var codes := PermissionCodes(className, owner, permission);
    var k := Code(className, permission, "DEFAULT");
    ScopesDistinct(owner.id, owner.id);
    if k == codes[0] {
      CodeInjective(className, permission, "DEFAULT", className, permission, "ALL");
    }
    if k == codes[1] && IsRecordLevel(owner) {
      CodeInjective(className, permission, "DEFAULT", className, permission, RecordScope(owner.id));
    }
  }

  /** A code of one class and operation never opens another class or another
      operation: in particular a VIEW grant never decides create, edit or delete. */
  lemma CodesSeparateClassesAndOperations(c1: string, o1: Record, p1: string, c2: string, o2: Record, p2: string)
    requires '_' !in p1 && '_' !in p2
    requires c1 != c2 || p1 != p2
    ensures forall k :: k in PermissionCodes(c1, o1, p1) ==> k !in PermissionCodes(c2, o2, p2)
  {
    var a := PermissionCodes(c1, o1, p1);
    var b := PermissionCodes(c2, o2, p2);
    var sa := if IsRecordLevel(o1) then RecordScope(o1.id) else "DEFAULT";
    var sb := if IsRecordLevel(o2) then RecordScope(o2.id) else "DEFAULT";
    forall i, j | 0 <= i < 2 && 0 <= j < 2
      ensures a[i] != b[j]
    {
      if a[i] == b[j] {
        CodeInjective(c1, p1, if i == 0 then "ALL" else sa, c2, p2, if j == 0 then "ALL" else sb);
      }
    }
  }
}
