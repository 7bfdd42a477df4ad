/** Reverse grant lookup: which groups, or which roles, hold a right on a
    record. The grant tables are the framework's Permission rows
    (Code, GroupID) and PermissionRoleCode rows (Code, RoleID); the holder
    tables are the Group and PermissionRole rows, in store order. */
module AclGrants {
  import opened AclCodes

  /** One Permission row (Code, GroupID) or PermissionRoleCode row (Code, RoleID).
      The lookups match on the code alone: a Permission row's Type (grant, deny
      or inherit) and Arg columns are not consulted, so every row counts. */
  datatype CodeRow = CodeRow(code: string, holderId: nat)

  /** One group or role row. */
  datatype Holder = Holder(id: nat, title: string)

  /** What a lookup returns: the store query over the matching holders, or
      the fresh empty ArrayList used when no grant row matched at all. */
  datatype Listing = Query(rows: seq<Holder>) | EmptyArrayList

  function Rows(l: Listing): seq<Holder> {
    if l.Query? then l.rows else []
  }

  /** The holder ids of the grant rows whose code is one of `codes`, in table order. */
  function IdsWithCode(grants: seq<CodeRow>, codes: seq<string>): (ids: seq<nat>)
    ensures |ids| <= |grants|
    ensures forall id :: id in ids <==> exists g :: g in grants && g.code in codes && g.holderId == id
  {
    if grants == [] then []
    else
      var rest := IdsWithCode(grants[1..], codes);
      assert forall g :: g in grants <==> g == grants[0] || g in grants[1..];
      if grants[0].code in codes then [grants[0].holderId] + rest else rest
  }

  /** The holders, in table order, whose id is one of `ids`. */
  function HoldersWithId(holders: seq<Holder>, ids: seq<nat>): (r: seq<Holder>)
    ensures |r| <= |holders|
    ensures forall h :: h in r <==> h in holders && h.id in ids
  {
    if holders == [] then []
    else
      var rest := HoldersWithId(holders[1..], ids);
      assert forall h :: h in holders <==> h == holders[0] || h in holders[1..];
      if holders[0].id in ids then [holders[0]] + rest else rest
  }

  /** The holders granted any of `codes` or ADMIN directly by a row of `grants`;
      the empty ArrayList when no row matches. */
  function WithCodes(grants: seq<CodeRow>, holders: seq<Holder>, codes: seq<string>): (l: Listing)
    ensures l.EmptyArrayList? <==> forall g :: g in grants ==> g.code !in codes && g.code != Admin
    ensures forall h :: h in Rows(l) <==>
      h in holders && exists g :: g in grants && g.holderId == h.id && (g.code in codes || g.code == Admin)
  {
    var ids := IdsWithCode(grants, codes + [Admin]);
    assert forall g :: g in grants && g.code in codes + [Admin] ==> g.holderId in ids;
    if |ids| > 0 then
      assert ids[0] in ids;
      Query(HoldersWithId(holders, ids))
    else
      EmptyArrayList
  }

  /** groupsWithPermission: the groups holding, through their own Permission
      rows, the ALL code, the record's own code (RECORD.<ID> or DEFAULT) or
      ADMIN. Grants a group only has through a role are not consulted. */
  function GroupsWithPermission(className: string, owner: Record, permission: string,
                                permissionTable: seq<CodeRow>, groupTable: seq<Holder>): (l: Listing)
    ensures l.EmptyArrayList? <==>
      forall g :: g in permissionTable ==> g.code !in PermissionCodes(className, owner, permission) && g.code != Admin
    ensures forall h :: h in Rows(l) <==>
      h in groupTable &&
      exists g :: g in permissionTable && g.holderId == h.id &&
                  (g.code == Code(className, permission, "ALL") ||
                   g.code == PermissionCodes(className, owner, permission)[1] ||
                   g.code == Admin)
  {
    WithCodes(permissionTable, groupTable, PermissionCodes(className, owner, permission))
  }

  /** rolesWithPermission: the roles holding, through their PermissionRoleCode
      rows, the ALL code, the record's own code or ADMIN. */
  function RolesWithPermission(className: string, owner: Record, permission: string,
                               roleCodeTable: seq<CodeRow>, roleTable: seq<Holder>): (l: Listing)
    ensures l.EmptyArrayList? <==>
      forall g :: g in roleCodeTable ==> g.code !in PermissionCodes(className, owner, permission) && g.code != Admin
    ensures forall h :: h in Rows(l) <==>
      h in roleTable &&
      exists g :: g in roleCodeTable && g.holderId == h.id &&
                  (g.code == Code(className, permission, "ALL") ||
                   g.code == PermissionCodes(className, owner, permission)[1] ||
                   g.code == Admin)
  {
    WithCodes(roleCodeTable, roleTable, PermissionCodes(className, owner, permission))
  }

  /** A holder with an ADMIN row is listed for every class, record and operation. */
  lemma AdminHolderAlwaysListed(grants: seq<CodeRow>, holders: seq<Holder>, h: Holder,
                                className: string, owner: Record, permission: string)
    requires h in holders && CodeRow(Admin, h.id) in grants
    ensures h in Rows(GroupsWithPermission(className, owner, permission, grants, holders))
    ensures h in Rows(RolesWithPermission(className, owner, permission, grants, holders))
  {
  }

  /** Adding grant rows never removes a holder from a lookup. */
  lemma MoreGrantsNeverHide(grants: seq<CodeRow>, extra: seq<CodeRow>, holders: seq<Holder>, codes: seq<string>)
    ensures forall h :: h in Rows(WithCodes(grants, holders, codes)) ==> h in Rows(WithCodes(grants + extra, holders, codes))
  {
  }

  /** A record-specific grant lists its group for that record and for no other record. */
  lemma RecordGrantListsOnlyForItsRecord(className: string, owner: Record, permission: string,
                                         permissionTable: seq<CodeRow>, groupTable: seq<Holder>, h: Holder, id: nat)
    requires '_' !in permission
    requires h in groupTable
    requires forall g :: g in permissionTable ==> g == CodeRow(Code(className, permission, RecordScope(id)), h.id)
    ensures h in Rows(GroupsWithPermission(className, owner, permission, permissionTable, groupTable))
        <==> permissionTable != [] && IsRecordLevel(owner) && owner.id == id
  {
    var k := Code(className, permission, RecordScope(id));
    RecordCodeOpensOnlyItsRecord(className, owner, permission, id);
    var codes := PermissionCodes(className, owner, permission);
    assert k != Admin by {
      assert k[0] == 'A' && k[1] == 'C';
    }
    if permissionTable != [] {
      assert permissionTable[0] in permissionTable;
    }
  }
}
