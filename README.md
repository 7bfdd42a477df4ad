# Record-level ACL for data objects — a Dafny model

This project models the core of `ACLExtension`, a data-object extension for a
CMS ORM. The extension lets each record of an extended class run in one of two
permission models:

- **ClassLevel**: one grant covers every record of the class.
- **RecordLevel**: a grant is scoped to one record's ID.

The model covers four parts of the extension:

- **Code derivation** (`getPermissionCodes`). For a class, an operation (`VIEW`
  or `EDIT`) and the owning record, it returns the two codes that grant access:
  `ACL_<Class>_<Op>_ALL` first, then `..._RECORD.<ID>` for a record-level
  record or `..._DEFAULT` for any other record.
- **Operation aliasing** (`canView`, `canCreate`, `canEdit`, `canDelete`). View
  checks the VIEW codes; create, edit and delete all check the EDIT codes.
- **Reverse grant lookup** (`groupsWithPermission`, `rolesWithPermission`). It
  filters the grant tables for the derived codes plus `ADMIN`. It returns the
  matching groups or roles, or an empty `ArrayList` when no grant row matches.
- **Permission catalog** (`providePermissionsFor`, `providePermissions`). It
  builds a map from code to entry (category, name, sort). Each extended class
  gets DEFAULT and ALL per operation, one RECORD code per record-level record,
  and one `ACCESS_ADMIN` code with sort weight 100.

Files:

- `decimal.dfy` (module `Decimal`): the decimal text of a record ID, with its
  inverse.
- `acl_codes.dfy` (module `AclCodes`): code derivation, the `can*` selection,
  and the fact that a code determines its class, operation and scope.
- `acl_grants.dfy` (module `AclGrants`): the reverse lookups.
- `acl_catalog.dfy` (module `AclCatalog`): the two catalog builders. They are
  methods with loops over the records and over the classes. Each is proved equal
  to a fold (`PermissionsFor`, `Catalog`), and the lemmas state what the folds
  contain.

The external stores are plain data:

- a class's records: a sequence of `Record(id, title, permissionModel)`;
- the grant tables: sequences of `CodeRow(code, holderId)`;
- the group and role tables: sequences of `Holder(id, title)`;
- the class registry: a sequence of `DataClass(name, pluralName, hasAcl, records)`.

PHP's array union `$a += $b` keeps the keys already in `$a`. It is modelled by
`AddMissing(a, b)`, which is Dafny's `b + a`.

The main theorem is `AclCatalog.CatalogComplete`. Every code that derivation
produces for a stored record of an extended class, for VIEW or for EDIT, is a
key of the catalog.

`AclCodes.CodeInjective` is what makes the counting lemmas work. A code
`ACL_<Class>_<Op>_<Scope>` whose operation and scope contain no underscore
determines its class, even when the class name itself contains underscores.
So classes with different names never share a catalog key. The `+=` merges then
never meet an existing key, and each extended class contributes exactly
2 + 2 + 2·(record-level records) + 1 entries (`AclCatalog.CatalogSize`).

Two behaviours of the code are easy to miss:

- A record-level record that has no ID yet (ID 0) derives `..._RECORD.0`. The
  code does not fall back to `_DEFAULT` for unsaved records.
- The lookups return a query over the group or role table, or the distinguished
  empty `ArrayList`. They do not return a set. The query's order is the ORM's
  default order; the model lists the rows in table order (see "Left out").

## Model

| member | source | states |
|---|---|---|
| `Decimal.NatToString` | src/ACLExtension.php:143 | the ID text appended after `_RECORD.` is non-empty and all decimal digits; it starts with `0` only for ID 0, which is the single character `0`; it contains no `_` or `.` |
| `Decimal.DecimalRoundTrip` | src/ACLExtension.php:143 | reading the decimal text of an ID back gives the ID |
| `Decimal.NatToStringInjective` | src/ACLExtension.php:143 | distinct IDs give distinct `_RECORD.` suffixes |
| `AclCodes.PermissionCodes` | src/ACLExtension.php:136-148 | the derivation is total and returns exactly two codes, `<base>_ALL` first; the second is `<base>_RECORD.<ID>` when PermissionModel is exactly `RecordLevel`, and `<base>_DEFAULT` for `ClassLevel`, empty or any other value |
| `AclCodes.ActionAliases` | src/ACLExtension.php:80-98 | canView decides on the VIEW codes; canCreate, canEdit and canDelete all decide on the EDIT codes, so for every member check they agree |
| `AclCodes.CodeInjective` | src/ACLExtension.php:139-147 | a code whose operation and scope contain no underscore determines its class, operation and scope, whatever the class name holds |
| `AclCodes.RecordCodeDistinct` | src/ACLExtension.php:143-147 | within one class and operation, DEFAULT, ALL and every RECORD code are pairwise distinct, and a RECORD code names one ID |
| `AclCodes.RecordCodeOpensOnlyItsRecord` | src/ACLExtension.php:141-143 | the code `<base>_RECORD.<n>` is among a record's codes if and only if the record is record-level and its ID is n |
| `AclCodes.DefaultCodeOpensOnlyClassLevel` | src/ACLExtension.php:141-147 | the code `<base>_DEFAULT` is among a record's codes if and only if the record is not record-level |
| `AclCodes.CodesSeparateClassesAndOperations` | src/ACLExtension.php:138-139 | codes derived for different classes or different operations never coincide, so a VIEW grant never decides create, edit or delete |
| `AclGrants.IdsWithCode` | src/ACLExtension.php:106-108 | an id is in the projected GroupID/RoleID column exactly when some grant row with one of the codes carries it |
| `AclGrants.HoldersWithId` | src/ACLExtension.php:111 | a group or role row is selected exactly when its ID is one of the ids |
| `AclGrants.WithCodes` | src/ACLExtension.php:104-131 | the result is the empty ArrayList exactly when no grant row has one of the codes or ADMIN; otherwise it lists exactly the holders with a direct grant row for one of the codes or ADMIN |
| `AclGrants.GroupsWithPermission` | src/ACLExtension.php:104-115 | lists exactly the groups whose own Permission rows hold the ALL code, the record's own code or ADMIN, and is the empty ArrayList exactly when no row matches; role grants are not consulted |
| `AclGrants.RolesWithPermission` | src/ACLExtension.php:120-131 | lists exactly the roles whose PermissionRoleCode rows hold the ALL code, the record's own code or ADMIN, and is the empty ArrayList exactly when no row matches |
| `AclGrants.AdminHolderAlwaysListed` | src/ACLExtension.php:107 | a group or role holding ADMIN is listed for every class, record and operation |
| `AclGrants.MoreGrantsNeverHide` | src/ACLExtension.php:106-111 | adding grant rows never removes a holder from a lookup |
| `AclGrants.RecordGrantListsOnlyForItsRecord` | src/ACLExtension.php:104-115 | a group whose only grant is `<base>_RECORD.<n>` is listed for a record if and only if the record is record-level with ID n |
| `AclCatalog.ProvidePermissionsFor` | src/ACLExtension.php:178-221 | the loop builds exactly `PermissionsFor`: DEFAULT and ALL, then one entry per record-level record in store order |
| `AclCatalog.PermissionsForKeys` | src/ACLExtension.php:190-218 | the keys are exactly `<base>_DEFAULT`, `<base>_ALL` and `<base>_RECORD.<ID>` of each record-level record |
| `AclCatalog.PermissionsForRecordKey` | src/ACLExtension.php:209-217 | `<base>_RECORD.<n>` is a key exactly when some record-level record has ID n |
| `AclCatalog.PermissionsForCategories` | src/ACLExtension.php:186-217 | DEFAULT has category (A) and name "<Label> standard <Plural>"; ALL has category (C) and name "<Label> all <Plural>"; every other key has category (B); no entry has a sort weight |
| `AclCatalog.PermissionsForRecords` | src/ACLExtension.php:209-217 | with distinct IDs, a stored record has a key exactly when it is record-level, and the key holds its own "<Title> - <Label>" entry in category (B) |
| `AclCatalog.PermissionsForSize` | src/ACLExtension.php:190-218 | with distinct IDs there are exactly 2 + (record-level records) entries |
| `AclCatalog.AddMissing` | src/ACLExtension.php:160-161 | `+=` keeps every existing key with its entry and only adds the missing keys |
| `AclCatalog.ProvidePermissions` | src/ACLExtension.php:153-173 | the loop over the registry builds exactly `Catalog`: per extended class, VIEW entries `+=`, EDIT entries `+=`, then the ACCESS_ADMIN assignment |
| `AclCatalog.CatalogKeys` | src/ACLExtension.php:157-170 | a code is a catalog key exactly when it is a VIEW, EDIT or ACCESS_ADMIN key of some class carrying the extension; classes without it add nothing |
| `AclCatalog.CatalogComplete` | src/ACLExtension.php:136-217 | every code derived for a stored record of an extended class, for VIEW or for EDIT, is a catalog key |
| `AclCatalog.ClassKeysDisjoint` | src/ACLExtension.php:160-164 | classes with different names contribute disjoint key sets |
| `AclCatalog.AddClassSize` | src/ACLExtension.php:159-168 | one extended class with distinct IDs adds 2 + 2 + 2·(record-level records) + 1 entries to a catalog holding none of its keys |
| `AclCatalog.CatalogSize` | src/ACLExtension.php:155-172 | with distinct class names and IDs, the catalog has exactly the sum over extended classes of 2 + 2 + 2·(record-level records) + 1 entries |
| `AclCatalog.CatalogEntries` | src/ACLExtension.php:157-170 | with distinct class names, every entry a class contributes reaches the catalog unchanged |
| `AclCatalog.CatalogAdminEntry` | src/ACLExtension.php:164-168 | each extended class has its `ACL_<Class>_ACCESS_ADMIN` entry in category (C), named "View/Edit permissions for <Plural>", with sort 100 |
| `AclCatalog.PageCatalogSize` | src/ACLExtension.php:153-221 | a Page class with one record-level record (ID 5) and one class-level record gets 7 catalog entries |
| `AclCatalog.PageSecretKeys` | src/ACLExtension.php:190-217 | in that example, `ACL_Page_VIEW_ALL`, `ACL_Page_VIEW_RECORD.5`, `ACL_Page_EDIT_ALL` and `ACL_Page_EDIT_RECORD.5` are keys |
| `AclCatalog.PagePublicKeys` | src/ACLExtension.php:190-199 | in that example, `ACL_Page_VIEW_DEFAULT` and `ACL_Page_EDIT_DEFAULT` are keys |
| `AclCatalog.PageAdminKey` | src/ACLExtension.php:164-168 | in that example, `ACL_Page_ACCESS_ADMIN` is a key with sort 100 |

## Left out

- `updateCMSFields` (src/ACLExtension.php:28-61) is CMS form wiring: tabs, option and read-only fields, and field removal. The `EmptyArrayList` result of the lookups is kept because this method tests for it.
- `getViewGroups`, `getEditGroups`, `getViewRoles` and `getEditRoles` only join the titles of a lookup's rows with ", ". This is display formatting.
- `Permission::checkMember` is not part of this model. It is the framework's member check, including group membership, group-to-role resolution and the ADMIN override. The `Can*` functions take it as an opaque predicate over the code list.
- ORM queries are not modelled. `Permission::get()`, `PermissionRoleCode::get()`, `Group::get()`, `PermissionRole::get()` and `DataObject::get($class)` become input sequences. The default sort order of a query result is not modelled; rows come back in table order.
- `ClassInfo::subclassesFor` and `Extensible::has_extension` are reflection. They become the registry sequence and each class's `hasAcl` flag.
- `_t` translation and `singleton(...)->plural_name()` are not modelled. Entry names are the untranslated English defaults. The plural label is an input field of the class.
- The unreachable `return $codes;` (src/ACLExtension.php:150) is not modelled.
- A missing (null) PermissionModel is modelled as the empty string. The code then takes the `_DEFAULT` branch, as the switch's default case does.
- `AclCatalog.CatalogSize` assumes distinct class names and distinct record IDs within each class. `AclCatalog.CatalogEntries` and `AclCatalog.CatalogAdminEntry` assume distinct class names. `AclCatalog.PermissionsForRecords`, `AclCatalog.PermissionsForSize` and `AclCatalog.AddClassSize` assume distinct record IDs. The registry and the database guarantee these; the model does not derive them.
- `AclCatalog.CatalogComplete` and `AclCatalog.CatalogSize` treat the class hierarchy as flat. Each `DataClass` is one concrete class, and its `records` are the records whose runtime class is exactly that class. This is the class name `get_class` gives the derivation (src/ACLExtension.php:138).
  - In the source, `DataObject::get($class)` (src/ACLExtension.php:209) also returns instances of subclasses.
  - `has_extension` (src/ACLExtension.php:159) also holds for subclasses of an extended class.
  - So when an extended class has subclasses, the source's catalog also holds RECORD keys for subclass records under every ancestor's name, and these keys are not counted by `CatalogSize`.
  - Inheritance of the extension is not modelled: `hasAcl` is given per class.
- The reverse lookups match a Permission row on its Code alone, as src/ACLExtension.php:106-108 does. The row's Type (grant, deny or inherit) and Arg columns are not modelled, so a deny row lists its group just like a grant row.
