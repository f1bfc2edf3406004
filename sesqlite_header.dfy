/**
 * The declarations shared by the SeSQLite extension: SELinux object classes and permission
 * codes, the class/permission table that names them for the policy, the record that holds one
 * labelling rule, the hidden label column, and the interface of the SELinux library that the
 * engine consults.
 */
module SesqliteHeader {
  import opened Wrappers

  // Object classes.
  const DbDatabase: nat := 0
  const DbTable: nat := 1
  const DbColumn: nat := 2
  const DbTuple: nat := 3

  // Permissions common to every database object.
  const Create: nat := 0
  const Drop: nat := 1
  const GetAttr: nat := 2
  const SetAttr: nat := 3
  const RelabelFrom: nat := 4
  const RelabelTo: nat := 5
  // Permissions on data.
  const Select: nat := 6
  const Update: nat := 7
  const Insert: nat := 8
  const Delete: nat := 9
  /** The database `access` permission shares its code with `select`. */
  const Access: nat := Select

  /** Bounds the SQL-callable access check uses when it scans the table by name. */
  const NElemClass: nat := 3
  const NElemPerm: nat := 10

  /** The hidden column appended to every user table to hold a row's label id. */
  const SecurityContextColumnName: string := "security_context"
  const SecurityContextColumnType: string := "hidden INT"

  /** The metadata tables: object labels, and the label registry. */
  const SelinuxContextTable: string := "selinux_context"
  const SelinuxIdTable: string := "selinux_id"

  /** The column definition text: name, one space, type. */
  function SecurityContextColumnDefinition(): (d: string)
    ensures d == "security_context hidden INT"
  {
    SecurityContextColumnName + " " + SecurityContextColumnType
  }

  /** One filled permission slot of a class: the policy's name for it and its code. */
  datatype Permission = Permission(name: string, code: nat)

  /**
   * One entry of the class table. `perms` holds the filled slots of the C array `perm[32]`,
   * in order; the slots after them are zero-filled in C and are never a valid permission.
   */
  datatype SecurityClass = SecurityClass(name: string, code: nat, perms: seq<Permission>)

  const AccessVector: seq<SecurityClass> := [
    SecurityClass("db_database", DbDatabase, [
      Permission("create", Create), Permission("drop", Drop),
      Permission("getattr", GetAttr), Permission("setattr", SetAttr),
      Permission("relabelfrom", RelabelFrom), Permission("relabelto", RelabelTo),
      Permission("access", Access)]),
    SecurityClass("db_table", DbTable, [
      Permission("create", Create), Permission("drop", Drop),
      Permission("getattr", GetAttr), Permission("setattr", SetAttr),
      Permission("relabelfrom", RelabelFrom), Permission("relabelto", RelabelTo),
      Permission("select", Select), Permission("update", Update),
      Permission("insert", Insert), Permission("delete", Delete)]),
    SecurityClass("db_column", DbColumn, [
      Permission("create", Create), Permission("drop", Drop),
      Permission("getattr", GetAttr), Permission("setattr", SetAttr),
      Permission("relabelfrom", RelabelFrom), Permission("relabelto", RelabelTo),
      Permission("select", Select), Permission("update", Update),
      Permission("insert", Insert)]),
    SecurityClass("db_tuple", DbTuple, [
      Permission("relabelfrom", RelabelFrom), Permission("relabelto", RelabelTo),
      Permission("select", Select), Permission("update", Update),
      Permission("insert", Insert), Permission("delete", Delete)])
  ]

  /** `access_vector[tclass].perm[perm]` names a filled slot. */
  predicate ValidSlot(tclass: nat, perm: nat) {
    tclass < |AccessVector| && perm < |AccessVector[tclass].perms|
  }

  /** The class name stored for a class code: the name the policy is asked about. */
  function ClassNameOf(code: nat): string {
    if code == DbDatabase then "db_database"
    else if code == DbTable then "db_table"
    else if code == DbColumn then "db_column"
    else if code == DbTuple then "db_tuple"
    else ""
  }

  /** The permission codes each class has a slot for. */
  predicate HasPermCode(code: nat, pcode: nat) {
    (code == DbDatabase && pcode <= Access)
    || (code == DbTable && pcode <= Delete)
    || (code == DbColumn && pcode <= Insert)
    || (code == DbTuple && RelabelFrom <= pcode <= Delete)
  }

  /** The name of permission code `pcode` in class `code`, or "" when the class has no such slot. */
  function PermNameOf(code: nat, pcode: nat): string {
    if !HasPermCode(code, pcode) then ""
    else if code == DbDatabase && pcode == Access then "access"
    else if pcode == Create then "create"
    else if pcode == Drop then "drop"
    else if pcode == GetAttr then "getattr"
    else if pcode == SetAttr then "setattr"
    else if pcode == RelabelFrom then "relabelfrom"
    else if pcode == RelabelTo then "relabelto"
    else if pcode == Select then "select"
    else if pcode == Update then "update"
    else if pcode == Insert then "insert"
    else "delete"
  }

  /** The four classes sit at the positions their codes name. */
  lemma ClassCodesAreIndices()
    ensures |AccessVector| == 4
    ensures forall i :: 0 <= i < |AccessVector| ==> AccessVector[i].code == i
    ensures AccessVector[DbDatabase].name == "db_database" && AccessVector[DbTable].name == "db_table"
    ensures AccessVector[DbColumn].name == "db_column" && AccessVector[DbTuple].name == "db_tuple"
  {
    forall i | 0 <= i < |AccessVector| ensures AccessVector[i].code == i {
      if i == 0 {} else if i == 1 {} else if i == 2 {} else {}
    }
  }

  /** create .. delete are the distinct codes 0 .. 9, and access is select. */
  lemma PermissionCodes()
    ensures [Create, Drop, GetAttr, SetAttr, RelabelFrom, RelabelTo, Select, Update, Insert, Delete]
            == [0, 1, 2, 3, 4, 5, 6, 7, 8, 9]
    ensures Access == Select == 6
  {
  }

  /**
   * For db_database, db_table and db_column the slot at position k holds code k, so indexing
   * `perm[]` by a permission code (as the access check does) finds that permission.
   */
  lemma SlotCodesMatchPositions(tclass: nat, k: nat)
    requires tclass <= DbColumn && ValidSlot(tclass, k)
    ensures AccessVector[tclass].perms[k].code == k
  {
    if tclass == 0 {
      if k == 0 {} else if k == 1 {} else if k == 2 {} else if k == 3 {} else if k == 4 {}
      else if k == 5 {} else {}
    } else if tclass == 1 {
      if k == 0 {} else if k == 1 {} else if k == 2 {} else if k == 3 {} else if k == 4 {}
      else if k == 5 {} else if k == 6 {} else if k == 7 {} else if k == 8 {} else {}
    } else {
      if k == 0 {} else if k == 1 {} else if k == 2 {} else if k == 3 {} else if k == 4 {}
      else if k == 5 {} else if k == 6 {} else if k == 7 {} else {}
    }
  }

  /** db_column has no `delete` slot; db_tuple has no create, drop, getattr or setattr. */
  lemma MissingPermissions()
    ensures forall k :: 0 <= k < |AccessVector[DbColumn].perms| ==> AccessVector[DbColumn].perms[k].code != Delete
    ensures !ValidSlot(DbColumn, Delete)
    ensures forall k :: 0 <= k < |AccessVector[DbTuple].perms| ==>
              AccessVector[DbTuple].perms[k].code !in {Create, Drop, GetAttr, SetAttr}
  {
    forall k | 0 <= k < |AccessVector[DbColumn].perms|
      ensures AccessVector[DbColumn].perms[k].code != Delete
    {
      SlotCodesMatchPositions(DbColumn, k);
    }
    forall k | 0 <= k < |AccessVector[DbTuple].perms|
      ensures AccessVector[DbTuple].perms[k].code !in {Create, Drop, GetAttr, SetAttr}
    {
      if k == 0 {} else if k == 1 {} else if k == 2 {} else if k == 3 {} else if k == 4 {} else {}
    }
  }

  /** Within one class no two filled slots share a code. */
  predicate DistinctCodes(perms: seq<Permission>) {
    forall i, j :: 0 <= i < j < |perms| ==> perms[i].code != perms[j].code
  }

  lemma AllClassesHaveDistinctCodes(tclass: nat)
    requires tclass < |AccessVector|
    ensures DistinctCodes(AccessVector[tclass].perms)
  {
    var perms := AccessVector[tclass].perms;
    if tclass <= DbColumn {
      forall i, j | 0 <= i < j < |perms| ensures perms[i].code != perms[j].code {
        SlotCodesMatchPositions(tclass, i);
        SlotCodesMatchPositions(tclass, j);
      }
    } else {
      assert tclass == 3;
      forall i, j | 0 <= i < j < |perms| ensures perms[i].code != perms[j].code {
        assert perms[i].code == i + 4 by {
          if i == 0 {} else if i == 1 {} else if i == 2 {} else if i == 3 {} else if i == 4 {} else {}
        }
        assert perms[j].code == j + 4 by {
          if j == 0 {} else if j == 1 {} else if j == 2 {} else if j == 3 {} else if j == 4 {} else {}
        }
      }
    }
  }

  /**
   * The codes stored in a cache key name the same class and permission that the check was made
   * for: the key (class code, permission code) determines the names passed to the policy, as the
   * table lists them.
   */
  lemma NamesRecoveredFromCodes(tclass: nat, perm: nat)
    requires ValidSlot(tclass, perm)
    ensures ClassNameOf(AccessVector[tclass].code) == AccessVector[tclass].name
    ensures PermNameOf(AccessVector[tclass].code, AccessVector[tclass].perms[perm].code)
            == AccessVector[tclass].perms[perm].name
  {
    var k := perm;
    if tclass == 0 {
      if k == 0 {} else if k == 1 {} else if k == 2 {} else if k == 3 {} else if k == 4 {}
      else if k == 5 {} else {}
    } else if tclass == 1 {
      if k == 0 {} else if k == 1 {} else if k == 2 {} else if k == 3 {} else if k == 4 {}
      else if k == 5 {} else if k == 6 {} else if k == 7 {} else if k == 8 {} else {}
    } else if tclass == 2 {
      if k == 0 {} else if k == 1 {} else if k == 2 {} else if k == 3 {} else if k == 4 {}
      else if k == 5 {} else if k == 6 {} else if k == 7 {} else {}
    } else {
      if k == 0 {} else if k == 1 {} else if k == 2 {} else if k == 3 {} else if k == 4 {} else {}
    }
  }

  /** One rule of a per-class rule list: the origin pattern, its segments, and the label. */
  datatype ContextElement = ContextElement(
    origin: string,
    fparam: string,
    sparam: string,
    tparam: string,
    securityContext: string)

  /** The rule lists, one per object class (the view list is declared but never filled or read). */
  datatype SesqliteContext = SesqliteContext(
    dbContext: seq<ContextElement>,
    tableContext: seq<ContextElement>,
    viewContext: seq<ContextElement>,
    columnContext: seq<ContextElement>,
    tupleContext: seq<ContextElement>)

  /**
   * The SELinux library, as the engine sees it. None of it is reimplemented: each call is a
   * fixed function of its arguments for the life of a connection.
   */
  datatype Policy = Policy(
    /** The process's own context, from `getcon`. */
    scon: string,
    /** What `getcon` returned. */
    getconRc: int,
    /** `security_compute_create_raw(scon, scon, tclass)`: the default label, or None when it fails. */
    computeCreate: int -> Option<string>,
    /** `selinux_check_access(scon, target, class, perm)`; 0 grants. A None target is a NULL pointer. */
    checkAccess: (string, Option<string>, string, string) -> int)
}
