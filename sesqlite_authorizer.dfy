/**
 * The newer SeSQLite engine: the label registry (`insert_id`), the object-to-id cache
 * (`getContext`), the access vector cache (`checkAccess`), the column scan, the authorizer
 * callback with its database pre-check, the vacuum flag and the AVC flush on commit and rollback.
 */
module SesqliteAuthorizer {
  import opened Wrappers
  import opened SesqliteHeader
  import CI = CaseInsensitive
  import CL = ComputeLabel
  import opened AuthEvents

  /** `make_key(db, table, column)`: the object cache key. Distinct coordinates give distinct keys. */
  datatype ObjKey = ObjKey(db: Option<string>, table: Option<string>, column: Option<string>)

  function KeyOf(r: Request): ObjKey {
    ObjKey(r.db, r.table, r.column)
  }

  /** `compress(subject id, object id, class code, permission code)`, taken to be injective. */
  datatype AvcKey = AvcKey(subjectId: int, objectId: int, classCode: nat, permCode: nat)

  /** What the AVC stores: which of the two sentinels `avc_allow` and `avc_deny`. */
  datatype AvcEntry = AvcAllow | AvcDeny

  /** A row of the persisted `selinux_id` table (its rowid is its position plus one). */
  datatype IdRow = IdRow(securityContext: int, securityLabel: string)

  /** The key has the coordinates its class calls for. */
  predicate KeyShaped(key: ObjKey, tclass: nat) {
    key.db.Some?
    && (tclass == DbDatabase ==> key.table.None? && key.column.None?)
    && (tclass == DbTable ==> key.table.Some? && key.column.None?)
    && (tclass == DbColumn ==> key.table.Some? && key.column.Some?)
    && tclass <= DbColumn
  }

  /** A check the engine can make: a database, table or column, with a filled permission slot. */
  predicate WellShaped(r: Request) {
    KeyShaped(KeyOf(r), r.tclass) && ValidSlot(r.tclass, r.perm)
  }

  /**
   * The label `getContext` computes for an uncached key: the database, table or column rules
   * (the last with the column consulted), the database lookup using the corrected call.
   */
  function ResolveObject(contexts: SesqliteContext, policy: Policy, key: ObjKey): (target: Option<string>)
    ensures target.Some? ==> key.db.Some? && (key.column.Some? ==> key.table.Some?)
  {
    match key
    case ObjKey(Some(db), None, None) => CL.DatabaseLabel(db, contexts.dbContext, policy).res
    case ObjKey(Some(db), Some(t), None) => CL.SqlContext(false, db, t, "", contexts.tableContext, policy, None).res
    case ObjKey(Some(db), Some(t), Some(c)) => CL.SqlContext(true, db, t, c, contexts.columnContext, policy, None).res
    case _ => None
  }

  /**
   * The decision of one check: the policy's answer for the process context, the object's label,
   * and the class and permission names. A check whose label cannot be resolved is denied.
   */
  function Allowed(contexts: SesqliteContext, policy: Policy, r: Request): (ok: bool)
    ensures ok ==> WellShaped(r) && ResolveObject(contexts, policy, KeyOf(r)).Some?
  {
    WellShaped(r) &&
    match ResolveObject(contexts, policy, KeyOf(r))
    case None => false
    case Some(target) =>
      policy.checkAccess(policy.scon, Some(target), AccessVector[r.tclass].name,
                         AccessVector[r.tclass].perms[r.perm].name) == 0
  }

  function Decide(contexts: SesqliteContext, policy: Policy): Request -> bool {
    r => Allowed(contexts, policy, r)
  }

  /* ----- The authorizer's dispatch ----- */

  predicate CreatesTable(action: int) {
    action in {SqliteCreateTable, SqliteCreateTempTable, SqliteCreateTempView, SqliteCreateView}
  }

  predicate SetsTableAttr(action: int) {
    action in {SqliteCreateTrigger, SqliteDropIndex, SqliteDropTrigger}
  }

  predicate DropsWithColumns(action: int) {
    action in {SqliteDropTable, SqliteDropTempTable, SqliteDropView, SqliteDropVtable}
  }

  /** The actions the switch makes a decision for; every other code falls to `default`. */
  predicate Handled(action: int) {
    CreatesTable(action) || SetsTableAttr(action) || DropsWithColumns(action)
    || action in {SqliteDelete, SqliteDropTempView, SqliteInsert, SqlitePragma, SqliteRead,
                  SqliteUpdate, SqliteAttach, SqliteDetach, SqliteAlterTable}
  }

  /** `sqlite3_stricmp(arg1, "writable_schema") == 0`; a NULL name compares unequal. */
  predicate IsWritableSchema(arg1: Option<string>) {
    arg1.Some? && CI.Compare(arg1.value, "writable_schema") == 0
  }

  /** The database ACCESS check that precedes the switch when a database name is given. */
  function PreCheck(dbname: Option<string>, allowed: Request -> bool): (o: Outcome)
    ensures o.checks == if dbname.Some? then [DatabaseRequest(dbname)] else []
    ensures o.rc == SqliteOk <==> (dbname.Some? ==> allowed(DatabaseRequest(dbname)))
    ensures o.rc == SqliteOk || o.rc == SqliteDeny
  {
    if dbname.Some? then Check(DatabaseRequest(dbname), allowed) else Outcome(SqliteOk, [])
  }

  /** The switch of `selinuxAuthorizer`, on its own. */
  function ActionOutcome(action: int, arg1: Option<string>, arg2: Option<string>, dbname: Option<string>,
                         allowed: Request -> bool, schema: Schema): (o: Outcome)
    ensures o.rc == SqliteOk || o.rc == SqliteDeny
    ensures forall i :: 0 <= i < |o.checks| - 1 ==> allowed(o.checks[i])
  {
    if CreatesTable(action) then Check(TableRequest(dbname, arg1, Create), allowed)
    else if SetsTableAttr(action) then Check(TableRequest(dbname, arg2, SetAttr), allowed)
    else if action == SqliteDelete then Check(TableRequest(dbname, arg1, Delete), allowed)
    else if DropsWithColumns(action) then
      TableThen(TableRequest(dbname, arg1, Drop), AllColumns(dbname, arg1, Drop, allowed, schema), allowed)
    else if action == SqliteDropTempView then Check(TableRequest(dbname, arg1, Drop), allowed)
    else if action == SqliteInsert then
      TableThen(TableRequest(dbname, arg1, Insert), AllColumns(dbname, arg1, Insert, allowed, schema), allowed)
    else if action == SqlitePragma then
      Outcome(if IsWritableSchema(arg1) then SqliteDeny else SqliteOk, [])
    else if action == SqliteRead then
      TableThen(TableRequest(dbname, arg1, Select), Check(ColumnRequest(dbname, arg1, arg2, Select), allowed), allowed)
    else if action == SqliteUpdate then Check(ColumnRequest(dbname, arg1, arg2, Update), allowed)
    else if action == SqliteAttach || action == SqliteDetach then
      Outcome(if arg1.Some? && |arg1.value| != 0 then SqliteDeny else SqliteOk, [])
    else if action == SqliteAlterTable then Check(TableRequest(arg1, arg2, GetAttr), allowed)
    else Outcome(SqliteOk, [])
  }

  /**
   * `selinuxAuthorizer`: the pre-check, then the switch; rc starts OK and each failing check sets
   * it to DENY, so it is DENY exactly when the pre-check or the switch denied.
   */
  function Dispatch(action: int, arg1: Option<string>, arg2: Option<string>, dbname: Option<string>,
                    allowed: Request -> bool, schema: Schema): (o: Outcome)
    ensures o.rc == SqliteOk || o.rc == SqliteDeny
  {
    var pre := PreCheck(dbname, allowed);
    var act := ActionOutcome(action, arg1, arg2, dbname, allowed, schema);
    Outcome(if pre.rc == SqliteOk && act.rc == SqliteOk then SqliteOk else SqliteDeny, pre.checks + act.checks)
  }

  /** The database check is made first, and when it fails no later branch can grant the operation. */
  lemma DatabaseDenyIsFinal(action: int, arg1: Option<string>, arg2: Option<string>, db: string,
                            allowed: Request -> bool, schema: Schema)
    ensures var o := Dispatch(action, arg1, arg2, Some(db), allowed, schema);
            |o.checks| >= 1 && o.checks[0] == DatabaseRequest(Some(db))
            && (!allowed(DatabaseRequest(Some(db))) ==> o.rc == SqliteDeny)
  {
  }

  /** READ passes exactly when the database, the table and the column all pass; the column is checked only after the table passes. */
  lemma ReadIsConjunction(table: string, column: string, db: string, allowed: Request -> bool, schema: Schema)
    ensures var o := Dispatch(SqliteRead, Some(table), Some(column), Some(db), allowed, schema);
            var dbReq := DatabaseRequest(Some(db));
            var tblReq := TableRequest(Some(db), Some(table), Select);
            var colReq := ColumnRequest(Some(db), Some(table), Some(column), Select);
            (o.rc == SqliteOk <==> allowed(dbReq) && allowed(tblReq) && allowed(colReq))
            && o.checks == (if allowed(tblReq) then [dbReq, tblReq, colReq] else [dbReq, tblReq])
  {
  }

  /**
   * DROP TABLE / DROP TEMP TABLE / DROP VIEW / DROP VTABLE and INSERT pass exactly when the
   * database check, the table check and every column check pass; the columns are scanned only
   * after the table check passes.
   */
  lemma TableThenColumnsIsConjunction(action: int, table: string, arg2: Option<string>, db: string,
                                      allowed: Request -> bool, schema: Schema)
    requires DropsWithColumns(action) || action == SqliteInsert
    ensures var perm := if action == SqliteInsert then Insert else Drop;
            var o := Dispatch(action, Some(table), arg2, Some(db), allowed, schema);
            var tblReq := TableRequest(Some(db), Some(table), perm);
            (o.rc == SqliteOk <==>
               allowed(DatabaseRequest(Some(db))) && allowed(tblReq)
               && match schema(db, table)
                  case None => true
                  case Some(columns) => forall j :: 0 <= j < |columns| ==>
                                          allowed(ColumnRequest(Some(db), Some(table), Some(columns[j]), perm)))
            && (!allowed(tblReq) ==> o.checks == [DatabaseRequest(Some(db)), tblReq])
  {
    var perm := if action == SqliteInsert then Insert else Drop;
    AllColumnsIsConjunction(Some(db), Some(table), perm, allowed, schema);
  }

  /** ATTACH and DETACH make no check of their own and deny exactly a non-empty argument. */
  lemma AttachDetachDenyNonEmpty(action: int, arg1: Option<string>, arg2: Option<string>,
                                 dbname: Option<string>, allowed: Request -> bool, schema: Schema)
    requires action == SqliteAttach || action == SqliteDetach
    ensures var o := Dispatch(action, arg1, arg2, dbname, allowed, schema);
            o.checks == PreCheck(dbname, allowed).checks
            && (o.rc == SqliteDeny <==>
                  PreCheck(dbname, allowed).rc == SqliteDeny || (arg1.Some? && |arg1.value| != 0))
  {
  }

  /** PRAGMA denies `writable_schema` in any letter case, and lets any other pragma through. */
  lemma PragmaWritableSchemaDenied(arg1: Option<string>, arg2: Option<string>, dbname: Option<string>,
                                   allowed: Request -> bool, schema: Schema)
    ensures var o := Dispatch(SqlitePragma, arg1, arg2, dbname, allowed, schema);
            o.checks == PreCheck(dbname, allowed).checks
            && (o.rc == SqliteDeny <==> PreCheck(dbname, allowed).rc == SqliteDeny || IsWritableSchema(arg1))
  {
  }

  /** A pragma name is `writable_schema` exactly when it lower-cases to it; a NULL name never is. */
  lemma WritableSchemaIgnoresCase(name: string)
    ensures IsWritableSchema(Some(name)) <==> CI.LowerAll(name) == CI.LowerAll("writable_schema")
    ensures !IsWritableSchema(None)
  {
    CI.CompareZeroIffSameLowered(name, "writable_schema");
  }

  /** An action the switch does not handle is decided by the database pre-check alone. */
  lemma UnhandledActionsOnlyPreCheck(action: int, arg1: Option<string>, arg2: Option<string>,
                                     dbname: Option<string>, allowed: Request -> bool, schema: Schema)
    requires !Handled(action)
    ensures Dispatch(action, arg1, arg2, dbname, allowed, schema) == PreCheck(dbname, allowed)
  {
  }

  /**
   * Dropping a table whose table-level check passes, whose first column passes and whose second
   * column fails is denied, after checking the database, the table and both columns.
   */
  lemma DropDeniedBySecondColumn(db: string, table: string, c1: string, c2: string,
                                 allowed: Request -> bool, schema: Schema)
    requires schema(db, table) == Some([c1, c2])
    requires allowed(DatabaseRequest(Some(db))) && allowed(TableRequest(Some(db), Some(table), Drop))
    requires allowed(ColumnRequest(Some(db), Some(table), Some(c1), Drop))
    requires !allowed(ColumnRequest(Some(db), Some(table), Some(c2), Drop))
    ensures var o := Dispatch(SqliteDropTable, Some(table), None, Some(db), allowed, schema);
            o.rc == SqliteDeny
            && o.checks == [DatabaseRequest(Some(db)), TableRequest(Some(db), Some(table), Drop),
                            ColumnRequest(Some(db), Some(table), Some(c1), Drop),
                            ColumnRequest(Some(db), Some(table), Some(c2), Drop)]
  {
    var reqs := ColumnRequests(Some(db), Some(table), [c1, c2], Drop);
    FirstDeniedAt(reqs, allowed, 1);
    assert reqs[..2] == reqs;
  }

  /** A table rule for main.secret. */
  const SecretTableRule := ContextElement("main.secret", "main", "secret", "", "ctx_secret")

  /**
   * Label assignment then check: with the rule above, main.secret resolves to ctx_secret, and if
   * the policy refuses select on ctx_secret, reading any column of main.secret is denied.
   */
  lemma SecretTableReadDenied(contexts: SesqliteContext, policy: Policy, column: string, schema: Schema)
    requires contexts.tableContext == [SecretTableRule]
    requires policy.checkAccess(policy.scon, Some("ctx_secret"), "db_table", "select") != 0
    ensures ResolveObject(contexts, policy, ObjKey(Some("main"), Some("secret"), None)) == Some("ctx_secret")
    ensures Dispatch(SqliteRead, Some("secret"), Some(column), Some("main"), Decide(contexts, policy), schema).rc
            == SqliteDeny
  {
    assert CI.Compare("main", "main") == 0 && CI.Compare("secret", "secret") == 0;
    assert CL.RuleMatches(false, "main", "secret", "", SecretTableRule);
    var tblReq := TableRequest(Some("main"), Some("secret"), Select);
    assert AccessVector[DbTable].perms[Select].name == "select";
    assert !Allowed(contexts, policy, tblReq);
  }

  /* ----- The engine's state and its operations ----- */

  /**
   * The arguments SQLite supplies for each action the switch checks: a database name, and the
   * table (and column) names that the checks are made on.
   */
  predicate ArgsPresent(action: int, arg1: Option<string>, arg2: Option<string>, dbname: Option<string>) {
    ((CreatesTable(action) || DropsWithColumns(action)
      || action in {SqliteDelete, SqliteDropTempView, SqliteInsert, SqliteRead, SqliteUpdate})
       ==> dbname.Some? && arg1.Some?)
    && (SetsTableAttr(action) ==> dbname.Some? && arg2.Some?)
    && (action == SqliteRead || action == SqliteUpdate ==> arg2.Some?)
    && (action == SqliteAlterTable ==> arg1.Some? && arg2.Some?)
  }

  /**
   * `hash_id` is a bijection between labels and ids that mirrors the persisted table: the ids are
   * exactly the rowids 1..|rows|, and each id names its row's label.
   */
  ghost predicate Mirrors(rows: seq<IdRow>, idOf: map<string, int>, labelOf: map<int, string>) {
    (forall l :: l in idOf ==> idOf[l] in labelOf && labelOf[idOf[l]] == l)
    && (forall i :: i in labelOf ==> labelOf[i] in idOf && idOf[labelOf[i]] == i)
    && (forall i :: i in labelOf <==> 1 <= i <= |rows|)
    && (forall i :: i in labelOf ==> rows[i - 1].securityLabel == labelOf[i])
  }

  /** The label of the row with rowid `i`. */
  function RowAt(persisted: seq<string>, i: int): string
    requires 1 <= i <= |persisted|
  {
    persisted[i - 1]
  }

  /** The registry as loaded from a persisted `selinux_id` table. */
  function LoadedRows(persisted: seq<string>): seq<IdRow> {
    seq(|persisted|, j requires 0 <= j < |persisted| => IdRow(0, persisted[j]))
  }

  predicate DistinctLabels(persisted: seq<string>) {
    forall i, j :: 0 <= i < j < |persisted| ==> persisted[i] != persisted[j]
  }

  function LoadedIds(persisted: seq<string>): map<string, int>
    requires DistinctLabels(persisted)
  {
    map j | 0 <= j < |persisted| :: persisted[j] := j + 1
  }

  function LoadedLabels(persisted: seq<string>): map<int, string> {
    map i | 1 <= i <= |persisted| :: RowAt(persisted, i)
  }

  /** Row j's label is loaded under id j + 1. */
  lemma LoadedIdAt(persisted: seq<string>, j: int)
    requires DistinctLabels(persisted) && 0 <= j < |persisted|
    ensures persisted[j] in LoadedIds(persisted) && LoadedIds(persisted)[persisted[j]] == j + 1
  {
  }

  /** Every loaded label's id names it back. */
  lemma LoadedIdsNameLabels(persisted: seq<string>)
    requires DistinctLabels(persisted)
    ensures var idOf, labelOf := LoadedIds(persisted), LoadedLabels(persisted);
            forall l :: l in idOf ==> idOf[l] in labelOf && labelOf[idOf[l]] == l
  {
    var idOf, labelOf := LoadedIds(persisted), LoadedLabels(persisted);
    forall l | l in idOf ensures idOf[l] in labelOf && labelOf[idOf[l]] == l {
      var j :| 0 <= j < |persisted| && persisted[j] == l;
      LoadedIdAt(persisted, j);
    }
  }

  /** Every loaded id's label names it back. */
  lemma LoadedLabelsNameIds(persisted: seq<string>)
    requires DistinctLabels(persisted)
    ensures var idOf, labelOf := LoadedIds(persisted), LoadedLabels(persisted);
            forall i :: i in labelOf ==> labelOf[i] in idOf && idOf[labelOf[i]] == i
  {
    var idOf, labelOf := LoadedIds(persisted), LoadedLabels(persisted);
    forall i | i in labelOf ensures labelOf[i] in idOf && idOf[labelOf[i]] == i {
      LoadedIdAt(persisted, i - 1);
    }
  }

  /** A table with distinct labels loads into a mirroring `hash_id`. */
  lemma LoadedRegistryMirrors(persisted: seq<string>)
    requires DistinctLabels(persisted)
    ensures Mirrors(LoadedRows(persisted), LoadedIds(persisted), LoadedLabels(persisted))
  {
    LoadedIdsNameLabels(persisted);
    LoadedLabelsNameIds(persisted);
    LoadedLabelsAreRows(persisted);
  }

  /** The loaded ids are the rowids, each naming its row's label. */
  lemma LoadedLabelsAreRows(persisted: seq<string>)
    ensures var rows, labelOf := LoadedRows(persisted), LoadedLabels(persisted);
            (forall i :: i in labelOf <==> 1 <= i <= |rows|)
            && (forall i :: i in labelOf ==> rows[i - 1].securityLabel == labelOf[i])
  {
    var rows, labelOf := LoadedRows(persisted), LoadedLabels(persisted);
    assert |rows| == |persisted|;
  }

  /** `m2` keeps every entry of `m`. */
  ghost predicate Extends<K, V>(m: map<K, V>, m2: map<K, V>) {
    forall k :: k in m ==> k in m2 && m2[k] == m[k]
  }

  /*
   * Three facts about sequences that the scans and the authorizer need at each step. They are
   * proved here, each on its own, so that the methods' proofs stay small.
   */

  /** Extending a prefix by the next element. */
  lemma PrefixGrows<T>(s: seq<T>, j: nat)
    requires j < |s|
    ensures s[..j] + [s[j]] == s[..j + 1]
  {
  }

  /** Concatenation regroups. */
  lemma AppendRegroups<T>(a: seq<T>, b: seq<T>, c: seq<T>)
    ensures (a + b) + c == a + (b + c)
  {
  }

  /** A passing check extends the passing prefix. */
  lemma PassingPrefixGrows(reqs: seq<Request>, allowed: Request -> bool, j: nat)
    requires j < |reqs| && allowed(reqs[j])
    requires forall i :: 0 <= i < j ==> allowed(reqs[i])
    ensures forall i :: 0 <= i < j + 1 ==> allowed(reqs[i])
  {
  }

  /** Registering a new label as the next rowid keeps `hash_id` mirroring the table. */
  lemma RegisterKeepsMirror(rows: seq<IdRow>, idOf: map<string, int>, labelOf: map<int, string>, row: IdRow)
    requires Mirrors(rows, idOf, labelOf) && row.securityLabel !in idOf
    ensures |rows| + 1 !in labelOf
    ensures Mirrors(rows + [row], idOf[row.securityLabel := |rows| + 1], labelOf[|rows| + 1 := row.securityLabel])
  {
  }

  /** Every cached object id names a registered label: the one resolution gives that object. */
  ghost predicate ObjectsResolve(contexts: SesqliteContext, policy: Policy, objectIds: map<ObjKey, int>,
                                 labelOf: map<int, string>)
  {
    forall k :: k in objectIds ==>
      objectIds[k] in labelOf && ResolveObject(contexts, policy, k) == Some(labelOf[objectIds[k]])
  }

  /** The policy's answer for the process context and this key's class and permission on `target`. */
  ghost predicate PolicyGrants(policy: Policy, k: AvcKey, target: string) {
    policy.checkAccess(policy.scon, Some(target), ClassNameOf(k.classCode), PermNameOf(k.classCode, k.permCode)) == 0
  }

  /** Every AVC entry holds the policy's decision for its object's label, class and permission. */
  ghost predicate AvcSound(policy: Policy, avc: map<AvcKey, AvcEntry>, labelOf: map<int, string>) {
    forall k :: k in avc ==>
      k.objectId in labelOf && (avc[k] == AvcAllow <==> PolicyGrants(policy, k, labelOf[k.objectId]))
  }

  /** Registering labels invalidates neither cache. */
  lemma LabelsGrowKeepCaches(contexts: SesqliteContext, policy: Policy, objectIds: map<ObjKey, int>,
                             avc: map<AvcKey, AvcEntry>, labelOf: map<int, string>, labelOf2: map<int, string>)
    requires ObjectsResolve(contexts, policy, objectIds, labelOf) && AvcSound(policy, avc, labelOf)
    requires Extends(labelOf, labelOf2)
    ensures ObjectsResolve(contexts, policy, objectIds, labelOf2) && AvcSound(policy, avc, labelOf2)
  {
  }

  /** Caching an object under the id of the label it resolves to keeps the object cache valid. */
  lemma CacheKeyKeepsObjects(contexts: SesqliteContext, policy: Policy, objectIds: map<ObjKey, int>,
                             labelOf: map<int, string>, key: ObjKey, id: int)
    requires ObjectsResolve(contexts, policy, objectIds, labelOf)
    requires id in labelOf && ResolveObject(contexts, policy, key) == Some(labelOf[id])
    ensures ObjectsResolve(contexts, policy, objectIds[key := id], labelOf)
  {
  }

  /** Storing the policy's own decision for a registered object keeps the AVC valid. */
  lemma StoreKeepsAvcSound(policy: Policy, avc: map<AvcKey, AvcEntry>, labelOf: map<int, string>,
                           k: AvcKey, e: AvcEntry)
    requires AvcSound(policy, avc, labelOf) && k.objectId in labelOf
    requires e == AvcAllow <==> PolicyGrants(policy, k, labelOf[k.objectId])
    ensures AvcSound(policy, avc[k := e], labelOf)
  {
  }


  /** A labelled database connection: the registry, the object cache, the AVC and the vacuum flag. */
  class Engine {
    /** The rule lists, loaded once. */
    const contexts: SesqliteContext
    /** The SELinux library, with the process context `scon`. */
    const policy: Policy
    /** The registry id of `scon`. */
    const sconId: int

    /** The persisted `selinux_id` table. */
    var rows: seq<IdRow>
    /** `hash_id`, label to id. */
    var idOf: map<string, int>
    /** `hash_id`, id to label. */
    var labelOf: map<int, string>
    /** `hash`: object key to label id. */
    var objectIds: map<ObjKey, int>
    /** The userspace AVC. */
    var avc: map<AvcKey, AvcEntry>
    var vacuum: int

    /** How many times the policy has been asked for a decision. */
    ghost var oracleCalls: nat
    /** Every check made, in order. */
    ghost var log: seq<Request>

    /**
     * `hash_id` mirrors the table, every cached object id names the label its object resolves
     * to, and every AVC entry is the policy's decision.
     */
    ghost predicate Valid()
      reads this
    {
      Mirrors(rows, idOf, labelOf) && ObjectsResolve(contexts, policy, objectIds, labelOf)
      && AvcSound(policy, avc, labelOf)
    }

    /**
     * Since the earlier state the registry has only had rows appended, and `hash_id`, the
     * object cache and the AVC have only gained entries: no id is re-mapped and nothing is flushed.
     */
    twostate predicate Grown()
      reads this
    {
      old(rows) <= rows && Extends(old(idOf), idOf) && Extends(old(labelOf), labelOf)
      && Extends(old(objectIds), objectIds) && Extends(old(avc), avc)
    }

    /** Since the earlier state the policy has been asked at most once per check recorded. */
    twostate predicate OneCallPerCheck()
      reads this
    {
      old(oracleCalls) <= oracleCalls && oracleCalls - old(oracleCalls) <= |log| - |old(log)|
    }

    /** An engine over a persisted registry with distinct labels, loaded into `hash_id`; caches empty. */
    constructor (contexts: SesqliteContext, policy: Policy, sconId: int, persisted: seq<string>)
      requires DistinctLabels(persisted)
      ensures Valid()
      ensures this.contexts == contexts && this.policy == policy && this.sconId == sconId
      ensures |rows| == |persisted| && forall j :: 0 <= j < |rows| ==> rows[j].securityLabel == persisted[j]
      ensures objectIds == map[] && avc == map[] && vacuum == 0
      ensures oracleCalls == 0 && log == []
    {
      this.contexts := contexts;
      this.policy := policy;
      this.sconId := sconId;
      rows := LoadedRows(persisted);
      idOf := LoadedIds(persisted);
      labelOf := LoadedLabels(persisted);
      objectIds := map[];
      avc := map[];
      vacuum := 0;
      oracleCalls := 0;
      log := [];
      new;
      LoadedRegistryMirrors(persisted);
    }

    /** The label the tuple rules give the `selinux_id` table of `db`: the label of a new registry row. */
    function RowLabel(db: string): Option<string> {
      CL.SqlContext(false, db, SelinuxIdTable, "", contexts.tupleContext, policy, None).res
    }

    /** `lookup_security_context` can find the id of that label, as its assertion demands. */
    predicate RowLabelReady(db: string)
      reads this
    {
      RowLabel(db).Some? && RowLabel(db).value in idOf
    }

    function RowContextId(db: string): int
      requires RowLabelReady(db)
      reads this
    {
      idOf[RowLabel(db).value]
    }

    /** `insert_id(db, label)` can run: the label is known, or a new row can be labelled. */
    predicate CanRegister(db: string, secLabel: string)
      reads this
    {
      secLabel in idOf || RowLabelReady(db)
    }

    /** `getContext` can run for this key: it is cached, unresolvable, or its label can be registered. */
    predicate CanResolve(key: ObjKey)
      reads this
    {
      key in objectIds || key.db.None? || ResolveObject(contexts, policy, key).None?
      || CanRegister(key.db.value, ResolveObject(contexts, policy, key).value)
    }

    /**
     * `insert_id`: the stored id when the label is registered, with no change; otherwise a new
     * row, labelled with the `selinux_id` table's tuple label, whose rowid becomes the label's id.
     */
    method InsertId(dbName: string, secLabel: string) returns (id: int)
      requires Valid() && CanRegister(dbName, secLabel)
      modifies this
      ensures Valid()
      ensures secLabel in idOf && idOf[secLabel] == id && id in labelOf && labelOf[id] == secLabel
      ensures secLabel in old(idOf) ==>
                id == old(idOf[secLabel]) && rows == old(rows) && idOf == old(idOf) && labelOf == old(labelOf)
      ensures secLabel !in old(idOf) ==>
                id == |old(rows)| + 1 && rows == old(rows) + [IdRow(old(RowContextId(dbName)), secLabel)]
                && idOf == old(idOf)[secLabel := id] && labelOf == old(labelOf)[id := secLabel]
      ensures Extends(old(labelOf), labelOf)
      ensures objectIds == old(objectIds) && avc == old(avc) && vacuum == old(vacuum)
      ensures oracleCalls == old(oracleCalls) && log == old(log)
    {
      if secLabel in idOf {
        return idOf[secLabel];
      }
      id := RegisterLabel(dbName, secLabel);
    }

    /**
     * The miss path of `insert_id`: the label's row, labelled with the tuple label of the
     * `selinux_id` table, is appended and its rowid entered in `hash_id` both ways.
     */
    method RegisterLabel(dbName: string, secLabel: string) returns (id: int)
      requires Valid() && secLabel !in idOf && RowLabelReady(dbName)
      modifies this
      ensures Valid()
      ensures id == |old(rows)| + 1 && rows == old(rows) + [IdRow(old(RowContextId(dbName)), secLabel)]
      ensures idOf == old(idOf)[secLabel := id] && labelOf == old(labelOf)[id := secLabel]
      ensures Extends(old(labelOf), labelOf)
      ensures objectIds == old(objectIds) && avc == old(avc) && vacuum == old(vacuum)
      ensures oracleCalls == old(oracleCalls) && log == old(log)
    {
      var rowContext := CL.LookupSecurityContext(idOf, dbName, SelinuxIdTable, contexts, policy);
      RegisterKeepsMirror(rows, idOf, labelOf, IdRow(rowContext, secLabel));
      LabelsGrowKeepCaches(contexts, policy, objectIds, avc, labelOf, labelOf[|rows| + 1 := secLabel]);
      rows := rows + [IdRow(rowContext, secLabel)];
      id := |rows|;
      idOf := idOf[secLabel := id];
      labelOf := labelOf[id := secLabel];
    }

    /** Registry rows are never duplicated: every label is stored once. */
    lemma RowLabelsDistinct()
      requires Valid()
      ensures forall i, j :: 0 <= i < j < |rows| ==> rows[i].securityLabel != rows[j].securityLabel
    {
      forall i, j | 0 <= i < j < |rows| ensures rows[i].securityLabel != rows[j].securityLabel {
        assert i + 1 in labelOf && j + 1 in labelOf;
        assert rows[i].securityLabel == labelOf[i + 1] && rows[j].securityLabel == labelOf[j + 1];
      }
    }

    /**
     * The switch of `getContext` on a cache miss: the database rules (with the database name also
     * given as the table, as the corrected call does), the table rules, or the column rules with the
     * column consulted.
     */
    method ComputeObjectLabel(dbname: string, table: Option<string>, column: Option<string>, tclass: nat)
      returns (context: Option<string>)
      requires KeyShaped(ObjKey(Some(dbname), table, column), tclass)
      ensures context == ResolveObject(contexts, policy, ObjKey(Some(dbname), table, column))
    {
      var rc;
      if tclass == DbDatabase {
        rc, context := CL.ComputeSqlContext(false, dbname, dbname, "", contexts.dbContext, policy, None);
      } else if tclass == DbTable {
        rc, context := CL.ComputeSqlContext(false, dbname, table.value, "", contexts.tableContext, policy, None);
      } else {
        rc, context := CL.ComputeSqlContext(true, dbname, table.value, column.value, contexts.columnContext, policy, None);
      }
    }

    /**
     * `getContext`: the cached id of the object on a hit, with no further work; on a miss the
     * label from the class's rule list, registered and cached under the object's key. An object
     * whose label cannot be resolved gets no id, and nothing is cached.
     */
    method GetContext(dbname: string, table: Option<string>, column: Option<string>, tclass: nat)
      returns (id: Option<int>)
      requires Valid() && KeyShaped(ObjKey(Some(dbname), table, column), tclass)
      requires CanResolve(ObjKey(Some(dbname), table, column))
      modifies this
      ensures Valid()
      ensures var key := ObjKey(Some(dbname), table, column);
              (id.Some? <==> ResolveObject(contexts, policy, key).Some?)
              && (id.Some? ==> key in objectIds && objectIds[key] == id.value
                               && labelOf[id.value] == ResolveObject(contexts, policy, key).value)
      ensures var key := ObjKey(Some(dbname), table, column);
              key in old(objectIds) || id.None? ==>
                id == old(if key in objectIds then Some(objectIds[key]) else None)
                && rows == old(rows) && idOf == old(idOf) && labelOf == old(labelOf) && objectIds == old(objectIds)
      ensures var key := ObjKey(Some(dbname), table, column);
              key !in old(objectIds) && id.Some? ==>
                var created := ResolveObject(contexts, policy, key).value;
                objectIds == old(objectIds)[key := id.value]
                && idOf == old(idOf)[created := id.value] && labelOf == old(labelOf)[id.value := created]
                && (created in old(idOf) ==> id.value == old(idOf)[created] && rows == old(rows))
                && (created !in old(idOf) ==>
                      id.value == |old(rows)| + 1 && rows == old(rows) + [IdRow(old(RowContextId(dbname)), created)])
      ensures Grown()
      ensures avc == old(avc) && vacuum == old(vacuum) && oracleCalls == old(oracleCalls) && log == old(log)
    {
      var key := ObjKey(Some(dbname), table, column);
      if key in objectIds {
        return Some(objectIds[key]);
      }
      var context := ComputeObjectLabel(dbname, table, column, tclass);
      if context.None? {
        return None;
      }
      var newId := CacheObject(dbname, key, context.value);
      id := Some(newId);
    }

    /**
     * `getContext` as `checkAccess` uses it: an id exactly when the label resolves, naming that
     * label; a hit or a failure changes nothing.
     */
    method ObjectId(dbname: string, table: Option<string>, column: Option<string>, tclass: nat)
      returns (id: Option<int>)
      requires Valid() && KeyShaped(ObjKey(Some(dbname), table, column), tclass)
      requires CanResolve(ObjKey(Some(dbname), table, column))
      modifies this
      ensures Valid()
      ensures var key := ObjKey(Some(dbname), table, column);
              (id.Some? <==> ResolveObject(contexts, policy, key).Some?)
              && (id.Some? ==> key in objectIds && objectIds[key] == id.value && id.value in labelOf
                               && labelOf[id.value] == ResolveObject(contexts, policy, key).value)
      ensures var key := ObjKey(Some(dbname), table, column);
              key in old(objectIds) || id.None? ==>
                rows == old(rows) && idOf == old(idOf) && labelOf == old(labelOf) && objectIds == old(objectIds)
      ensures Grown()
      ensures avc == old(avc) && vacuum == old(vacuum) && oracleCalls == old(oracleCalls) && log == old(log)
    {
      id := GetContext(dbname, table, column, tclass);
    }

    /** The miss path of `getContext`: `insert_id` for the object's label, then the key cached to that id. */
    method CacheObject(dbname: string, key: ObjKey, created: string) returns (id: int)
      requires Valid() && key !in objectIds && ResolveObject(contexts, policy, key) == Some(created)
      requires CanRegister(dbname, created)
      modifies this
      ensures Valid()
      ensures objectIds == old(objectIds)[key := id]
      ensures idOf == old(idOf)[created := id] && labelOf == old(labelOf)[id := created]
      ensures created in old(idOf) ==> id == old(idOf)[created] && rows == old(rows)
      ensures created !in old(idOf) ==>
                id == |old(rows)| + 1 && rows == old(rows) + [IdRow(old(RowContextId(dbname)), created)]
      ensures Grown()
      ensures avc == old(avc) && vacuum == old(vacuum) && oracleCalls == old(oracleCalls) && log == old(log)
    {
      id := InsertId(dbname, created);
      CacheKeyKeepsObjects(contexts, policy, objectIds, labelOf, key, id);
      objectIds := objectIds[key := id];
    }

    /** `compress(scon_id, id, c_code, p_code)` for a check on the object with id `objId`. */
    function AvcKeyFor(r: Request, objId: int): AvcKey
      requires ValidSlot(r.tclass, r.perm)
    {
      AvcKey(sconId, objId, AccessVector[r.tclass].code, AccessVector[r.tclass].perms[r.perm].code)
    }

    /** Both caches hold an answer for this check: its object's id, and a decision for that id. */
    predicate Cached(r: Request)
      requires ValidSlot(r.tclass, r.perm)
      reads this
    {
      KeyOf(r) in objectIds && AvcKeyFor(r, objectIds[KeyOf(r)]) in avc
    }

    /**
     * `checkAccess`: the object's id from `getContext`, then the AVC; on a hit the answer is whether
     * the stored sentinel is `avc_allow`, with no call to the policy; on a miss the policy is asked
     * once and its answer stored. Either way the answer is the policy's decision for the
     * object's label.
     */
    method CheckAccess(dbname: Option<string>, table: Option<string>, column: Option<string>, tclass: nat, perm: nat)
      returns (res: bool)
      requires Valid() && WellShaped(Request(dbname, table, column, tclass, perm))
      requires CanResolve(ObjKey(dbname, table, column))
      modifies this
      ensures Valid()
      ensures res == Allowed(contexts, policy, Request(dbname, table, column, tclass, perm))
      ensures log == old(log) + [Request(dbname, table, column, tclass, perm)]
      ensures var r := Request(dbname, table, column, tclass, perm);
              old(Cached(r)) ==>
                res == (old(avc[AvcKeyFor(r, objectIds[KeyOf(r)])]) == AvcAllow)
                && oracleCalls == old(oracleCalls) && avc == old(avc) && objectIds == old(objectIds)
                && rows == old(rows) && idOf == old(idOf) && labelOf == old(labelOf)
      ensures var r := Request(dbname, table, column, tclass, perm);
              ResolveObject(contexts, policy, KeyOf(r)).Some? ==>
                Cached(r) && avc[AvcKeyFor(r, objectIds[KeyOf(r)])] == (if res then AvcAllow else AvcDeny)
      ensures ResolveObject(contexts, policy, ObjKey(dbname, table, column)).None? ==>
                avc == old(avc) && objectIds == old(objectIds) && idOf == old(idOf) && oracleCalls == old(oracleCalls)
      ensures var r := Request(dbname, table, column, tclass, perm);
              KeyOf(r) in old(objectIds) && !old(Cached(r)) ==> oracleCalls == old(oracleCalls) + 1
      ensures oracleCalls <= old(oracleCalls) + 1
      ensures Grown() && OneCallPerCheck()
      ensures vacuum == old(vacuum)
    {
      ghost var r := Request(dbname, table, column, tclass, perm);
      var objId := ObjectId(dbname.value, table, column, tclass);
      log := log + [r];
      if objId.None? {
        return false;
      }
      res := CheckObject(dbname, table, column, tclass, perm, objId.value);
    }

    /** The AVC half of `checkAccess` for a check whose object has the cached id `objId`. */
    method CheckObject(dbname: Option<string>, table: Option<string>, column: Option<string>, tclass: nat, perm: nat,
                       objId: int)
      returns (res: bool)
      requires Valid() && ValidSlot(tclass, perm) && objId in labelOf
      requires var key := ObjKey(dbname, table, column);
               key in objectIds && objectIds[key] == objId
      modifies this
      ensures Valid()
      ensures rows == old(rows) && idOf == old(idOf) && labelOf == old(labelOf) && objectIds == old(objectIds)
      ensures res <==> policy.checkAccess(policy.scon, Some(labelOf[objId]), AccessVector[tclass].name,
                                          AccessVector[tclass].perms[perm].name) == 0
      ensures var r := Request(dbname, table, column, tclass, perm);
              Cached(r) && avc[AvcKeyFor(r, objId)] == (if res then AvcAllow else AvcDeny)
              && (old(Cached(r)) ==> res == (old(avc[AvcKeyFor(r, objId)]) == AvcAllow)
                                      && avc == old(avc) && oracleCalls == old(oracleCalls))
              && (!old(Cached(r)) ==> oracleCalls == old(oracleCalls) + 1)
      ensures Extends(old(avc), avc)
      ensures oracleCalls <= old(oracleCalls) + 1
      ensures vacuum == old(vacuum) && log == old(log)
    {
      res := AvcCheck(objId, tclass, perm);
    }

    /**
     * `checkAccess` as the authorizer uses it: the policy's decision, with the check recorded, the
     * registry only growing and the vacuum flag untouched.
     */
    method Decision(dbname: Option<string>, table: Option<string>, column: Option<string>, tclass: nat, perm: nat)
      returns (res: bool)
      requires Valid() && WellShaped(Request(dbname, table, column, tclass, perm))
      requires CanResolve(ObjKey(dbname, table, column))
      modifies this
      ensures Valid()
      ensures res == Allowed(contexts, policy, Request(dbname, table, column, tclass, perm))
      ensures log == old(log) + [Request(dbname, table, column, tclass, perm)]
      ensures Grown() && OneCallPerCheck()
      ensures vacuum == old(vacuum)
    {
      res := CheckAccess(dbname, table, column, tclass, perm);
    }

    /**
     * The AVC half of `checkAccess` for the object with id `objId`: the stored sentinel on a hit,
     * otherwise one call to the policy whose answer is stored.
     */
    method AvcCheck(objId: int, tclass: nat, perm: nat) returns (res: bool)
      requires Valid() && objId in labelOf && ValidSlot(tclass, perm)
      modifies this
      ensures Valid()
      ensures rows == old(rows) && idOf == old(idOf) && labelOf == old(labelOf) && objectIds == old(objectIds)
      ensures res <==> policy.checkAccess(policy.scon, Some(labelOf[objId]), AccessVector[tclass].name,
                                          AccessVector[tclass].perms[perm].name) == 0
      ensures var key := AvcKey(sconId, objId, AccessVector[tclass].code, AccessVector[tclass].perms[perm].code);
              (key in old(avc) ==> res == (old(avc)[key] == AvcAllow) && avc == old(avc) && oracleCalls == old(oracleCalls))
              && (key !in old(avc) ==>
                    avc == old(avc)[key := if res then AvcAllow else AvcDeny] && oracleCalls == old(oracleCalls) + 1)
      ensures Extends(old(avc), avc)
      ensures oracleCalls == if avc == old(avc) then old(oracleCalls) else old(oracleCalls) + 1
      ensures vacuum == old(vacuum) && log == old(log)
    {
      var key := AvcKey(sconId, objId, AccessVector[tclass].code, AccessVector[tclass].perms[perm].code);
      NamesRecoveredFromCodes(tclass, perm);
      if key in avc {
        res := avc[key] == AvcAllow;
      } else {
        res := policy.checkAccess(policy.scon, Some(labelOf[objId]), AccessVector[tclass].name,
                                  AccessVector[tclass].perms[perm].name) == 0;
        oracleCalls := oracleCalls + 1;
        StoreKeepsAvcSound(policy, avc, labelOf, key, if res then AvcAllow else AvcDeny);
        avc := avc[key := if res then AvcAllow else AvcDeny];
      }
    }

    /**
     * `checkAllColumns(db, table, DB_COLUMN, perm)`: each column of the table in order, returning
     * DENY at the first one refused; OK when every column passes or the table is not found.
     */
    method CheckAllColumns(dbName: string, tblName: string, perm: nat, schema: Schema) returns (rc: int)
      requires Valid() && RowLabelReady(dbName) && ValidSlot(DbColumn, perm)
      modifies this
      ensures Valid()
      ensures var o := AllColumns(Some(dbName), Some(tblName), perm, Decide(contexts, policy), schema);
              rc == o.rc && log == old(log) + o.checks
      ensures Grown() && OneCallPerCheck()
      ensures vacuum == old(vacuum)
    {
      rc := SqliteOk;
      var found := schema(dbName, tblName);
      if found.None? {
        return;
      }
      var columns := found.value;
      ghost var reqs := ColumnRequests(Some(dbName), Some(tblName), columns, perm);
      ghost var allowed := Decide(contexts, policy);
      var j := 0;
      while j < |columns|
        invariant 0 <= j <= |columns|
        invariant Valid() && RowLabelReady(dbName)
        invariant log == old(log) + reqs[..j]
        invariant forall i :: 0 <= i < j ==> allowed(reqs[i])
        invariant Grown() && OneCallPerCheck()
        invariant vacuum == old(vacuum)
      {
        assert reqs[j] == Request(Some(dbName), Some(tblName), Some(columns[j]), DbColumn, perm);
        var ok := Decision(Some(dbName), Some(tblName), Some(columns[j]), DbColumn, perm);
        PrefixGrows(reqs, j);
        AppendRegroups(old(log), reqs[..j], [reqs[j]]);
        if !ok {
          FirstDeniedAt(reqs, allowed, j);
          return SqliteDeny;
        }
        assert allowed(reqs[j]);
        PassingPrefixGrows(reqs, allowed, j);
        j := j + 1;
      }
      FirstDeniedAt(reqs, allowed, j);
      assert reqs[..j] == reqs;
    }

    /** The checks `selinuxAuthorizer` makes can run: each names a database whose registry row can be labelled. */
    predicate CanAuthorize(action: int, arg1: Option<string>, arg2: Option<string>, dbname: Option<string>)
      reads this
    {
      ArgsPresent(action, arg1, arg2, dbname)
      && (dbname.Some? ==> RowLabelReady(dbname.value))
      && (action == SqliteAlterTable ==> RowLabelReady(arg1.value))
    }

    /**
     * `selinuxAuthorizer`: the database ACCESS check when a database is named, then the switch on
     * the action; rc starts OK and only ever becomes DENY. The result code and the checks made
     * are those of `Dispatch` under the policy's decisions.
     */
    method Authorize(action: int, arg1: Option<string>, arg2: Option<string>, dbname: Option<string>, schema: Schema)
      returns (rc: int)
      requires Valid() && CanAuthorize(action, arg1, arg2, dbname)
      modifies this
      ensures Valid()
      ensures var o := Dispatch(action, arg1, arg2, dbname, Decide(contexts, policy), schema);
              rc == o.rc && log == old(log) + o.checks
      ensures Grown() && OneCallPerCheck()
      ensures vacuum == old(vacuum)
    {
      ghost var log0 := log;
      rc := SqliteOk;
      if dbname.Some? {
        var ok := Decision(dbname, None, None, DbDatabase, Access);
        if !ok {
          rc := SqliteDeny;
        }
      }
      var act := ApplyAction(action, arg1, arg2, dbname, schema);
      if act != SqliteOk {
        rc := SqliteDeny;
      }
      ghost var preChecks := PreCheck(dbname, Decide(contexts, policy)).checks;
      ghost var actChecks := ActionOutcome(action, arg1, arg2, dbname, Decide(contexts, policy), schema).checks;
      AppendRegroups(log0, preChecks, actChecks);
    }

    /**
     * The `else if` pattern of DROP TABLE, DROP TEMP TABLE, DROP VIEW, DROP VTABLE and INSERT:
     * the table check, then, only if it passes, every column.
     */
    method TableThenColumns(dbname: string, table: string, perm: nat, schema: Schema) returns (ok: bool)
      requires Valid() && RowLabelReady(dbname) && ValidSlot(DbTable, perm) && ValidSlot(DbColumn, perm)
      modifies this
      ensures Valid()
      ensures var o := TableThen(TableRequest(Some(dbname), Some(table), perm),
                                 AllColumns(Some(dbname), Some(table), perm, Decide(contexts, policy), schema),
                                 Decide(contexts, policy));
              (ok <==> o.rc == SqliteOk) && log == old(log) + o.checks
      ensures Grown() && OneCallPerCheck()
      ensures vacuum == old(vacuum)
    {
      ghost var log0 := log;
      ok := Decision(Some(dbname), Some(table), None, DbTable, perm);
      if ok {
        var columns := CheckAllColumns(dbname, table, perm, schema);
        ok := columns == SqliteOk;
        ghost var tableCheck := [TableRequest(Some(dbname), Some(table), perm)];
        ghost var columnChecks := AllColumns(Some(dbname), Some(table), perm, Decide(contexts, policy), schema).checks;
        AppendRegroups(log0, tableCheck, columnChecks);
      }
    }

    /** READ: the table SELECT check, then, only if it passes, the column SELECT check. */
    method TableThenColumn(dbname: string, table: string, column: string) returns (ok: bool)
      requires Valid() && RowLabelReady(dbname)
      modifies this
      ensures Valid()
      ensures var o := TableThen(TableRequest(Some(dbname), Some(table), Select),
                                 Check(ColumnRequest(Some(dbname), Some(table), Some(column), Select), Decide(contexts, policy)),
                                 Decide(contexts, policy));
              (ok <==> o.rc == SqliteOk) && log == old(log) + o.checks
      ensures Grown() && OneCallPerCheck()
      ensures vacuum == old(vacuum)
    {
      ghost var log0 := log;
      ok := Decision(Some(dbname), Some(table), None, DbTable, Select);
      if ok {
        ok := Decision(Some(dbname), Some(table), Some(column), DbColumn, Select);
        ghost var tableCheck := [TableRequest(Some(dbname), Some(table), Select)];
        ghost var columnCheck := [ColumnRequest(Some(dbname), Some(table), Some(column), Select)];
        AppendRegroups(log0, tableCheck, columnCheck);
      }
    }

    /** The switch of `selinuxAuthorizer`: the checks each action calls for, and DENY when one fails. */
    method ApplyAction(action: int, arg1: Option<string>, arg2: Option<string>, dbname: Option<string>, schema: Schema)
      returns (rc: int)
      requires Valid() && CanAuthorize(action, arg1, arg2, dbname)
      modifies this
      ensures Valid()
      ensures var o := ActionOutcome(action, arg1, arg2, dbname, Decide(contexts, policy), schema);
              rc == o.rc && log == old(log) + o.checks
      ensures Grown() && OneCallPerCheck()
      ensures vacuum == old(vacuum)
    {
      var ok := true;
      if CreatesTable(action) {
        ok := Decision(dbname, arg1, None, DbTable, Create);
      } else if SetsTableAttr(action) {
        ok := Decision(dbname, arg2, None, DbTable, SetAttr);
      } else if action == SqliteDelete {
        ok := Decision(dbname, arg1, None, DbTable, Delete);
      } else if DropsWithColumns(action) {
        ok := TableThenColumns(dbname.value, arg1.value, Drop, schema);
      } else if action == SqliteDropTempView {
        ok := Decision(dbname, arg1, None, DbTable, Drop);
      } else if action == SqliteInsert {
        ok := TableThenColumns(dbname.value, arg1.value, Insert, schema);
      } else if action == SqlitePragma {
        ok := !IsWritableSchema(arg1);
      } else if action == SqliteRead {
        ok := TableThenColumn(dbname.value, arg1.value, arg2.value);
      } else if action == SqliteUpdate {
        ok := Decision(dbname, arg1, arg2, DbColumn, Update);
      } else if action == SqliteAttach || action == SqliteDetach {
        ok := !(arg1.Some? && |arg1.value| != 0);
      } else if action == SqliteAlterTable {
        ok := Decision(arg1, arg2, None, DbTable, GetAttr);
      }
      rc := if ok then SqliteOk else SqliteDeny;
    }

    /** `set_vacuum`: records the flag and succeeds. */
    method SetVacuum(kind: int) returns (rc: int)
      modifies this
      ensures vacuum == kind && rc == SqliteOk
      ensures rows == old(rows) && idOf == old(idOf) && labelOf == old(labelOf)
      ensures objectIds == old(objectIds) && avc == old(avc)
      ensures oracleCalls == old(oracleCalls) && log == old(log)
    {
      vacuum := kind;
      rc := SqliteOk;
    }

    /** `is_vacuum`: the flag last recorded. */
    method IsVacuum() returns (kind: int)
      ensures kind == vacuum
    {
      kind := vacuum;
    }

    /** `sesqlite_clearavc`: forgets every cached decision and nothing else. */
    method ClearAvc()
      requires Valid()
      modifies this
      ensures Valid() && avc == map[]
      ensures rows == old(rows) && idOf == old(idOf) && labelOf == old(labelOf) && objectIds == old(objectIds)
      ensures vacuum == old(vacuum) && oracleCalls == old(oracleCalls) && log == old(log)
    {
      avc := map[];
    }

    /** `selinux_commit_callback`: clears the AVC and lets the commit proceed. */
    method CommitCallback() returns (rc: int)
      requires Valid()
      modifies this
      ensures Valid() && avc == map[] && rc == 0
      ensures rows == old(rows) && idOf == old(idOf) && labelOf == old(labelOf) && objectIds == old(objectIds)
      ensures vacuum == old(vacuum) && oracleCalls == old(oracleCalls) && log == old(log)
    {
      ClearAvc();
      rc := 0;
    }

    /** `selinux_rollback_callback`: clears the AVC. */
    method RollbackCallback()
      requires Valid()
      modifies this
      ensures Valid() && avc == map[]
      ensures rows == old(rows) && idOf == old(idOf) && labelOf == old(labelOf) && objectIds == old(objectIds)
      ensures vacuum == old(vacuum) && oracleCalls == old(oracleCalls) && log == old(log)
    {
      ClearAvc();
    }

    /** Two `getContext` calls for the same object return the same id; the second changes nothing. */
    method GetContextTwice(dbname: string, table: Option<string>, column: Option<string>, tclass: nat)
      returns (first: Option<int>, second: Option<int>)
      requires Valid() && KeyShaped(ObjKey(Some(dbname), table, column), tclass)
      requires CanResolve(ObjKey(Some(dbname), table, column))
      modifies this
      ensures Valid() && first == second
      ensures first.Some? <==> ResolveObject(contexts, policy, ObjKey(Some(dbname), table, column)).Some?
      ensures Grown()
    {
      first := GetContext(dbname, table, column, tclass);
      second := GetContext(dbname, table, column, tclass);
    }

    /**
     * The same check twice with no flush in between: both answers are the policy's decision, and
     * the policy is consulted at most once, by the first call.
     */
    method CheckTwice(dbname: Option<string>, table: Option<string>, column: Option<string>, tclass: nat, perm: nat)
      returns (first: bool, second: bool)
      requires Valid() && WellShaped(Request(dbname, table, column, tclass, perm))
      requires CanResolve(ObjKey(dbname, table, column))
      modifies this
      ensures Valid()
      ensures first == second == Allowed(contexts, policy, Request(dbname, table, column, tclass, perm))
      ensures oracleCalls <= old(oracleCalls) + 1
      ensures Grown() && OneCallPerCheck()
    {
      first := CheckAccess(dbname, table, column, tclass, perm);
      ghost var calls := oracleCalls;
      second := CheckAccess(dbname, table, column, tclass, perm);
      assert oracleCalls == calls;
    }

    /**
     * After a commit the AVC is empty, so checking an object whose id is cached asks the policy
     * again, exactly once, and gets the policy's current decision.
     */
    method CommitThenCheck(dbname: Option<string>, table: Option<string>, column: Option<string>, tclass: nat, perm: nat)
      returns (res: bool)
      requires Valid() && WellShaped(Request(dbname, table, column, tclass, perm))
      requires ObjKey(dbname, table, column) in objectIds
      modifies this
      ensures Valid()
      ensures res == Allowed(contexts, policy, Request(dbname, table, column, tclass, perm))
      ensures oracleCalls == old(oracleCalls) + 1
    {
      var _ := CommitCallback();
      res := CheckAccess(dbname, table, column, tclass, perm);
    }
  }
}
