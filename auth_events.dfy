/**
 * What both authorizers share: SQLite's action codes and result codes, the permission checks an
 * authorizer issues, and the column scan (`checkAllColumns`) stated over an arbitrary decision
 * function, so that each engine only has to say how it decides one check.
 */
module AuthEvents {
  import opened Wrappers
  import H = SesqliteHeader

  // The authorizer's result codes.
  const SqliteOk: int := 0
  const SqliteDeny: int := 1

  // SQLite's action codes, in the order of the `authtype` name table.
  const SqliteCopy: int := 0
  const SqliteCreateIndex: int := 1
  const SqliteCreateTable: int := 2
  const SqliteCreateTempIndex: int := 3
  const SqliteCreateTempTable: int := 4
  const SqliteCreateTempTrigger: int := 5
  const SqliteCreateTempView: int := 6
  const SqliteCreateTrigger: int := 7
  const SqliteCreateView: int := 8
  const SqliteDelete: int := 9
  const SqliteDropIndex: int := 10
  const SqliteDropTable: int := 11
  const SqliteDropTempIndex: int := 12
  const SqliteDropTempTable: int := 13
  const SqliteDropTempTrigger: int := 14
  const SqliteDropTempView: int := 15
  const SqliteDropTrigger: int := 16
  const SqliteDropView: int := 17
  const SqliteInsert: int := 18
  const SqlitePragma: int := 19
  const SqliteRead: int := 20
  const SqliteSelect: int := 21
  const SqliteTransaction: int := 22
  const SqliteUpdate: int := 23
  const SqliteAttach: int := 24
  const SqliteDetach: int := 25
  const SqliteAlterTable: int := 26
  const SqliteReindex: int := 27
  const SqliteAnalyze: int := 28
  const SqliteCreateVtable: int := 29
  const SqliteDropVtable: int := 30
  const SqliteFunction: int := 31
  const SqliteSavepoint: int := 32
  const SqliteRecursive: int := 33

  /** The `authtype` table: the name of each action code, indexed by the code. */
  const AuthTypeNames: seq<string> := [
    "SQLITE_COPY", "SQLITE_CREATE_INDEX", "SQLITE_CREATE_TABLE", "SQLITE_CREATE_TEMP_INDEX",
    "SQLITE_CREATE_TEMP_TABLE", "SQLITE_CREATE_TEMP_TRIGGER", "SQLITE_CREATE_TEMP_VIEW",
    "SQLITE_CREATE_TRIGGER", "SQLITE_CREATE_VIEW", "SQLITE_DELETE", "SQLITE_DROP_INDEX",
    "SQLITE_DROP_TABLE", "SQLITE_DROP_TEMP_INDEX", "SQLITE_DROP_TEMP_TABLE",
    "SQLITE_DROP_TEMP_TRIGGER", "SQLITE_DROP_TEMP_VIEW", "SQLITE_DROP_TRIGGER", "SQLITE_DROP_VIEW",
    "SQLITE_INSERT", "SQLITE_PRAGMA", "SQLITE_READ", "SQLITE_SELECT", "SQLITE_TRANSACTION",
    "SQLITE_UPDATE", "SQLITE_ATTACH", "SQLITE_DETACH", "SQLITE_ALTER_TABLE", "SQLITE_REINDEX",
    "SQLITE_ANALYZE", "SQLITE_CREATE_VTABLE", "SQLITE_DROP_VTABLE", "SQLITE_FUNCTION",
    "SQLITE_SAVEPOINT", "SQLITE_RECURSIVE"]

  /** The name table has one entry per action code and names each code after itself. */
  lemma AuthTypeNamesMatchCodes()
    ensures |AuthTypeNames| == SqliteRecursive + 1
    ensures AuthTypeNames[SqliteCreateTable] == "SQLITE_CREATE_TABLE"
    ensures AuthTypeNames[SqliteDelete] == "SQLITE_DELETE"
    ensures AuthTypeNames[SqliteDropTable] == "SQLITE_DROP_TABLE"
    ensures AuthTypeNames[SqliteInsert] == "SQLITE_INSERT"
    ensures AuthTypeNames[SqlitePragma] == "SQLITE_PRAGMA"
    ensures AuthTypeNames[SqliteRead] == "SQLITE_READ"
    ensures AuthTypeNames[SqliteUpdate] == "SQLITE_UPDATE"
    ensures AuthTypeNames[SqliteAttach] == "SQLITE_ATTACH"
    ensures AuthTypeNames[SqliteAlterTable] == "SQLITE_ALTER_TABLE"
    ensures AuthTypeNames[SqliteDropVtable] == "SQLITE_DROP_VTABLE"
  {
  }

  /**
   * One permission check `checkAccess(db, table, column, tclass, perm)`. A None name is a NULL
   * argument.
   */
  datatype Request = Request(db: Option<string>, table: Option<string>, column: Option<string>,
                             tclass: nat, perm: nat)

  function DatabaseRequest(db: Option<string>): Request {
    Request(db, None, None, H.DbDatabase, H.Access)
  }

  function TableRequest(db: Option<string>, table: Option<string>, perm: nat): Request {
    Request(db, table, None, H.DbTable, perm)
  }

  function ColumnRequest(db: Option<string>, table: Option<string>, column: Option<string>, perm: nat): Request {
    Request(db, table, column, H.DbColumn, perm)
  }

  /** The result code of an authorizer step and the checks it made, in order. */
  datatype Outcome = Outcome(rc: int, checks: seq<Request>)

  /** `sqlite3FindTable`: the column names of a table of a database, or None when there is none. */
  type Schema = (string, string) -> Option<seq<string>>

  /** A single check: deny when it fails. */
  function Check(r: Request, allowed: Request -> bool): (o: Outcome)
    ensures o.checks == [r]
    ensures o.rc == SqliteOk <==> allowed(r)
    ensures o.rc == SqliteOk || o.rc == SqliteDeny
  {
    Outcome(if allowed(r) then SqliteOk else SqliteDeny, [r])
  }

  /** `if (!table check) deny; else if (rest) deny;`: the rest runs only after the table check passes. */
  function TableThen(r: Request, rest: Outcome, allowed: Request -> bool): (o: Outcome)
    ensures o.rc == SqliteDeny || o.rc == rest.rc
    ensures |o.checks| > 0 && o.checks[0] == r
    ensures (forall i :: 0 <= i < |rest.checks| - 1 ==> allowed(rest.checks[i])) ==>
              forall i :: 0 <= i < |o.checks| - 1 ==> allowed(o.checks[i])
  {
    if !allowed(r) then Outcome(SqliteDeny, [r]) else Outcome(rest.rc, [r] + rest.checks)
  }

  /** The column checks of a scan, one per column in table order. */
  function ColumnRequests(db: Option<string>, table: Option<string>, columns: seq<string>, perm: nat)
    : (reqs: seq<Request>)
    ensures |reqs| == |columns|
    ensures forall j :: 0 <= j < |columns| ==> reqs[j] == ColumnRequest(db, table, Some(columns[j]), perm)
  {
    if |columns| == 0 then []
    else [ColumnRequest(db, table, Some(columns[0]), perm)] + ColumnRequests(db, table, columns[1..], perm)
  }

  /** The position of the first failing check, or |reqs| when all pass. */
  function FirstDenied(reqs: seq<Request>, allowed: Request -> bool): (k: nat)
    ensures k <= |reqs|
    ensures forall j :: 0 <= j < k ==> allowed(reqs[j])
    ensures k < |reqs| ==> !allowed(reqs[k])
  {
    if |reqs| == 0 || !allowed(reqs[0]) then 0 else 1 + FirstDenied(reqs[1..], allowed)
  }

  /** A position with every earlier check passing, and failing itself or past the end, is the first failure. */
  lemma FirstDeniedAt(reqs: seq<Request>, allowed: Request -> bool, k: nat)
    requires k <= |reqs|
    requires forall j :: 0 <= j < k ==> allowed(reqs[j])
    requires k < |reqs| ==> !allowed(reqs[k])
    ensures FirstDenied(reqs, allowed) == k
  {
  }

  /** The loop of `checkAllColumns`: checks in order, returning DENY at the first failing one. */
  function ScanColumns(reqs: seq<Request>, allowed: Request -> bool): (o: Outcome)
    ensures o.rc == SqliteOk || o.rc == SqliteDeny
    ensures o.checks <= reqs
    ensures forall i :: 0 <= i < |o.checks| - 1 ==> allowed(o.checks[i])
  {
    var k := FirstDenied(reqs, allowed);
    if k == |reqs| then Outcome(SqliteOk, reqs) else Outcome(SqliteDeny, reqs[..k + 1])
  }

  /**
   * The scan denies exactly when some column fails; it checks a prefix of the columns, all of
   * them when none fails, and otherwise stops right after the first failing one.
   */
  lemma ScanColumnsShortCircuits(reqs: seq<Request>, allowed: Request -> bool)
    ensures var o := ScanColumns(reqs, allowed);
            (o.rc == SqliteOk || o.rc == SqliteDeny)
            && (o.rc == SqliteDeny <==> exists j :: 0 <= j < |reqs| && !allowed(reqs[j]))
            && o.checks <= reqs
            && (o.rc == SqliteOk ==> o.checks == reqs)
            && (o.rc == SqliteDeny ==>
                  |o.checks| > 0 && !allowed(o.checks[|o.checks| - 1])
                  && forall j :: 0 <= j < |o.checks| - 1 ==> allowed(o.checks[j]))
  {
    var k := FirstDenied(reqs, allowed);
    if k < |reqs| {
      assert reqs[..k + 1][k] == reqs[k];
    }
  }

  /** `checkAllColumns(db, table, COLUMN, perm)`: OK without checks when the table is not found. */
  function AllColumns(db: Option<string>, table: Option<string>, perm: nat, allowed: Request -> bool,
                      schema: Schema): (o: Outcome)
    ensures o.rc == SqliteOk || o.rc == SqliteDeny
    ensures forall i :: 0 <= i < |o.checks| - 1 ==> allowed(o.checks[i])
    ensures forall i :: 0 <= i < |o.checks| ==> o.checks[i].tclass == H.DbColumn && o.checks[i].perm == perm
  {
    match schema(db.GetOr(""), table.GetOr(""))
    case None => Outcome(SqliteOk, [])
    case Some(columns) => ScanColumns(ColumnRequests(db, table, columns, perm), allowed)
  }

  /** The column scan passes exactly when the table is unknown or every column's check passes. */
  lemma AllColumnsIsConjunction(db: Option<string>, table: Option<string>, perm: nat,
                                allowed: Request -> bool, schema: Schema)
    ensures AllColumns(db, table, perm, allowed, schema).rc == SqliteOk <==>
            match schema(db.GetOr(""), table.GetOr(""))
            case None => true
            case Some(columns) => forall j :: 0 <= j < |columns| ==>
                                    allowed(ColumnRequest(db, table, Some(columns[j]), perm))
  {
    match schema(db.GetOr(""), table.GetOr("")) {
      case None =>
      case Some(columns) =>
        var reqs := ColumnRequests(db, table, columns, perm);
        ScanColumnsShortCircuits(reqs, allowed);
    }
  }
}
