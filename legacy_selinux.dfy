/**
 * The first SeSQLite engine: rule lists walked with a `found` flag, the label registry
 * (`insertId`) over the `selinux_id` table and the id-to-quoted-label hash `hash_id`, the object
 * cache (`getContext`, `insertKey`) under "db:table[:column]" string keys, the AVC of raw
 * `selinux_check_access` codes, the column scan, and the authorizer whose table-then-columns
 * cases overwrite the table check's result with the scan's.
 */
module LegacySelinux {
  import opened Wrappers
  import opened SesqliteHeader
  import CI = CaseInsensitive
  import CL = ComputeLabel
  import opened AuthEvents
  import SA = SesqliteAuthorizer

  /* ----- First-match resolution with a found flag ----- */

  /** What `*res` holds after the walk: the first applicable rule's label, else its incoming value. */
  function MatchedLabel(isColumn: bool, db: string, table: string, column: string,
                        rules: seq<ContextElement>, res0: Option<string>): Option<string>
  {
    match CL.FirstMatch(isColumn, db, table, column, rules)
    case Some(k) => Some(rules[k].securityContext)
    case None => res0
  }

  /** `computeTableContext`: the table rules walked until one applies to (db, table). */
  method ComputeTableContext(dbName: string, tblName: string, ttcon: seq<ContextElement>, res0: Option<string>)
    returns (rc: int, res: Option<string>)
    ensures rc == SqliteOk
    ensures res == MatchedLabel(false, dbName, tblName, "", ttcon, res0)
  {
    rc := SqliteOk;
    res := res0;
    var found := false;
    var p := 0;
    while !found && p < |ttcon|
      invariant 0 <= p <= |ttcon|
      invariant !found ==> res == res0 && forall j :: 0 <= j < p ==> !CL.RuleMatches(false, dbName, tblName, "", ttcon[j])
      invariant found ==> res == MatchedLabel(false, dbName, tblName, "", ttcon, res0)
      decreases |ttcon| - p, if found then 0 else 1
    {
      var q := ttcon[p];
      if CI.Compare(dbName, q.fparam) == 0 || q.fparam == "*" {
        if CI.Compare(tblName, q.sparam) == 0 || q.sparam == "*" {
          CL.FirstMatchIsUnique(false, dbName, tblName, "", ttcon, p);
          res := Some(q.securityContext);
          found := true;
        }
      }
      p := p + 1;
    }
  }

  /** `computeColumnContext`: the column rules walked until one applies to (db, table, column). */
  method ComputeColumnContext(dbName: string, tblName: string, colName: string, ccon: seq<ContextElement>,
                              res0: Option<string>)
    returns (rc: int, res: Option<string>)
    ensures rc == SqliteOk
    ensures res == MatchedLabel(true, dbName, tblName, colName, ccon, res0)
  {
    rc := SqliteOk;
    res := res0;
    var found := false;
    var p := 0;
    while !found && p < |ccon|
      invariant 0 <= p <= |ccon|
      invariant !found ==> res == res0 && forall j :: 0 <= j < p ==> !CL.RuleMatches(true, dbName, tblName, colName, ccon[j])
      invariant found ==> res == MatchedLabel(true, dbName, tblName, colName, ccon, res0)
      decreases |ccon| - p, if found then 0 else 1
    {
      var q := ccon[p];
      if CI.Compare(dbName, q.fparam) == 0 || q.fparam == "*" {
        if CI.Compare(tblName, q.sparam) == 0 || q.sparam == "*" {
          if CI.Compare(colName, q.tparam) == 0 || q.tparam == "*" {
            CL.FirstMatchIsUnique(true, dbName, tblName, colName, ccon, p);
            res := Some(q.securityContext);
            found := true;
          }
        }
      }
      p := p + 1;
    }
  }

  /**
   * The two engines resolve alike while a rule applies; with no applicable rule the first engine
   * leaves `*res` as it was and asks for no default label.
   */
  lemma MatchedLabelAgreesWithResolver(isColumn: bool, db: string, table: string, column: string,
                                       rules: seq<ContextElement>, policy: Policy, res0: Option<string>)
    ensures (exists j :: 0 <= j < |rules| && CL.RuleMatches(isColumn, db, table, column, rules[j])) ==>
              MatchedLabel(isColumn, db, table, column, rules, res0)
              == CL.SqlContext(isColumn, db, table, column, rules, policy, res0).res
    ensures (forall j :: 0 <= j < |rules| ==> !CL.RuleMatches(isColumn, db, table, column, rules[j])) ==>
              MatchedLabel(isColumn, db, table, column, rules, res0) == res0
  {
  }

  /* ----- Quoting ----- */

  /** `sqlite3_mprintf("'%s'", con)`: the form in which `hash_id` holds a label. */
  function Quoted(con: string): string {
    "'" + con + "'"
  }

  /** The text after an opening quote up to the closing one, a doubled quote standing for one. */
  function Unquoted(t: string): string
    decreases |t|
  {
    if |t| == 0 then ""
    else if t[0] == '\'' then (if |t| >= 2 && t[1] == '\'' then "'" + Unquoted(t[2..]) else "")
    else [t[0]] + Unquoted(t[1..])
  }

  /** `sqlite3Dequote` on a string that is single-quoted; any other string is left alone. */
  function Dequoted(s: string): string {
    if |s| > 0 && s[0] == '\'' then Unquoted(s[1..]) else s
  }

  predicate QuoteFree(con: string) {
    forall i :: 0 <= i < |con| ==> con[i] != '\''
  }

  lemma {:induction false} UnquotedStopsAtClose(con: string)
    requires QuoteFree(con)
    ensures Unquoted(con + "'") == con
    decreases |con|
  {
    if |con| > 0 {
      assert (con + "'")[1..] == con[1..] + "'";
      UnquotedStopsAtClose(con[1..]);
      assert [con[0]] + con[1..] == con;
    }
  }

  /** A label without quote characters comes back from `hash_id` as itself. */
  lemma QuoteRoundTrip(con: string)
    requires QuoteFree(con)
    ensures Dequoted(Quoted(con)) == con
  {
    assert Quoted(con)[1..] == con + "'";
    UnquotedStopsAtClose(con);
  }

  /** A label holding a quote comes back cut short at it. */
  lemma QuotedLabelIsCut()
    ensures Dequoted(Quoted("a'b")) == "a"
  {
    assert Quoted("a'b")[1..] == "a'b'";
    assert "a'b'"[1..] == "'b'";
    assert "'b'"[1..] == "b'";
  }

  /* ----- The registry and the object cache, as values ----- */

  /** The rowid of the last `selinux_id` row holding `con` (the select loop keeps the last one read), or 0. */
  function RowIdOf(rows: seq<string>, con: string): (id: nat)
    ensures id <= |rows|
    ensures id > 0 ==> rows[id - 1] == con
    ensures forall j :: id <= j < |rows| ==> rows[j] != con
  {
    if |rows| == 0 then 0
    else if rows[|rows| - 1] == con then |rows|
    else RowIdOf(rows[..|rows| - 1], con)
  }

  lemma RowIdOfAppend(rows: seq<string>, x: string, con: string)
    ensures RowIdOf(rows + [x], con) == if x == con then |rows| + 1 else RowIdOf(rows, con)
  {
    assert (rows + [x])[..|rows|] == rows;
  }

  /**
   * The `selinux_id` table (the label of rowid i is rows[i - 1]), `hash_id` (rowid to quoted
   * label) and `hash` (object key to rowid).
   */
  datatype Registry = Registry(rows: seq<string>, labelOf: map<int, string>, objectIds: map<string, int>)

  /** An id handed back, and the registry after the call. */
  datatype Lookup = Lookup(id: int, reg: Registry)

  /** `hash_id` holds the quoted label of the rows it maps, and `hash` names existing rows. */
  ghost predicate WellFormed(reg: Registry) {
    (forall i :: i in reg.labelOf ==> 1 <= i <= |reg.rows| && reg.labelOf[i] == Quoted(reg.rows[i - 1]))
    && (forall k :: k in reg.objectIds ==> 1 <= reg.objectIds[k] <= |reg.rows|)
  }

  /**
   * `insertId`: the rowid of a row already holding the label, with nothing inserted; otherwise
   * a new row, whose rowid is mapped to the quoted label in `hash_id`.
   */
  function Registered(reg: Registry, con: string): (out: Lookup)
    ensures out.id > 0
    ensures out.reg.objectIds == reg.objectIds
  {
    var rowid := RowIdOf(reg.rows, con);
    if rowid != 0 then Lookup(rowid, reg)
    else Lookup(|reg.rows| + 1, reg.(rows := reg.rows + [con], labelOf := reg.labelOf[|reg.rows| + 1 := Quoted(con)]))
  }

  /**
   * Registration finds or appends: the id names a row holding the label; a stored label inserts
   * nothing, a new one exactly one row at the end, and `hash_id` only gains that row.
   */
  lemma RegisteredFindsOrAppends(reg: Registry, con: string)
    requires WellFormed(reg)
    ensures var out := Registered(reg, con);
            WellFormed(out.reg) && 1 <= out.id <= |out.reg.rows| && out.reg.rows[out.id - 1] == con
            && out.reg.objectIds == reg.objectIds
            && (con in reg.rows ==> out == Lookup(RowIdOf(reg.rows, con), reg))
            && (con !in reg.rows ==>
                  out.id == |reg.rows| + 1 && out.reg.rows == reg.rows + [con]
                  && out.reg.labelOf == reg.labelOf[out.id := Quoted(con)])
  {
    var rowid := RowIdOf(reg.rows, con);
    if con in reg.rows {
      var j :| 0 <= j < |reg.rows| && reg.rows[j] == con;
      assert rowid > j;
    }
  }

  /** Registering the same label twice: the second call returns the same id and changes nothing. */
  lemma RegisterIdempotent(reg: Registry, con: string)
    ensures var once := Registered(reg, con);
            Registered(once.reg, con) == once
  {
    if RowIdOf(reg.rows, con) == 0 {
      RowIdOfAppend(reg.rows, con, con);
    }
  }

  /** The `hash` key: "db:table" for a table, "db:table:column" for a column; a NULL name prints empty. */
  function LegacyKey(tclass: nat, db: Option<string>, table: Option<string>, column: Option<string>): string
    requires tclass == DbTable || tclass == DbColumn
  {
    if tclass == DbTable then db.GetOr("") + ":" + table.GetOr("")
    else db.GetOr("") + ":" + table.GetOr("") + ":" + column.GetOr("")
  }

  function ColumnKey(db: Option<string>, table: Option<string>, column: string): string {
    LegacyKey(DbColumn, db, table, Some(column))
  }

  /** The key `insertKey` builds: the column part only when a column is named. */
  function InsertKeyOf(db: Option<string>, table: Option<string>, column: Option<string>): string {
    if column.None? then db.GetOr("") + ":" + table.GetOr("")
    else db.GetOr("") + ":" + table.GetOr("") + ":" + column.value
  }

  /** `insertKey` and `getContext` build the same key for a table and for a named column. */
  lemma InsertKeyMatchesLookupKey(db: Option<string>, table: Option<string>, column: Option<string>)
    ensures InsertKeyOf(db, table, column) == LegacyKey(if column.None? then DbTable else DbColumn, db, table, column)
  {
  }

  /** Keys are flat strings: a table whose name holds ':' shares its key with a column. */
  lemma TableAndColumnKeysCollide()
    ensures LegacyKey(DbTable, Some("main"), Some("t:c"), None) == LegacyKey(DbColumn, Some("main"), Some("t"), Some("c"))
  {
  }

  /** The class a default label is computed for: column when a column is named, table otherwise. */
  function DefaultClass(column: Option<string>): int {
    if column.Some? then DbColumn else DbTable
  }

  /**
   * `getContext` for key `key`: the cached id on a hit; on a miss the default label for class
   * `cls`, registered and cached under the key, or id 0 and nothing changed when the library
   * cannot compute one.
   */
  function Resolved(policy: Policy, reg: Registry, key: string, cls: int): (out: Lookup)
    ensures Resolvable(policy, reg.objectIds, key, cls) ==> key in out.reg.objectIds && out.reg.objectIds[key] == out.id
    ensures !Resolvable(policy, reg.objectIds, key, cls) ==> out == Lookup(0, reg)
  {
    if key in reg.objectIds then Lookup(reg.objectIds[key], reg)
    else match policy.computeCreate(cls)
      case None => Lookup(0, reg)
      case Some(created) =>
        var out := Registered(reg, created);
        Lookup(out.id, out.reg.(objectIds := out.reg.objectIds[key := out.id]))
  }

  /**
   * A hit changes nothing; a miss with a default label registers it and caches the key with its
   * id; a miss without one changes nothing and yields 0. The registry stays well formed.
   */
  lemma ResolvedCaches(policy: Policy, reg: Registry, key: string, cls: int)
    requires WellFormed(reg)
    ensures var out := Resolved(policy, reg, key, cls);
            WellFormed(out.reg)
            && (key in reg.objectIds ==> out == Lookup(reg.objectIds[key], reg))
            && (key !in reg.objectIds && policy.computeCreate(cls).None? ==> out == Lookup(0, reg))
            && (key !in reg.objectIds && policy.computeCreate(cls).Some? ==>
                  var reg2 := Registered(reg, policy.computeCreate(cls).value);
                  out.id == reg2.id && 1 <= out.id <= |out.reg.rows|
                  && out.reg == reg2.reg.(objectIds := reg.objectIds[key := out.id]))
  {
    if key !in reg.objectIds && policy.computeCreate(cls).Some? {
      RegisteredFindsOrAppends(reg, policy.computeCreate(cls).value);
    }
  }

  /** `reg2` only adds to `reg`: rows appended at the end, `hash_id` and `hash` only gaining entries. */
  ghost predicate RegistryGrows(reg: Registry, reg2: Registry) {
    reg.rows <= reg2.rows && SA.Extends(reg.labelOf, reg2.labelOf) && SA.Extends(reg.objectIds, reg2.objectIds)
  }

  /** `getContext` never rebinds a key, re-maps a rowid or rewrites a row: the registry only grows. */
  lemma ResolvedGrows(policy: Policy, reg: Registry, key: string, cls: int)
    requires WellFormed(reg)
    ensures RegistryGrows(reg, Resolved(policy, reg, key, cls).reg)
  {
    if key !in reg.objectIds && policy.computeCreate(cls).Some? {
      RegisteredFindsOrAppends(reg, policy.computeCreate(cls).value);
      assert |reg.rows| + 1 !in reg.labelOf;
    }
  }

  /** A repeated `getContext` for the same key returns the same id and changes nothing. */
  lemma ResolveIdempotent(policy: Policy, reg: Registry, key: string, cls: int, cls2: int)
    requires WellFormed(reg)
    requires Resolved(policy, reg, key, cls).id != 0
    ensures var once := Resolved(policy, reg, key, cls);
            Resolved(policy, once.reg, key, cls2) == once
  {
    ResolvedCaches(policy, reg, key, cls);
  }

  /** The label `checkAccess` hands the policy for id `id`: the dequoted `hash_id` entry, or NULL. */
  function TargetOf(labelOf: map<int, string>, id: int): Option<string> {
    if id in labelOf then Some(Dequoted(labelOf[id])) else None
  }

  /** The target the policy is asked about for the object under `key`, once `getContext` has run. */
  function TargetAt(policy: Policy, reg: Registry, key: string, cls: int): Option<string> {
    var out := Resolved(policy, reg, key, cls);
    TargetOf(out.reg.labelOf, out.id)
  }

  /** For an uncached key, the target is that of registering the default label. */
  function RegisteredTarget(reg: Registry, con: string): Option<string> {
    var out := Registered(reg, con);
    TargetOf(out.reg.labelOf, out.id)
  }

  /**
   * Which target a check sees: the cached object's `hash_id` entry, NULL when no default label
   * can be computed, the quoted-then-dequoted label when it is new, and the row's `hash_id`
   * entry (which may be missing) when it is stored already.
   */
  lemma TargetAtCases(policy: Policy, reg: Registry, key: string, cls: int)
    requires WellFormed(reg)
    ensures key in reg.objectIds ==> TargetAt(policy, reg, key, cls) == TargetOf(reg.labelOf, reg.objectIds[key])
    ensures key !in reg.objectIds && policy.computeCreate(cls).None? ==> TargetAt(policy, reg, key, cls) == None
    ensures key !in reg.objectIds && policy.computeCreate(cls).Some? ==>
              var created := policy.computeCreate(cls).value;
              TargetAt(policy, reg, key, cls)
              == if created in reg.rows then TargetOf(reg.labelOf, RowIdOf(reg.rows, created))
                 else Some(Dequoted(Quoted(created)))
  {
    assert 0 !in reg.labelOf;
    if key !in reg.objectIds && policy.computeCreate(cls).Some? {
      RegisteredFindsOrAppends(reg, policy.computeCreate(cls).value);
    }
  }

  /** Registering one label leaves the target of registering any label where it was. */
  lemma RegisterKeepsRegisteredTarget(reg: Registry, l1: string, l2: string)
    requires WellFormed(reg)
    ensures RegisteredTarget(Registered(reg, l1).reg, l2) == RegisteredTarget(reg, l2)
  {
    var n := |reg.rows|;
    if RowIdOf(reg.rows, l1) == 0 {
      RowIdOfAppend(reg.rows, l1, l2);
      var r2 := RowIdOf(reg.rows, l2);
      if l1 != l2 && r2 != 0 {
        assert r2 <= n;
      }
    }
  }

  /**
   * Two checks on different keys, or on one key with the same default class, do not disturb
   * each other: after `getContext` for the first, the second sees the target it would have seen.
   */
  lemma ResolveKeepsOtherTargets(policy: Policy, reg: Registry, key1: string, cls1: int, key2: string, cls2: int)
    requires WellFormed(reg)
    requires key1 != key2 || cls1 == cls2
    ensures TargetAt(policy, Resolved(policy, reg, key1, cls1).reg, key2, cls2) == TargetAt(policy, reg, key2, cls2)
  {
    var out1 := Resolved(policy, reg, key1, cls1);
    ResolvedCaches(policy, reg, key1, cls1);
    if key1 in reg.objectIds || policy.computeCreate(cls1).None? {
      assert out1.reg == reg;
    } else if key1 == key2 {
      ResolveIdempotent(policy, reg, key1, cls1, cls2);
    } else {
      var l1 := policy.computeCreate(cls1).value;
      var n := |reg.rows|;
      assert 0 !in reg.labelOf && 0 !in out1.reg.labelOf;
      if key2 in reg.objectIds {
        assert reg.objectIds[key2] <= n;
        assert out1.reg.objectIds[key2] == reg.objectIds[key2];
      } else if policy.computeCreate(cls2).Some? {
        var l2 := policy.computeCreate(cls2).value;
        var reg1 := Registered(reg, l1).reg;
        RegisterKeepsRegisteredTarget(reg, l1, l2);
        assert out1.reg.rows == reg1.rows && out1.reg.labelOf == reg1.labelOf;
        assert Registered(out1.reg, l2).id == Registered(reg1, l2).id;
        assert Registered(out1.reg, l2).reg.labelOf == Registered(reg1, l2).reg.labelOf;
      }
    }
  }

  /** `checkAccess` can find an id for the object: it is cached, or its default label can be computed. */
  predicate Resolvable(policy: Policy, objectIds: map<string, int>, key: string, cls: int) {
    key in objectIds || policy.computeCreate(cls).Some?
  }

  /** A check the first engine can make: a table or a column, with a filled permission slot. */
  predicate LegacyShaped(r: Request) {
    (r.tclass == DbTable || r.tclass == DbColumn) && ValidSlot(r.tclass, r.perm)
  }

  /**
   * The decision of one check in registry state `reg`: the policy's answer for the process
   * context, the target `getContext` leads to, and the class and permission names.
   */
  function LegacyAllowed(policy: Policy, reg: Registry, r: Request): (ok: bool)
    ensures ok ==> LegacyShaped(r)
  {
    LegacyShaped(r)
    && policy.checkAccess(policy.scon,
                          TargetAt(policy, reg, LegacyKey(r.tclass, r.db, r.table, r.column), DefaultClass(r.column)),
                          AccessVector[r.tclass].name, AccessVector[r.tclass].perms[r.perm].name) == 0
  }

  function LegacyDecide(policy: Policy, reg: Registry): Request -> bool {
    r => LegacyAllowed(policy, reg, r)
  }

  /** Every column check of the table sees the same target in `reg` as in `reg0`. */
  ghost predicate ColumnTargetsAgree(policy: Policy, reg: Registry, reg0: Registry, db: Option<string>,
                                     table: Option<string>)
  {
    forall c :: TargetAt(policy, reg, ColumnKey(db, table, c), DbColumn) == TargetAt(policy, reg0, ColumnKey(db, table, c), DbColumn)
  }

  /** A column check leaves the targets of the table's column checks alone. */
  lemma ColumnCheckKeepsColumnTargets(policy: Policy, reg: Registry, reg0: Registry, db: Option<string>,
                                      table: Option<string>, column: string)
    requires WellFormed(reg) && ColumnTargetsAgree(policy, reg, reg0, db, table)
    ensures ColumnTargetsAgree(policy, Resolved(policy, reg, ColumnKey(db, table, column), DbColumn).reg, reg0, db, table)
  {
    forall c
      ensures TargetAt(policy, Resolved(policy, reg, ColumnKey(db, table, column), DbColumn).reg, ColumnKey(db, table, c), DbColumn)
              == TargetAt(policy, reg0, ColumnKey(db, table, c), DbColumn)
    {
      ResolveKeepsOtherTargets(policy, reg, ColumnKey(db, table, column), DbColumn, ColumnKey(db, table, c), DbColumn);
    }
  }

  /** A table check leaves the targets of its columns' checks alone: the keys differ. */
  lemma TableCheckKeepsColumnTargets(policy: Policy, reg: Registry, db: Option<string>, table: Option<string>)
    requires WellFormed(reg)
    ensures ColumnTargetsAgree(policy, Resolved(policy, reg, LegacyKey(DbTable, db, table, None), DbTable).reg, reg, db, table)
  {
    forall c
      ensures TargetAt(policy, Resolved(policy, reg, LegacyKey(DbTable, db, table, None), DbTable).reg, ColumnKey(db, table, c), DbColumn)
              == TargetAt(policy, reg, ColumnKey(db, table, c), DbColumn)
    {
      assert |LegacyKey(DbTable, db, table, None)| < |ColumnKey(db, table, c)|;
      ResolveKeepsOtherTargets(policy, reg, LegacyKey(DbTable, db, table, None), DbTable, ColumnKey(db, table, c), DbColumn);
    }
  }

  /** Decisions that agree on every check of a scan give the same scan. */
  lemma ScanFollowsDecisions(reqs: seq<Request>, a1: Request -> bool, a2: Request -> bool)
    requires forall i :: 0 <= i < |reqs| ==> a1(reqs[i]) == a2(reqs[i])
    ensures ScanColumns(reqs, a1) == ScanColumns(reqs, a2)
  {
    var k := FirstDenied(reqs, a1);
    FirstDeniedAt(reqs, a2, k);
  }

  /** With the column targets agreeing, the column scan of the table is the same in both states. */
  lemma AllColumnsFollowTargets(policy: Policy, reg: Registry, reg0: Registry, db: Option<string>,
                                table: Option<string>, perm: nat, schema: Schema)
    requires ColumnTargetsAgree(policy, reg, reg0, db, table)
    ensures AllColumns(db, table, perm, LegacyDecide(policy, reg), schema)
            == AllColumns(db, table, perm, LegacyDecide(policy, reg0), schema)
  {
    match schema(db.GetOr(""), table.GetOr("")) {
      case None =>
      case Some(columns) =>
        var reqs := ColumnRequests(db, table, columns, perm);
        forall i | 0 <= i < |reqs|
          ensures LegacyDecide(policy, reg)(reqs[i]) == LegacyDecide(policy, reg0)(reqs[i])
        {
          assert LegacyKey(reqs[i].tclass, reqs[i].db, reqs[i].table, reqs[i].column) == ColumnKey(db, table, columns[i]);
        }
        ScanFollowsDecisions(reqs, LegacyDecide(policy, reg), LegacyDecide(policy, reg0));
    }
  }

  /** Every AVC entry is for an existing row and is the policy's code for that row's target. */
  ghost predicate AvcRecordsPolicy(policy: Policy, reg: Registry, avc: map<SA.AvcKey, int>) {
    forall k :: k in avc ==>
      1 <= k.objectId <= |reg.rows|
      && avc[k] == policy.checkAccess(policy.scon, TargetOf(reg.labelOf, k.objectId),
                                      ClassNameOf(k.classCode), PermNameOf(k.classCode, k.permCode))
  }

  /** Rows appended and the new rows' `hash_id` entries leave the AVC's entries the policy's codes. */
  lemma GrowthKeepsAvc(policy: Policy, reg: Registry, reg2: Registry, avc: map<SA.AvcKey, int>)
    requires AvcRecordsPolicy(policy, reg, avc)
    requires |reg.rows| <= |reg2.rows|
    requires forall i :: 1 <= i <= |reg.rows| ==> TargetOf(reg2.labelOf, i) == TargetOf(reg.labelOf, i)
    ensures AvcRecordsPolicy(policy, reg2, avc)
  {
  }

  /* ----- The authorizer's dispatch ----- */

  /** `if (!table check) rc = DENY; rc = checkAllColumns(...)`: the table check is made, its result discarded. */
  function Overwritten(r: Request, rest: Outcome): Outcome {
    Outcome(rest.rc, [r] + rest.checks)
  }

  /** The switch of the first `selinuxAuthorizer`; there is no database check before it. */
  function LegacyActionOutcome(action: int, arg1: Option<string>, arg2: Option<string>, dbname: Option<string>,
                               allowed: Request -> bool, schema: Schema): (o: Outcome)
    ensures o.rc == SqliteOk || o.rc == SqliteDeny
  {
    if SA.CreatesTable(action) then Check(TableRequest(dbname, arg1, Create), allowed)
    else if SA.SetsTableAttr(action) then Check(TableRequest(dbname, arg2, SetAttr), allowed)
    else if action == SqliteDelete then
      Overwritten(TableRequest(dbname, arg1, Delete), AllColumns(dbname, arg1, Drop, allowed, schema))
    else if SA.DropsWithColumns(action) then
      Overwritten(TableRequest(dbname, arg1, Drop), AllColumns(dbname, arg1, Drop, allowed, schema))
    else if action == SqliteDropTempView then Check(TableRequest(dbname, arg1, Drop), allowed)
    else if action == SqliteInsert then
      Overwritten(TableRequest(dbname, arg1, Insert), AllColumns(dbname, arg1, Insert, allowed, schema))
    else if action == SqlitePragma then
      Outcome(if SA.IsWritableSchema(arg1) then SqliteDeny else SqliteOk, [])
    else if action == SqliteRead then Check(ColumnRequest(dbname, arg1, arg2, Select), allowed)
    else if action == SqliteUpdate then Check(ColumnRequest(dbname, arg1, arg2, Update), allowed)
    else if action == SqliteAttach || action == SqliteDetach then
      Outcome(if arg1.Some? && |arg1.value| != 0 then SqliteDeny else SqliteOk, [])
    else if action == SqliteAlterTable then Check(TableRequest(arg1, arg2, GetAttr), allowed)
    else Outcome(SqliteOk, [])
  }

  /** The column scan's permission in the overwriting cases: DROP for DELETE and the drops, INSERT for INSERT. */
  predicate OverwritesWithColumns(action: int) {
    SA.DropsWithColumns(action) || action == SqliteDelete || action == SqliteInsert
  }

  function TablePerm(action: int): nat {
    if action == SqliteDelete then Delete else if action == SqliteInsert then Insert else Drop
  }

  function ColumnPerm(action: int): nat {
    if action == SqliteInsert then Insert else Drop
  }

  /**
   * In DELETE, the drops and INSERT the result is the column scan's alone: the table check is
   * made first, and whether it passed plays no part.
   */
  lemma TableVerdictDiscarded(action: int, arg1: Option<string>, arg2: Option<string>, dbname: Option<string>,
                              allowed: Request -> bool, schema: Schema)
    requires OverwritesWithColumns(action)
    ensures var o := LegacyActionOutcome(action, arg1, arg2, dbname, allowed, schema);
            var cols := AllColumns(dbname, arg1, ColumnPerm(action), allowed, schema);
            o.rc == cols.rc && o.checks == [TableRequest(dbname, arg1, TablePerm(action))] + cols.checks
  {
  }

  /** A decision procedure that refuses every table and grants everything else. */
  function DenyTables(): Request -> bool {
    (r: Request) => r.tclass != DbTable
  }

  /** A schema in which no table exists. */
  function NoTables(): Schema {
    (db: string, table: string) => None
  }

  /**
   * DROP TABLE on a table the policy refuses: the first engine returns OK, the newer one DENY.
   * The same holds for INSERT and the other drops whenever every column passes.
   */
  lemma DeniedTableDropAllowed()
    ensures LegacyActionOutcome(SqliteDropTable, Some("t"), None, Some("main"), DenyTables(), NoTables()).rc == SqliteOk
    ensures SA.ActionOutcome(SqliteDropTable, Some("t"), None, Some("main"), DenyTables(), NoTables()).rc == SqliteDeny
  {
    assert !DenyTables()(TableRequest(Some("main"), Some("t"), Drop));
  }

  /** A refused table with every column passing: the first engine grants, the newer engine refuses. */
  lemma TableDenyLost(action: int, arg1: Option<string>, arg2: Option<string>, dbname: Option<string>,
                      allowed: Request -> bool, schema: Schema)
    requires SA.DropsWithColumns(action) || action == SqliteInsert
    requires !allowed(TableRequest(dbname, arg1, TablePerm(action)))
    requires AllColumns(dbname, arg1, ColumnPerm(action), allowed, schema).rc == SqliteOk
    ensures LegacyActionOutcome(action, arg1, arg2, dbname, allowed, schema).rc == SqliteOk
    ensures SA.ActionOutcome(action, arg1, arg2, dbname, allowed, schema).rc == SqliteDeny
  {
  }

  /**
   * Where the table check passes the two switches agree on the drops and INSERT; on the
   * single-check actions they agree outright. READ differs (one column check against a table
   * check first) and so does DELETE (the first engine also scans the columns for DROP).
   */
  lemma SwitchesAgreeElsewhere(action: int, arg1: Option<string>, arg2: Option<string>, dbname: Option<string>,
                               allowed: Request -> bool, schema: Schema)
    ensures (SA.DropsWithColumns(action) || action == SqliteInsert) && allowed(TableRequest(dbname, arg1, TablePerm(action))) ==>
              LegacyActionOutcome(action, arg1, arg2, dbname, allowed, schema)
              == SA.ActionOutcome(action, arg1, arg2, dbname, allowed, schema)
    ensures !OverwritesWithColumns(action) && action != SqliteRead ==>
              LegacyActionOutcome(action, arg1, arg2, dbname, allowed, schema)
              == SA.ActionOutcome(action, arg1, arg2, dbname, allowed, schema)
    ensures action == SqliteRead ==>
              LegacyActionOutcome(action, arg1, arg2, dbname, allowed, schema).checks
              == [ColumnRequest(dbname, arg1, arg2, Select)]
  {
  }

  /* ----- A registry row stored before the connection opened ----- */

  /**
   * A database whose `selinux_id` table already holds the default label and whose `hash_id` is,
   * as on every open, empty: `insertId` finds the row and enters nothing into `hash_id`, so the
   * policy is asked about a NULL target.
   */
  lemma StoredLabelReachesPolicyAsNull(policy: Policy, created: string, perm: nat)
    requires policy.computeCreate(DbTable) == Some(created)
    requires ValidSlot(DbTable, perm)
    ensures TargetAt(policy, Registry([created], map[], map[]), "main:t", DbTable) == None
    ensures LegacyAllowed(policy, Registry([created], map[], map[]), TableRequest(Some("main"), Some("t"), perm))
            == (policy.checkAccess(policy.scon, None, "db_table", AccessVector[DbTable].perms[perm].name) == 0)
  {
    assert RowIdOf([created], created) == 1;
  }

  /** `insertId` with the found row entered into `hash_id` as well. */
  function RegisteredLoaded(reg: Registry, con: string): Lookup {
    var rowid := RowIdOf(reg.rows, con);
    if rowid != 0 then Lookup(rowid, reg.(labelOf := reg.labelOf[rowid := Quoted(con)]))
    else Lookup(|reg.rows| + 1, reg.(rows := reg.rows + [con], labelOf := reg.labelOf[|reg.rows| + 1 := Quoted(con)]))
  }

  /**
   * With the found row entered as well, the policy is always asked about the label itself (for a
   * label without quotes), and the registry stays well formed.
   */
  lemma RegisteredLoadedTargetsLabel(reg: Registry, con: string)
    requires WellFormed(reg)
    ensures var out := RegisteredLoaded(reg, con);
            WellFormed(out.reg) && 1 <= out.id <= |out.reg.rows| && out.reg.rows[out.id - 1] == con
            && TargetOf(out.reg.labelOf, out.id) == Some(Dequoted(Quoted(con)))
            && (QuoteFree(con) ==> TargetOf(out.reg.labelOf, out.id) == Some(con))
  {
    if QuoteFree(con) {
      QuoteRoundTrip(con);
    }
  }

  /* ----- The connection ----- */

  /** The state of the first engine for one process: its registry, object cache and AVC. */
  class LegacyEngine {
    /** The SELinux library, with the process context `scon`. */
    const policy: Policy
    /** The registry id of `scon`. */
    const sconId: int

    /** The `selinux_id` table: rowid i holds rows[i - 1]. */
    var rows: seq<string>
    /** `hash_id`: rowid to quoted label, for the rows this connection inserted. */
    var labelOf: map<int, string>
    /** `hash`: object key to rowid. */
    var objectIds: map<string, int>
    /** The AVC: the policy's return code per packed key. */
    var avc: map<SA.AvcKey, int>

    /** How many times the policy has been asked for a decision. */
    ghost var oracleCalls: nat
    /** Every check made, in order. */
    ghost var log: seq<Request>

    function Reg(): Registry
      reads this
    {
      Registry(rows, labelOf, objectIds)
    }

    /** The registry is well formed and every AVC entry is the policy's code for its object. */
    ghost predicate Valid()
      reads this
    {
      WellFormed(Reg()) && AvcRecordsPolicy(policy, Reg(), avc)
    }

    /**
     * Since the earlier state the registry, `hash_id` and `hash` have only grown and the AVC has
     * only gained entries: nothing is rebound or flushed.
     */
    twostate predicate Grown()
      reads this
    {
      RegistryGrows(old(Reg()), Reg()) && SA.Extends(old(avc), avc)
    }

    /** Since the earlier state the policy has been asked at most once per check recorded. */
    twostate predicate OneCallPerCheck()
      reads this
    {
      old(oracleCalls) <= oracleCalls && oracleCalls - old(oracleCalls) <= |log| - |old(log)|
    }

    /** A connection over a stored `selinux_id` table; `hash_id`, `hash` and the AVC start empty. */
    constructor (policy: Policy, sconId: int, persisted: seq<string>)
      ensures Valid()
      ensures this.policy == policy && this.sconId == sconId
      ensures rows == persisted && labelOf == map[] && objectIds == map[] && avc == map[]
      ensures oracleCalls == 0 && log == []
    {
      this.policy := policy;
      this.sconId := sconId;
      rows := persisted;
      labelOf := map[];
      objectIds := map[];
      avc := map[];
      oracleCalls := 0;
      log := [];
    }

    /**
     * `insertId`: the select loop keeps the last rowid holding the label; with none, one row is
     * inserted and its rowid mapped to the quoted label.
     */
    method InsertId(con: string) returns (rowid: int)
      requires Valid()
      modifies this
      ensures Valid()
      ensures Lookup(rowid, Reg()) == Registered(old(Reg()), con)
      ensures avc == old(avc) && oracleCalls == old(oracleCalls) && log == old(log)
    {
      var ttcon := Quoted(con);
      rowid := 0;
      var i := 0;
      while i < |rows|
        invariant 0 <= i <= |rows|
        invariant rowid == RowIdOf(rows[..i], con)
      {
        assert rows[..i + 1][..i] == rows[..i];
        if rows[i] == con {
          rowid := i + 1;
        }
        i := i + 1;
      }
      assert rows[..i] == rows;
      if rowid == 0 {
        GrowthKeepsAvc(policy, Reg(), Registered(Reg(), con).reg, avc);
        rows := rows + [con];
        rowid := |rows|;
        labelOf := labelOf[rowid := ttcon];
      }
    }

    /**
     * `getContext` for a table (class 1) or a column (class 2): the cached id on a hit; on a miss
     * the default label for the object's class, registered and cached; 0 when the library cannot
     * compute one.
     */
    method GetContext(dbname: Option<string>, tclass: nat, table: Option<string>, column: Option<string>)
      returns (id: int)
      requires Valid() && (tclass == DbTable || tclass == DbColumn)
      modifies this
      ensures Valid()
      ensures Lookup(id, Reg()) == Resolved(policy, old(Reg()), LegacyKey(tclass, dbname, table, column), DefaultClass(column))
      ensures avc == old(avc) && oracleCalls == old(oracleCalls) && log == old(log)
      ensures Grown()
    {
      var key := LegacyKey(tclass, dbname, table, column);
      ResolvedGrows(policy, Reg(), key, DefaultClass(column));
      if key in objectIds {
        return objectIds[key];
      }
      var created := policy.computeCreate(DefaultClass(column));
      if created.None? {
        return 0;
      }
      id := InsertId(created.value);
      objectIds := objectIds[key := id];
    }

    /** `insertKey`: the label registered and the key (column part only when named) bound to its id. */
    method InsertKey(dbName: Option<string>, tName: Option<string>, cName: Option<string>, con: string)
      returns (rc: int)
      requires Valid()
      modifies this
      ensures Valid()
      ensures rc == SqliteOk
      ensures var out := Registered(old(Reg()), con);
              rows == out.reg.rows && labelOf == out.reg.labelOf
              && objectIds == old(objectIds)[InsertKeyOf(dbName, tName, cName) := out.id]
      ensures avc == old(avc) && oracleCalls == old(oracleCalls) && log == old(log)
    {
      var key := InsertKeyOf(dbName, tName, cName);
      RegisteredFindsOrAppends(Reg(), con);
      var id := InsertId(con);
      objectIds := objectIds[key := id];
      rc := SqliteOk;
    }

    /** `compress(scon_id, id, c_code, p_code)`. */
    function AvcKeyFor(tclass: nat, perm: nat, id: int): SA.AvcKey
      requires ValidSlot(tclass, perm)
    {
      SA.AvcKey(sconId, id, AccessVector[tclass].code, AccessVector[tclass].perms[perm].code)
    }

    /**
     * `checkAccess`: the object's id from `getContext`, then the AVC; on a hit the stored code, with
     * no call to the policy; on a miss one call, its code stored. The answer is whether the code
     * is 0, and is the decision for the target `getContext` leads to from the state before.
     */
    method CheckAccess(dbname: Option<string>, table: Option<string>, column: Option<string>, tclass: nat, perm: nat)
      returns (res: bool)
      requires Valid() && LegacyShaped(Request(dbname, table, column, tclass, perm))
      requires Resolvable(policy, objectIds, LegacyKey(tclass, dbname, table, column), DefaultClass(column))
      modifies this
      ensures Valid()
      ensures res == LegacyAllowed(policy, old(Reg()), Request(dbname, table, column, tclass, perm))
      ensures Reg() == Resolved(policy, old(Reg()), LegacyKey(tclass, dbname, table, column), DefaultClass(column)).reg
      ensures log == old(log) + [Request(dbname, table, column, tclass, perm)]
      ensures var id := Resolved(policy, old(Reg()), LegacyKey(tclass, dbname, table, column), DefaultClass(column)).id;
              var k := AvcKeyFor(tclass, perm, id);
              k in avc && res == (avc[k] == 0)
              && (k in old(avc) ==> avc == old(avc) && oracleCalls == old(oracleCalls))
              && (k !in old(avc) ==> avc == old(avc)[k := avc[k]] && oracleCalls == old(oracleCalls) + 1)
      ensures Grown() && OneCallPerCheck()
    {
      ghost var reg0 := Reg();
      log := log + [Request(dbname, table, column, tclass, perm)];
      var id := GetContext(dbname, tclass, table, column);
      ResolvedCaches(policy, reg0, LegacyKey(tclass, dbname, table, column), DefaultClass(column));
      res := AvcLookup(id, tclass, perm);
    }

    /**
     * The AVC half of `checkAccess` for the object with id `id`: the stored code on a hit; on a
     * miss the policy's code for the dequoted `hash_id` entry, stored.
     */
    method AvcLookup(id: int, tclass: nat, perm: nat) returns (res: bool)
      requires Valid() && ValidSlot(tclass, perm) && 1 <= id <= |rows|
      modifies this
      ensures Valid()
      ensures Reg() == old(Reg()) && log == old(log)
      ensures res == (policy.checkAccess(policy.scon, TargetOf(labelOf, id), AccessVector[tclass].name,
                                         AccessVector[tclass].perms[perm].name) == 0)
      ensures var k := AvcKeyFor(tclass, perm, id);
              k in avc && res == (avc[k] == 0)
              && (k in old(avc) ==> avc == old(avc) && oracleCalls == old(oracleCalls))
              && (k !in old(avc) ==> avc == old(avc)[k := avc[k]] && oracleCalls == old(oracleCalls) + 1)
      ensures Grown()
    {
      var key := AvcKeyFor(tclass, perm, id);
      NamesRecoveredFromCodes(tclass, perm);
      if key !in avc {
        var ttcon := TargetOf(labelOf, id);
        var code := policy.checkAccess(policy.scon, ttcon, AccessVector[tclass].name, AccessVector[tclass].perms[perm].name);
        oracleCalls := oracleCalls + 1;
        avc := avc[key := code];
      }
      res := avc[key] == 0;
    }

    /**
     * `checkAllColumns(db, table, DB_COLUMN, perm)`: each column of the table in order, returning
     * DENY at the first one refused; OK when every column passes or the table is not found. Each
     * check is decided as it would have been before the scan began.
     */
    method CheckAllColumns(dbName: Option<string>, tblName: Option<string>, perm: nat, schema: Schema)
      returns (rc: int)
      requires Valid() && ValidSlot(DbColumn, perm) && policy.computeCreate(DbColumn).Some?
      modifies this
      ensures Valid()
      ensures var o := AllColumns(dbName, tblName, perm, LegacyDecide(policy, old(Reg())), schema);
              rc == o.rc && log == old(log) + o.checks
      ensures Grown() && OneCallPerCheck()
    {
      rc := SqliteOk;
      var found := schema(dbName.GetOr(""), tblName.GetOr(""));
      if found.None? {
        return;
      }
      var columns := found.value;
      ghost var reg0 := Reg();
      ghost var reqs := ColumnRequests(dbName, tblName, columns, perm);
      ghost var allowed := LegacyDecide(policy, reg0);
      var j := 0;
      while j < |columns|
        invariant 0 <= j <= |columns|
        invariant Valid()
        invariant ColumnTargetsAgree(policy, Reg(), reg0, dbName, tblName)
        invariant log == old(log) + reqs[..j]
        invariant forall i :: 0 <= i < j ==> allowed(reqs[i])
        invariant Grown() && OneCallPerCheck()
      {
        ghost var regj := Reg();
        assert reqs[j] == Request(dbName, tblName, Some(columns[j]), DbColumn, perm);
        var ok := CheckAccess(dbName, tblName, Some(columns[j]), DbColumn, perm);
        ColumnCheckKeepsColumnTargets(policy, regj, reg0, dbName, tblName, columns[j]);
        assert ok == allowed(reqs[j]) by {
          assert TargetAt(policy, regj, ColumnKey(dbName, tblName, columns[j]), DbColumn)
                 == TargetAt(policy, reg0, ColumnKey(dbName, tblName, columns[j]), DbColumn);
        }
        SA.PrefixGrows(reqs, j);
        SA.AppendRegroups(old(log), reqs[..j], [reqs[j]]);
        if !ok {
          FirstDeniedAt(reqs, allowed, j);
          return SqliteDeny;
        }
        SA.PassingPrefixGrows(reqs, allowed, j);
        j := j + 1;
      }
      FirstDeniedAt(reqs, allowed, j);
      assert reqs[..j] == reqs;
    }

    /** `getContext` gives the table `table` of `db` an id: it is cached, or a table label can be computed. */
    predicate TableResolvable(db: Option<string>, table: Option<string>)
      reads this
    {
      Resolvable(policy, objectIds, LegacyKey(DbTable, db, table, None), DbTable)
    }

    /**
     * Every `getContext` the action leads to finds an id, as `checkAccess`'s assertion demands:
     * the table or column checked is resolvable, and a column scan can label every column.
     */
    predicate CanAuthorize(action: int, arg1: Option<string>, arg2: Option<string>, dbname: Option<string>)
      reads this
    {
      if SA.CreatesTable(action) then TableResolvable(dbname, arg1)
      else if SA.SetsTableAttr(action) then TableResolvable(dbname, arg2)
      else if OverwritesWithColumns(action) then TableResolvable(dbname, arg1) && policy.computeCreate(DbColumn).Some?
      else if action == SqliteDropTempView then TableResolvable(dbname, arg1)
      else if action == SqliteRead || action == SqliteUpdate then
        Resolvable(policy, objectIds, LegacyKey(DbColumn, dbname, arg1, arg2), DefaultClass(arg2))
      else if action == SqliteAlterTable then TableResolvable(arg1, arg2)
      else true
    }

    /**
     * DELETE, the drops and INSERT: the table check, whose refusal sets rc to DENY, and then rc
     * overwritten by the column scan.
     */
    method TableThenOverwrite(dbname: Option<string>, table: Option<string>, tperm: nat, cperm: nat, schema: Schema)
      returns (rc: int)
      requires Valid() && ValidSlot(DbTable, tperm) && ValidSlot(DbColumn, cperm)
      requires TableResolvable(dbname, table) && policy.computeCreate(DbColumn).Some?
      modifies this
      ensures Valid()
      ensures var o := Overwritten(TableRequest(dbname, table, tperm),
                                   AllColumns(dbname, table, cperm, LegacyDecide(policy, old(Reg())), schema));
              rc == o.rc && log == old(log) + o.checks
      ensures Grown() && OneCallPerCheck()
    {
      ghost var reg0 := Reg();
      ghost var log0 := log;
      rc := SqliteOk;
      var ok := CheckAccess(dbname, table, None, DbTable, tperm);
      if !ok {
        rc := SqliteDeny;
      }
      TableCheckKeepsColumnTargets(policy, reg0, dbname, table);
      AllColumnsFollowTargets(policy, Reg(), reg0, dbname, table, cperm, schema);
      rc := CheckAllColumns(dbname, table, cperm, schema);
      ghost var tableCheck := [TableRequest(dbname, table, tperm)];
      ghost var columnChecks := AllColumns(dbname, table, cperm, LegacyDecide(policy, reg0), schema).checks;
      SA.AppendRegroups(log0, tableCheck, columnChecks);
    }

    /** A single check: DENY when it fails. */
    method SingleCheck(dbname: Option<string>, table: Option<string>, column: Option<string>, tclass: nat, perm: nat)
      returns (rc: int)
      requires Valid() && LegacyShaped(Request(dbname, table, column, tclass, perm))
      requires Resolvable(policy, objectIds, LegacyKey(tclass, dbname, table, column), DefaultClass(column))
      modifies this
      ensures Valid()
      ensures var o := Check(Request(dbname, table, column, tclass, perm), LegacyDecide(policy, old(Reg())));
              rc == o.rc && log == old(log) + o.checks
      ensures Reg() == Resolved(policy, old(Reg()), LegacyKey(tclass, dbname, table, column), DefaultClass(column)).reg
      ensures var id := Resolved(policy, old(Reg()), LegacyKey(tclass, dbname, table, column), DefaultClass(column)).id;
              var k := AvcKeyFor(tclass, perm, id);
              k in avc && (rc == SqliteOk <==> avc[k] == 0)
              && (k in old(avc) ==> avc == old(avc) && oracleCalls == old(oracleCalls))
              && (k !in old(avc) ==> avc == old(avc)[k := avc[k]] && oracleCalls == old(oracleCalls) + 1)
      ensures Grown() && OneCallPerCheck()
    {
      rc := SqliteOk;
      var ok := CheckAccess(dbname, table, column, tclass, perm);
      if !ok {
        rc := SqliteDeny;
      }
    }

    /**
     * The first `selinuxAuthorizer`: rc starts OK and the switch on the action sets it. The result
     * code and the checks made are those of `LegacyActionOutcome` under the decisions of the state
     * the call began in.
     */
    method Authorize(action: int, arg1: Option<string>, arg2: Option<string>, dbname: Option<string>, schema: Schema)
      returns (rc: int)
      requires Valid() && CanAuthorize(action, arg1, arg2, dbname)
      modifies this
      ensures Valid()
      ensures var o := LegacyActionOutcome(action, arg1, arg2, dbname, LegacyDecide(policy, old(Reg())), schema);
              rc == o.rc && log == old(log) + o.checks
      ensures Grown() && OneCallPerCheck()
    {
      rc := SqliteOk;
      if SA.CreatesTable(action) {
        rc := SingleCheck(dbname, arg1, None, DbTable, Create);
      } else if SA.SetsTableAttr(action) {
        rc := SingleCheck(dbname, arg2, None, DbTable, SetAttr);
      } else if action == SqliteDelete {
        rc := TableThenOverwrite(dbname, arg1, Delete, Drop, schema);
      } else if SA.DropsWithColumns(action) {
        rc := TableThenOverwrite(dbname, arg1, Drop, Drop, schema);
      } else if action == SqliteDropTempView {
        rc := SingleCheck(dbname, arg1, None, DbTable, Drop);
      } else if action == SqliteInsert {
        rc := TableThenOverwrite(dbname, arg1, Insert, Insert, schema);
      } else if action == SqlitePragma {
        if SA.IsWritableSchema(arg1) {
          rc := SqliteDeny;
        }
      } else if action == SqliteRead {
        rc := SingleCheck(dbname, arg1, arg2, DbColumn, Select);
      } else if action == SqliteUpdate {
        rc := SingleCheck(dbname, arg1, arg2, DbColumn, Update);
      } else if action == SqliteAttach || action == SqliteDetach {
        if arg1.Some? && |arg1.value| != 0 {
          rc := SqliteDeny;
        }
      } else if action == SqliteAlterTable {
        rc := SingleCheck(arg1, arg2, None, DbTable, GetAttr);
      }
    }

    /** Two checks of the same object and permission: the second is an AVC hit with the same answer. */
    method CheckTwice(dbname: Option<string>, table: Option<string>, column: Option<string>, tclass: nat, perm: nat)
      returns (first: bool, second: bool)
      requires Valid() && LegacyShaped(Request(dbname, table, column, tclass, perm))
      requires Resolvable(policy, objectIds, LegacyKey(tclass, dbname, table, column), DefaultClass(column))
      modifies this
      ensures Valid()
      ensures first == second
      ensures oracleCalls <= old(oracleCalls) + 1
      ensures Grown() && OneCallPerCheck()
    {
      ghost var reg0 := Reg();
      first := CheckAccess(dbname, table, column, tclass, perm);
      ghost var calls1 := oracleCalls;
      ResolvedCaches(policy, reg0, LegacyKey(tclass, dbname, table, column), DefaultClass(column));
      ResolveIdempotent(policy, reg0, LegacyKey(tclass, dbname, table, column), DefaultClass(column), DefaultClass(column));
      second := CheckAccess(dbname, table, column, tclass, perm);
    }
  }
}
