/**
 * First-match label resolution: walk one rule list in order and take the label of the first
 * rule whose segments match the object's coordinates; with no match, ask the SELinux library
 * for a default label. Also the two lookups that turn a resolved label into its registered id.
 */
module ComputeLabel {
  import opened Wrappers
  import opened SesqliteHeader
  import CI = CaseInsensitive
  import ContextList

  /** The class code the resolver passes to `security_compute_create_raw` for a default label. */
  const DefaultLabelClass: int := 4

  /** A pattern segment matches a name when the two are equal ignoring case, or it is exactly `*`. */
  predicate SegmentMatches(name: string, pattern: string) {
    CI.EqualsIgnoreCase(name, pattern) || pattern == "*"
  }

  /** A rule applies to (db, table[, column]); without `isColumn` the third segment is not consulted. */
  predicate RuleMatches(isColumn: bool, db: string, table: string, column: string, r: ContextElement) {
    SegmentMatches(db, r.fparam) && SegmentMatches(table, r.sparam)
    && (isColumn ==> SegmentMatches(column, r.tparam))
  }

  /** The position of the first applicable rule, or None when no rule applies. */
  function FirstMatch(isColumn: bool, db: string, table: string, column: string, rules: seq<ContextElement>)
    : (k: Option<nat>)
    ensures k.Some? ==> k.value < |rules| && RuleMatches(isColumn, db, table, column, rules[k.value])
    ensures k.Some? ==> forall j :: 0 <= j < k.value ==> !RuleMatches(isColumn, db, table, column, rules[j])
    ensures k.None? <==> forall j :: 0 <= j < |rules| ==> !RuleMatches(isColumn, db, table, column, rules[j])
  {
    if |rules| == 0 then None
    else if RuleMatches(isColumn, db, table, column, rules[0]) then Some(0)
    else
      match FirstMatch(isColumn, db, table, column, rules[1..])
      case None => None
      case Some(k) => Some(k + 1)
  }

  /** What `compute_sql_context` reports: its return code and the final value of `*res`. */
  datatype Resolution = Resolution(rc: int, res: Option<string>)

  /**
   * The outcome of resolving with `*res` initially `res0`: the first applicable rule's label with
   * code 0; otherwise the default label with `getcon`'s code; otherwise code 0 and `*res` untouched.
   */
  function SqlContext(isColumn: bool, db: string, table: string, column: string,
                      rules: seq<ContextElement>, policy: Policy, res0: Option<string>): (out: Resolution)
    ensures FirstMatch(isColumn, db, table, column, rules).Some? ==> out.rc == 0 && out.res.Some?
    ensures out.res.None? ==> out.res == res0 && out.rc == 0
  {
    match FirstMatch(isColumn, db, table, column, rules)
    case Some(k) => Resolution(0, Some(rules[k].securityContext))
    case None =>
      match policy.computeCreate(DefaultLabelClass)
      case Some(created) => Resolution(policy.getconRc, Some(created))
      case None => Resolution(0, res0)
  }

  /** `compute_sql_context`: the list walk that stops at the first applicable rule. */
  method ComputeSqlContext(isColumn: bool, dbName: string, tblName: string, colName: string,
                           con: seq<ContextElement>, policy: Policy, res0: Option<string>)
    returns (rc: int, res: Option<string>)
    ensures Resolution(rc, res) == SqlContext(isColumn, dbName, tblName, colName, con, policy, res0)
  {
    rc := 0;
    res := res0;
    var p := 0;
    while p < |con|
      invariant 0 <= p <= |con|
      invariant forall j :: 0 <= j < p ==> !RuleMatches(isColumn, dbName, tblName, colName, con[j])
      decreases |con| - p
    {
      var r := con[p];
      if CI.Compare(dbName, r.fparam) == 0 || r.fparam == "*" {
        if CI.Compare(tblName, r.sparam) == 0 || r.sparam == "*" {
          if isColumn {
            if CI.Compare(colName, r.tparam) == 0 || r.tparam == "*" {
              break;
            }
          } else {
            break;
          }
        }
      }
      p := p + 1;
    }
    if p < |con| {
      FirstMatchIsUnique(isColumn, dbName, tblName, colName, con, p);
      res := Some(con[p].securityContext);
    } else {
      rc := policy.getconRc;
      var created := policy.computeCreate(DefaultLabelClass);
      if created.None? {
        return 0, res0;
      }
      res := created;
    }
  }

  /** A matching rule with no matching rule before it is the first match. */
  lemma FirstMatchIsUnique(isColumn: bool, db: string, table: string, column: string,
                           rules: seq<ContextElement>, p: nat)
    requires p < |rules| && RuleMatches(isColumn, db, table, column, rules[p])
    requires forall j :: 0 <= j < p ==> !RuleMatches(isColumn, db, table, column, rules[j])
    ensures FirstMatch(isColumn, db, table, column, rules) == Some(p)
  {
  }

  /** A matching rule wins: the resolved label is its label and code 0, whatever the oracle says. */
  lemma MatchedRuleLabelWins(isColumn: bool, db: string, table: string, column: string,
                             rules: seq<ContextElement>, policy: Policy, res0: Option<string>, p: nat)
    requires p < |rules| && RuleMatches(isColumn, db, table, column, rules[p])
    requires forall j :: 0 <= j < p ==> !RuleMatches(isColumn, db, table, column, rules[j])
    ensures SqlContext(isColumn, db, table, column, rules, policy, res0)
            == Resolution(0, Some(rules[p].securityContext))
  {
    FirstMatchIsUnique(isColumn, db, table, column, rules, p);
  }

  /**
   * The oracle is consulted only when no rule applies; when it also fails the code is 0 and
   * `*res` keeps its incoming value, so the caller holds no label from the rules.
   */
  lemma DefaultLabelOnlyWithoutMatch(isColumn: bool, db: string, table: string, column: string,
                                     rules: seq<ContextElement>, policy: Policy, res0: Option<string>)
    ensures var out := SqlContext(isColumn, db, table, column, rules, policy, res0);
            (forall j :: 0 <= j < |rules| ==> !RuleMatches(isColumn, db, table, column, rules[j])) ==>
              out == (if policy.computeCreate(DefaultLabelClass).Some?
                      then Resolution(policy.getconRc, policy.computeCreate(DefaultLabelClass))
                      else Resolution(0, res0))
    ensures var out := SqlContext(isColumn, db, table, column, rules, policy, res0);
            out.res.Some? && out.res != res0 && out.res != policy.computeCreate(DefaultLabelClass) ==>
              exists j :: 0 <= j < |rules| && RuleMatches(isColumn, db, table, column, rules[j])
                          && out.res == Some(rules[j].securityContext)
  {
  }

  /** Without `isColumn` the column argument plays no part in resolution. */
  lemma {:induction false} ColumnIgnoredWithoutIsColumn(db: string, table: string, c1: string, c2: string,
                                                         rules: seq<ContextElement>)
    ensures FirstMatch(false, db, table, c1, rules) == FirstMatch(false, db, table, c2, rules)
  {
    if |rules| > 0 {
      ColumnIgnoredWithoutIsColumn(db, table, c1, c2, rules[1..]);
    }
  }

  /**
   * Requiring the column segment to match only moves the first match later in the list: the
   * column-aware match is also a match on db and table alone, at or after the first such one.
   */
  lemma ColumnMatchRefinesTableMatch(db: string, table: string, column: string, rules: seq<ContextElement>)
    requires FirstMatch(true, db, table, column, rules).Some?
    ensures FirstMatch(false, db, table, column, rules).Some?
    ensures FirstMatch(false, db, table, column, rules).value <= FirstMatch(true, db, table, column, rules).value
  {
    var k := FirstMatch(true, db, table, column, rules).value;
    assert RuleMatches(false, db, table, column, rules[k]);
  }

  /** Names are compared ignoring case: names equal after lowering resolve identically. */
  lemma {:induction false} ResolutionIgnoresCase(isColumn: bool, db1: string, db2: string, t1: string, t2: string,
                                                 c1: string, c2: string, rules: seq<ContextElement>)
    requires CI.LowerAll(db1) == CI.LowerAll(db2) && CI.LowerAll(t1) == CI.LowerAll(t2)
    requires CI.LowerAll(c1) == CI.LowerAll(c2)
    ensures FirstMatch(isColumn, db1, t1, c1, rules) == FirstMatch(isColumn, db2, t2, c2, rules)
  {
    if |rules| > 0 {
      var r := rules[0];
      SameLoweredMatchesAlike(db1, db2, r.fparam);
      SameLoweredMatchesAlike(t1, t2, r.sparam);
      SameLoweredMatchesAlike(c1, c2, r.tparam);
      ResolutionIgnoresCase(isColumn, db1, db2, t1, t2, c1, c2, rules[1..]);
    }
  }

  lemma SameLoweredMatchesAlike(a: string, b: string, pattern: string)
    requires CI.LowerAll(a) == CI.LowerAll(b)
    ensures SegmentMatches(a, pattern) <==> SegmentMatches(b, pattern)
  {
    CI.CompareZeroIffSameLowered(a, pattern);
    CI.CompareZeroIffSameLowered(b, pattern);
  }

  /** The all-wildcard rule. */
  predicate IsCatchAll(r: ContextElement) {
    r.fparam == "*" && r.sparam == "*" && r.tparam == "*"
  }

  /** A list holding a catch-all rule never falls back to the oracle, and resolves at or before it. */
  lemma CatchAllAlwaysResolves(isColumn: bool, db: string, table: string, column: string,
                               rules: seq<ContextElement>, w: nat)
    requires w < |rules| && IsCatchAll(rules[w])
    ensures FirstMatch(isColumn, db, table, column, rules).Some?
    ensures FirstMatch(isColumn, db, table, column, rules).value <= w
  {
    assert RuleMatches(isColumn, db, table, column, rules[w]);
  }

  /** A specific table rule for main.t1 and the `*.*` catch-all. */
  const SpecialRule := ContextElement("main.t1", "main", "t1", "", "ctx_special")
  const WildRule := ContextElement("*.*", "*", "*", "", "ctx_default")

  /** Loaded in either order, the sorted list puts the specific rule ahead of the catch-all. */
  lemma SpecificRuleSortsFirst()
    ensures ContextList.InsertAll([WildRule, SpecialRule]) == [SpecialRule, WildRule]
    ensures ContextList.InsertAll([SpecialRule, WildRule]) == [SpecialRule, WildRule]
  {
    assert CI.Compare("*.*", "main.t1") == -1;
    assert CI.Compare("main.t1", "*.*") == 1;
    assert [WildRule, SpecialRule][..1] == [WildRule];
    assert [SpecialRule, WildRule][..1] == [SpecialRule];
    assert ContextList.InsertAll([WildRule]) == [WildRule];
    assert ContextList.InsertAll([SpecialRule]) == [SpecialRule];
    assert ContextList.InsertionPoint([WildRule], SpecialRule) == 0;
    assert ContextList.InsertionPoint([SpecialRule], WildRule) == 1;
  }

  /**
   * Rule precedence: on the sorted list main.t1 gets the specific label, and any other table of
   * any database the catch-all's.
   */
  lemma SpecificRuleBeatsWildcard(db: string, other: string, policy: Policy)
    requires CI.LowerAll(other) != "t1"
    ensures SqlContext(false, "main", "t1", "", ContextList.InsertAll([WildRule, SpecialRule]), policy, None)
            == Resolution(0, Some("ctx_special"))
    ensures SqlContext(false, db, other, "", ContextList.InsertAll([WildRule, SpecialRule]), policy, None)
            == Resolution(0, Some("ctx_default"))
  {
    SpecificRuleSortsFirst();
    SpecialTableMatched(policy);
    OtherTableFallsThrough(db, other, policy);
  }

  lemma SpecialTableMatched(policy: Policy)
    ensures SqlContext(false, "main", "t1", "", [SpecialRule, WildRule], policy, None) == Resolution(0, Some("ctx_special"))
  {
    assert CI.Compare("main", "main") == 0;
    assert CI.Compare("t1", "t1") == 0;
    assert RuleMatches(false, "main", "t1", "", SpecialRule);
  }

  lemma OtherTableFallsThrough(db: string, other: string, policy: Policy)
    requires CI.LowerAll(other) != "t1"
    ensures SqlContext(false, db, other, "", [SpecialRule, WildRule], policy, None) == Resolution(0, Some("ctx_default"))
  {
    CI.CompareZeroIffSameLowered(other, "t1");
    assert CI.LowerAll("t1") == "t1";
    assert !RuleMatches(false, db, other, "", SpecialRule);
    assert RuleMatches(false, db, other, "", WildRule);
    MatchedRuleLabelWins(false, db, other, "", [SpecialRule, WildRule], policy, None, 1);
  }

  /* ----- The database-class lookup of the newer engine ----- */

  /** Where a walk over database rules with a NULL table name ends. */
  datatype NullTableScan = NullTableDereferenced(index: nat) | NoDatabaseRule

  /**
   * The walk `compute_sql_context(0, dbname, NULL, NULL, db_context, ...)` performs: at the first
   * rule whose database segment matches, it compares the NULL table name with the rule's second
   * segment, a NULL dereference.
   */
  function ScanWithNullTable(db: string, rules: seq<ContextElement>): (s: NullTableScan)
    ensures s.NullTableDereferenced? ==> s.index < |rules| && SegmentMatches(db, rules[s.index].fparam)
  {
    if |rules| == 0 then NoDatabaseRule
    else if SegmentMatches(db, rules[0].fparam) then NullTableDereferenced(0)
    else
      match ScanWithNullTable(db, rules[1..])
      case NoDatabaseRule => NoDatabaseRule
      case NullTableDereferenced(k) => NullTableDereferenced(k + 1)
  }

  /** The NULL table name is dereferenced exactly when some database rule applies. */
  lemma {:induction false} NullTableDereferencedIffRuleApplies(db: string, rules: seq<ContextElement>)
    ensures ScanWithNullTable(db, rules).NullTableDereferenced?
            <==> exists j :: 0 <= j < |rules| && SegmentMatches(db, rules[j].fparam)
  {
    if |rules| > 0 {
      NullTableDereferencedIffRuleApplies(db, rules[1..]);
      if !SegmentMatches(db, rules[0].fparam) {
        if ScanWithNullTable(db, rules[1..]).NoDatabaseRule? {
          forall j | 0 <= j < |rules| ensures !SegmentMatches(db, rules[j].fparam) {
            if j > 0 { assert rules[j] == rules[1..][j - 1]; }
          }
        } else {
          var j :| 0 <= j < |rules[1..]| && SegmentMatches(db, rules[1..][j].fparam);
          assert rules[j + 1] == rules[1..][j];
        }
      }
    }
  }

  /** A database rule as the rule loader builds it: all three segments are its origin. */
  function DatabaseRule(origin: string, context: string): ContextElement {
    ContextElement(origin, origin, origin, origin, context)
  }

  /** As written, a database rule for `main` makes the lookup for database `main` dereference NULL. */
  lemma DatabaseLookupDereferencesNull()
    ensures ScanWithNullTable("main", [DatabaseRule("main", "ctx_db")]) == NullTableDereferenced(0)
  {
    assert CI.Compare("main", "main") == 0;
  }

  /** Database rules as the loader builds them: the second segment repeats the first. */
  predicate DatabaseShaped(rules: seq<ContextElement>) {
    forall j :: 0 <= j < |rules| ==> rules[j].sparam == rules[j].fparam
  }

  /**
   * With the database name also given as the table name, loader-shaped database rules are matched
   * on their first segment alone: the first match is the rule at which the as-written walk
   * dereferences NULL, and there is none exactly when that walk finds no database rule.
   */
  lemma {:induction false} DatabaseScanFindsFirstMatch(db: string, rules: seq<ContextElement>)
    ensures DatabaseShaped(rules) ==>
              match ScanWithNullTable(db, rules)
              case NullTableDereferenced(k) => FirstMatch(false, db, db, "", rules) == Some(k)
              case NoDatabaseRule => FirstMatch(false, db, db, "", rules).None?
  {
    if DatabaseShaped(rules) && |rules| > 0 && !SegmentMatches(db, rules[0].fparam) {
      assert DatabaseShaped(rules[1..]) by {
        forall j | 0 <= j < |rules[1..]| ensures rules[1..][j].sparam == rules[1..][j].fparam {
          assert rules[1..][j] == rules[j + 1];
        }
      }
      DatabaseScanFindsFirstMatch(db, rules[1..]);
    }
  }

  /**
   * The corrected database-class resolution: the database name stands in for the table name.
   * For loader-shaped rules it yields the label of the rule the as-written walk crashes at, and
   * the default label (or nothing) when that walk finds no database rule.
   */
  function DatabaseLabel(db: string, rules: seq<ContextElement>, policy: Policy): (out: Resolution)
    ensures DatabaseShaped(rules) && ScanWithNullTable(db, rules).NullTableDereferenced? ==>
              out == Resolution(0, Some(rules[ScanWithNullTable(db, rules).index].securityContext))
    ensures DatabaseShaped(rules) && ScanWithNullTable(db, rules).NoDatabaseRule? ==>
              out == if policy.computeCreate(DefaultLabelClass).Some?
                     then Resolution(policy.getconRc, policy.computeCreate(DefaultLabelClass))
                     else Resolution(0, None)
  {
    DatabaseScanFindsFirstMatch(db, rules);
    SqlContext(false, db, db, "", rules, policy, None)
  }

  /** The corrected lookup resolves the input the as-written walk crashes on to the rule's label. */
  lemma DatabaseLabelCorrected(policy: Policy)
    ensures DatabaseLabel("main", [DatabaseRule("main", "ctx_db")], policy) == Resolution(0, Some("ctx_db"))
  {
    assert CI.Compare("main", "main") == 0;
    assert RuleMatches(false, "main", "main", "", DatabaseRule("main", "ctx_db"));
  }

  /* ----- Lookups by label: resolve, then find the id the registry holds for it ----- */

  /** `lookup_security_context`: the id of the label the tuple rules give (db, table). */
  method LookupSecurityContext(hashId: map<string, int>, dbName: string, tblName: string,
                               contexts: SesqliteContext, policy: Policy)
    returns (id: int)
    requires SqlContext(false, dbName, tblName, "", contexts.tupleContext, policy, None).res.Some?
    requires SqlContext(false, dbName, tblName, "", contexts.tupleContext, policy, None).res.value in hashId
    ensures id == hashId[SqlContext(false, dbName, tblName, "", contexts.tupleContext, policy, None).res.value]
  {
    var _, secContext := ComputeSqlContext(false, dbName, tblName, "", contexts.tupleContext, policy, None);
    id := hashId[secContext.value];
  }

  /** The rule list and column flag `lookup_security_label` resolves with, as written: never `isColumn`. */
  function LabelRules(contexts: SesqliteContext, kind: int): seq<ContextElement> {
    if kind != 0 then contexts.columnContext else contexts.tableContext
  }

  /** `lookup_security_label`: the id of the label of a table (kind 0) or a column (kind non-zero). */
  method LookupSecurityLabel(hashId: map<string, int>, kind: int, dbName: string, tblName: string,
                             colName: string, contexts: SesqliteContext, policy: Policy)
    returns (id: int)
    requires SqlContext(false, dbName, tblName, colName, LabelRules(contexts, kind), policy, None).res.Some?
    requires SqlContext(false, dbName, tblName, colName, LabelRules(contexts, kind), policy, None).res.value in hashId
    ensures id == hashId[SqlContext(false, dbName, tblName, colName, LabelRules(contexts, kind), policy, None).res.value]
  {
    var secContext: Option<string>;
    if kind != 0 {
      var _, s := ComputeSqlContext(false, dbName, tblName, colName, contexts.columnContext, policy, None);
      secContext := s;
    } else {
      var _, s := ComputeSqlContext(false, dbName, tblName, "", contexts.tableContext, policy, None);
      ColumnIgnoredWithoutIsColumn(dbName, tblName, "", colName, contexts.tableContext);
      secContext := s;
    }
    id := hashId[secContext.value];
  }

  /** Column rules for main.t: one for column `secret`, then the `main.t.*` fallback. */
  function SecretColumnRules(): seq<ContextElement> {
    [ContextElement("main.t.secret", "main", "t", "secret", "ctx_secret"),
     ContextElement("main.t.*", "main", "t", "*", "ctx_plain")]
  }

  /** As written, the column lookup of column `name` gets the `secret` column's label. */
  lemma ColumnLookupIgnoresColumn(policy: Policy)
    ensures SqlContext(false, "main", "t", "name", SecretColumnRules(), policy, None).res == Some("ctx_secret")
  {
    assert CI.Compare("main", "main") == 0 && CI.Compare("t", "t") == 0;
    assert RuleMatches(false, "main", "t", "name", SecretColumnRules()[0]);
  }

  /** The corrected column-label lookup: column rules with the column segment consulted. */
  method LookupColumnLabel(hashId: map<string, int>, dbName: string, tblName: string, colName: string,
                           contexts: SesqliteContext, policy: Policy)
    returns (id: int)
    requires SqlContext(true, dbName, tblName, colName, contexts.columnContext, policy, None).res.Some?
    requires SqlContext(true, dbName, tblName, colName, contexts.columnContext, policy, None).res.value in hashId
    ensures id == hashId[SqlContext(true, dbName, tblName, colName, contexts.columnContext, policy, None).res.value]
  {
    var _, secContext := ComputeSqlContext(true, dbName, tblName, colName, contexts.columnContext, policy, None);
    id := hashId[secContext.value];
  }

  /** With the column consulted, column `name` gets the fallback label and `secret` its own. */
  lemma ColumnLookupCorrected(policy: Policy)
    ensures SqlContext(true, "main", "t", "name", SecretColumnRules(), policy, None).res == Some("ctx_plain")
    ensures SqlContext(true, "main", "t", "secret", SecretColumnRules(), policy, None).res == Some("ctx_secret")
  {
    assert CI.Compare("main", "main") == 0 && CI.Compare("t", "t") == 0;
    assert CI.Compare("secret", "secret") == 0;
    assert CI.Compare("name", "secret") != 0;
    assert !RuleMatches(true, "main", "t", "name", SecretColumnRules()[0]);
    assert RuleMatches(true, "main", "t", "name", SecretColumnRules()[1]);
    assert RuleMatches(true, "main", "t", "secret", SecretColumnRules()[0]);
  }
}
