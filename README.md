# SeSQLite label resolution and decision caching, in Dafny

SeSQLite is an SELinux extension for SQLite: every database, table and column gets a security label. Each statement reaches the extension through SQLite's authorizer callback. The extension then asks the SELinux policy whether the process may act on the labelled object. This project models the engine behind that decision, in both versions the repository ships:

- The first version (`ext/selinux/selinux.c`, module `LegacySelinux`).
- The newer version (`ext/security/sesqlite/`, modules `SesqliteHeader`, `ComputeLabel` and `SesqliteAuthorizer`).

Both versions share the same five parts:

1. **Rule lists and first-match resolution.** Labelling rules `(origin, db, table, column, label)` are kept per object class. `sortedInsert` keeps each list in non-increasing case-insensitive order of the origin (`ContextList`). A resolver walks a list and takes the label of the first rule whose segments match. A segment matches when it is equal ignoring case, or when it is `*`. When no rule applies, the newer resolver falls back to the library's default label (`ComputeLabel`).
2. **Label registry.** `insertId` / `insert_id` get-or-insert a label in the persisted `selinux_id` table, and return its rowid as the label's id.
3. **Object cache.** `getContext` memoizes the id of each database, table or column.
4. **Access vector cache (AVC).** `checkAccess` memoizes the policy's answer for a (subject id, object id, class, permission) key. The newer engine empties this cache on commit and on rollback.
5. **Authorizer dispatch.** `selinuxAuthorizer` maps each SQLite action code to table, column or database checks. `checkAllColumns` stops at the first column that is refused.

The SELinux library (`getcon`, `security_compute_create_raw`, `selinux_check_access`) is the `SesqliteHeader.Policy` value: fixed functions of their arguments. `compress` packs an AVC key and `make_key` builds an object key; both are taken as injective and become the datatypes `AvcKey` and `ObjKey`. `sqlite3FindTable` becomes a `Schema` parameter that gives a table's column names, or None when the table is not found. The mutable state of each engine's file is one class: `SesqliteAuthorizer.Engine` and `LegacySelinux.LegacyEngine`.
Each operation of those classes is a method proved against a specification function on values:

- `ComputeLabel.SqlContext`
- `LegacySelinux.Registered`
- `LegacySelinux.Resolved`
- `LegacySelinux.LegacyAllowed`
- `SesqliteAuthorizer.Allowed`
- `AuthEvents.AllColumns`
- `SesqliteAuthorizer.Dispatch`
- `LegacySelinux.LegacyActionOutcome`

Each engine has a ghost `log` of the checks it made, in order, and a ghost count of its policy queries (`oracleCalls`), so "no call to the policy on a cache hit" is part of both engines' contracts. Each engine class also has two two-state predicates. `Grown` says that, since an earlier state, the registry has only had rows appended and the maps have only gained entries: no id is re-mapped and nothing is flushed. `OneCallPerCheck` says the policy was asked at most once per check logged since then. `CheckAccess` and every method on the authorizer's call chain above it promise both, in each engine, and so do the two `CheckTwice` methods (`GetContextTwice` promises `Grown`). `CommitThenCheck` promises neither, because the commit empties the AVC. The two authorizer switches are compared directly in `LegacySelinux`.

## Model

| member | source | states |
|---|---|---|
| CaseInsensitive.Compare | ext/selinux/selinux.c:470-479 | the case-insensitive comparison `strcasecmp` as a sign: -1, 0 or 1; its equality, antisymmetry and transitivity are the three rows below |
| CaseInsensitive.CompareZeroIffSameLowered | ext/selinux/selinux.c:833-835 | `strcasecmp` reports equality exactly when the two names are equal after ASCII lower-casing |
| CaseInsensitive.CompareAntisymmetric | ext/selinux/selinux.c:470-479 | swapping the operands of the case-insensitive comparison negates its sign |
| CaseInsensitive.CompareTransitive | ext/selinux/selinux.c:470-479 | the ">=" of the case-insensitive comparison is transitive, so a sorted list is ordered pairwise |
| SesqliteHeader.SecurityContextColumnDefinition | ext/security/sesqlite/sesqlite.h:48-50 | the hidden label column is `security_context` with type `hidden INT`, so its definition reads "security_context hidden INT" |
| SesqliteHeader.ClassCodesAreIndices | ext/security/sesqlite/sesqlite.h:70-73 | the class table has four entries; each entry's code equals its index; they are db_database, db_table, db_column and db_tuple |
| SesqliteHeader.PermissionCodes | ext/security/sesqlite/sesqlite.h:77-91 | create .. delete are the distinct codes 0 .. 9, and access is the same code as select (6) |
| SesqliteHeader.SlotCodesMatchPositions | ext/security/sesqlite/sesqlite.h:157-189 | for db_database, db_table and db_column, filled slot k holds permission code k, so the access check's `perm[code]` indexing names the intended permission |
| SesqliteHeader.MissingPermissions | ext/security/sesqlite/sesqlite.h:179-197 | db_column has no delete slot; db_tuple has no create, drop, getattr or setattr |
| SesqliteHeader.AllClassesHaveDistinctCodes | ext/security/sesqlite/sesqlite.h:157-197 | within every class, no two filled slots share a permission code |
| SesqliteHeader.NamesRecoveredFromCodes | ext/security/sesqlite/sesqlite_authorizer.c:189-211 | the class and permission codes packed into an AVC key determine the class and permission names sent to the policy |
| AuthEvents.AuthTypeNamesMatchCodes | ext/security/sesqlite/sesqlite.h:55-67 | the action-name table has one name per action code 0 .. 33, and the codes used by the switch index their own names |
| ContextList.InsertionPoint | ext/selinux/selinux.c:470-480 | the insertion index is the first position whose origin compares <= to the new origin: every earlier origin compares strictly greater |
| ContextList.SortedInserted | ext/selinux/selinux.c:465-484 | the sorted insertion on values: one element longer; that it keeps the order, inserts ahead of equal origins and only adds the new node is stated by the `SortedInsert…` lemma rows, and `RuleList.SortedInsert` is proved against it |
| ContextList.SortedInsertKeepsOrder | ext/selinux/selinux.c:465-484 | inserting into a list that is non-increasing by case-insensitive origin leaves it non-increasing |
| ContextList.SortedInsertAddsOne | ext/selinux/selinux.c:470-483 | the list grows by exactly one: the new node is at the insertion point, removing it gives back the old list in its old order, and the multiset gains only the new node |
| ContextList.SortedInsertAheadOfEqualKeys | ext/selinux/selinux.c:470-480 | everything before the new node compares strictly greater, so the new node is ahead of existing nodes with an equal origin |
| ContextList.NonIncreasingPairwise | ext/selinux/selinux.c:465-484 | in a sorted list any earlier origin compares >= any later one |
| ContextList.GreaterOriginComesFirst | ext/selinux/selinux.c:465-484 | in a sorted list a rule whose origin compares strictly greater sits strictly earlier |
| ContextList.InsertAllOrdered | ext/selinux/selinux.c:564-622 | inserting a rule file's rules one by one yields a sorted list holding exactly those rules |
| ContextList.RuleList.SortedInsert | ext/selinux/selinux.c:465-484 | the pointer-rewiring insertion leaves the list equal to the sorted insertion of the new node into the old list |
| ComputeLabel.FirstMatch | ext/security/sesqlite/sesqlite_compute_label.c:15-28 | the index found is a matching rule with no matching rule before it; None exactly when no rule matches |
| ComputeLabel.SqlContext | ext/security/sesqlite/sesqlite_compute_label.c:8-42 | the outcome of `compute_sql_context` on values: a matched rule gives code 0 and a label; no label comes back only when the default label cannot be computed, with code 0 and `*res` as it was; `ComputeSqlContext` is proved against it |
| ComputeLabel.ComputeSqlContext | ext/security/sesqlite/sesqlite_compute_label.c:8-42 | the list walk's return code and final `*res` are exactly first-match resolution: the first applicable rule's label, else the default label with `getcon`'s code, else code 0 with `*res` untouched |
| ComputeLabel.FirstMatchIsUnique | ext/security/sesqlite/sesqlite_compute_label.c:15-28 | a matching rule with no matching rule before it is the one the walk stops at |
| ComputeLabel.MatchedRuleLabelWins | ext/security/sesqlite/sesqlite_compute_label.c:29-30 | when a rule applies, the result is code 0 and that rule's label |
| ComputeLabel.DefaultLabelOnlyWithoutMatch | ext/security/sesqlite/sesqlite_compute_label.c:31-40 | with no applicable rule the result is the default label, or code 0 with `*res` unchanged when the library fails; a new label other than the default always comes from an applicable rule |
| ComputeLabel.ColumnIgnoredWithoutIsColumn | ext/security/sesqlite/sesqlite_compute_label.c:19-24 | with `isColumn` off the column name plays no part in which rule matches |
| ComputeLabel.ColumnMatchRefinesTableMatch | ext/security/sesqlite/sesqlite_compute_label.c:19-24 | when a rule matches with the column consulted, a rule matches on db and table alone, no later in the list |
| ComputeLabel.ResolutionIgnoresCase | ext/security/sesqlite/sesqlite_compute_label.c:16-21 | names that differ only in ASCII case select the same rule |
| ComputeLabel.CatchAllAlwaysResolves | ext/security/sesqlite/sesqlite_compute_label.c:16-21 | a `*.*.*` rule in the list guarantees a match at or before it, for every object |
| ComputeLabel.SpecificRuleSortsFirst | ext/selinux/selinux.c:465-484 | a `main.t1` rule sorts ahead of a `*.*` rule in whichever order the two are inserted |
| ComputeLabel.SpecificRuleBeatsWildcard | ext/security/sesqlite/sesqlite_compute_label.c:15-30 | with both rules sorted, `main.t1` gets the specific label and any other table the wildcard's |
| ComputeLabel.ScanWithNullTable | ext/security/sesqlite/sesqlite_authorizer.c:101-108 | the database-class walk, as written, reaches a rule's table segment only at a rule whose database segment matches |
| ComputeLabel.NullTableDereferencedIffRuleApplies | ext/security/sesqlite/sesqlite_compute_label.c:16-18 | the NULL table name is compared (dereferenced) exactly when some database rule's first segment matches |
| ComputeLabel.DatabaseLookupDereferencesNull | ext/security/sesqlite/sesqlite_authorizer.c:101-108 | a database rule for `main` makes the lookup for database `main` compare the NULL table name |
| ComputeLabel.DatabaseScanFindsFirstMatch | ext/security/sesqlite/sesqlite_authorizer.c:101-108 | for database rules whose second segment repeats the first, matching with the database name as table picks exactly the rule at which the as-written walk dereferences NULL, and none when that walk finds no rule |
| ComputeLabel.DatabaseLabel | ext/security/sesqlite/sesqlite_authorizer.c:101-108 | the corrected database lookup (the database name also given as table) yields, for loader-shaped rules, code 0 and the label of the first rule whose database segment matches, else the default label or nothing |
| ComputeLabel.DatabaseLabelCorrected | ext/security/sesqlite/sesqlite_authorizer.c:101-108 | the corrected lookup gives database `main` the label of its rule |
| ComputeLabel.LookupSecurityContext | ext/security/sesqlite/sesqlite_compute_label.c:45-58 | the id returned is the registry id of the label the tuple rules give (db, table); the label must resolve and be registered, as the assertion demands |
| ComputeLabel.LookupSecurityLabel | ext/security/sesqlite/sesqlite_compute_label.c:60-80 | the id of the label from the column rules (kind non-zero) or the table rules (kind 0), resolved with `isColumn` off either way |
| ComputeLabel.ColumnLookupIgnoresColumn | ext/security/sesqlite/sesqlite_compute_label.c:65-67 | as written, column `name` of `main.t` gets the label of the `main.t.secret` rule |
| ComputeLabel.LookupColumnLabel | ext/security/sesqlite/sesqlite_compute_label.c:65-67 | the corrected column lookup returns the id of the label resolved with the column consulted |
| ComputeLabel.ColumnLookupCorrected | ext/security/sesqlite/sesqlite_compute_label.c:65-67 | with the column consulted, `name` gets the `main.t.*` label and `secret` its own |
| AuthEvents.Check | ext/security/sesqlite/sesqlite_authorizer.c:281-284 | one check records its request, and its code is OK exactly when the request is allowed, DENY otherwise |
| AuthEvents.ColumnRequests | ext/security/sesqlite/sesqlite_authorizer.c:239-240 | the column scan's requests are one column check per column, in schema order |
| AuthEvents.FirstDenied | ext/security/sesqlite/sesqlite_authorizer.c:239-243 | the scan stops at the first refused column: every earlier one is allowed |
| AuthEvents.ScanColumns | ext/security/sesqlite/sesqlite_authorizer.c:236-246 | the loop of `checkAllColumns`: OK or DENY, the checks made are a prefix of the column checks, and every check before the last one passed |
| AuthEvents.AllColumns | ext/security/sesqlite/sesqlite_authorizer.c:224-247 | `checkAllColumns` on a table: OK or DENY, every check is a column check with the given permission, and every check before the last one passed; the same scan is ext/selinux/selinux.c:182-205 |
| AuthEvents.ScanColumnsShortCircuits | ext/security/sesqlite/sesqlite_authorizer.c:236-246 | the scan is DENY exactly when some column is refused; the checks made are a prefix of the columns ending at the first refused one, or all of them when OK |
| AuthEvents.AllColumnsIsConjunction | ext/security/sesqlite/sesqlite_authorizer.c:224-247 | `checkAllColumns` is OK exactly when the table is not found or every column is allowed |
| SesqliteAuthorizer.Dispatch | ext/security/sesqlite/sesqlite_authorizer.c:253-505 | the authorizer's result is always OK or DENY |
| SesqliteAuthorizer.DatabaseDenyIsFinal | ext/security/sesqlite/sesqlite_authorizer.c:264-268 | with a database named, the database ACCESS check is made first, and its refusal makes the result DENY whatever the action |
| SesqliteAuthorizer.ReadIsConjunction | ext/security/sesqlite/sesqlite_authorizer.c:413-422 | READ is OK exactly when the database, the table SELECT and the column SELECT checks all pass; the column is checked only after the table passed |
| SesqliteAuthorizer.TableThenColumnsIsConjunction | ext/security/sesqlite/sesqlite_authorizer.c:340-402 | DROP TABLE, DROP TEMP TABLE, DROP VIEW, DROP VTABLE and INSERT are OK exactly when the database check, the table check and every column check pass; a refused table stops before the columns |
| SesqliteAuthorizer.AttachDetachDenyNonEmpty | ext/security/sesqlite/sesqlite_authorizer.c:438-458 | ATTACH and DETACH add no check and are refused exactly when the pre-check refused or the argument is present and non-empty |
| SesqliteAuthorizer.PragmaWritableSchemaDenied | ext/security/sesqlite/sesqlite_authorizer.c:404-411 | a PRAGMA adds no check and is refused exactly when the pre-check refused or it names `writable_schema` |
| SesqliteAuthorizer.WritableSchemaIgnoresCase | ext/security/sesqlite/sesqlite_authorizer.c:405 | the pragma name is compared ignoring case; a NULL name is never `writable_schema` |
| SesqliteAuthorizer.ResolveObject | ext/security/sesqlite/sesqlite_authorizer.c:99-128 | the label `getContext` computes for an uncached key: only a key naming a database, and a table whenever it names a column, resolves |
| SesqliteAuthorizer.Allowed | ext/security/sesqlite/sesqlite_authorizer.c:170-219 | the decision of one check: its contract states that a check passes only when it names a database, table or column with a filled permission slot and its label resolves. That the decision is the policy's answer for that label is stated by the members that use it: `Engine.CheckAccess` and `Engine.Decision` return `Allowed`, `Engine.CheckAllColumns` and `Engine.Authorize` are stated against it (through `Decide`), and `SecretTableReadDenied` derives a READ denial from it |
| SesqliteAuthorizer.PreCheck | ext/security/sesqlite/sesqlite_authorizer.c:264-268 | the database check before the switch: one database check when a database is named, none otherwise; OK exactly when no database is named or its check passes |
| SesqliteAuthorizer.ActionOutcome | ext/security/sesqlite/sesqlite_authorizer.c:270-498 | the switch on its own: OK or DENY, and it stops at the first refused check, so every check before the last one passed |
| SesqliteAuthorizer.UnhandledActionsOnlyPreCheck | ext/security/sesqlite/sesqlite_authorizer.c:496-497 | an action the switch does not handle leaves the result and the checks to the database pre-check |
| SesqliteAuthorizer.DropDeniedBySecondColumn | ext/security/sesqlite/sesqlite_authorizer.c:340-347 | with the table allowed, a refused second column makes DROP TABLE DENY after exactly four checks |
| SesqliteAuthorizer.SecretTableReadDenied | ext/security/sesqlite/sesqlite_authorizer.c:413-416 | a table labelled by a rule the policy refuses `select` on has READ denied, whatever the column |
| SesqliteAuthorizer.LoadedRegistryMirrors | ext/security/sesqlite/sesqlite_authorizer.c:44-54 | a registry loaded from a table of distinct labels has `hash_id` naming each label by its rowid, in both directions |
| SesqliteAuthorizer.RegisterKeepsMirror | ext/security/sesqlite/sesqlite_authorizer.c:53-54 | appending a new label's row and recording (rowid, label) in both directions keeps the bidirectional map a mirror of the table |
| SesqliteAuthorizer.LabelsGrowKeepCaches | ext/security/sesqlite/sesqlite_authorizer.c:54 | registering labels leaves every cached object id and every AVC entry still correct |
| SesqliteAuthorizer.CacheKeyKeepsObjects | ext/security/sesqlite/sesqlite_authorizer.c:130 | caching a key under the id of its resolved label keeps the object cache correct |
| SesqliteAuthorizer.StoreKeepsAvcSound | ext/security/sesqlite/sesqlite_authorizer.c:214 | storing the allow sentinel exactly when the policy grants keeps every AVC entry the policy's answer |
| SesqliteAuthorizer.Engine.constructor | ext/security/sesqlite/sesqlite_authorizer.c:893-906 | a new engine holds the persisted registry, an empty object cache, an empty AVC and the vacuum flag cleared |
| SesqliteAuthorizer.Engine.InsertId | ext/security/sesqlite/sesqlite_authorizer.c:38-56 | a registered label returns its stored id with nothing changed; otherwise exactly one row is appended, labelled by the registry's tuple label, and the new rowid is recorded in both directions and returned |
| SesqliteAuthorizer.Engine.RegisterLabel | ext/security/sesqlite/sesqlite_authorizer.c:47-54 | the insert path: the new row is the next rowid, labelled with `lookup_security_context`'s id for the `selinux_id` table |
| SesqliteAuthorizer.Engine.RowLabelsDistinct | ext/security/sesqlite/sesqlite_authorizer.c:44-55 | get-or-insert never stores a label twice: the registry's labels are pairwise distinct |
| SesqliteAuthorizer.Engine.ComputeObjectLabel | ext/security/sesqlite/sesqlite_authorizer.c:99-128 | the label computed on a miss: table rules for a table, column rules with the column consulted for a column; for a database, the corrected database lookup (`DatabaseLabel`) in place of the NULL table name the source passes (Findings row 2) |
| SesqliteAuthorizer.Engine.GetContext | ext/security/sesqlite/sesqlite_authorizer.c:72-140 | a hit returns the cached id with nothing changed; a miss computes the label, registers it and caches its id under the object key; the id always names the object's resolved label |
| SesqliteAuthorizer.Engine.CacheObject | ext/security/sesqlite/sesqlite_authorizer.c:129-130 | the miss path: the label is registered, or found, and the key is cached under its id |
| SesqliteAuthorizer.Engine.CheckAccess | ext/security/sesqlite/sesqlite_authorizer.c:170-219 | the answer is the policy's decision for the object's label; on an AVC hit it is the stored sentinel and the policy is not asked; on a miss the policy is asked once and the sentinel stored; the registry and the caches only grow |
| SesqliteAuthorizer.Engine.AvcCheck | ext/security/sesqlite/sesqlite_authorizer.c:189-216 | on a hit, the answer is whether the stored value is the allow sentinel, with the AVC and the policy untouched; on a miss, one query, with allow or deny stored under the key |
| SesqliteAuthorizer.Engine.CheckAllColumns | ext/security/sesqlite/sesqlite_authorizer.c:224-247 | the code and the checks made are those of the short-circuiting column scan. The registry only gains rows, and `hash_id`, the object cache and the AVC only gain entries (`Grown`); the policy is asked at most once per check (`OneCallPerCheck`). |
| SesqliteAuthorizer.Engine.TableThenColumns | ext/security/sesqlite/sesqlite_authorizer.c:340-347 | `if (!table) DENY else if (columns) DENY`: the table check, then the column scan only when the table passed. The registry only gains rows, and `hash_id`, the object cache and the AVC only gain entries (`Grown`); the policy is asked at most once per check (`OneCallPerCheck`). |
| SesqliteAuthorizer.Engine.TableThenColumn | ext/security/sesqlite/sesqlite_authorizer.c:413-420 | READ's table SELECT check, then the column SELECT check only when the table passed. The registry only gains rows, and `hash_id`, the object cache and the AVC only gain entries (`Grown`); the policy is asked at most once per check (`OneCallPerCheck`). |
| SesqliteAuthorizer.Engine.ApplyAction | ext/security/sesqlite/sesqlite_authorizer.c:270-498 | the switch's code and checks are those of `ActionOutcome` under the policy's decisions. The registry only gains rows, and `hash_id`, the object cache and the AVC only gain entries (`Grown`); the policy is asked at most once per check (`OneCallPerCheck`). |
| SesqliteAuthorizer.Engine.Authorize | ext/security/sesqlite/sesqlite_authorizer.c:253-505 | the callback's code and the checks it makes, in order, are those of `Dispatch` under the policy's decisions. The registry only gains rows, and `hash_id`, the object cache and the AVC only gain entries (`Grown`); the policy is asked at most once per check (`OneCallPerCheck`). The vacuum flag is untouched. |
| SesqliteAuthorizer.Engine.SetVacuum | ext/security/sesqlite/sesqlite_authorizer.c:507-510 | the flag takes the given value, the result is OK, and nothing else changes |
| SesqliteAuthorizer.Engine.IsVacuum | ext/security/sesqlite/sesqlite_authorizer.c:512-514 | returns the flag last set |
| SesqliteAuthorizer.Engine.ClearAvc | ext/security/sesqlite/sesqlite_authorizer.c:864-868 | the AVC is emptied and nothing else changes |
| SesqliteAuthorizer.Engine.CommitCallback | ext/security/sesqlite/sesqlite_authorizer.c:870-878 | commit empties the whole AVC and returns 0 |
| SesqliteAuthorizer.Engine.RollbackCallback | ext/security/sesqlite/sesqlite_authorizer.c:880-887 | rollback empties the whole AVC |
| SesqliteAuthorizer.Engine.GetContextTwice | ext/security/sesqlite/sesqlite_authorizer.c:85-96 | a repeated `getContext` returns the same id as the first |
| SesqliteAuthorizer.Engine.CheckTwice | ext/security/sesqlite/sesqlite_authorizer.c:196-216 | two checks with the same key and no clear between them agree, and the policy is asked at most once |
| SesqliteAuthorizer.Engine.CommitThenCheck | ext/security/sesqlite/sesqlite_authorizer.c:870-878 | after a commit, a check of a cached object asks the policy again, exactly once, and still gives the policy's decision |
| LegacySelinux.ComputeTableContext | ext/selinux/selinux.c:826-847 | the `found`-flag walk sets `*res` to the label of the first rule whose db and table segments match, leaves it unchanged when none does, and returns OK |
| LegacySelinux.ComputeColumnContext | ext/selinux/selinux.c:852-876 | the same first-match walk, with the column segment also required to match |
| LegacySelinux.MatchedLabelAgreesWithResolver | ext/selinux/selinux.c:826-876 | the first version's walks pick the same rule as the newer resolver; they differ only when nothing matches, where the first version keeps `*res` and has no default |
| LegacySelinux.QuoteRoundTrip | ext/selinux/selinux.c:56 | for a label without a quote character, dequoting the stored quoted label gives back the label |
| LegacySelinux.QuotedLabelIsCut | ext/selinux/selinux.c:167-168 | a label holding a quote character does not come back intact: `a'b` dequotes to `a` |
| LegacySelinux.RowIdOf | ext/selinux/selinux.c:60-62 | the select loop keeps the last rowid holding the label, 0 when there is none |
| LegacySelinux.Registered | ext/selinux/selinux.c:51-76 | `insertId` on values: the rowid is never 0 and `hash` is left alone; find-or-append is the row below |
| LegacySelinux.RegisteredFindsOrAppends | ext/selinux/selinux.c:51-76 | a stored label returns its rowid with nothing changed; otherwise one row is appended and its rowid maps to the quoted label in `hash_id` |
| LegacySelinux.RegisterIdempotent | ext/selinux/selinux.c:51-76 | registering the same label twice returns the same rowid and changes nothing the second time |
| LegacySelinux.InsertKeyMatchesLookupKey | ext/selinux/selinux.c:887-890 | `insertKey` builds the same key as `getContext` for a table and for a named column |
| LegacySelinux.TableAndColumnKeysCollide | ext/selinux/selinux.c:102-107 | the keys are flat strings: table `t:c` of `main` shares its key with column `c` of table `t` |
| LegacySelinux.ResolvedGrows | ext/selinux/selinux.c:111-143 | `getContext` never rebinds a key, re-maps a rowid or rewrites a row: the registry before is a part of the registry after |
| LegacySelinux.ResolvedCaches | ext/selinux/selinux.c:93-143 | a hit returns the cached id with nothing changed; a miss with no default label returns 0 with nothing changed; otherwise the default label is registered and the key cached under its rowid |
| LegacySelinux.ResolveIdempotent | ext/selinux/selinux.c:111-137 | once a key has been resolved, a repeated `getContext` returns the same id with no further change |
| LegacySelinux.TargetAtCases | ext/selinux/selinux.c:135-168 | the label a check sends to the policy: what `hash_id` holds for the cached id, or for the new row the dequoted label; NULL when `hash_id` has no entry |
| LegacySelinux.Resolved | ext/selinux/selinux.c:93-144 | `getContext` on values: when the key is cached or its default label computable, the key is afterwards cached under the id returned; otherwise the id is 0 and nothing changes |
| LegacySelinux.LegacyAllowed | ext/selinux/selinux.c:151-177 | the decision of one first-version check: it passes only for a table or column with a filled permission slot, and then exactly when the policy allows the target `getContext` leads to |
| LegacySelinux.LegacyActionOutcome | ext/selinux/selinux.c:225-453 | the first version's switch: OK or DENY; its comparison with the newer switch is the `TableVerdictDiscarded`, `DeniedTableDropAllowed`, `TableDenyLost` and `SwitchesAgreeElsewhere` rows |
| LegacySelinux.RegisterKeepsRegisteredTarget | ext/selinux/selinux.c:64-73 | registering one label leaves the target any other label would lead to unchanged |
| LegacySelinux.ResolveKeepsOtherTargets | ext/selinux/selinux.c:111-143 | resolving one object leaves unchanged the target every other object would lead to, so earlier checks of a scan do not change later decisions |
| LegacySelinux.AllColumnsFollowTargets | ext/selinux/selinux.c:182-205 | the column scan's outcome is the same against the registry before the scan and against any registry that agrees on the table's column targets |
| LegacySelinux.GrowthKeepsAvc | ext/selinux/selinux.c:164-173 | AVC entries stay the policy's codes while the registry only grows and existing targets stay put |
| LegacySelinux.TableVerdictDiscarded | ext/selinux/selinux.c:279-359 | in DELETE, the drops and INSERT, the table check is made but the result is the column scan's code alone |
| LegacySelinux.DeniedTableDropAllowed | ext/selinux/selinux.c:297-306 | with the table refused and no column list found, the first version lets DROP TABLE through and the newer one refuses it |
| LegacySelinux.TableDenyLost | ext/selinux/selinux.c:297-306 | for every drop and INSERT, a refused table whose columns all pass is OK in the first version and DENY in the newer one |
| LegacySelinux.SwitchesAgreeElsewhere | ext/selinux/selinux.c:225-453 | the two switches agree where no table refusal is at stake, except READ, where the first version makes only the column SELECT check |
| LegacySelinux.StoredLabelReachesPolicyAsNull | ext/selinux/selinux.c:60-73 | when the default label is already in the stored table, a fresh connection's check consults the policy with a NULL target |
| LegacySelinux.RegisteredLoadedTargetsLabel | ext/selinux/selinux.c:51-76 | the corrected registration also maps a found rowid, so the target is the dequoted label, which is the label itself when quote-free |
| LegacySelinux.LegacyEngine.constructor | ext/selinux/selinux.c:1026-1028 | a connection over a stored registry table, with empty `hash_id`, `hash` and AVC |
| LegacySelinux.LegacyEngine.InsertId | ext/selinux/selinux.c:51-76 | the select loop and conditional insert leave the registry and return the rowid exactly as get-or-insert registration prescribes |
| LegacySelinux.LegacyEngine.GetContext | ext/selinux/selinux.c:93-144 | the id returned and the new registry are those of `Resolved`: cached id on a hit, the registered default label cached under the key on a miss; no row, rowid or key is rewritten |
| LegacySelinux.LegacyEngine.InsertKey | ext/selinux/selinux.c:882-902 | the label is registered and the key (re)bound to its rowid; the result is OK |
| LegacySelinux.LegacyEngine.CheckAccess | ext/selinux/selinux.c:151-177 | the answer is the policy's code for the target `getContext` leads to; the new registry is `Resolved`'s; a hit answers from the stored code without asking the policy; a miss asks once and stores the code; the registry and the AVC only grow |
| LegacySelinux.LegacyEngine.AvcLookup | ext/selinux/selinux.c:159-176 | the AVC step for a resolved id: the answer is whether the policy's code for the `hash_id` target, stored or fresh, is 0 |
| LegacySelinux.LegacyEngine.CheckAllColumns | ext/selinux/selinux.c:182-205 | the code and checks are those of the short-circuiting column scan, decided against the registry at the start of the scan. The registry only gains rows, and `hash_id`, `hash` and the AVC only gain entries (`Grown`); the policy is asked at most once per check (`OneCallPerCheck`). |
| LegacySelinux.LegacyEngine.TableThenOverwrite | ext/selinux/selinux.c:297-306 | the table check, then rc overwritten by the column scan. The registry only gains rows, and `hash_id`, `hash` and the AVC only gain entries (`Grown`); the policy is asked at most once per check (`OneCallPerCheck`). |
| LegacySelinux.LegacyEngine.SingleCheck | ext/selinux/selinux.c:236-239 | one check: DENY exactly when it is refused; the new registry is `Resolved`'s; the AVC holds the code for the key, asking the policy only on a miss; the registry only gains rows, and `hash_id`, `hash` and the AVC only gain entries (`Grown`); the policy is asked at most once per check (`OneCallPerCheck`) |
| LegacySelinux.LegacyEngine.Authorize | ext/selinux/selinux.c:211-460 | the callback's code and the checks it makes are those of `LegacyActionOutcome` under the decisions of the registry before the call. The registry only gains rows, and `hash_id`, `hash` and the AVC only gain entries (`Grown`); the policy is asked at most once per check (`OneCallPerCheck`). |
| LegacySelinux.LegacyEngine.CheckTwice | ext/selinux/selinux.c:164-173 | two checks of the same object agree, and the policy is asked at most once |

## Left out

- I/O and SQL plumbing. Prepared statements, `sqlite3_step` and the bind calls are not modelled: the `selinux_id` table is a sequence of rows, and a new row's rowid is its position plus one. The rowids are taken as dense, with no deleted rows.
- Config-file parsing in `initializeContext`. The rules arrive as parsed records, and the labelling of existing objects at start-up is not modelled.
- `create_security_context_column`, the schema-change callbacks, the SQL-callable functions (`selinuxCheckAccessFunction`, `getcon_id`/`getcon_label`, the SQL-visible context lookups), `is_table_sesqlite_enabled` and debug printing are not modelled.
- The hash tables and their wrapper are Dafny maps. `compress` and `make_key` become injective datatypes, so hash collisions are not modelled. In the first version the key is the exact printed string, whose collision `TableAndColumnKeysCollide` shows.
- `ext/selinux/selinux.h` is not part of this model. The first version's class and permission codes and its `access_vector` are taken to be those of `sesqlite.h`.
- Start-up seeding. `scon_id` and the registry contents are constructor parameters. The newer engine's loading of `hash_id` from the stored table is not in the files modelled, so the constructor asks for a table of distinct labels and loads it.
- The AVC sentinels `avc_allow` / `avc_deny` are the datatype `AvcEntry`, and their pointer comparison becomes a comparison of values.
- In the first version (`LegacySelinux`), `sqlite3Dequote` works in place on the string `hash_id` holds (ext/selinux/selinux.c:168). The model passes the dequoted copy to the policy and leaves the stored quoted label as it is. `Dequoted` strips only the `'…'` quoting that `insertId` adds; `sqlite3Dequote` also strips `"…"`, `` `…` `` and `[…]`, and a later AVC miss on the same rowid dequotes the already dequoted string again. The model therefore agrees with the source for labels that contain no `'` and do not start with `"`, `` ` `` or `[` (`QuoteRoundTrip`).
- `sqlite3_mprintf(p->security_context)` in the first version's walks uses the label as a format string. The model copies the label verbatim, which is what happens when a label holds no `%`.
- The first version's `getContext` frees the key and then inserts it into `hash`, a use after free. The model caches under the intended key.
- The database-class AVC entry, and `getContext` for the tuple class, are not modelled separately: the tuple class has no case in the switch, and no authorizer path asks for it.
- SesqliteAuthorizer.Engine.AvcCheck: on a miss the source runs `sqlite3Dequote` in place on the label `hash_id` holds before asking the policy (ext/security/sesqlite/sesqlite_authorizer.c:205). The model passes the stored label as it is, and `hash_id` keeps it unchanged. The two agree for labels that do not start with `'`, `"`, `` ` `` or `[`, which `sqlite3Dequote` leaves alone; the rewrite of the stored string is not modelled. `SesqliteAuthorizer.Allowed` states the decision the same way.
- SesqliteAuthorizer.Engine.CheckAccess: passes the label to the policy without `sqlite3Dequote`, as `AvcCheck` does; the model agrees with the source for labels that do not start with a quote character or `[`. It requires the class to be database, table or column with a filled permission slot (from `assert(tclass <= NELEMS(access_vector))` and the table). It also requires, up front, that a new label can be registered: `lookup_security_context` asserts the `selinux_id` table's own label is registered (`RowLabelReady`). The source needs this only when the check registers a new label, on `insert_id`'s miss path. Under those requirements `assert(id != 0)` holds whenever the label resolves. When the label cannot be resolved, the source passes a NULL label to `insert_id`, which calls `strlen` on it. The model refuses the check instead.
- SesqliteAuthorizer.Engine.Authorize: requires the arguments each case dereferences to be present; the source dereferences NULL otherwise. It also requires `RowLabelReady` for each database named, up front. The source needs it only when a check registers a new label: `insert_id` calls `lookup_security_context`, whose assertion fails on an unregistered `selinux_id` label, only on its miss path (ext/security/sesqlite/sesqlite_authorizer.c:47, sesqlite_compute_label.c:53-54). So the model excludes calls in which every label is already registered but the `selinux_id` label is not, which the source runs. It states that the registry and the caches only grow, not which rows and entries the checks add.
- ComputeLabel.LookupSecurityContext, ComputeLabel.LookupSecurityLabel and SesqliteAuthorizer.Engine.RegisterLabel: in the newer files, `lookup_security_context` and `lookup_security_label` read the rule lists of the global `sesqlite_contexts` (ext/security/sesqlite/sesqlite_compute_label.c:51, 67, 71). The newer header declares only the global `contexts` (ext/security/sesqlite/sesqlite.h:98), which the newer `getContext` reads (ext/security/sesqlite/sesqlite_authorizer.c:106-124). No newer file allocates or loads `sesqlite_contexts`: only the first version does (ext/selinux/selinux.c:505-622). The model takes the two to be the same rule lists: both lookups, and `RegisterLabel` through `Engine.RowLabel`, read the engine's one `contexts` field.
- SesqliteAuthorizer.Engine.ComputeObjectLabel: for the database class the model uses `ComputeLabel.DatabaseLabel`, the lookup with the database name in the table segment. The source passes a NULL table name and dereferences it as soon as a database rule's first segment matches (Findings row 2). The specification function `SesqliteAuthorizer.ResolveObject` uses the same corrected lookup, and `GetContext`, `CheckAccess` and `Authorize` inherit this: on that path they model the intended program, not the written one.
- SesqliteAuthorizer.Engine.CheckAllColumns: the class is fixed to DB_COLUMN, the only class the source passes. Like `Authorize`, it requires `RowLabelReady` up front, where the source needs it only when a column check registers a new label. It states that the registry and the caches only grow (`Grown`), not which rows and entries the scan adds; each check's additions are stated by `CheckAccess`.
- SesqliteAuthorizer.Engine.TableThenColumns: requires `RowLabelReady` up front, where the source needs it only when a check registers a new label. It states that the registry and the caches only grow, not which rows and entries its checks add.
- SesqliteAuthorizer.Engine.TableThenColumn: requires `RowLabelReady` up front, where the source needs it only when a check registers a new label. It states that the registry and the caches only grow, not which rows and entries its two checks add.
- SesqliteAuthorizer.Engine.ApplyAction: states that the registry and the caches only grow, not which rows and entries the action's checks add.
- LegacySelinux.LegacyEngine.CheckAccess: requires a table or column class, from `assert(key != NULL)`. It also requires the object to be cached or its default label computable, from `assert(id != 0)`.
- LegacySelinux.LegacyEngine.CheckAllColumns: requires the column default label to be computable, from `assert(id != 0)` in each column check. It states that the registry, `hash` and the AVC only grow (`Grown`), not which entries the scan adds.
- LegacySelinux.LegacyEngine.TableThenOverwrite: requires the table to be cached or its default label computable, and the column default label computable, as `CheckAccess` and `CheckAllColumns` do. It states that the registry, `hash` and the AVC only grow, not which entries its checks add.
- LegacySelinux.LegacyEngine.Authorize: requires, for each action, only what its checks need (`CanAuthorize`): the object checked is cached or its default label computable, and a column scan's default label is computable, from `assert(id != 0)`. PRAGMA, ATTACH, DETACH and unhandled actions require nothing. It states that the registry, `hash` and the AVC only grow, not which entries the checks add. Its result is stated against the registry before the call; `ResolveKeepsOtherTargets` shows that the checks made during the call do not change the decisions.
- LegacySelinux.LegacyEngine.CheckTwice: states only that the two answers agree. `CheckAccess` states what that answer is.
- The first version's DELETE scans the columns with DROP, as written.
- `lookup_security_label`'s header declaration and its definition take different parameter lists. The model follows the definition.
- `security_compute_create_raw` is called with class 4 in `compute_sql_context`. The model asks the library for class 4 as written.
- Concurrency does not arise: each connection's engine is single-threaded.

## Findings

| source | as written | input that shows it | evidently intended | confidence | as-written member | corrected member |
|---|---|---|---|---|---|---|
| ext/selinux/selinux.c:297-306 | the drops, DELETE and INSERT set `rc = DENY` on a refused table check, then overwrite `rc` with the column scan's result | DROP TABLE of a table the policy refuses `drop` on, whose columns all pass or whose column list is not found | the table refusal is final, as in the newer `else if` form | not executed; high, the overwrite is plain in the text | LegacySelinux.TableDenyLost | SesqliteAuthorizer.TableThenColumnsIsConjunction |
| ext/security/sesqlite/sesqlite_authorizer.c:101-108 | the database class calls `compute_sql_context(0, dbname, NULL, ...)`, which runs `strcasecmp(NULL, sparam)` at the first database rule that applies | a database rule for `main`, and any statement on database `main` | the database rules are matched on the database name alone; the loader stores it in every segment | not executed; high, for any database rule that applies | ComputeLabel.DatabaseLookupDereferencesNull | ComputeLabel.DatabaseLabelCorrected |
| ext/security/sesqlite/sesqlite_compute_label.c:65-67 | `lookup_security_label` with a non-zero type resolves the column rules with `isColumn` 0, so the column segment is ignored | rules `main.t.secret` then `main.t.*`, and column `name` of `main.t` | the column segment is consulted, as `getContext` does with `isColumn` 1 | not executed; high | ComputeLabel.ColumnLookupIgnoresColumn | ComputeLabel.ColumnLookupCorrected |
| ext/selinux/selinux.c:60-73 | a label already in the `selinux_id` table returns its rowid without entering `hash_id`, so `checkAccess` finds nothing for that rowid in `hash_id` and passes a NULL target to the policy | a database whose `selinux_id` table already holds the default label, opened by a fresh connection | the found rowid is also mapped to its quoted label | not executed; medium, as `selinux.h` is not part of this model | LegacySelinux.StoredLabelReachesPolicyAsNull | LegacySelinux.RegisteredLoadedTargetsLabel |
