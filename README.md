# orWall NAT rule repository in Dafny

This project models `NatRules`, the per-application rule repository of orWall.
orWall is an Android firewall that forces chosen applications' traffic through Tor.
The repository is a table of NAT-redirection rules keyed by application uid.
Each row holds the app name, uid, onion type, onion port and port type.
`NatRules` wraps every SQLite statement it issues in one method.
Those methods are membership test, insert (two overloads), delete, replace-by-uid, point lookup, full read, count, and a one-off import of rules from the old flat-preferences format.

The model has three layers:

- `NatTable` (`nat_table.dfy`): the NAT table as SQLite holds it.
  - A `seq<Row>` in storage order, under the uniqueness constraint of the uid column (`UniqueUids`).
  - The class `NatTableDb` runs the three statements and returns what SQLite returns.
  - `Insert` returns the new rowid, or -1 when the insert is rejected.
  - `Delete` returns the number of rows removed.
  - `Update` returns the number of rows changed, or the constraint exception.
- `LegacyImport` (`legacy_import.dfy`): specification functions for the legacy import (`Processed`, `Migrate`) and lemmas about them.
- `NatRules` (`nat_rules.dfy`): the `AppRule` record and the class `NatRules`.
  - Its methods mirror the Java methods one for one, plus `AddAppRuleIntended`, the corrected rule-taking insert.
  - Each method reads `db.rows` through the table functions or changes it through `NatTableDb`.
  - Each method's `ensures` states the boolean or record it returns and the new contents of the table.

`scenarios.dfy` holds two client methods that rely only on these contracts.
The first follows one rule: add, membership, lookup, duplicate add, update, remove twice, lookup of the missing uid, count.
The second imports a legacy set in which one package is no longer installed.

Assumptions the model makes:

- The uid column is declared unique. The schema lives in `OpenHelper`, which is not part of this model.
- The uid column is not the rowid alias, so a successful insert returns a positive rowid.
- The package registry is the parameter `installed: string -> bool` of `ImportFromSharedPrefs`. It stands for `PackageManager.getApplicationInfo` succeeding.
- `Constants.DB_ONION_TYPE_TOR`, `Constants.ORBOT_TRANSPROXY` and `Constants.DB_PORT_TYPE_TRANS` are constants of unknown value (`DbOnionTypeTor`, `OrbotTransproxy`, `DbPortTypeTrans`). `Constants` is not part of this model.

The model follows the code:

- A duplicate `add` does not raise a constraint violation. `SQLiteDatabase.insert` returns -1 and `addAppToRules` returns false.
- Transport and port type are free strings, not enumerations.
- The legacy import reads only the first entry of each element's map. It stops with an exception at an element whose map is empty.

## Model

| member | source | states |
|---|---|---|
| NatTable.SelectWhere | app/src/main/java/org/ethack/orwall/lib/NatRules.java:37-47 | the filtered query yields exactly the stored rows with that uid, and nothing iff no row has it |
| NatTable.DeleteWhere | app/src/main/java/org/ethack/orwall/lib/NatRules.java:53-58 | the delete keeps exactly the rows with other uids, and removes as many rows as the filter matches |
| NatTable.UpdateWhere | app/src/main/java/org/ethack/orwall/lib/NatRules.java:165 | the UPDATE keeps the row count, keeps every row with another uid, writes the new values where the uid was stored, and introduces nothing else |
| NatTable.InsertUnique | app/src/main/java/org/ethack/orwall/lib/NatRules.java:73 | the INSERT keeps every stored row in place, leaves the uid present afterwards, and adds one row exactly when the uid was new |
| NatTable.SelectOfUnique | app/src/main/java/org/ethack/orwall/lib/NatRules.java:46-47 | under the unique uid column a uid matches one row if stored and none otherwise, and that row is the stored one |
| NatTable.UniqueCount | app/src/main/java/org/ethack/orwall/lib/NatRules.java:125-134 | under the unique uid column the number of rows equals the number of distinct uids |
| NatTable.DeleteAbsent | app/src/main/java/org/ethack/orwall/lib/NatRules.java:53-61 | deleting a uid that no row has leaves the table unchanged |
| NatTable.DeleteTwice | app/src/main/java/org/ethack/orwall/lib/NatRules.java:53-61 | after a delete no row has the uid, so a second delete removes nothing |
| NatTable.DeleteKeepsUnique | app/src/main/java/org/ethack/orwall/lib/NatRules.java:53-61 | a delete keeps the uid column unique |
| NatTable.UniqueSnoc | app/src/main/java/org/ethack/orwall/lib/NatRules.java:72-75 | appending a row whose uid is new keeps the uid column unique |
| NatTable.UpdateKeyed | app/src/main/java/org/ethack/orwall/lib/NatRules.java:151-173 | an update that writes back the uid it filters on keeps every uid, cannot break the constraint, replaces exactly the stored row and leaves every other row in place |
| NatTable.NatTableDb.Insert | app/src/main/java/org/ethack/orwall/lib/NatRules.java:72-75 | the insert appends the row and returns a positive rowid when the uid is new; otherwise it returns -1 and the table is unchanged |
| NatTable.NatTableDb.Delete | app/src/main/java/org/ethack/orwall/lib/NatRules.java:57-58 | the delete removes the rows with that uid and returns how many went |
| NatTable.NatTableDb.Update | app/src/main/java/org/ethack/orwall/lib/NatRules.java:161-169 | the update replaces the matching rows and returns their number, or raises the constraint exception and changes nothing |
| LegacyImport.Processed | app/src/main/java/org/ethack/orwall/lib/NatRules.java:138-141 | the loop handles every element up to the first empty map, which is where reading its first entry throws |
| LegacyImport.MigrateOne | app/src/main/java/org/ethack/orwall/lib/NatRules.java:142-147 | handling one element only appends, adds at most one row, leaves a rule for the uid when the package is installed, and changes nothing when it is not |
| LegacyImport.Migrate | app/src/main/java/org/ethack/orwall/lib/NatRules.java:138-148 | handling the elements in order adds at most one row per element and removes none |
| LegacyImport.MigrateKeepsRows | app/src/main/java/org/ethack/orwall/lib/NatRules.java:136-149 | the import only appends: every row stored before stays, in place |
| LegacyImport.MigrateAddsOnlyInstalled | app/src/main/java/org/ethack/orwall/lib/NatRules.java:142-145 | every added row names an installed package read from an element's first entry, and carries the Tor onion type, transparent-proxy port and transparent port type |
| LegacyImport.MigrateCoversInstalled | app/src/main/java/org/ethack/orwall/lib/NatRules.java:142-145 | after the import every handled element whose package is installed has a rule for its uid |
| LegacyImport.MigrateKeepsUnique | app/src/main/java/org/ethack/orwall/lib/NatRules.java:136-149 | the import keeps the uid column unique |
| LegacyImport.MigrateDropsStale | app/src/main/java/org/ethack/orwall/lib/NatRules.java:142-147 | importing an uninstalled package and an installed one into an empty table stores only the installed one |
| NatRules.RuleOf | app/src/main/java/org/ethack/orwall/lib/NatRules.java:109-115 | a row read from the cursor gives a record that is never the all-null one and carries the row's uid |
| NatRules.RowOf | app/src/main/java/org/ethack/orwall/lib/NatRules.java:152-157 | each field of a rule goes to its own column, and the row reads back as the rule |
| NatRules.RowOfAsWritten | app/src/main/java/org/ethack/orwall/lib/NatRules.java:79-85 | the rule-taking insert keeps the uid and writes the onion type into both the onion-type and port-type columns |
| NatRules.RowOfAsWrittenRoundTrip | app/src/main/java/org/ethack/orwall/lib/NatRules.java:78-86 | with the columns the rule-taking insert writes, the stored port type equals the onion type, and a rule reads back unchanged iff its two types already agreed |
| NatRules.RowOfAsWrittenLosesPortType | app/src/main/java/org/ethack/orwall/lib/NatRules.java:84 | a concrete rule with port type TCP is stored with the onion type as its port type |
| NatRules.NatRules.constructor | app/src/main/java/org/ethack/orwall/lib/NatRules.java:25-28 | the repository works on the given database |
| NatRules.NatRules.IsAppInRules | app/src/main/java/org/ethack/orwall/lib/NatRules.java:30-51 | true iff a row with the uid is stored, which is exactly when the uid query counts one row; the table is not modified |
| NatRules.NatRules.RemoveAppFromRules | app/src/main/java/org/ethack/orwall/lib/NatRules.java:53-61 | true iff the uid was stored; afterwards the row with that uid is gone and every other row is untouched |
| NatRules.NatRules.AddAppToRules | app/src/main/java/org/ethack/orwall/lib/NatRules.java:63-76 | true iff the uid was new; then a row with exactly the given fields is appended, otherwise the table is unchanged |
| NatRules.NatRules.AddAppRule | app/src/main/java/org/ethack/orwall/lib/NatRules.java:78-86 | as written: inserts the rule with its onion type in the port-type column, so the stored port type equals the onion type |
| NatRules.NatRules.AddAppRuleIntended | app/src/main/java/org/ethack/orwall/lib/NatRules.java:78-86 | inserts the rule with every field in its own column, so the stored row reads back as the rule |
| NatRules.NatRules.GetAllRules | app/src/main/java/org/ethack/orwall/lib/NatRules.java:88-123 | one record per stored row with that row's fields, an empty list for an empty table, as many records as distinct uids |
| NatRules.NatRules.GetRuleCount | app/src/main/java/org/ethack/orwall/lib/NatRules.java:125-134 | the number of stored rows, which is the number of distinct uids and the length of the full read |
| NatRules.NatRules.ImportFromSharedPrefs | app/src/main/java/org/ethack/orwall/lib/NatRules.java:136-149 | the table becomes the migration of the handled elements, and the outcome is completion or the index of the empty map that stopped the loop |
| NatRules.NatRules.Update | app/src/main/java/org/ethack/orwall/lib/NatRules.java:151-173 | true iff the record is not all-null and a row with its uid is stored; then that row is replaced by the rule's fields and selecting the uid yields exactly it; otherwise, and always for the all-null record, the table is unchanged |
| NatRules.NatRules.GetAppRule | app/src/main/java/org/ethack/orwall/lib/NatRules.java:175-216 | the stored row's fields when the uid is present, the all-null record otherwise; the table is not modified |

## Findings

| source | as written | input that shows it | evidently intended | confidence | as-written member | corrected member |
|---|---|---|---|---|---|---|
| app/src/main/java/org/ethack/orwall/lib/NatRules.java:84 | the rule-taking `addAppToRules` passes `getOnionType()` as the port type | `Rule("org.example.app", 10091, "tor", 9040, "TCP")` is stored with port type `"tor"`, so looking it up does not return the rule | pass `getPortType()`, as `update` does at line 157 | high; not executed | NatRules.NatRules.AddAppRule (shown by NatRules.RowOfAsWrittenLosesPortType) | NatRules.NatRules.AddAppRuleIntended (round trip NatRules.RowOf) |

## Left out

- NatRules.NatRules.AddAppRule: requires a record that is not all-null. Passing the all-null record would write the text "null" into the uid and port columns. What that does depends on the schema in `OpenHelper`, which is not part of this model.
- NatRules.NatRules.AddAppRuleIntended: requires a record that is not all-null, for the same reason.
- NatRules.NatRules.Update: the all-null record is handled without a schema assumption: its filter is the text "null", which matches no stored integer uid, so nothing changes and the result is false. Only the uid-uniqueness constraint is modelled. Other schema constraints (NOT NULL and the like) are unknown, so the caught constraint exception can only come from uniqueness. `NatTable.UpdateKeyed` shows that this cannot happen for an update keyed on its own uid.
- Null uid arguments are not modelled. `isAppInRules`, `removeAppFromRules`, `getAppRule` and the five-argument `addAppToRules` take a boxed `Long`, and `String.valueOf` would turn a null one into the text "null" (lines 34, 55, 67, 179). The model's uids are integers.
- Records with only some fields null are not modelled. Stored columns are never null.
- SQLite mechanics are not modelled: opening and closing the database, cursor movement, `ContentValues` string conversion of uid and port, and logging. The early return of `getAllRules` on an empty table also skips closing the cursor, which does not change the result.
- Row order is the model's storage order. SQLite does not promise any order. `GetAllRules` returns rows in that storage order.
- Rowids are a counter that grows by one on every successful insert. SQLite's own rowid choice is not modelled. Only the sign of the rowid matters to `addAppToRules`.
- Uids and ports are unbounded integers. The code does no arithmetic on them, so 64-bit `Long` limits do not matter.
- Legacy import:
  - The order of the set is the order `Set.toArray` yields, taken as the input sequence.
  - Each map's first key and first value are taken from the same first entry.
  - Null keys or values are not modelled.
  - An element that is not a `HashMap<String, Long>` (a `ClassCastException`) is not modelled.
- The values of `Constants.DB_ONION_TYPE_TOR`, `Constants.ORBOT_TRANSPROXY` and `Constants.DB_PORT_TYPE_TRANS` are not known, so they are left unspecified.
- Concurrency is not modelled. Each method other than `ImportFromSharedPrefs` issues one statement, which the store's own locking makes atomic. `ImportFromSharedPrefs` issues one insert per element, and the model does not let other writers run between them.
- `HomeFragment` is user-interface wiring (switches, dialogs, toasts, intents, the browser-bypass countdown) and is not part of this model.
- Firewall command generation (`InitializeIptables`), root detection and init-script installation are not part of this model. They are outside the rule repository, and they are privileged I/O.
