/**
 * The per-application NAT rule repository: one rule per application uid,
 * kept in the NAT table. Every method issues one statement (or, for the
 * legacy import, one per element) against the table and reports the
 * outcome as a boolean or a record.
 */
module NatRules {
  import opened NatTable
  import opened LegacyImport

  /**
   * A rule as callers see it: the five fields of a stored row, or the record
   * whose fields are all null, which is what a lookup of a missing uid returns.
   */
  datatype AppRule =
    | Rule(pkgName: string, appUid: int, onionType: string, onionPort: int, portType: string)
    | AllNull

  /** The record built from the five columns of a stored row. */
  function RuleOf(row: Row): (r: AppRule)
    ensures r != AllNull && r.appUid == row.appUid
  {
    Rule(row.appName, row.appUid, row.onionType, row.onionPort, row.portType)
  }

  /** The columns written for a rule: each field in its own column. */
  function RowOf(rule: AppRule): (r: Row)
    requires rule.Rule?
    ensures r.appUid == rule.appUid && RuleOf(r) == rule
  {
    Row(rule.pkgName, rule.appUid, rule.onionType, rule.onionPort, rule.portType)
  }

  /** The columns the rule-taking insert writes: the onion type stands in for the port type. */
  function RowOfAsWritten(rule: AppRule): (r: Row)
    requires rule.Rule?
    ensures r.appUid == rule.appUid && r.portType == r.onionType == rule.onionType
  {
    Row(rule.pkgName, rule.appUid, rule.onionType, rule.onionPort, rule.onionType)
  }

  /**
   * With the columns the rule-taking insert writes, a rule reads back as
   * itself exactly when its onion type and port type already agree.
   */
  lemma RowOfAsWrittenRoundTrip(rule: AppRule)
    requires rule.Rule?
    ensures RuleOf(RowOfAsWritten(rule)) == rule <==> rule.portType == rule.onionType
    ensures RowOfAsWritten(rule).portType == RowOfAsWritten(rule).onionType
  {
  }

  /** A rule on the TCP port type that the rule-taking insert does not store as given. */
  lemma RowOfAsWrittenLosesPortType()
    ensures var rule := Rule("org.example.app", 10091, "tor", 9040, "TCP");
      RuleOf(RowOfAsWritten(rule)) != rule && RuleOf(RowOf(rule)) == rule
  {
    var rule := Rule("org.example.app", 10091, "tor", 9040, "TCP");
    assert RowOfAsWritten(rule).portType == "tor";
  }

  /** What happened to a legacy import: it went through, or stopped at an empty element. */
  datatype ImportOutcome = Completed | IndexOutOfBounds(element: nat)

  class NatRules {
    /** The NAT table, shared with every other user of the database. */
    const db: NatTableDb

    constructor (db: NatTableDb)
      ensures this.db == db
    {
      this.db := db;
    }

    /** True iff the table holds a row for this uid (there is at most one). */
    method IsAppInRules(appUid: int) returns (appExists: bool)
      requires db.Valid()
      ensures appExists <==> HasUid(db.rows, appUid)
      ensures appExists <==> |SelectWhere(db.rows, appUid)| == 1
    {
      var cursor := SelectWhere(db.rows, appUid);
      SelectOfUnique(db.rows, appUid);
      appExists := |cursor| == 1;
    }

    /** Deletes the rule for this uid; true iff exactly one row went. */
    method RemoveAppFromRules(appUid: int) returns (removed: bool)
      requires db.Valid()
      modifies db
      ensures db.Valid()
      ensures removed <==> HasUid(old(db.rows), appUid)
      ensures db.rows == DeleteWhere(old(db.rows), appUid)
    {
      SelectOfUnique(db.rows, appUid);
      var result := db.Delete(appUid);
      removed := result == 1;
    }

    /**
     * Inserts a rule with exactly these fields; true iff the insert went
     * through, which it does iff no rule has this uid yet.
     */
    method AddAppToRules(appUid: int, appName: string, onionType: string, onionPort: int, portType: string)
      returns (added: bool)
      requires db.Valid()
      modifies db
      ensures db.Valid()
      ensures added <==> !HasUid(old(db.rows), appUid)
      ensures db.rows == if added then old(db.rows) + [Row(appName, appUid, onionType, onionPort, portType)]
                         else old(db.rows)
    {
      var result := db.Insert(Row(appName, appUid, onionType, onionPort, portType));
      added := result > 0;
    }

    /**
     * The rule-taking insert, as written: it passes the onion type where the
     * port type belongs, so the stored port type is the onion type.
     */
    method AddAppRule(appRule: AppRule) returns (added: bool)
      requires db.Valid() && appRule.Rule?
      modifies db
      ensures db.Valid()
      ensures added <==> !HasUid(old(db.rows), appRule.appUid)
      ensures db.rows == if added then old(db.rows) + [RowOfAsWritten(appRule)] else old(db.rows)
      ensures added ==> db.rows[|db.rows| - 1].portType == appRule.onionType
    {
      added := AddAppToRules(appRule.appUid, appRule.pkgName, appRule.onionType, appRule.onionPort, appRule.onionType);
      assert Row(appRule.pkgName, appRule.appUid, appRule.onionType, appRule.onionPort, appRule.onionType)
        == RowOfAsWritten(appRule);
    }

    /** The rule-taking insert as evidently intended: every field in its own column. */
    method AddAppRuleIntended(appRule: AppRule) returns (added: bool)
      requires db.Valid() && appRule.Rule?
      modifies db
      ensures db.Valid()
      ensures added <==> !HasUid(old(db.rows), appRule.appUid)
      ensures db.rows == if added then old(db.rows) + [RowOf(appRule)] else old(db.rows)
      ensures added ==> RuleOf(db.rows[|db.rows| - 1]) == appRule
    {
      added := AddAppToRules(appRule.appUid, appRule.pkgName, appRule.onionType, appRule.onionPort, appRule.portType);
      assert Row(appRule.pkgName, appRule.appUid, appRule.onionType, appRule.onionPort, appRule.portType)
        == RowOf(appRule);
    }

    /** Every stored rule, one record per row, in the order the table yields them. */
    method GetAllRules() returns (list: seq<AppRule>)
      requires db.Valid()
      ensures |list| == |db.rows| == |Uids(db.rows)|
      ensures forall k :: 0 <= k < |list| ==> list[k] == RuleOf(db.rows[k])
    {
      UniqueCount(db.rows);
      list := [];
      var cursor := db.rows;
      if |cursor| == 0 {
        return;
      }
      var pos := 0;
      while pos < |cursor|
        invariant 0 <= pos <= |cursor|
        invariant |list| == pos
        invariant forall k :: 0 <= k < pos ==> list[k] == RuleOf(cursor[k])
      {
        list := list + [RuleOf(cursor[pos])];
        pos := pos + 1;
      }
    }

    /** The number of stored rules: one per distinct uid. */
    method GetRuleCount() returns (total: nat)
      requires db.Valid()
      ensures total == |db.rows| == |Uids(db.rows)|
    {
      UniqueCount(db.rows);
      total := |db.rows|;
    }

    /**
     * Migrates the legacy preference set: for each element, in order, reads
     * the package name and uid of its first entry and, if that package is
     * installed, inserts a rule with the defaults; uninstalled packages are
     * skipped without a word. An empty element stops the loop with an
     * exception, keeping what was inserted before it.
     */
    method ImportFromSharedPrefs(oldRules: seq<LegacyPref>, installed: string -> bool)
      returns (outcome: ImportOutcome)
      requires db.Valid()
      modifies db
      ensures db.Valid()
      ensures db.rows == Migrate(old(db.rows), oldRules[..Processed(oldRules)], installed)
      ensures outcome == if Processed(oldRules) == |oldRules| then Completed
                         else IndexOutOfBounds(Processed(oldRules))
    {
      var i := 0;
      while i < |oldRules|
        invariant 0 <= i <= |oldRules|
        invariant forall k :: 0 <= k < i ==> oldRules[k] != []
        invariant db.Valid()
        invariant db.rows == Migrate(old(db.rows), oldRules[..i], installed)
      {
        if oldRules[i] == [] {
          outcome := IndexOutOfBounds(i);
          return;
        }
        var uid := oldRules[i][0].1;
        var name := oldRules[i][0].0;
        assert oldRules[..i + 1][..i] == oldRules[..i];
        if installed(name) {
          var _ := AddAppToRules(uid, name, DbOnionTypeTor, OrbotTransproxy, DbPortTypeTrans);
        }
        i := i + 1;
      }
      assert oldRules[..i] == oldRules;
      outcome := Completed;
    }

    /**
     * Replaces every field of the rule stored under `appRule`'s uid; true iff
     * exactly one row matched. No match leaves the table as it was; a
     * constraint exception from the store is caught and also yields false.
     * The all-null record filters on the text "null", which no stored integer
     * uid equals, so it matches no row.
     */
    method Update(appRule: AppRule) returns (updated: bool)
      requires db.Valid()
      modifies db
      ensures db.Valid()
      ensures updated <==> appRule.Rule? && HasUid(old(db.rows), appRule.appUid)
      ensures db.rows == if updated then UpdateWhere(old(db.rows), appRule.appUid, RowOf(appRule))
                         else old(db.rows)
      ensures updated ==> SelectWhere(db.rows, appRule.appUid) == [RowOf(appRule)]
      ensures appRule == AllNull ==> !updated && db.rows == old(db.rows)
    {
      var nbRow := 0;
      if appRule.Rule? {
        UpdateKeyed(db.rows, appRule.appUid, RowOf(appRule));
        SelectOfUnique(db.rows, appRule.appUid);
        if !HasUid(db.rows, appRule.appUid) {
          assert UpdateWhere(db.rows, appRule.appUid, RowOf(appRule)) == db.rows;
        }
        var res := db.Update(RowOf(appRule), appRule.appUid);
        match res {
          case Updated(count) => nbRow := count;
          case ConstraintViolation =>
        }
      }
      updated := nbRow == 1;
    }

    /**
     * The stored rule for this uid, or the all-null record when there is none.
     */
    method GetAppRule(appUid: int) returns (appRule: AppRule)
      requires db.Valid()
      ensures !HasUid(db.rows, appUid) ==> appRule == AllNull
      ensures forall r :: r in db.rows && r.appUid == appUid ==> appRule == RuleOf(r)
    {
      var cursor := SelectWhere(db.rows, appUid);
      SelectOfUnique(db.rows, appUid);
      if |cursor| > 0 {
        appRule := RuleOf(cursor[0]);
      } else {
        appRule := AllNull;
      }
    }
  }
}
