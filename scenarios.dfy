/**
 * Clients of the rule repository that rely on its contracts alone: the
 * life of one rule from insert to removal, and a legacy import that meets
 * a package that is no longer installed.
 */
module Scenarios {
  import opened NatTable
  import opened LegacyImport
  import opened NatRules

  method RuleLifecycle()
  {
    var db := new NatTableDb.Empty();
    var rules := new NatRules(db);

    var added := rules.AddAppToRules(10091, "org.example.app", "tor", 9040, "TCP");
    assert added;
    var present := rules.IsAppInRules(10091);
    assert present;
    var rule := rules.GetAppRule(10091);
    assert db.rows[0] in db.rows;
    assert rule == Rule("org.example.app", 10091, "tor", 9040, "TCP");

    var twice := rules.AddAppToRules(10091, "org.example.app", "tor", 9040, "TCP");
    assert !twice;

    var updated := rules.Update(Rule("org.example.app", 10091, "tor", 9050, "TCP"));
    assert updated;
    rule := rules.GetAppRule(10091);
    assert db.rows[0] in db.rows;
    assert rule.onionPort == 9050;

    var removed := rules.RemoveAppFromRules(10091);
    assert removed;
    removed := rules.RemoveAppFromRules(10091);
    assert !removed;
    rule := rules.GetAppRule(10091);
    assert rule == AllNull;
    var count := rules.GetRuleCount();
    assert count == 0;
  }

  method ImportSkipsStale()
  {
    var db := new NatTableDb.Empty();
    var rules := new NatRules(db);
    var installed := (name: string) => name == "org.kept";
    var outcome := rules.ImportFromSharedPrefs([[("org.gone", 555)], [("org.kept", 10091)]], installed);
    MigrateDropsStale();
    assert outcome == Completed;
    assert db.rows == [DefaultRow("org.kept", 10091)];
    var count := rules.GetRuleCount();
    assert count == 1;
    var gone := rules.IsAppInRules(555);
    assert !gone;
  }
}
