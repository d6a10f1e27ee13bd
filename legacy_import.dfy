/**
 * What the one-off migration of rules from the old flat-preferences format
 * does to the NAT table. Each legacy element is a small map from a package
 * name to its uid; only its first entry is read. The loop stops with an
 * exception at the first element that is an empty map.
 */
module LegacyImport {
  import opened NatTable

  /** Defaults of a migrated rule (their values are not part of this model). */
  const DbOnionTypeTor: string
  const OrbotTransproxy: int
  const DbPortTypeTrans: string

  /** One legacy element: the entries of its map, in the map's iteration order. */
  type LegacyPref = seq<(string, int)>

  /** The row a migrated package gets: onion routing, transparent proxy port, transparent port type. */
  function DefaultRow(name: string, uid: int): Row
  {
    Row(name, uid, DbOnionTypeTor, OrbotTransproxy, DbPortTypeTrans)
  }

  /**
   * How many legacy elements the loop handles before it meets an empty map
   * (all of them when there is none).
   */
  function Processed(prefs: seq<LegacyPref>): (n: nat)
    ensures n <= |prefs|
    ensures forall k :: 0 <= k < n ==> prefs[k] != []
    ensures n < |prefs| ==> prefs[n] == []
  {
    if prefs == [] || prefs[0] == [] then 0 else 1 + Processed(prefs[1..])
  }

  /** The (package name, uid) pair read from each handled element. */
  function FirstEntries(prefs: seq<LegacyPref>): seq<(string, int)>
    requires forall k :: 0 <= k < |prefs| ==> prefs[k] != []
  {
    seq(|prefs|, k requires 0 <= k < |prefs| => prefs[k][0])
  }

  /** One element: an installed package is inserted with the defaults; any other is skipped. */
  function MigrateOne(rows: seq<Row>, name: string, uid: int, installed: string -> bool): (r: seq<Row>)
    ensures rows <= r && |r| <= |rows| + 1
    ensures installed(name) ==> HasUid(r, uid)
    ensures !installed(name) ==> r == rows
  {
    if installed(name) then InsertUnique(rows, DefaultRow(name, uid)) else rows
  }

  /** The table after the loop has handled every element of `prefs`, in order. */
  function Migrate(rows: seq<Row>, prefs: seq<LegacyPref>, installed: string -> bool): (r: seq<Row>)
    requires forall k :: 0 <= k < |prefs| ==> prefs[k] != []
    ensures |rows| <= |r| <= |rows| + |prefs|
  {
    if prefs == [] then rows
    else
      var entry := prefs[|prefs| - 1][0];
      MigrateOne(Migrate(rows, prefs[..|prefs| - 1], installed), entry.0, entry.1, installed)
  }

  /** The migration only appends: every row stored before stays, in place. */
  lemma {:induction false} MigrateKeepsRows(rows: seq<Row>, prefs: seq<LegacyPref>, installed: string -> bool)
    requires forall k :: 0 <= k < |prefs| ==> prefs[k] != []
    ensures rows <= Migrate(rows, prefs, installed)
  {
    if prefs != [] {
      MigrateKeepsRows(rows, prefs[..|prefs| - 1], installed);
    }
  }

  /**
   * Every row the migration adds belongs to an installed package named by a
   * handled element, and carries the default transport, port and port type.
   */
  lemma {:induction false} MigrateAddsOnlyInstalled(rows: seq<Row>, prefs: seq<LegacyPref>, installed: string -> bool)
    requires forall k :: 0 <= k < |prefs| ==> prefs[k] != []
    ensures var m := Migrate(rows, prefs, installed);
      forall r :: r in m && r !in rows ==>
        installed(r.appName) && r == DefaultRow(r.appName, r.appUid)
        && (r.appName, r.appUid) in FirstEntries(prefs)
  {
    if prefs != [] {
      var init := prefs[..|prefs| - 1];
      MigrateAddsOnlyInstalled(rows, init, installed);
      forall e | e in FirstEntries(init)
        ensures e in FirstEntries(prefs)
      {
        var k :| 0 <= k < |init| && FirstEntries(init)[k] == e;
        assert FirstEntries(prefs)[k] == e;
      }
      assert FirstEntries(prefs)[|prefs| - 1] == prefs[|prefs| - 1][0];
    }
  }

  /** After the migration every installed package of a handled element has a rule for its uid. */
  lemma {:induction false} MigrateCoversInstalled(rows: seq<Row>, prefs: seq<LegacyPref>, installed: string -> bool)
    requires forall k :: 0 <= k < |prefs| ==> prefs[k] != []
    ensures forall k :: 0 <= k < |prefs| && installed(prefs[k][0].0) ==>
      HasUid(Migrate(rows, prefs, installed), prefs[k][0].1)
  {
    if prefs != [] {
      var init := prefs[..|prefs| - 1];
      var before := Migrate(rows, init, installed);
      var after := Migrate(rows, prefs, installed);
      MigrateCoversInstalled(rows, init, installed);
      assert before <= after by {
        MigrateKeepsRows(before, [prefs[|prefs| - 1]], installed);
        assert [prefs[|prefs| - 1]][..0] == [];
      }
      forall k | 0 <= k < |prefs| && installed(prefs[k][0].0)
        ensures HasUid(after, prefs[k][0].1)
      {
        if k < |prefs| - 1 {
          assert init[k] == prefs[k];
          var r :| r in before && r.appUid == prefs[k][0].1;
          assert r in after;
        } else {
          var row := DefaultRow(prefs[k][0].0, prefs[k][0].1);
          if !HasUid(before, row.appUid) {
            assert after == before + [row];
            assert row in after;
          }
        }
      }
    }
  }

  /** The migration keeps the uid constraint. */
  lemma {:induction false} MigrateKeepsUnique(rows: seq<Row>, prefs: seq<LegacyPref>, installed: string -> bool)
    requires UniqueUids(rows)
    requires forall k :: 0 <= k < |prefs| ==> prefs[k] != []
    ensures UniqueUids(Migrate(rows, prefs, installed))
  {
    if prefs != [] {
      var init := prefs[..|prefs| - 1];
      var before := Migrate(rows, init, installed);
      MigrateKeepsUnique(rows, init, installed);
      var entry := prefs[|prefs| - 1][0];
      if installed(entry.0) && !HasUid(before, entry.1) {
        UniqueSnoc(before, DefaultRow(entry.0, entry.1));
      }
    }
  }

  /**
   * A stale entry is dropped: migrating a still-installed package and one
   * that is gone, into an empty table, leaves only the installed one.
   */
  lemma MigrateDropsStale()
    ensures var prefs := [[("org.gone", 555)], [("org.kept", 10091)]];
      var installed := (name: string) => name == "org.kept";
      Processed(prefs) == 2
      && Migrate([], prefs, installed) == [DefaultRow("org.kept", 10091)]
  {
    var prefs := [[("org.gone", 555)], [("org.kept", 10091)]];
    var installed := (name: string) => name == "org.kept";
    assert prefs[..1] == [[("org.gone", 555)]];
    assert prefs[..1][..0] == prefs[..0];
    assert Migrate([], prefs[..1], installed) == [];
  }
}
