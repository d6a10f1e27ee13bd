/**
 * The NAT relation that the rule repository keeps in SQLite, seen as an
 * abstract table: a sequence of rows in storage order, plus the three
 * statements the repository issues against it (INSERT, DELETE ... WHERE
 * app_uid = ?, UPDATE ... WHERE app_uid = ?) with the results SQLite reports
 * for them. The app_uid column is assumed to be declared UNIQUE by the schema.
 */
module NatTable {

  /** One stored row: app name, uid, onion type, onion port, port type. */
  datatype Row = Row(appName: string, appUid: int, onionType: string, onionPort: int, portType: string)

  /** The uniqueness constraint of the app_uid column. */
  predicate UniqueUids(rows: seq<Row>)
  {
    forall i, j :: 0 <= i < |rows| && 0 <= j < |rows| && rows[i].appUid == rows[j].appUid ==> i == j
  }

  /** Some stored row has this uid. */
  predicate HasUid(rows: seq<Row>, uid: int)
  {
    exists r :: r in rows && r.appUid == uid
  }

  /** The set of uids present in the table. */
  ghost function Uids(rows: seq<Row>): set<int>
  {
    set r | r in rows :: r.appUid
  }

  /** SELECT ... WHERE app_uid = uid: the matching rows, in storage order. */
  function SelectWhere(rows: seq<Row>, uid: int): (r: seq<Row>)
    ensures forall x :: x in r <==> x in rows && x.appUid == uid
    ensures |r| == 0 <==> !HasUid(rows, uid)
  {
    if rows == [] then []
    else (if rows[0].appUid == uid then [rows[0]] else []) + SelectWhere(rows[1..], uid)
  }

  /** DELETE ... WHERE app_uid = uid: the surviving rows, in storage order. */
  function DeleteWhere(rows: seq<Row>, uid: int): (r: seq<Row>)
    ensures forall x :: x in r <==> x in rows && x.appUid != uid
    ensures |r| + |SelectWhere(rows, uid)| == |rows|
  {
    if rows == [] then []
    else (if rows[0].appUid == uid then [] else [rows[0]]) + DeleteWhere(rows[1..], uid)
  }

  /** UPDATE ... SET <values> WHERE app_uid = uid, before any constraint is checked. */
  function UpdateWhere(rows: seq<Row>, uid: int, values: Row): (r: seq<Row>)
    ensures |r| == |rows|
    ensures forall x :: x in rows && x.appUid != uid ==> x in r
    ensures HasUid(rows, uid) ==> values in r
    ensures forall x :: x in r ==> x == values || (x in rows && x.appUid != uid)
  {
    var r := seq(|rows|, i requires 0 <= i < |rows| => if rows[i].appUid == uid then values else rows[i]);
    assert forall x :: x in rows && x.appUid != uid ==> x in r by {
      forall x | x in rows && x.appUid != uid
        ensures x in r
      {
        var k :| 0 <= k < |rows| && rows[k] == x;
        assert r[k] == x;
      }
    }
    assert HasUid(rows, uid) ==> values in r by {
      if HasUid(rows, uid) {
        var x :| x in rows && x.appUid == uid;
        var k :| 0 <= k < |rows| && rows[k] == x;
        assert r[k] == values;
      }
    }
    r
  }

  /** The rows after an INSERT of `row`: rejected when the uid is already taken. */
  function InsertUnique(rows: seq<Row>, row: Row): (r: seq<Row>)
    ensures rows <= r && HasUid(r, row.appUid)
    ensures |r| == if HasUid(rows, row.appUid) then |rows| else |rows| + 1
  {
    if HasUid(rows, row.appUid) then rows else rows + [row]
  }

  /** A row may be put in front of a table that has no row with its uid. */
  lemma UniqueCons(h: Row, rows: seq<Row>)
    requires UniqueUids(rows) && !HasUid(rows, h.appUid)
    ensures UniqueUids([h] + rows)
  {
    var t := [h] + rows;
    forall k | 1 <= k < |t|
      ensures t[k] == rows[k - 1] && t[k].appUid != h.appUid
    {
      assert rows[k - 1] in rows;
    }
    forall i, j | 0 <= i < |t| && 0 <= j < |t| && t[i].appUid == t[j].appUid
      ensures i == j
    {
      if i != 0 && j != 0 {
        assert rows[i - 1].appUid == rows[j - 1].appUid;
      }
    }
  }

  /** A table under the constraint splits into its first row and a constrained rest without that uid. */
  lemma UniqueUncons(rows: seq<Row>)
    requires UniqueUids(rows) && rows != []
    ensures UniqueUids(rows[1..]) && !HasUid(rows[1..], rows[0].appUid)
  {
    var tail := rows[1..];
    forall i, j | 0 <= i < |tail| && 0 <= j < |tail| && tail[i].appUid == tail[j].appUid
      ensures i == j
    {
      assert rows[i + 1].appUid == rows[j + 1].appUid;
    }
    forall r | r in tail
      ensures r.appUid != rows[0].appUid
    {
      var k :| 0 <= k < |tail| && tail[k] == r;
      assert rows[k + 1] == r;
    }
  }

  /** Under the uniqueness constraint a uid selects at most one row, and exactly the stored one. */
  lemma {:induction false} SelectOfUnique(rows: seq<Row>, uid: int)
    requires UniqueUids(rows)
    ensures |SelectWhere(rows, uid)| == if HasUid(rows, uid) then 1 else 0
    ensures forall r :: r in rows && r.appUid == uid ==> SelectWhere(rows, uid) == [r]
  {
    if rows != [] {
      var tail := rows[1..];
      UniqueUncons(rows);
      SelectOfUnique(tail, uid);
      if rows[0].appUid != uid {
        assert forall r :: r in rows && r.appUid == uid ==> r in tail;
      }
    }
  }

  /** Under the constraint, the number of stored rows is the number of distinct uids. */
  lemma {:induction false} UniqueCount(rows: seq<Row>)
    requires UniqueUids(rows)
    ensures |Uids(rows)| == |rows|
  {
    if rows != [] {
      var tail := rows[1..];
      UniqueUncons(rows);
      UniqueCount(tail);
      assert Uids(rows) == {rows[0].appUid} + Uids(tail) by {
        assert rows == [rows[0]] + tail;
      }
    }
  }

  /** Deleting a uid that no row has changes nothing. */
  lemma {:induction false} DeleteAbsent(rows: seq<Row>, uid: int)
    requires !HasUid(rows, uid)
    ensures DeleteWhere(rows, uid) == rows
  {
    if rows != [] {
      assert rows[0] in rows;
      DeleteAbsent(rows[1..], uid);
      assert rows == [rows[0]] + rows[1..];
    }
  }

  /** Deleting a uid leaves no row with it, so a second delete removes nothing. */
  lemma DeleteTwice(rows: seq<Row>, uid: int)
    ensures !HasUid(DeleteWhere(rows, uid), uid)
    ensures DeleteWhere(DeleteWhere(rows, uid), uid) == DeleteWhere(rows, uid)
    ensures |SelectWhere(DeleteWhere(rows, uid), uid)| == 0
  {
    DeleteAbsent(DeleteWhere(rows, uid), uid);
  }

  /** Deleting keeps the uniqueness constraint. */
  lemma {:induction false} DeleteKeepsUnique(rows: seq<Row>, uid: int)
    requires UniqueUids(rows)
    ensures UniqueUids(DeleteWhere(rows, uid))
  {
    if rows != [] {
      UniqueUncons(rows);
      DeleteKeepsUnique(rows[1..], uid);
      if rows[0].appUid != uid {
        UniqueCons(rows[0], DeleteWhere(rows[1..], uid));
      }
    }
  }

  /** A row may be appended to a table that has no row with its uid. */
  lemma UniqueSnoc(rows: seq<Row>, row: Row)
    requires UniqueUids(rows) && !HasUid(rows, row.appUid)
    ensures UniqueUids(rows + [row])
  {
    var t := rows + [row];
    forall k | 0 <= k < |rows|
      ensures t[k] == rows[k] && t[k].appUid != row.appUid
    {
      assert rows[k] in rows;
    }
  }

  /**
   * An UPDATE that writes back the uid it filters on keeps every row's uid, so
   * it cannot break the constraint; it replaces exactly the row with that uid
   * and leaves every other row where it was.
   */
  lemma UpdateKeyed(rows: seq<Row>, uid: int, values: Row)
    requires UniqueUids(rows) && values.appUid == uid
    ensures var u := UpdateWhere(rows, uid, values);
      && |u| == |rows|
      && UniqueUids(u)
      && (HasUid(u, uid) <==> HasUid(rows, uid))
      && (HasUid(rows, uid) ==> SelectWhere(u, uid) == [values])
      && (forall k :: 0 <= k < |rows| && rows[k].appUid != uid ==> u[k] == rows[k])
  {
    var u := UpdateWhere(rows, uid, values);
    assert forall k :: 0 <= k < |u| ==> u[k].appUid == rows[k].appUid;
    assert UniqueUids(u);
    if HasUid(rows, uid) {
      var r :| r in rows && r.appUid == uid;
      var k :| 0 <= k < |rows| && rows[k] == r;
      assert u[k] == values;
      SelectOfUnique(u, uid);
    }
  }

  /** Result of an UPDATE statement: the number of rows changed, or the constraint exception it raised. */
  datatype UpdateResult = Updated(count: nat) | ConstraintViolation

  /**
   * The NAT table as the store engine holds it. Every statement runs on its
   * own and leaves the table under the uid constraint.
   */
  class NatTableDb {
    var rows: seq<Row>
    /** The rowid handed to the most recent successful insert. */
    var lastRowId: nat

    ghost predicate Valid()
      reads this
    {
      UniqueUids(rows)
    }

    constructor Empty()
      ensures Valid() && rows == [] && lastRowId == 0
    {
      rows := [];
      lastRowId := 0;
    }

    /**
     * INSERT of one row: its new rowid, always positive; or -1 when the uid is
     * already stored, in which case the table is left as it was.
     */
    method Insert(row: Row) returns (rowId: int)
      requires Valid()
      modifies this
      ensures Valid()
      ensures rows == InsertUnique(old(rows), row)
      ensures if HasUid(old(rows), row.appUid) then rowId == -1 else rowId > 0
    {
      if HasUid(rows, row.appUid) {
        rowId := -1;
      } else {
        UniqueSnoc(rows, row);
        rows := rows + [row];
        lastRowId := lastRowId + 1;
        rowId := lastRowId;
      }
    }

    /** DELETE ... WHERE app_uid = uid: the number of rows it removed. */
    method Delete(uid: int) returns (count: nat)
      requires Valid()
      modifies this
      ensures Valid() && lastRowId == old(lastRowId)
      ensures rows == DeleteWhere(old(rows), uid)
      ensures count == |old(rows)| - |rows|
    {
      count := |SelectWhere(rows, uid)|;
      DeleteKeepsUnique(rows, uid);
      rows := DeleteWhere(rows, uid);
    }

    /**
     * UPDATE ... SET values WHERE app_uid = uid: the number of rows changed;
     * or, when the new contents would break the uid constraint, the constraint
     * exception and no change at all.
     */
    method Update(values: Row, uid: int) returns (res: UpdateResult)
      requires Valid()
      modifies this
      ensures Valid() && lastRowId == old(lastRowId)
      ensures UniqueUids(UpdateWhere(old(rows), uid, values)) ==>
        rows == UpdateWhere(old(rows), uid, values) && res == Updated(|SelectWhere(old(rows), uid)|)
      ensures !UniqueUids(UpdateWhere(old(rows), uid, values)) ==>
        rows == old(rows) && res == ConstraintViolation
    {
      var updated := UpdateWhere(rows, uid, values);
      if UniqueUids(updated) {
        res := Updated(|SelectWhere(rows, uid)|);
        rows := updated;
      } else {
        res := ConstraintViolation;
      }
    }
  }
}
