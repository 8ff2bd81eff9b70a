/** A JPA repository (JpaRepository<T, String>) as the sequence of its rows in storage
    order; idOf reads a row's primary key. */
module Repository {
  import opened Wrappers

  /** existsById */
  predicate ExistsById<T>(rows: seq<T>, idOf: T -> string, id: string) {
    exists i :: 0 <= i < |rows| && idOf(rows[i]) == id
  }

  /** The primary key holds: no two rows share an id. */
  ghost predicate UniqueIds<T>(rows: seq<T>, idOf: T -> string) {
    forall i, j :: 0 <= i < |rows| && 0 <= j < |rows| && i != j ==> idOf(rows[i]) != idOf(rows[j])
  }

  /** Position of the first row with that id. */
  function IndexOf<T>(rows: seq<T>, idOf: T -> string, id: string): (k: nat)
    requires ExistsById(rows, idOf, id)
    ensures k < |rows| && idOf(rows[k]) == id
    ensures forall j :: 0 <= j < k ==> idOf(rows[j]) != id
  {
    if idOf(rows[0]) == id then 0
    else
      assert ExistsById(rows[1..], idOf, id) by {
        var i :| 0 <= i < |rows| && idOf(rows[i]) == id;
        assert rows[1..][i - 1] == rows[i];
      }
      1 + IndexOf(rows[1..], idOf, id)
  }

  /** findById */
  function FindById<T>(rows: seq<T>, idOf: T -> string, id: string): (r: Option<T>)
    ensures r.None? <==> !ExistsById(rows, idOf, id)
    ensures r.Some? ==> r.value in rows && idOf(r.value) == id
  {
    if ExistsById(rows, idOf, id) then Some(rows[IndexOf(rows, idOf, id)]) else None
  }

  /** save: replaces the row with the same id, or appends a row with a new id. */
  function Save<T>(rows: seq<T>, idOf: T -> string, row: T): (r: seq<T>)
  {
    if ExistsById(rows, idOf, idOf(row)) then rows[IndexOf(rows, idOf, idOf(row)) := row]
    else rows + [row]
  }

  /** deleteById: removes the row with that id, if any. */
  function DeleteById<T>(rows: seq<T>, idOf: T -> string, id: string): (r: seq<T>)
  {
    if ExistsById(rows, idOf, id) then
      var k := IndexOf(rows, idOf, id);
      rows[..k] + rows[k + 1..]
    else rows
  }

  /** Saving a row whose id is stored overwrites exactly that row. */
  lemma SaveExisting<T>(rows: seq<T>, idOf: T -> string, row: T)
    requires UniqueIds(rows, idOf) && ExistsById(rows, idOf, idOf(row))
    ensures |Save(rows, idOf, row)| == |rows|
    ensures forall j :: 0 <= j < |rows| ==>
      Save(rows, idOf, row)[j] == if idOf(rows[j]) == idOf(row) then row else rows[j]
    ensures UniqueIds(Save(rows, idOf, row), idOf)
  {
    var r := Save(rows, idOf, row);
    var k := IndexOf(rows, idOf, idOf(row));
    forall j | 0 <= j < |rows| ensures idOf(r[j]) == idOf(rows[j]) {
    }
  }

  /** Saving a row with a new id appends it and keeps ids unique. */
  lemma SaveNew<T>(rows: seq<T>, idOf: T -> string, row: T)
    requires UniqueIds(rows, idOf) && !ExistsById(rows, idOf, idOf(row))
    ensures Save(rows, idOf, row) == rows + [row]
    ensures UniqueIds(Save(rows, idOf, row), idOf)
  {
  }

  /** Deleting removes exactly the row with that id and keeps the others in order. */
  lemma DeleteExisting<T>(rows: seq<T>, idOf: T -> string, id: string)
    requires UniqueIds(rows, idOf) && ExistsById(rows, idOf, id)
    ensures |DeleteById(rows, idOf, id)| == |rows| - 1
    ensures !ExistsById(DeleteById(rows, idOf, id), idOf, id)
    ensures forall x :: x in DeleteById(rows, idOf, id) <==> x in rows && idOf(x) != id
    ensures UniqueIds(DeleteById(rows, idOf, id), idOf)
  {
    var k := IndexOf(rows, idOf, id);
    var r := rows[..k] + rows[k + 1..];
    assert r == DeleteById(rows, idOf, id);
    assert forall j :: 0 <= j < |r| ==> r[j] == rows[if j < k then j else j + 1];
    forall x | x in r ensures x in rows && idOf(x) != id {
      var j :| 0 <= j < |r| && r[j] == x;
    }
    forall x | x in rows && idOf(x) != id ensures x in r {
      var i :| 0 <= i < |rows| && rows[i] == x;
      if i < k { assert r[i] == x; } else { assert r[i - 1] == x; }
    }
    forall i, j | 0 <= i < |r| && 0 <= j < |r| && i != j ensures idOf(r[i]) != idOf(r[j]) {
    }
  }

  /** Deleting a row keeps any column unique that was unique before. */
  lemma DeleteKeepsUnique<T>(rows: seq<T>, idOf: T -> string, key: T -> string, id: string)
    requires UniqueIds(rows, key)
    ensures UniqueIds(DeleteById(rows, idOf, id), key)
  {
    if ExistsById(rows, idOf, id) {
      var k := IndexOf(rows, idOf, id);
      var r := rows[..k] + rows[k + 1..];
      RemovedAt(rows, k, r);
      forall i, j | 0 <= i < |r| && 0 <= j < |r| && i != j ensures key(r[i]) != key(r[j]) {
        var i', j' := if i < k then i else i + 1, if j < k then j else j + 1;
        assert r[i] == rows[i'] && r[j] == rows[j'];
      }
    }
  }

  /** Removing position k shifts the later rows down by one. */
  lemma RemovedAt<T>(rows: seq<T>, k: nat, r: seq<T>)
    requires k < |rows| && r == rows[..k] + rows[k + 1..]
    ensures |r| == |rows| - 1
    ensures forall j :: 0 <= j < |r| ==> r[j] == rows[if j < k then j else j + 1]
  {
  }

  /** With key unique, row k differs from value in that column and some row holds
      value exactly when a row other than k holds it. */
  lemma HeldElsewhere<T>(rows: seq<T>, key: T -> string, k: nat, value: string)
    requires k < |rows| && UniqueIds(rows, key)
    ensures (key(rows[k]) != value && ExistsById(rows, key, value)) <==>
      exists j :: 0 <= j < |rows| && j != k && key(rows[j]) == value
  {
    if exists j :: 0 <= j < |rows| && j != k && key(rows[j]) == value {
      var j :| 0 <= j < |rows| && j != k && key(rows[j]) == value;
      assert key(rows[j]) != key(rows[k]);
    }
  }
}
