/** The `attendance` table and the effect of the INSERT, UPDATE and DELETE statements on it. */
module Table {

  /** The default of the classId column, and the value every insert stores. */
  const DefaultClassId: string := "CLASS001"

  /** One row of `attendance(id, studentId, timestamp, classId)`. */
  datatype Record = Record(id: int, studentId: string, timestamp: string, classId: string)

  /** Ids strictly increase along the table's order, so no two rows share an id. */
  predicate IdsIncreasing(rows: seq<Record>) {
    forall i, j :: 0 <= i < j < |rows| ==> rows[i].id < rows[j].id
  }

  /** Past the first row, ids are still increasing and all greater than the first row's id. */
  lemma TailIds(rows: seq<Record>)
    requires IdsIncreasing(rows) && rows != []
    ensures IdsIncreasing(rows[1..])
    ensures forall x :: x in rows[1..] ==> rows[0].id < x.id
  {
    var tail := rows[1..];
    forall i, j | 0 <= i < j < |tail| ensures tail[i].id < tail[j].id {
      assert tail[i] == rows[i + 1] && tail[j] == rows[j + 1];
    }
    forall x | x in tail ensures rows[0].id < x.id {
      var j :| 0 <= j < |tail| && tail[j] == x;
      assert rows[j + 1] == x;
    }
  }

  /** Putting a row in front of rows with larger ids keeps ids increasing. */
  lemma ConsIds(row: Record, rows: seq<Record>)
    requires IdsIncreasing(rows)
    requires forall x :: x in rows ==> row.id < x.id
    ensures IdsIncreasing([row] + rows)
  {
    var r := [row] + rows;
    forall i, j | 0 <= i < j < |r| ensures r[i].id < r[j].id {
      assert r[j] == rows[j - 1];
      if i > 0 { assert r[i] == rows[i - 1]; }
    }
  }

  /** The rows after `UPDATE attendance SET studentId = ?, timestamp = ?, classId = ? WHERE id = ?`:
      every row with the id gets all three fields overwritten, every other row is kept as it was. */
  function WithUpdate(rows: seq<Record>, id: int, studentId: string, timestamp: string, classId: string)
    : (r: seq<Record>)
    ensures |r| == |rows|
    ensures forall i :: 0 <= i < |rows| ==>
      r[i] == if rows[i].id == id then Record(id, studentId, timestamp, classId) else rows[i]
    ensures forall i :: 0 <= i < |rows| ==> r[i].id == rows[i].id
  {
    if rows == [] then []
    else
      var head := if rows[0].id == id then Record(id, studentId, timestamp, classId) else rows[0];
      [head] + WithUpdate(rows[1..], id, studentId, timestamp, classId)
  }

  /** An update whose id matches no row leaves the table as it was. */
  lemma {:induction false} UpdateAbsentId(rows: seq<Record>, id: int, studentId: string, timestamp: string, classId: string)
    requires forall x :: x in rows ==> x.id != id
    ensures WithUpdate(rows, id, studentId, timestamp, classId) == rows
  {
    var r := WithUpdate(rows, id, studentId, timestamp, classId);
    assert forall i :: 0 <= i < |rows| ==> r[i] == rows[i] by {
      forall i | 0 <= i < |rows| ensures r[i] == rows[i] {
        assert rows[i] in rows;
      }
    }
  }

  /** The rows after `DELETE FROM attendance WHERE id = ?`: every row with the id is dropped, the
      others are kept in their order. */
  function WithoutId(rows: seq<Record>, id: int): (r: seq<Record>)
    ensures |r| <= |rows|
  {
    if rows == [] then []
    else if rows[0].id == id then WithoutId(rows[1..], id)
    else [rows[0]] + WithoutId(rows[1..], id)
  }

  /** A row survives a delete iff it was in the table and its id differs. */
  lemma {:induction false} WithoutIdMembers(rows: seq<Record>, id: int)
    ensures forall x :: x in WithoutId(rows, id) <==> x in rows && x.id != id
    decreases |rows|
  {
    if rows != [] {
      WithoutIdMembers(rows[1..], id);
      assert rows == [rows[0]] + rows[1..];
    }
  }

  /** Deleting keeps the remaining ids increasing. */
  lemma {:induction false} DeleteKeepsIdsIncreasing(rows: seq<Record>, id: int)
    requires IdsIncreasing(rows)
    ensures IdsIncreasing(WithoutId(rows, id))
    decreases |rows|
  {
    if rows != [] {
      TailIds(rows);
      DeleteKeepsIdsIncreasing(rows[1..], id);
      if rows[0].id != id {
        WithoutIdMembers(rows[1..], id);
        ConsIds(rows[0], WithoutId(rows[1..], id));
      }
    }
  }

  /** A delete whose id matches no row leaves the table as it was. */
  lemma {:induction false} DeleteAbsentId(rows: seq<Record>, id: int)
    requires forall x :: x in rows ==> x.id != id
    ensures WithoutId(rows, id) == rows
  {
    if rows != [] {
      var tail := rows[1..];
      forall x | x in tail ensures x.id != id {
        assert x in rows;
      }
      DeleteAbsentId(tail, id);
      assert rows[0].id != id by { assert rows[0] in rows; }
      assert rows == [rows[0]] + tail;
    }
  }

  /** Deleting from a concatenation deletes from each part. */
  lemma {:induction false} WithoutIdAppend(a: seq<Record>, b: seq<Record>, id: int)
    ensures WithoutId(a + b, id) == WithoutId(a, id) + WithoutId(b, id)
    decreases |a|
  {
    if a == [] {
      assert a + b == b;
    } else {
      assert (a + b)[0] == a[0] && (a + b)[1..] == a[1..] + b;
      WithoutIdAppend(a[1..], b, id);
    }
  }

  /** With unique ids, no row before or after position k has the id of row k. */
  lemma OtherIds(rows: seq<Record>, k: int)
    requires IdsIncreasing(rows)
    requires 0 <= k < |rows|
    ensures forall x :: x in rows[..k] ==> x.id != rows[k].id
    ensures forall x :: x in rows[k + 1..] ==> x.id != rows[k].id
  {
    forall x | x in rows[..k] ensures x.id != rows[k].id {
      var j :| 0 <= j < k && rows[..k][j] == x;
      assert rows[j] == x;
    }
    forall x | x in rows[k + 1..] ensures x.id != rows[k].id {
      var j :| 0 <= j < |rows| - k - 1 && rows[k + 1..][j] == x;
      assert rows[k + 1 + j] == x;
    }
  }

  /** Deleting an id that occurs only at one known place removes just that row. */
  lemma DeleteSplit(before: seq<Record>, row: Record, after: seq<Record>)
    requires forall x :: x in before ==> x.id != row.id
    requires forall x :: x in after ==> x.id != row.id
    ensures WithoutId(before + [row] + after, row.id) == before + after
  {
    DeleteAbsentId(before, row.id);
    DeleteAbsentId(after, row.id);
    WithoutIdAppend(before, [row] + after, row.id);
    WithoutIdAppend([row], after, row.id);
    assert before + [row] + after == before + ([row] + after);
  }

  /** In a table whose ids are unique, deleting the id of the row at position k removes exactly
      that row and keeps the others in their order. */
  lemma DeleteExistingId(rows: seq<Record>, k: int)
    requires IdsIncreasing(rows)
    requires 0 <= k < |rows|
    ensures WithoutId(rows, rows[k].id) == rows[..k] + rows[k + 1..]
  {
    var before, after := rows[..k], rows[k + 1..];
    assert rows == before + [rows[k]] + after;
    assert (forall x :: x in before ==> x.id != rows[k].id)
        && (forall x :: x in after ==> x.id != rows[k].id) by {
      OtherIds(rows, k);
    }
    DeleteSplit(before, rows[k], after);
  }

  /** The `attendance` table: its rows in storage order and the next AUTOINCREMENT id. */
  class AttendanceTable {
    var rows: seq<Record>
    var nextId: int

    /** Every id was issued before `nextId`, and ids strictly increase along the rows. */
    ghost predicate Valid()
      reads this
    {
      && 1 <= nextId
      && IdsIncreasing(rows)
      && forall i :: 0 <= i < |rows| ==> 1 <= rows[i].id < nextId
    }

    /** `CREATE TABLE IF NOT EXISTS attendance (...)` on a fresh database: an empty table whose
        first AUTOINCREMENT id is 1. */
    constructor ()
      ensures Valid()
      ensures rows == [] && nextId == 1
    {
      rows := [];
      nextId := 1;
    }

    /** `INSERT INTO attendance (studentId, timestamp, classId) VALUES (?, ?, ?)`: appends one row
        under a fresh id greater than every id issued before. */
    method Insert(studentId: string, timestamp: string, classId: string) returns (id: int)
      requires Valid()
      modifies this
      ensures Valid()
      ensures id == old(nextId) && nextId == old(nextId) + 1
      ensures forall x :: x in old(rows) ==> x.id < id
      ensures rows == old(rows) + [Record(id, studentId, timestamp, classId)]
    {
      id := nextId;
      rows := rows + [Record(id, studentId, timestamp, classId)];
      nextId := nextId + 1;
    }

    /** `UPDATE attendance SET studentId = ?, timestamp = ?, classId = ? WHERE id = ?`. */
    method Update(id: int, studentId: string, timestamp: string, classId: string)
      requires Valid()
      modifies this
      ensures Valid()
      ensures rows == WithUpdate(old(rows), id, studentId, timestamp, classId)
      ensures nextId == old(nextId)
    {
      rows := WithUpdate(rows, id, studentId, timestamp, classId);
    }

    /** `DELETE FROM attendance WHERE id = ?`. */
    method Delete(id: int)
      requires Valid()
      modifies this
      ensures Valid()
      ensures rows == WithoutId(old(rows), id)
      ensures nextId == old(nextId)
    {
      DeleteKeepsIdsIncreasing(rows, id);
      WithoutIdMembers(rows, id);
      rows := WithoutId(rows, id);
    }
  }
}
