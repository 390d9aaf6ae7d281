/**
 * The task store: an in-memory table standing for the `tasks` table behind
 * `IStorage`, rows kept in insertion (creation) order.
 */
module Storage {
  import opened Wrappers
  import opened Schema

  /** Ids lie in [1, nextId) and strictly increase along the table, so they are unique. */
  ghost predicate WellFormed(rows: seq<Task>, nextId: int) {
    && nextId >= 1
    && (forall i :: 0 <= i < |rows| ==> 1 <= rows[i].id < nextId)
    && (forall i, j :: 0 <= i < j < |rows| ==> rows[i].id < rows[j].id)
  }

  ghost predicate UniqueIds(rows: seq<Task>) {
    forall i, j :: 0 <= i < |rows| && 0 <= j < |rows| && rows[i].id == rows[j].id ==> i == j
  }

  lemma WellFormedUnique(rows: seq<Task>, nextId: int)
    requires WellFormed(rows, nextId)
    ensures UniqueIds(rows)
  {
  }

  /** The index of the first row with id `id`. */
  function FindIndex(rows: seq<Task>, id: int): (r: Option<nat>)
    ensures r.Some? ==> r.value < |rows| && rows[r.value].id == id
    ensures r.Some? ==> forall j :: 0 <= j < r.value ==> rows[j].id != id
    ensures r.None? ==> forall j :: 0 <= j < |rows| ==> rows[j].id != id
  {
    if rows == [] then None
    else if rows[0].id == id then Some(0)
    else match FindIndex(rows[1..], id)
      case None => None
      case Some(k) => Some(k + 1)
  }

  /** `UPDATE tasks SET completed = true WHERE id = id`. */
  function MarkCompleted(rows: seq<Task>, id: int): (r: seq<Task>)
    ensures |r| == |rows|
    ensures forall i :: 0 <= i < |r| ==> r[i].id == rows[i].id
  {
    if rows == [] then []
    else [if rows[0].id == id then rows[0].(completed := Some(true)) else rows[0]]
         + MarkCompleted(rows[1..], id)
  }

  /** `DELETE FROM tasks WHERE id = id`. */
  function DeleteRows(rows: seq<Task>, id: int): (r: seq<Task>)
    ensures |r| <= |rows|
  {
    if rows == [] then []
    else (if rows[0].id == id then [] else [rows[0]]) + DeleteRows(rows[1..], id)
  }

  /** The update sets `completed` on the rows with that id and touches nothing else. */
  lemma {:induction false} MarkCompletedAt(rows: seq<Task>, id: int, i: nat)
    requires i < |rows|
    ensures |MarkCompleted(rows, id)| == |rows|
    ensures MarkCompleted(rows, id)[i]
         == if rows[i].id == id then rows[i].(completed := Some(true)) else rows[i]
  {
    if i > 0 {
      MarkCompletedAt(rows[1..], id, i - 1);
    } else {
      MarkCompletedLength(rows[1..], id);
    }
  }

  lemma {:induction false} MarkCompletedLength(rows: seq<Task>, id: int)
    ensures |MarkCompleted(rows, id)| == |rows|
  {
    if rows != [] { MarkCompletedLength(rows[1..], id); }
  }

  /** Completing an unknown id leaves the table as it was. */
  lemma {:induction false} MarkCompletedUnknown(rows: seq<Task>, id: int)
    requires forall j :: 0 <= j < |rows| ==> rows[j].id != id
    ensures MarkCompleted(rows, id) == rows
  {
    if rows != [] {
      assert rows[0].id != id;
      MarkCompletedUnknown(rows[1..], id);
    }
  }

  /** Completing twice is completing once. */
  lemma {:induction false} MarkCompletedIdempotent(rows: seq<Task>, id: int)
    ensures MarkCompleted(MarkCompleted(rows, id), id) == MarkCompleted(rows, id)
  {
    if rows != [] {
      MarkCompletedIdempotent(rows[1..], id);
    }
  }

  /** Deleting keeps exactly the rows whose id differs, in their order: it distributes over concatenation. */
  lemma {:induction false} DeleteRowsAppend(a: seq<Task>, b: seq<Task>, id: int)
    ensures DeleteRows(a + b, id) == DeleteRows(a, id) + DeleteRows(b, id)
  {
    if a == [] {
      assert a + b == b;
    } else {
      assert (a + b)[0] == a[0] && (a + b)[1..] == a[1..] + b;
      DeleteRowsAppend(a[1..], b, id);
    }
  }

  /** A row is kept by the delete exactly when it was there and has another id. */
  lemma {:induction false} DeleteRowsMembers(rows: seq<Task>, id: int, t: Task)
    ensures t in DeleteRows(rows, id) <==> t in rows && t.id != id
  {
    if rows != [] {
      DeleteRowsMembers(rows[1..], id, t);
      assert rows == [rows[0]] + rows[1..];
    }
  }

  /** Deleting an unknown id leaves the table as it was. */
  lemma {:induction false} DeleteRowsUnknown(rows: seq<Task>, id: int)
    requires forall j :: 0 <= j < |rows| ==> rows[j].id != id
    ensures DeleteRows(rows, id) == rows
  {
    if rows != [] {
      assert rows[0].id != id;
      DeleteRowsUnknown(rows[1..], id);
    }
  }

  /** A leading row with the deleted id is dropped. */
  lemma DeleteRowsHead(t: Task, rest: seq<Task>, id: int)
    requires t.id == id
    ensures DeleteRows([t] + rest, id) == DeleteRows(rest, id)
  {
    assert ([t] + rest)[0] == t && ([t] + rest)[1..] == rest;
  }

  /** Deleting the id of the one middle row, when no other row has it, leaves the rows around it. */
  lemma DeleteRowsSplit(pre: seq<Task>, x: Task, post: seq<Task>, id: int)
    requires forall j :: 0 <= j < |pre| ==> pre[j].id != id
    requires forall j :: 0 <= j < |post| ==> post[j].id != id
    requires x.id == id
    ensures DeleteRows(pre + [x] + post, id) == pre + post
  {
    DeleteRowsUnknown(pre, id);
    DeleteRowsUnknown(post, id);
    DeleteRowsHead(x, post, id);
    DeleteRowsAppend(pre, [x] + post, id);
    assert pre + [x] + post == pre + ([x] + post);
  }

  /** With unique ids, deleting an existing id removes just that one row, the others keeping their order. */
  lemma DeleteRowsAt(rows: seq<Task>, id: int, k: nat)
    requires UniqueIds(rows) && k < |rows| && rows[k].id == id
    ensures DeleteRows(rows, id) == rows[..k] + rows[k + 1..]
  {
    var pre, x, post := rows[..k], rows[k], rows[k + 1..];
    assert rows == pre + [x] + post;
    forall j | 0 <= j < |pre| ensures pre[j].id != id {
      assert pre[j] == rows[j];
    }
    forall j | 0 <= j < |post| ensures post[j].id != id {
      assert post[j] == rows[k + 1 + j];
    }
    DeleteRowsSplit(pre, x, post, id);
  }

  /**
   * No step turns a completed task back into an open one: every row of
   * `after` whose id names a completed row of `before` is completed.
   */
  ghost predicate NeverReopened(before: seq<Task>, after: seq<Task>) {
    forall i, j ::
      (0 <= i < |before| && 0 <= j < |after| && before[i].id == after[j].id && IsCompleted(before[i]))
      ==> IsCompleted(after[j])
  }

  lemma MarkCompletedNeverReopens(rows: seq<Task>, id: int)
    requires UniqueIds(rows)
    ensures NeverReopened(rows, MarkCompleted(rows, id))
  {
    var after := MarkCompleted(rows, id);
    MarkCompletedLength(rows, id);
    forall i, j | 0 <= i < |rows| && 0 <= j < |after| && rows[i].id == after[j].id && IsCompleted(rows[i])
      ensures IsCompleted(after[j])
    {
      MarkCompletedAt(rows, id, j);
    }
  }

  lemma DeleteRowsNeverReopens(rows: seq<Task>, id: int)
    requires UniqueIds(rows)
    ensures NeverReopened(rows, DeleteRows(rows, id))
  {
    var after := DeleteRows(rows, id);
    forall i, j | 0 <= i < |rows| && 0 <= j < |after| && rows[i].id == after[j].id && IsCompleted(rows[i])
      ensures IsCompleted(after[j])
    {
      DeleteRowsMembers(rows, id, after[j]);
      var k :| 0 <= k < |rows| && rows[k] == after[j];
    }
  }

  /** The in-memory table standing for `DatabaseStorage`. */
  class TaskTable {
    /** The rows, in insertion order (the order of `createdAt`). */
    var rows: seq<Task>
    /** The next value of the `id` serial sequence. */
    var nextId: int

    ghost predicate Valid()
      reads this
    {
      WellFormed(rows, nextId)
    }

    constructor ()
      ensures Valid() && rows == [] && nextId == 1
    {
      rows := [];
      nextId := 1;
    }

    /** `getTasks`: every row, ordered by creation. */
    method GetTasks() returns (ts: seq<Task>)
      ensures ts == rows
    {
      ts := rows;
    }

    /**
     * `createTask`: appends one row with a fresh id, the supplied fields,
     * `completed` false and `createdAt` now, and returns it.
     */
    method CreateTask(t: InsertTask, now: int) returns (task: Task)
      requires Valid()
      modifies this
      ensures Valid()
      ensures task == NewRow(t, old(nextId), now)
      ensures rows == old(rows) + [task] && nextId == old(nextId) + 1
      ensures forall i :: 0 <= i < |old(rows)| ==> old(rows)[i].id != task.id
      ensures NeverReopened(old(rows), rows)
    {
      task := NewRow(t, nextId, now);
      rows := rows + [task];
      nextId := nextId + 1;
    }

    /**
     * `completeTask`: on a known id, sets that row's `completed` to true and
     * returns the updated row; on an unknown id returns `None` and changes nothing.
     */
    method CompleteTask(id: int) returns (r: Option<Task>)
      requires Valid()
      modifies this
      ensures Valid() && nextId == old(nextId)
      ensures rows == MarkCompleted(old(rows), id)
      ensures FindIndex(old(rows), id).None? ==> r.None? && rows == old(rows)
      ensures FindIndex(old(rows), id).Some? ==>
                var k := FindIndex(old(rows), id).value;
                && r == Some(old(rows)[k].(completed := Some(true)))
                && rows == old(rows)[k := r.value]
      ensures NeverReopened(old(rows), rows)
    {
      WellFormedUnique(rows, nextId);
      MarkCompletedNeverReopens(rows, id);
      var before := rows;
      var found := FindIndex(rows, id);
      rows := MarkCompleted(rows, id);
      MarkCompletedLength(before, id);
      forall i | 0 <= i < |rows| ensures rows[i].id == before[i].id {
        MarkCompletedAt(before, id, i);
      }
      match found
      case None =>
        MarkCompletedUnknown(before, id);
        r := None;
      case Some(k) =>
        MarkCompletedAt(before, id, k);
        r := Some(rows[k]);
        forall i | 0 <= i < |rows| ensures rows[i] == before[k := r.value][i] {
          MarkCompletedAt(before, id, i);
        }
    }

    /** `deleteTask`: removes the row with that id, keeping the rest in order; an unknown id is a no-op. */
    method DeleteTask(id: int)
      requires Valid()
      modifies this
      ensures Valid() && nextId == old(nextId)
      ensures rows == DeleteRows(old(rows), id)
      ensures FindIndex(old(rows), id).None? ==> rows == old(rows)
      ensures FindIndex(old(rows), id).Some? ==>
                var k := FindIndex(old(rows), id).value;
                rows == old(rows)[..k] + old(rows)[k + 1..]
      ensures NeverReopened(old(rows), rows)
    {
      WellFormedUnique(rows, nextId);
      DeleteRowsNeverReopens(rows, id);
      var before := rows;
      match FindIndex(rows, id)
      case None => DeleteRowsUnknown(rows, id);
      case Some(k) => DeleteRowsAt(rows, id, k);
      rows := DeleteRows(rows, id);
      assert WellFormed(rows, nextId) by {
        forall i, j | 0 <= i < j < |rows| ensures rows[i].id < rows[j].id {
          DeleteRowsOrder(before, id, nextId, i, j);
        }
        forall i | 0 <= i < |rows| ensures 1 <= rows[i].id < nextId {
          DeleteRowsMembers(before, id, rows[i]);
        }
      }
    }
  }

  /** Deleting keeps the ids increasing. */
  lemma {:induction false} DeleteRowsOrder(rows: seq<Task>, id: int, nextId: int, i: nat, j: nat)
    requires WellFormed(rows, nextId)
    requires i < j < |DeleteRows(rows, id)|
    ensures DeleteRows(rows, id)[i].id < DeleteRows(rows, id)[j].id
  {
    var d, tail := DeleteRows(rows, id), DeleteRows(rows[1..], id);
    WellFormedTail(rows, nextId);
    if rows[0].id == id {
      assert d == tail;
      DeleteRowsOrder(rows[1..], id, nextId, i, j);
    } else {
      assert d == [rows[0]] + tail;
      if i == 0 {
        assert d[j] in rows[1..] by {
          DeleteRowsMembers(rows[1..], id, d[j]);
          assert d[j] == tail[j - 1];
        }
        HeadSmallest(rows, nextId, d[j]);
      } else {
        assert d[i] == tail[i - 1] && d[j] == tail[j - 1];
        DeleteRowsOrder(rows[1..], id, nextId, i - 1, j - 1);
      }
    }
  }

  lemma WellFormedTail(rows: seq<Task>, nextId: int)
    requires WellFormed(rows, nextId) && rows != []
    ensures WellFormed(rows[1..], nextId)
  {
  }

  /** In a well-formed table, every later row has a larger id than the first. */
  lemma HeadSmallest(rows: seq<Task>, nextId: int, t: Task)
    requires WellFormed(rows, nextId) && rows != [] && t in rows[1..]
    ensures rows[0].id < t.id
  {
    var k :| 0 <= k < |rows[1..]| && rows[1..][k] == t;
    assert rows[k + 1] == t;
  }

}
