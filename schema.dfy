/**
 * The `tasks` table and its insert shape.
 *
 * `id` is a serial primary key; `title` is NOT NULL text; `description`,
 * `timeLimit` (whole minutes), `completed` (default false) and `createdAt`
 * (default now, here integer milliseconds) are nullable columns.
 */
module Schema {
  import opened Wrappers

  datatype Task = Task(
    id: int,
    title: string,
    description: Option<string>,
    timeLimit: Option<int>,
    completed: Option<bool>,
    createdAt: Option<int>)

  /**
   * What a caller may supply when inserting a row: `id`, `createdAt` and
   * `completed` are left out, so the store assigns them.
   */
  datatype InsertTask = InsertTask(
    title: string,
    description: Option<string>,
    timeLimit: Option<int>)

  /** The column default of `completed`. */
  const DefaultCompleted := false

  /** The caller-supplied columns of a row. */
  function InsertOf(row: Task): InsertTask {
    InsertTask(row.title, row.description, row.timeLimit)
  }

  /**
   * The row the store writes for `t`, given the id and timestamp it assigns:
   * the caller's columns come back unchanged, the rest are the store's.
   */
  function NewRow(t: InsertTask, id: int, now: int): (r: Task)
    ensures InsertOf(r) == t
    ensures r.id == id && r.createdAt == Some(now)
    ensures r.completed == Some(DefaultCompleted) && !IsCompleted(r)
  {
    Task(id, t.title, t.description, t.timeLimit, Some(DefaultCompleted), Some(now))
  }

  /** Two inserts give the same row exactly when they supply the same columns. */
  lemma NewRowInjective(t1: InsertTask, t2: InsertTask, id: int, now: int)
    ensures NewRow(t1, id, now) == NewRow(t2, id, now) <==> t1 == t2
  {
    if NewRow(t1, id, now) == NewRow(t2, id, now) {
      assert InsertOf(NewRow(t1, id, now)) == InsertOf(NewRow(t2, id, now));
    }
  }

  /** JavaScript truthiness of the nullable `completed` column. */
  predicate IsCompleted(t: Task) {
    t.completed == Some(true)
  }
}
