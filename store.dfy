/** The `tasks` table the pages read and write, as a sequence of rows in
    insertion order. The database itself (connection, SQL engine) is not
    modelled; the statements the pages issue are. */
module TaskStore {
  import opened Wrappers

  /** One row of `tasks`. A NULL due date is `None`; the timestamps are the
      strings the driver returns. */
  datatype Task = Task(
    id: nat,
    title: string,
    description: string,
    priority: string,
    status: string,
    dueDate: Option<string>,
    createdAt: string,
    updatedAt: string)

  /** Ids strictly increase along the table, so no two rows share one. */
  predicate IdsIncreasing(rows: seq<Task>) {
    forall i, j :: 0 <= i < j < |rows| ==> rows[i].id < rows[j].id
  }

  /** `SELECT * FROM tasks WHERE id = ?`: the row with that id, if any. */
  function FindById(rows: seq<Task>, id: int): (found: Option<Task>)
    ensures found.Some? ==> found.value in rows && found.value.id == id
    ensures found.None? <==> forall t :: t in rows ==> t.id != id
  {
    if rows == [] then None
    else if rows[0].id == id then Some(rows[0])
    else FindById(rows[1..], id)
  }

  class TaskTable {
    var rows: seq<Task>
    /** The next AUTO_INCREMENT value. */
    var nextId: nat

    ghost predicate Valid()
      reads this
    {
      && nextId >= 1
      && IdsIncreasing(rows)
      && forall i :: 0 <= i < |rows| ==> 1 <= rows[i].id < nextId
    }

    constructor ()
      ensures Valid() && rows == [] && nextId == 1
    {
      rows := [];
      nextId := 1;
    }

    /** `INSERT INTO tasks (...) VALUES (?, ?, ?, ?, ?, CURRENT_TIMESTAMP, CURRENT_TIMESTAMP)`:
        appends one row under the next id, stamped `now` on both timestamps. */
    method Insert(title: string, description: string, priority: string, dueDate: Option<string>, status: string, now: string)
      returns (id: nat)
      requires Valid()
      modifies this
      ensures Valid()
      ensures id == old(nextId) && nextId == old(nextId) + 1
      ensures rows == old(rows) + [Task(id, title, description, priority, status, dueDate, now, now)]
    {
      id := nextId;
      rows := rows + [Task(id, title, description, priority, status, dueDate, now, now)];
      nextId := nextId + 1;
    }
  }
}
