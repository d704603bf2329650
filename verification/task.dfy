/** The task record of the desktop task manager, together with the option,
    result and error shapes that the store, the service and the view share.

    Timestamps are whole numbers on one time line: clocks and date parsing
    are not modelled here but passed in as parameters where they are used. */
module Models {

  type Time = int

  datatype Option<+T> = None | Some(value: T)

  /** The failures the modelled core can report. */
  datatype Error =
    | NotFound      // a lookup by id found no row
    | DuplicateKey  // an insert used an id that is already stored
    | InvalidDate   // the due-date text was rejected by the date parser
    | Database      // any other storage failure, supplied from outside the model

  datatype Result<+T> = Ok(value: T) | Err(error: Error)

  /** One item of work. `id` is the primary key (a Go `uint`, so never
      negative); `dueDate` is absent when the task has no deadline. */
  datatype Task = Task(
    id: nat,
    title: string,
    completed: bool,
    createdAt: Time,
    updatedAt: Time,
    dueDate: Option<Time>,
    priority: int)

  /** A record before the store has seen it: every field holds its Go zero
      value, which is also its column default (`completed` false, `priority`
      0, no due date), and the id 0 means "not yet assigned". */
  const Blank: Task := Task(0, "", false, 0, 0, None, 0)

  /** The ids present in a sequence of rows. */
  function Ids(rows: seq<Task>): set<nat> {
    set t | t in rows :: t.id
  }

  /** The primary-key constraint: no two rows share an id. */
  predicate DistinctIds(rows: seq<Task>) {
    forall i, j :: 0 <= i < j < |rows| ==> rows[i].id != rows[j].id
  }

  /** Two records agree on everything a caller chooses: title, completion,
      priority and due date (not the id, not the timestamps). */
  predicate SameContent(a: Task, b: Task) {
    a.title == b.title && a.completed == b.completed
    && a.priority == b.priority && a.dueDate == b.dueDate
  }
}
