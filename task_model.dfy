/**
 * The task model as the prioritisation and classification engine reads it.
 *
 * A task is identified by the page it lives on and its id on that page; it
 * carries a snapshot of its schedule status, the keys of the tasks that must be
 * done before it ("do-before" lookups), and the per-user assignments with their
 * "after" delays. Everything here is an immutable value: the engine never writes
 * back into the task model.
 */
module TaskModel {

  datatype Option<T> = None | Some(value: T)

  datatype Result<T, E> = Ok(value: T) | Err(error: E)

  /** A reference to a page: the book it is in and its path within that book. */
  datatype PageRef = PageRef(book: string, path: string)

  /** The composite identity of a task: (page reference, task id). */
  datatype TaskKey = TaskKey(pageRef: PageRef, taskId: string)

  /**
   * Snapshot of a task's schedule state. The three flags are read independently;
   * a task that is none of completed, ready or future is "blocked".
   * The optional date is a timestamp in milliseconds.
   */
  datatype StatusResult = StatusResult(
    completedSchedule: bool,
    readySchedule: bool,
    futureSchedule: bool,
    date: Option<int>)

  /** The "after" delay of an assignment: a count of some calendar unit. */
  datatype After = After(count: int, unit: nat)

  /** A recurring-schedule descriptor, kept as its textual rule. */
  datatype Recurring = Recurring(rule: string)

  type User = string

  datatype Task = Task(
    key: TaskKey,
    status: StatusResult,
    doBefores: seq<TaskKey>,
    assignedTo: map<User, After>,
    recurring: Option<Recurring>,
    on: Option<int>,
    relative: bool)

  /**
   * Priorities, ordered from lowest to highest:
   * FUTURE, NO_PRIORITY, LOW, MEDIUM, HIGH, CRITICAL (= MAX_PRIORITY).
   */
  newtype Priority = p: int | 0 <= p < 6

  const Future: Priority := 0
  const MaxPriority: Priority := 5

  /** The fatal internal-consistency violations of the prioritisation engine. */
  datatype Fatal = DuplicateTask(key: TaskKey) | TaskNotFound(lookup: TaskKey)

  /** A task whose status is not completed, not ready and not future. */
  predicate Blocked(s: StatusResult) {
    !s.completedSchedule && !s.readySchedule && !s.futureSchedule
  }

  /** True when no two tasks of `ts` share a (page, id) key. */
  ghost predicate UniqueKeys(ts: seq<Task>) {
    forall i, j :: 0 <= i < j < |ts| ==> ts[i].key != ts[j].key
  }
}
