/**
 * The task store: `TasksServiceImpl` over the tasks table.
 *
 * Every operation is a single statement against the table. The store does
 * not scope rows by owner and the "today" query does not look at
 * `completed`: both are modelled as written.
 */
module Tasks {
  import opened Wrappers
  import opened Table
  import opened Dates

  /** A row of the tasks table. */
  datatype Task = Task(id: int, summary: string, description: string, completed: bool, dueDate: string)

  function TaskId(t: Task): int {
    t.id
  }

  /** `eq(tasksTable.id, id)` */
  function HasId(id: int): Task -> bool {
    (t: Task) => t.id == id
  }

  /** The condition a `delete ... where(eq(tasksTable.id, id))` leaves standing. */
  function HasOtherId(id: int): Task -> bool {
    (t: Task) => t.id != id
  }

  /** `lte(tasksTable.dueDate, today)` */
  function DueBy(today: string): Task -> bool {
    (t: Task) => LexLe(t.dueDate, today)
  }

  /** The calendar day a well-formed due date names, as a day number. */
  function DueDay(t: Task): int
    requires IsFullDate(t.dueDate)
  {
    DayNumber(ParseDate(t.dueDate).value)
  }

  /** `set(task)`: every column takes the value it has in `task`. */
  function SetAll(task: Task): Task -> Task {
    (_: Task) => task
  }

  /** `set({ completed: done })` */
  function SetCompleted(done: bool): Task -> Task {
    (t: Task) => t.(completed := done)
  }

  /** `set({ dueDate: due })` */
  function SetDueDate(due: string): Task -> Task {
    (t: Task) => t.(dueDate := due)
  }

  class TasksService {
    /** The table, in rowid order. */
    var rows: seq<Task>
    /** The id the next insert receives. */
    var nextId: int

    /** Ids are the table's primary key, handed out in increasing order. */
    ghost predicate Valid()
      reads this
    {
      Ascending(rows, TaskId) && KeysBelow(rows, TaskId, nextId)
    }

    constructor ()
      ensures Valid() && rows == [] && nextId == 1
    {
      rows := [];
      nextId := 1;
    }

    /** `getTodaysTasks()`: every row due on or before today, completed or not, in table order. */
    method GetTodaysTasks(now: int) returns (r: seq<Task>)
      requires ClockInRange(now)
      ensures r == Where(rows, DueBy(DateToday(now)))
      ensures forall t :: t in r <==> t in rows && LexLe(t.dueDate, DateToday(now))
    {
      var today := DateToday(now);
      r := Where(rows, DueBy(today));
    }

    /** `create({summary, description})`: inserts an open task due today and returns it. */
    method Create(summary: string, description: string, now: int) returns (t: Task)
      requires Valid() && ClockInRange(now)
      modifies this
      ensures Valid()
      ensures t == Task(old(nextId), summary, description, false, DateToday(now))
      ensures rows == old(rows) + [t] && nextId == old(nextId) + 1
      ensures Head(Where(rows, HasId(t.id))) == Some(t)
    {
      t := Task(nextId, summary, description, false, DateToday(now));
      CreatedRowIsFound(rows, nextId, t);
      rows := rows + [t];
      nextId := nextId + 1;
    }

    /** `update(task)`: the row with `task.id` becomes `task`; returns it, or nothing if no row has that id. */
    method Update(task: Task) returns (r: Option<Task>)
      requires Valid()
      modifies this`rows
      ensures Valid()
      ensures rows == UpdateWhere(old(rows), HasId(task.id), SetAll(task))
      ensures r == Head(Updated(old(rows), HasId(task.id), SetAll(task)))
      ensures r == if exists t :: t in old(rows) && t.id == task.id then Some(task) else None
      ensures r.Some? ==> r.value in rows && r.value.id == task.id
    {
      r := Head(Updated(rows, HasId(task.id), SetAll(task)));
      HeadUpdatedIsInTable(rows, HasId(task.id), SetAll(task));
      UpdateReturns(rows, task);
      AscendingUpdateWhere(rows, TaskId, HasId(task.id), SetAll(task));
      rows := UpdateWhere(rows, HasId(task.id), SetAll(task));
    }

    /** `complete(task)`: marks the row with `task.id` completed; returns it after the change. */
    method Complete(task: Task) returns (r: Option<Task>)
      requires Valid()
      modifies this`rows
      ensures Valid()
      ensures rows == UpdateWhere(old(rows), HasId(task.id), SetCompleted(true))
      ensures r == Head(Updated(old(rows), HasId(task.id), SetCompleted(true)))
      ensures r.Some? ==> r.value in rows && r.value.id == task.id && r.value.completed == true
    {
      r := Head(Updated(rows, HasId(task.id), SetCompleted(true)));
      HeadUpdatedIsInTable(rows, HasId(task.id), SetCompleted(true));
      AscendingUpdateWhere(rows, TaskId, HasId(task.id), SetCompleted(true));
      rows := UpdateWhere(rows, HasId(task.id), SetCompleted(true));
    }

    /** `uncomplete(task)`: marks the row with `task.id` open again; returns it after the change. */
    method Uncomplete(task: Task) returns (r: Option<Task>)
      requires Valid()
      modifies this`rows
      ensures Valid()
      ensures rows == UpdateWhere(old(rows), HasId(task.id), SetCompleted(false))
      ensures r == Head(Updated(old(rows), HasId(task.id), SetCompleted(false)))
      ensures r.Some? ==> r.value in rows && r.value.id == task.id && r.value.completed == false
    {
      r := Head(Updated(rows, HasId(task.id), SetCompleted(false)));
      HeadUpdatedIsInTable(rows, HasId(task.id), SetCompleted(false));
      AscendingUpdateWhere(rows, TaskId, HasId(task.id), SetCompleted(false));
      rows := UpdateWhere(rows, HasId(task.id), SetCompleted(false));
    }

    /** `delete(task)`: removes the row with `task.id`, if there is one. */
    method Delete(task: Task)
      requires Valid()
      modifies this`rows
      ensures Valid()
      ensures rows == Where(old(rows), HasOtherId(task.id))
    {
      AscendingWhere(rows, TaskId, HasOtherId(task.id));
      KeysBelowWhere(rows, TaskId, HasOtherId(task.id), nextId);
      rows := Where(rows, HasOtherId(task.id));
    }

    /**
     * `defer(task, days)`: moves the due date of the row with `task.id` to the
     * passed task's own due date plus `days` days. When the due date cannot be
     * read the source throws before writing, and nothing changes; a moved date
     * outside the four-digit years is modelled as an error too.
     */
    method Defer(task: Task, days: int) returns (r: Result<Option<Task>, DateError>)
      requires Valid()
      modifies this`rows
      ensures Valid()
      ensures DeferredDate(task.dueDate, days).Err? ==>
                rows == old(rows) && r == Err(DeferredDate(task.dueDate, days).error)
      ensures DeferredDate(task.dueDate, days).Ok? ==>
                var due := DeferredDate(task.dueDate, days).value;
                rows == UpdateWhere(old(rows), HasId(task.id), SetDueDate(due))
                && r == Ok(Head(Updated(old(rows), HasId(task.id), SetDueDate(due))))
      ensures r.Ok? && r.value.Some? ==>
                r.value.value in rows && r.value.value.id == task.id
                && Ok(r.value.value.dueDate) == DeferredDate(task.dueDate, days)
    {
      var moved := DeferredDate(task.dueDate, days);
      if moved.Err? {
        r := Err(moved.error);
      } else {
        var due := moved.value;
        r := Ok(Head(Updated(rows, HasId(task.id), SetDueDate(due))));
        HeadUpdatedIsInTable(rows, HasId(task.id), SetDueDate(due));
        AscendingUpdateWhere(rows, TaskId, HasId(task.id), SetDueDate(due));
        rows := UpdateWhere(rows, HasId(task.id), SetDueDate(due));
      }
    }
  }

  // ---------------------------------------------------------------------------
  // What the operations promise
  // ---------------------------------------------------------------------------

  /** A row inserted with a fresh id is what a lookup by that id finds. */
  lemma CreatedRowIsFound(rows: seq<Task>, nextId: int, t: Task)
    requires KeysBelow(rows, TaskId, nextId) && t.id == nextId
    ensures Head(Where(rows + [t], HasId(t.id))) == Some(t)
    ensures Ascending(rows, TaskId) ==> Ascending(rows + [t], TaskId)
    ensures KeysBelow(rows + [t], TaskId, nextId + 1)
  {
    WhereAppend(rows, t, HasId(t.id));
    WhereNone(rows, HasId(t.id));
  }

  /** `update` returns the new row exactly when some row had its id. */
  lemma UpdateReturns(rows: seq<Task>, task: Task)
    ensures Head(Updated(rows, HasId(task.id), SetAll(task)))
            == if exists t :: t in rows && t.id == task.id then Some(task) else None
  {
    var w := Where(rows, HasId(task.id));
    if exists t :: t in rows && t.id == task.id {
      var t :| t in rows && t.id == task.id;
      assert t in w;
    } else {
      forall i | 0 <= i < |rows| ensures !HasId(task.id)(rows[i]) {
        assert rows[i] in rows;
      }
      WhereNone(rows, HasId(task.id));
    }
  }

  /** `update`, `complete`, `uncomplete` and `defer` with an id no row has leave the table as it was. */
  lemma UpdateMissingIdChangesNothing(rows: seq<Task>, id: int, change: Task -> Task)
    requires forall t :: t in rows ==> t.id != id
    ensures UpdateWhere(rows, HasId(id), change) == rows
    ensures Head(Updated(rows, HasId(id), change)) == None
  {
    WhereNone(rows, HasId(id));
    var after := UpdateWhere(rows, HasId(id), change);
    forall i | 0 <= i < |rows| ensures after[i] == rows[i] {
      assert rows[i] in rows;
    }
  }

  /**
   * "Due today" on the calendar: when every stored due date is a well-formed
   * full-date, the text comparison the query makes selects exactly the rows
   * whose due day is not after the UTC day of `now`.
   */
  lemma TodaysTasksByCalendar(rows: seq<Task>, now: int)
    requires ClockInRange(now)
    requires forall t :: t in rows ==> IsFullDate(t.dueDate)
    ensures forall t :: t in Where(rows, DueBy(DateToday(now))) <==>
              t in rows && DueDay(t) <= FromEpochMs(now).day
  {
    forall t
      ensures t in Where(rows, DueBy(DateToday(now))) <==>
              t in rows && DueDay(t) <= FromEpochMs(now).day
    {
      if t in rows {
        DueByCalendar(t, now);
      }
    }
  }

  /** One row of the "today" query, compared on the calendar. */
  lemma DueByCalendar(t: Task, now: int)
    requires ClockInRange(now) && IsFullDate(t.dueDate)
    ensures DueBy(DateToday(now))(t) <==>
            DueDay(t) <= FromEpochMs(now).day
  {
    var today := DateToday(now);
    DateTodayIsUtcDay(now);
    FullDateTextOrder(t.dueDate, today);
  }

  /** `complete` changes only the `completed` column of the row with that id. */
  lemma CompleteTouchesOnlyCompleted(rows: seq<Task>, id: int, done: bool)
    ensures var after := UpdateWhere(rows, HasId(id), SetCompleted(done));
      |after| == |rows| &&
      forall i :: 0 <= i < |rows| ==>
        after[i].completed == (if rows[i].id == id then done else rows[i].completed)
        && after[i].(completed := rows[i].completed) == rows[i]
  {
  }

  /** Completing twice is completing once. */
  lemma CompleteIdempotent(rows: seq<Task>, id: int)
    ensures var once := UpdateWhere(rows, HasId(id), SetCompleted(true));
      UpdateWhere(once, HasId(id), SetCompleted(true)) == once
  {
    var once := UpdateWhere(rows, HasId(id), SetCompleted(true));
    var twice := UpdateWhere(once, HasId(id), SetCompleted(true));
    assert |twice| == |once|;
    forall i | 0 <= i < |once| ensures twice[i] == once[i] {
    }
  }

  /** Uncompleting after completing restores a row that was open. */
  lemma UncompleteUndoesComplete(rows: seq<Task>, id: int)
    requires forall t :: t in rows && t.id == id ==> !t.completed
    ensures UpdateWhere(UpdateWhere(rows, HasId(id), SetCompleted(true)), HasId(id), SetCompleted(false)) == rows
  {
    var once := UpdateWhere(rows, HasId(id), SetCompleted(true));
    var back := UpdateWhere(once, HasId(id), SetCompleted(false));
    forall i | 0 <= i < |rows| ensures back[i] == rows[i] {
      assert rows[i] in rows;
    }
  }

  /** `delete` removes exactly one row when the id is present, and none when it is missing. */
  lemma {:induction false} DeleteRemovesOne(rows: seq<Task>, id: int)
    requires Ascending(rows, TaskId)
    ensures (exists t :: t in rows && t.id == id) ==> |Where(rows, HasOtherId(id))| == |rows| - 1
    ensures (forall t :: t in rows ==> t.id != id) ==> Where(rows, HasOtherId(id)) == rows
  {
    if rows != [] {
      var rest := rows[1..];
      AscendingTail(rows, TaskId);
      DeleteRemovesOne(rest, id);
      assert Where(rows, HasOtherId(id))
             == (if rows[0].id != id then [rows[0]] else []) + Where(rest, HasOtherId(id));
      if rows[0].id == id {
        forall i | 0 <= i < |rest| ensures HasOtherId(id)(rest[i]) {
          assert rest[i] == rows[i + 1];
        }
        WhereAll(rest, HasOtherId(id));
      } else {
        assert forall t :: t in rows && t.id == id ==> t in rest;
        assert rows == [rows[0]] + rest;
      }
    }
  }

  /** A task created today is listed by the "today" query on the same day. */
  lemma CreatedTaskIsDueToday(rows: seq<Task>, t: Task, now: int)
    requires ClockInRange(now) && t.dueDate == DateToday(now)
    ensures t in Where(rows + [t], DueBy(DateToday(now)))
  {
    LexLeReflexive(t.dueDate);
  }

  /**
   * A task due today and deferred by a day drops out of today's list, and is
   * listed by the "today" query at exactly the clock readings whose UTC day
   * is on or after the day after.
   */
  lemma DeferredTaskLeavesToday(t: Task, today: string)
    requires t.dueDate == today && IsFullDate(today)
    requires DeferredDate(today, 1).Ok?
    ensures var moved := SetDueDate(DeferredDate(today, 1).value)(t);
      !DueBy(today)(moved)
      && forall now :: ClockInRange(now) ==>
           (DueBy(DateToday(now))(moved) <==> DueDay(t) + 1 <= FromEpochMs(now).day)
  {
    DeferredDateIsAddDays(today, 1);
    AddDaysMovesLater(today, 1);
    AddDaysIsFullDate(today, 1);
    var moved := SetDueDate(DeferredDate(today, 1).value)(t);
    assert DueDay(moved) == DueDay(t) + 1;
    forall now | ClockInRange(now)
      ensures DueBy(DateToday(now))(moved) <==> DueDay(t) + 1 <= FromEpochMs(now).day
    {
      DueByCalendar(moved, now);
    }
  }
}
