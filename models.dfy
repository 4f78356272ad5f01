/**
 * The records of the habit tracker (core/models.py): habits, their daily
 * entries, to-do items and notes, with the defaults a new record gets and the
 * constraints the database keeps over them.
 *
 * Dates are whole days and timestamps whole seconds, both as integers.
 * Owners and records are referred to by integer identifiers.
 */
module Models {

  datatype Option<T> = None | Some(value: T)

  datatype Result<T, E> = Ok(value: T) | Err(error: E)

  type Date = int
  type Timestamp = int
  type UserId = nat
  type HabitId = nat
  type ToDoId = nat
  type NoteId = nat

  // Column widths (CharField max_length)
  const MaxHabitName: nat := 100
  const MaxTaskLength: nat := 200
  const MaxNoteTitle: nat := 100
  const MaxNoteHeading: nat := 200

  // A habit runs from its start date to 30 days later, both days included
  const HabitSpanDays: nat := 30

  datatype Habit = Habit(
    user: UserId,
    name: string,
    startDate: Date,
    endDate: Date,
    createdAt: Timestamp,
    isCompleted: bool,
    isDeleted: bool)

  /** One day of one habit. The habit it belongs to is the key the store files it under. */
  datatype HabitEntry = HabitEntry(date: Date, completed: bool)

  /**
   * A habit as a query over the habit table yields it, with its entries
   * ordered by date (habit.habitentry_set.order_by('date')).
   */
  datatype HabitRow = HabitRow(id: HabitId, habit: Habit, entries: seq<HabitEntry>)

  /** The two choices of ToDo.status */
  datatype Status = Pending | Completed

  datatype ToDo = ToDo(
    user: UserId,
    task: string,
    deadline: Timestamp,
    reminder: Timestamp,
    createdAt: Timestamp,
    status: Status)

  datatype Note = Note(
    user: UserId,
    title: string,
    heading: string,
    content: string,
    createdAt: Timestamp)

  /** A habit as created: neither completed nor deleted */
  function NewHabit(user: UserId, name: string, start: Date, end: Date, createdAt: Timestamp): (h: Habit)
    ensures h.user == user && h.name == name && h.startDate == start && h.endDate == end
    ensures !h.isCompleted && !h.isDeleted
  {
    Habit(user, name, start, end, createdAt, false, false)
  }

  /** An entry as created: not completed */
  function NewEntry(date: Date): (e: HabitEntry)
    ensures e.date == date && !e.completed
  {
    HabitEntry(date, false)
  }

  /** A to-do as created: status defaults to pending */
  function NewToDo(user: UserId, task: string, deadline: Timestamp, reminder: Timestamp, createdAt: Timestamp): (t: ToDo)
    ensures t.user == user && t.task == task && t.deadline == deadline && t.reminder == reminder
    ensures t.status == Pending
  {
    ToDo(user, task, deadline, reminder, createdAt, Pending)
  }

  /** The other status: pending and completed swap */
  function Flip(s: Status): (r: Status)
    ensures r != s
  {
    if s == Pending then Completed else Pending
  }

  /** Flipping twice restores the status */
  lemma FlipTwice(s: Status)
    ensures Flip(Flip(s)) == s
  {
  }

  /**
   * The entries of one habit, listed strictly by date. Strict order is how the
   * model keeps unique_together (habit, date): no two rows of a habit share a date.
   */
  predicate DateOrdered(rows: seq<HabitEntry>)
  {
    forall i, j :: 0 <= i < j < |rows| ==> rows[i].date < rows[j].date
  }

  function DatesOf(rows: seq<HabitEntry>): set<Date>
  {
    set e | e in rows :: e.date
  }

  lemma OneEntryPerDate(rows: seq<HabitEntry>, i: nat, j: nat)
    requires DateOrdered(rows)
    requires i < |rows| && j < |rows| && rows[i].date == rows[j].date
    ensures i == j
  {
  }

  predicate HabitFits(h: Habit)
  {
    |h.name| <= MaxHabitName
  }

  predicate ToDoFits(t: ToDo)
  {
    |t.task| <= MaxTaskLength
  }

  predicate NoteFits(n: Note)
  {
    |n.title| <= MaxNoteTitle && |n.heading| <= MaxNoteHeading
  }

  /**
   * The entries created with a habit: one uncompleted entry for each of the n
   * days from start on.
   */
  function FreshEntries(start: Date, n: nat): (rows: seq<HabitEntry>)
    ensures |rows| == n
    ensures forall i :: 0 <= i < n ==> rows[i] == NewEntry(start + i)
  {
    if n == 0 then [] else FreshEntries(start, n - 1) + [NewEntry(start + n - 1)]
  }

  /** Fresh entries are in date order, and they are exactly the uncompleted entries of the n days */
  lemma FreshEntriesMembers(start: Date, n: nat)
    ensures DateOrdered(FreshEntries(start, n))
    ensures forall e :: e in FreshEntries(start, n) <==> !e.completed && start <= e.date < start + n
  {
    var rows := FreshEntries(start, n);
    forall e: HabitEntry | !e.completed && start <= e.date < start + n
      ensures e in rows
    {
      assert rows[e.date - start] == e;
    }
  }
}
