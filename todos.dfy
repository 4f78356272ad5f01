/**
 * The to-do views of core/views.py: `to_do` (admitting a new to-do and
 * scheduling its reminder), `update_todo_status` and `delete_todo`.
 *
 * The two text fields holding the deadline and the reminder arrive already
 * parsed: blank, not in the expected format, or a timestamp in seconds. The
 * view reads the clock twice, once for the admission rule and once for the
 * reminder's delay, and the store stamps the new to-do with the time of its
 * save; all three are parameters, as is whether the task queue accepts the
 * reminder run.
 */
module ToDoViews {
  import opened Models
  import opened Store
  import opened Tasks

  /** A date-and-time field of the form, after parsing */
  datatype TimeField = Blank | Malformed | At(t: Timestamp)

  /** Why a to-do was not admitted */
  datatype ToDoError = FieldsRequired | InvalidDateFormat | InPast | Unexpected

  datatype Times = Times(deadline: Timestamp, reminder: Timestamp)

  /**
   * The earliest admissible time: the clock truncated to the minute, less one
   * minute. It is the one whole minute in the window (now - 120, now - 60].
   */
  function Cutoff(now: Timestamp): (c: Timestamp)
    ensures c % 60 == 0
    ensures now - 120 < c <= now - 60
  {
    now - now % 60 - 60
  }

  /** Only one whole minute lies in that window */
  lemma CutoffUnique(now: Timestamp, c: Timestamp)
    requires c % 60 == 0 && now - 120 < c <= now - 60
    ensures c == Cutoff(now)
  {
    var d := Cutoff(now);
    assert c == (c / 60) * 60 && d == (d / 60) * 60;
    assert -60 < c - d < 60;
    assert -60 < (c / 60 - d / 60) * 60 < 60;
  }

  /** A later clock never moves the cutoff back */
  lemma CutoffMonotonic(now: Timestamp, later: Timestamp)
    requires now <= later
    ensures Cutoff(now) <= Cutoff(later)
  {
    var c, d := Cutoff(now), Cutoff(later);
    assert c == (c / 60) * 60 && d == (d / 60) * 60;
  }

  /**
   * The checks of `to_do`, in their order: all three fields present, both
   * times well formed, neither earlier than the cutoff.
   */
  function Admission(task: string, deadline: TimeField, reminder: TimeField, now: Timestamp): (r: Result<Times, ToDoError>)
    ensures r == Err(FieldsRequired) <==> task == [] || deadline == Blank || reminder == Blank
    ensures r == Err(InvalidDateFormat) <==>
      task != [] && deadline != Blank && reminder != Blank && (deadline == Malformed || reminder == Malformed)
    ensures r.Ok? <==>
      task != [] && deadline.At? && reminder.At? && deadline.t >= Cutoff(now) && reminder.t >= Cutoff(now)
    ensures r.Ok? ==> r.value == Times(deadline.t, reminder.t)
    ensures r != Err(Unexpected)
  {
    if task == [] || deadline == Blank || reminder == Blank then Err(FieldsRequired)
    else if deadline == Malformed || reminder == Malformed then Err(InvalidDateFormat)
    else if deadline.t < Cutoff(now) || reminder.t < Cutoff(now) then Err(InPast)
    else Ok(Times(deadline.t, reminder.t))
  }

  /** Times no more than a minute old are always admitted */
  lemma LastMinuteAdmitted(task: string, deadline: Timestamp, reminder: Timestamp, now: Timestamp)
    requires task != []
    requires deadline >= now - 60 && reminder >= now - 60
    ensures Admission(task, At(deadline), At(reminder), now) == Ok(Times(deadline, reminder))
  {
  }

  /** A deadline or reminder two minutes old or more is always refused */
  lemma TwoMinutesRejected(task: string, deadline: Timestamp, reminder: Timestamp, now: Timestamp)
    requires task != []
    requires deadline <= now - 120 || reminder <= now - 120
    ensures Admission(task, At(deadline), At(reminder), now) == Err(InPast)
  {
  }

  /** What is admitted now was admitted at any earlier reading of the clock */
  lemma AdmittedEarlier(task: string, deadline: TimeField, reminder: TimeField, earlier: Timestamp, now: Timestamp)
    requires earlier <= now
    requires Admission(task, deadline, reminder, now).Ok?
    ensures Admission(task, deadline, reminder, earlier) == Admission(task, deadline, reminder, now)
  {
    CutoffMonotonic(earlier, now);
  }

  /**
   * The reminder's delay from the clock: it fires at the reminder, or at once
   * when the reminder is not in the future.
   */
  function Eta(reminder: Timestamp, clock: Timestamp): (e: nat)
    ensures e == 0 <==> reminder <= clock
    ensures e > 0 ==> clock + e == reminder
  {
    if reminder > clock then reminder - clock else 0
  }

  /** A reminder half a minute in the past is admitted and fires at once */
  lemma RecentReminderFiresAtOnce(task: string, now: Timestamp)
    requires task != []
    ensures Admission(task, At(now + 3600), At(now - 30), now) == Ok(Times(now + 3600, now - 30))
    ensures Eta(now - 30, now) == 0
  {
  }

  datatype ToDoResponse = Listing | Rejected(error: ToDoError) | Created(id: ToDoId, eta: nat)

  /** An AJAX POST that passes admission and fits the task column: the to-do is saved */
  predicate Stores(ajaxPost: bool, task: string, deadline: TimeField, reminder: TimeField, now: Timestamp)
  {
    ajaxPost && Admission(task, deadline, reminder, now).Ok? && |task| <= MaxTaskLength
  }

  /**
   * `to_do`. Anything but an AJAX POST shows the list and changes nothing.
   * An AJAX POST that fails admission is rejected with its reason. An
   * admitted one is saved as a pending to-do owned by the user, stamped with
   * the time of the save, under the next id; a task too long for its column
   * fails at the store and is reported as an unexpected error. Once saved,
   * a reminder run is handed to the task queue with delay Eta. When the
   * queue refuses it, the reply is the unexpected error, but the to-do stays
   * saved without a reminder.
   */
  method PostToDo(db: Store, queue: JobQueue, user: UserId, ajaxPost: bool,
                  task: string, deadline: TimeField, reminder: TimeField,
                  now: Timestamp, savedAt: Timestamp, clock: Timestamp, scheduleOk: bool)
    returns (resp: ToDoResponse)
    requires db.Valid() && user in db.emails
    modifies db, queue
    ensures db.Valid()
    ensures !ajaxPost ==> resp == Listing
    ensures ajaxPost && Admission(task, deadline, reminder, now).Err? ==>
      resp == Rejected(Admission(task, deadline, reminder, now).error)
    ensures resp == Rejected(Unexpected) <==>
      ajaxPost && Admission(task, deadline, reminder, now).Ok? && (|task| > MaxTaskLength || !scheduleOk)
    ensures resp.Created? <==> Stores(ajaxPost, task, deadline, reminder, now) && scheduleOk
    ensures Stores(ajaxPost, task, deadline, reminder, now) ==> old(db.nextToDoId) !in old(db.todos)
    ensures db.todos == if Stores(ajaxPost, task, deadline, reminder, now)
                        then old(db.todos)[old(db.nextToDoId) := NewToDo(user, task, deadline.t, reminder.t, savedAt)]
                        else old(db.todos)
    ensures resp.Created? ==> resp.id == old(db.nextToDoId) && resp.eta == Eta(reminder.t, clock)
    ensures resp.Created? ==> clock + resp.eta == if reminder.t > clock then reminder.t else clock
    ensures queue.jobs == if resp.Created? then old(queue.jobs) + [Job(resp.id, resp.eta)] else old(queue.jobs)
    ensures db.emails == old(db.emails) && db.habits == old(db.habits)
    ensures db.entries == old(db.entries) && db.notes == old(db.notes)
    ensures db.nextHabitId == old(db.nextHabitId) && db.nextNoteId == old(db.nextNoteId)
  {
    if !ajaxPost {
      return Listing;
    }
    var admitted := Admission(task, deadline, reminder, now);
    if admitted.Err? {
      return Rejected(admitted.error);
    }
    var times := admitted.value;
    var id := db.CreateToDo(NewToDo(user, task, times.deadline, times.reminder, savedAt));
    if id.None? {
      return Rejected(Unexpected);
    }
    var eta := Eta(times.reminder, clock);
    if !scheduleOk {
      return Rejected(Unexpected);
    }
    queue.Schedule(Job(id.value, eta));
    resp := Created(id.value, eta);
  }

  /**
   * How the task queue takes the delay as `to_do` passes it: as the `eta`
   * keyword, which the queue expects to be a point in time. The integer 0
   * (a reminder not in the future) goes through; any positive number of
   * seconds has no ISO form and raises.
   */
  predicate QueueAcceptsEtaKeyword(eta: nat)
  {
    eta == 0
  }

  /**
   * `to_do` as written, with the delay passed as `eta`: every to-do whose
   * reminder lies in the future is saved, gets no reminder, and the user is
   * told an unexpected error occurred; only a reminder not in the future is
   * queued, to run at once. Every other request behaves as in PostToDo.
   */
  method PostToDoAsWritten(db: Store, queue: JobQueue, user: UserId, ajaxPost: bool,
                           task: string, deadline: TimeField, reminder: TimeField,
                           now: Timestamp, savedAt: Timestamp, clock: Timestamp)
    returns (resp: ToDoResponse)
    requires db.Valid() && user in db.emails
    modifies db, queue
    ensures db.Valid()
    ensures !ajaxPost ==> resp == Listing
    ensures ajaxPost && Admission(task, deadline, reminder, now).Err? ==>
      resp == Rejected(Admission(task, deadline, reminder, now).error)
    ensures resp == Rejected(Unexpected) <==>
      ajaxPost && Admission(task, deadline, reminder, now).Ok? && (|task| > MaxTaskLength || reminder.t > clock)
    ensures resp.Created? <==> Stores(ajaxPost, task, deadline, reminder, now) && reminder.t <= clock
    ensures db.todos == if Stores(ajaxPost, task, deadline, reminder, now)
                        then old(db.todos)[old(db.nextToDoId) := NewToDo(user, task, deadline.t, reminder.t, savedAt)]
                        else old(db.todos)
    ensures resp.Created? ==> resp == Created(old(db.nextToDoId), 0)
    ensures queue.jobs == if resp.Created? then old(queue.jobs) + [Job(old(db.nextToDoId), 0)] else old(queue.jobs)
    ensures db.emails == old(db.emails) && db.habits == old(db.habits)
    ensures db.entries == old(db.entries) && db.notes == old(db.notes)
    ensures db.nextHabitId == old(db.nextHabitId) && db.nextNoteId == old(db.nextNoteId)
  {
    var accepted := if reminder.At? then QueueAcceptsEtaKeyword(Eta(reminder.t, clock)) else true;
    resp := PostToDo(db, queue, user, ajaxPost, task, deadline, reminder, now, savedAt, clock, accepted);
  }

  datatype StatusResponse = InvalidRequest | NoSuchToDo | Toggled(status: Status)

  /**
   * `update_todo_status`: on an AJAX POST the user's to-do swaps between
   * pending and completed, and nothing else about it changes. Anything else
   * is an invalid request; a to-do that is not the user's is not found.
   */
  method UpdateToDoStatus(db: Store, user: UserId, ajaxPost: bool, id: ToDoId) returns (resp: StatusResponse)
    requires db.Valid()
    modifies db
    ensures db.Valid()
    ensures !ajaxPost <==> resp == InvalidRequest
    ensures resp == NoSuchToDo <==> ajaxPost && (id !in old(db.todos) || old(db.todos)[id].user != user)
    ensures resp.Toggled? ==> resp.status == Flip(old(db.todos)[id].status)
    ensures db.todos == if resp.Toggled? then old(db.todos)[id := old(db.todos)[id].(status := resp.status)]
                        else old(db.todos)
    ensures db.emails == old(db.emails) && db.habits == old(db.habits)
    ensures db.entries == old(db.entries) && db.notes == old(db.notes)
    ensures db.nextHabitId == old(db.nextHabitId) && db.nextToDoId == old(db.nextToDoId) && db.nextNoteId == old(db.nextNoteId)
  {
    if !ajaxPost {
      return InvalidRequest;
    }
    if id !in db.todos || db.todos[id].user != user {
      return NoSuchToDo;
    }
    var status := if db.todos[id].status == Pending then Completed else Pending;
    db.todos := db.todos[id := db.todos[id].(status := status)];
    resp := Toggled(status);
  }

  datatype DeleteResponse = BackToList | ToDoMissing | Removed

  /**
   * `delete_todo`: on an AJAX POST the user's to-do is removed. Anything
   * else goes back to the list; a to-do that is not the user's is not found.
   * A reminder already scheduled for it stays in the queue.
   */
  method DeleteToDo(db: Store, user: UserId, ajaxPost: bool, id: ToDoId) returns (resp: DeleteResponse)
    requires db.Valid()
    modifies db
    ensures db.Valid()
    ensures !ajaxPost <==> resp == BackToList
    ensures resp == ToDoMissing <==> ajaxPost && (id !in old(db.todos) || old(db.todos)[id].user != user)
    ensures db.todos == if resp == Removed then old(db.todos) - {id} else old(db.todos)
    ensures db.emails == old(db.emails) && db.habits == old(db.habits)
    ensures db.entries == old(db.entries) && db.notes == old(db.notes)
    ensures db.nextHabitId == old(db.nextHabitId) && db.nextToDoId == old(db.nextToDoId) && db.nextNoteId == old(db.nextNoteId)
  {
    if !ajaxPost {
      return BackToList;
    }
    if id !in db.todos || db.todos[id].user != user {
      return ToDoMissing;
    }
    db.todos := db.todos - {id};
    resp := Removed;
  }
}
