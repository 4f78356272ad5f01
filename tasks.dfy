/**
 * The reminder task of core/tasks.py, `send_reminder_email`, and the two
 * outside services around it: the task queue that runs it after a delay,
 * and the mail transport. Both are logs here: the queue records each
 * scheduled run, the outbox records each mail the transport accepted. Whether
 * the transport accepts a mail is a parameter.
 */
module Tasks {
  import opened Models
  import opened Store

  /** A reminder mail; the body text is presentation and only its inputs are kept */
  datatype Mail = Mail(subject: string, task: string, deadline: Timestamp, sender: string, recipients: seq<string>)

  /** One scheduled run of the reminder task for a to-do, eta seconds from now */
  datatype Job = Job(todo: ToDoId, eta: nat)

  /** What a run of the task did; no run raises */
  datatype Outcome = NotFound | NotPending | Sent | SendFailed

  /** The mails the transport has accepted, in order */
  class Outbox {
    var sent: seq<Mail>

    constructor ()
      ensures sent == []
    {
      sent := [];
    }
  }

  /** The runs handed to the task queue, in order */
  class JobQueue {
    var jobs: seq<Job>

    constructor ()
      ensures jobs == []
    {
      jobs := [];
    }

    /** send_reminder_email.apply_async((todo,), eta=eta) */
    method Schedule(j: Job)
      modifies this
      ensures jobs == old(jobs) + [j]
    {
      jobs := jobs + [j];
    }
  }

  /** The subject line: "Reminder: " followed by the task */
  function Subject(task: string): (s: string)
    ensures |s| == |"Reminder: "| + |task|
    ensures s[..|"Reminder: "|] == "Reminder: " && s[|"Reminder: "|..] == task
  {
    "Reminder: " + task
  }

  /** Different tasks never share a subject line: the task can be read back from it */
  lemma {:induction false} SubjectDeterminesTask(a: string, b: string)
    requires Subject(a) == Subject(b)
    ensures a == b
  {
    assert a == Subject(a)[|"Reminder: "|..];
    assert b == Subject(b)[|"Reminder: "|..];
  }

  /**
   * The mail a run for the to-do id should send: none when the to-do no
   * longer exists or is not pending, otherwise one mail about its task,
   * from the configured sender, to its owner's address alone.
   */
  function ReminderMail(todos: map<ToDoId, ToDo>, emails: map<UserId, string>, id: ToDoId, sender: string): (m: Option<Mail>)
    ensures m.Some? <==> id in todos && todos[id].status == Pending && todos[id].user in emails
    ensures m.Some? ==> m.value == Mail(Subject(todos[id].task), todos[id].task, todos[id].deadline, sender,
                                        [emails[todos[id].user]])
  {
    if id in todos && todos[id].status == Pending && todos[id].user in emails then
      var t := todos[id];
      Some(Mail(Subject(t.task), t.task, t.deadline, sender, [emails[t.user]]))
    else None
  }

  /**
   * `send_reminder_email`: look the to-do up again at run time; skip it when
   * it is gone or no longer pending; otherwise hand one mail to the
   * transport. A failed send is swallowed. The store is only read.
   */
  method SendReminderEmail(db: Store, outbox: Outbox, sender: string, id: ToDoId, transportOk: bool)
    returns (outcome: Outcome)
    requires db.Valid()
    modifies outbox
    ensures outcome == NotFound <==> id !in db.todos
    ensures outcome == NotPending <==> id in db.todos && db.todos[id].status != Pending
    ensures outcome == Sent <==> id in db.todos && db.todos[id].status == Pending && transportOk
    ensures outbox.sent == old(outbox.sent) + (if outcome == Sent then [ReminderMail(db.todos, db.emails, id, sender).value] else [])
  {
    if id !in db.todos {
      return NotFound;
    }
    var todo := db.todos[id];
    if todo.status != Pending {
      return NotPending;
    }
    var mail := Mail(Subject(todo.task), todo.task, todo.deadline, sender, [db.emails[todo.user]]);
    if transportOk {
      outbox.sent := outbox.sent + [mail];
      return Sent;
    }
    return SendFailed;
  }

  /** In a store whose owners all have an address, a mail is due exactly for a pending to-do */
  lemma MailDueIffPending(todos: map<ToDoId, ToDo>, emails: map<UserId, string>, id: ToDoId, sender: string)
    requires forall k :: k in todos ==> todos[k].user in emails
    ensures ReminderMail(todos, emails, id, sender).Some? <==> id in todos && todos[id].status == Pending
  {
  }

  /** Marking a to-do completed before its reminder runs stops the mail */
  lemma CompletedToDoGetsNoMail(todos: map<ToDoId, ToDo>, emails: map<UserId, string>, id: ToDoId, sender: string)
    requires id in todos
    ensures ReminderMail(todos[id := todos[id].(status := Completed)], emails, id, sender) == None
  {
  }

  /** Deleting a to-do before its reminder runs stops the mail */
  lemma DeletedToDoGetsNoMail(todos: map<ToDoId, ToDo>, emails: map<UserId, string>, id: ToDoId, sender: string)
    ensures ReminderMail(todos - {id}, emails, id, sender) == None
  {
  }
}
