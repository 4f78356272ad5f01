/**
 * The database behind the views: one table per record of core/models.py,
 * each a map from identifiers to records, with the constraints of the
 * models kept as the object invariant Valid():
 *   - every habit has its list of entries, strictly ordered by date, so that
 *     no two entries of a habit share a date (unique_together (habit, date));
 *   - no entry list outlives its habit (on_delete=CASCADE);
 *   - character columns stay within their max_length;
 *   - every record belongs to a registered user (ForeignKey to User);
 *   - identifiers are handed out from a counter, so a new row gets a fresh one.
 */
module Store {
  import opened Models

  class Store {
    var emails: map<UserId, string>   // the registered address of each user
    var habits: map<HabitId, Habit>
    var entries: map<HabitId, seq<HabitEntry>>
    var todos: map<ToDoId, ToDo>
    var notes: map<NoteId, Note>
    var nextHabitId: nat
    var nextToDoId: nat
    var nextNoteId: nat

    /** The constraints above; as a consequence, entry lists exist only under habit ids already handed out */
    ghost predicate Valid(): (b: bool)
      reads this
      ensures b ==> forall id :: id in entries ==> id < nextHabitId
    {
      && entries.Keys == habits.Keys
      && (forall id :: id in entries ==> DateOrdered(entries[id]))
      && (forall id :: id in habits ==> HabitFits(habits[id]) && habits[id].user in emails && id < nextHabitId)
      && (forall id :: id in todos ==> ToDoFits(todos[id]) && todos[id].user in emails && id < nextToDoId)
      && (forall id :: id in notes ==> NoteFits(notes[id]) && notes[id].user in emails && id < nextNoteId)
    }

    constructor (emails: map<UserId, string>)
      ensures Valid()
      ensures this.emails == emails
      ensures habits == map[] && entries == map[] && todos == map[] && notes == map[]
    {
      this.emails := emails;
      habits, entries, todos, notes := map[], map[], map[], map[];
      nextHabitId, nextToDoId, nextNoteId := 0, 0, 0;
    }

    /** Habit.objects.create: a new habit row, with no entries yet; a name over its column width is refused */
    method CreateHabit(h: Habit) returns (id: Option<HabitId>)
      requires Valid() && h.user in emails
      modifies this
      ensures Valid()
      ensures id.Some? <==> HabitFits(h)
      ensures id.Some? ==> id.value !in old(habits)
      ensures habits == if id.Some? then old(habits)[id.value := h] else old(habits)
      ensures entries == if id.Some? then old(entries)[id.value := []] else old(entries)
      ensures emails == old(emails) && todos == old(todos) && notes == old(notes)
      ensures nextToDoId == old(nextToDoId) && nextNoteId == old(nextNoteId)
    {
      if !HabitFits(h) {
        return None;
      }
      id := Some(nextHabitId);
      habits := habits[nextHabitId := h];
      entries := entries[nextHabitId := []];
      nextHabitId := nextHabitId + 1;
    }

    /**
     * HabitEntry.objects.get_or_create(habit=id, date=date), completed
     * defaulting to false: returns whether a row was created and where the
     * date sits among the habit's entries. An existing row is left as it is.
     */
    method GetOrCreateEntry(id: HabitId, date: Date) returns (created: bool, pos: nat)
      requires Valid() && id in habits
      modifies this
      ensures Valid()
      ensures pos <= |old(entries[id])|
      ensures forall k :: 0 <= k < pos ==> old(entries[id])[k].date < date
      ensures forall k :: pos <= k < |old(entries[id])| ==> old(entries[id])[k].date >= date
      ensures created <==> forall k :: 0 <= k < |old(entries[id])| ==> old(entries[id])[k].date != date
      ensures entries == old(entries)[id :=
        if created then old(entries[id])[..pos] + [NewEntry(date)] + old(entries[id])[pos..]
        else old(entries[id])]
      ensures habits == old(habits) && emails == old(emails) && todos == old(todos) && notes == old(notes)
      ensures nextHabitId == old(nextHabitId) && nextToDoId == old(nextToDoId) && nextNoteId == old(nextNoteId)
    {
      var rows := entries[id];
      pos := 0;
      while pos < |rows| && rows[pos].date < date
        invariant pos <= |rows|
        invariant forall k :: 0 <= k < pos ==> rows[k].date < date
      {
        pos := pos + 1;
      }
      created := !(pos < |rows| && rows[pos].date == date);
      if created {
        var updated := rows[..pos] + [NewEntry(date)] + rows[pos..];
        InsertKeepsOrder(rows, pos, date);
        entries := entries[id := updated];
      }
    }

    /** Habit.delete(): the habit goes, and its entries with it (on_delete=CASCADE) */
    method DeleteHabitRow(id: HabitId)
      requires Valid()
      modifies this
      ensures Valid()
      ensures habits == old(habits) - {id}
      ensures entries == old(entries) - {id}
      ensures emails == old(emails) && todos == old(todos) && notes == old(notes)
      ensures nextHabitId == old(nextHabitId) && nextToDoId == old(nextToDoId) && nextNoteId == old(nextNoteId)
    {
      habits := habits - {id};
      entries := entries - {id};
    }

    /** ToDo.objects.create: status pending; a task over its column width is refused */
    method CreateToDo(t: ToDo) returns (id: Option<ToDoId>)
      requires Valid() && t.user in emails
      modifies this
      ensures Valid()
      ensures id.Some? <==> ToDoFits(t)
      ensures id.Some? ==> id.value == old(nextToDoId) && id.value !in old(todos)
      ensures todos == if id.Some? then old(todos)[id.value := t] else old(todos)
      ensures emails == old(emails) && habits == old(habits) && entries == old(entries) && notes == old(notes)
      ensures nextHabitId == old(nextHabitId) && nextNoteId == old(nextNoteId)
    {
      if !ToDoFits(t) {
        return None;
      }
      id := Some(nextToDoId);
      todos := todos[nextToDoId := t];
      nextToDoId := nextToDoId + 1;
    }

    /** Note.objects.create; a title or heading over its column width is refused */
    method CreateNote(n: Note) returns (id: Option<NoteId>)
      requires Valid() && n.user in emails
      modifies this
      ensures Valid()
      ensures id.Some? <==> NoteFits(n)
      ensures id.Some? ==> id.value !in old(notes)
      ensures notes == if id.Some? then old(notes)[id.value := n] else old(notes)
      ensures emails == old(emails) && habits == old(habits) && entries == old(entries) && todos == old(todos)
      ensures nextHabitId == old(nextHabitId) && nextToDoId == old(nextToDoId)
    {
      if !NoteFits(n) {
        return None;
      }
      id := Some(nextNoteId);
      notes := notes[nextNoteId := n];
      nextNoteId := nextNoteId + 1;
    }
  }

  /** Placing a new date where it falls in date order keeps the entries ordered */
  lemma InsertKeepsOrder(rows: seq<HabitEntry>, pos: nat, date: Date)
    requires DateOrdered(rows)
    requires pos <= |rows|
    requires forall k :: 0 <= k < pos ==> rows[k].date < date
    requires pos < |rows| ==> rows[pos].date > date
    ensures DateOrdered(rows[..pos] + [NewEntry(date)] + rows[pos..])
  {
    var updated := rows[..pos] + [NewEntry(date)] + rows[pos..];
    assert forall k :: 0 <= k < |updated| ==>
      updated[k] == if k < pos then rows[k] else if k == pos then NewEntry(date) else rows[k - 1];
  }
}
