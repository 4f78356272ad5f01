/**
 * The note views of core/views.py: `notes` (creating a note) and
 * `delete_note`. A field missing from the form counts as empty.
 */
module NoteViews {
  import opened Models
  import opened Store

  /**
   * The POST branch of `notes`: a note is stored only when title, heading and
   * content are all non-empty; a title or heading too long for its column is
   * refused by the store. Anything else changes nothing.
   */
  method PostNote(db: Store, user: UserId, post: bool, title: string, heading: string, content: string, now: Timestamp)
    returns (id: Option<NoteId>)
    requires db.Valid() && user in db.emails
    modifies db
    ensures db.Valid()
    ensures id.Some? <==> post && title != [] && heading != [] && content != []
                          && |title| <= MaxNoteTitle && |heading| <= MaxNoteHeading
    ensures id.Some? ==> id.value !in old(db.notes)
    ensures db.notes == if id.Some? then old(db.notes)[id.value := Note(user, title, heading, content, now)]
                        else old(db.notes)
    ensures db.emails == old(db.emails) && db.habits == old(db.habits)
    ensures db.entries == old(db.entries) && db.todos == old(db.todos)
    ensures db.nextHabitId == old(db.nextHabitId) && db.nextToDoId == old(db.nextToDoId)
  {
    if post && title != [] && heading != [] && content != [] {
      id := db.CreateNote(Note(user, title, heading, content, now));
    } else {
      id := None;
    }
  }

  /**
   * `delete_note`: the user's note is removed. Found is false when the note
   * is not the user's, and nothing changes then.
   */
  method DeleteNote(db: Store, user: UserId, id: NoteId) returns (found: bool)
    requires db.Valid()
    modifies db
    ensures db.Valid()
    ensures found <==> id in old(db.notes) && old(db.notes)[id].user == user
    ensures db.notes == if found then old(db.notes) - {id} else old(db.notes)
    ensures db.emails == old(db.emails) && db.habits == old(db.habits)
    ensures db.entries == old(db.entries) && db.todos == old(db.todos)
    ensures db.nextHabitId == old(db.nextHabitId) && db.nextToDoId == old(db.nextToDoId) && db.nextNoteId == old(db.nextNoteId)
  {
    if id !in db.notes || db.notes[id].user != user {
      return false;
    }
    db.notes := db.notes - {id};
    found := true;
  }
}
