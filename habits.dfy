/**
 * The habit views of core/views.py: `habits` (tab choice, the list of habits
 * with their completion rates, and the creation of a habit with one entry
 * per day of its span), `update_habit` (toggling one day), `delete_habit`
 * and `complete_habit` (the two soft flags).
 *
 * Listing works on the habit table given as rows in the order the query
 * returns them; the state-changing views work on the Store.
 */
module HabitViews {
  import opened Models
  import opened Rates
  import opened Store

  /** The four tabs of the habits page */
  datatype Tab = OngoingTab | CompletedTab | DeletedTab | AllTab

  const ValidTabs: seq<string> := ["ongoing", "completed", "deleted", "all"]

  function TabName(t: Tab): string
  {
    match t
    case OngoingTab => "ongoing"
    case CompletedTab => "completed"
    case DeletedTab => "deleted"
    case AllTab => "all"
  }

  /**
   * The tab named in the address. An address without a tab (the bare habits
   * route) means the all tab; a name that is not one of the four means the
   * ongoing tab.
   */
  function ParseTab(tab: Option<string>): (t: Tab)
    ensures tab.None? ==> t == AllTab
    ensures tab.Some? && tab.value in ValidTabs ==> TabName(t) == tab.value
    ensures tab.Some? && tab.value !in ValidTabs ==> t == OngoingTab
  {
    match tab
    case None => AllTab
    case Some(name) =>
      if name == "completed" then CompletedTab
      else if name == "deleted" then DeletedTab
      else if name == "all" then AllTab
      else OngoingTab
  }

  /** Each tab is reached by its own name */
  lemma ParseTabName(t: Tab)
    ensures ParseTab(Some(TabName(t))) == t
  {
  }

  /** The filter each tab applies to the user's habits */
  predicate InTab(user: UserId, t: Tab, h: Habit): (b: bool)
    ensures b ==> h.user == user
    ensures t == AllTab ==> (b <==> h.user == user)
  {
    h.user == user &&
    match t
    case OngoingTab => !h.isDeleted && !h.isCompleted
    case CompletedTab => !h.isDeleted && h.isCompleted
    case DeletedTab => h.isDeleted
    case AllTab => true
  }

  /** The habits shown under a tab, in table order */
  function HabitsInTab(user: UserId, t: Tab, rows: seq<HabitRow>): (shown: seq<HabitRow>)
    ensures |shown| <= |rows|
    ensures forall r :: r in shown <==> r in rows && InTab(user, t, r.habit)
    ensures forall r :: multiset(shown)[r] == if InTab(user, t, r.habit) then multiset(rows)[r] else 0
  {
    if rows == [] then []
    else
      assert rows == rows[..|rows| - 1] + [rows[|rows| - 1]];
      HabitsInTab(user, t, rows[..|rows| - 1])
      + (if InTab(user, t, rows[|rows| - 1].habit) then [rows[|rows| - 1]] else [])
  }

  /**
   * The ongoing, completed and deleted tabs split the all tab between them:
   * every habit of the user shows under exactly one of the three.
   */
  lemma {:induction false} TabsPartitionAll(user: UserId, rows: seq<HabitRow>)
    ensures |HabitsInTab(user, OngoingTab, rows)| + |HabitsInTab(user, CompletedTab, rows)|
            + |HabitsInTab(user, DeletedTab, rows)| == |HabitsInTab(user, AllTab, rows)|
  {
    if rows != [] {
      TabsPartitionAll(user, rows[..|rows| - 1]);
    }
  }

  /** One element of habits_with_rates */
  datatype HabitRate = HabitRate(habit: HabitId, completionRate: real)

  function RatesOf(rows: seq<HabitRow>): (listing: seq<HabitRate>)
    ensures |listing| == |rows|
    ensures forall i :: 0 <= i < |rows| ==>
      listing[i].habit == rows[i].id && listing[i].completionRate == CompletionRate(rows[i].entries)
  {
    if rows == [] then []
    else RatesOf(rows[..|rows| - 1]) + [HabitRate(rows[|rows| - 1].id, CompletionRate(rows[|rows| - 1].entries))]
  }

  /**
   * The listing of `habits`: the tab actually shown, and each habit under it
   * with its completion rate, a percentage.
   */
  method ListHabits(user: UserId, tab: Option<string>, rows: seq<HabitRow>) returns (current: Tab, listing: seq<HabitRate>)
    ensures current == ParseTab(tab)
    ensures listing == RatesOf(HabitsInTab(user, current, rows))
    ensures forall i :: 0 <= i < |listing| ==> 0.0 <= listing[i].completionRate <= 100.0
  {
    current := ParseTab(tab);
    listing := RateHabits(HabitsInTab(user, current, rows));
  }

  /** The loop of `habits` building habits_with_rates over the habits shown */
  method RateHabits(shown: seq<HabitRow>) returns (listing: seq<HabitRate>)
    ensures listing == RatesOf(shown)
  {
    listing := [];
    for n := 0 to |shown|
      invariant listing == RatesOf(shown[..n])
    {
      var total := |shown[n].entries|;
      var done := CompletedCount(shown[n].entries);
      var rate := Percent(done, total);
      listing := listing + [HabitRate(shown[n].id, rate)];
      assert shown[..n + 1][..n] == shown[..n];
    }
    assert shown[..|shown|] == shown;
  }

  /**
   * The POST branch of `habits`: create the habit, starting today and ending
   * 30 days later, then get_or_create one uncompleted entry per day from the
   * start date to the end date inclusive. A name too long for its column
   * creates nothing.
   */
  method AddHabit(db: Store, user: UserId, name: string, today: Date, now: Timestamp) returns (id: Option<HabitId>)
    requires db.Valid() && user in db.emails
    modifies db
    ensures db.Valid()
    ensures id.Some? <==> |name| <= MaxHabitName
    ensures id.Some? ==> id.value !in old(db.habits)
    ensures db.habits == if id.Some? then old(db.habits)[id.value := NewHabit(user, name, today, today + HabitSpanDays, now)]
                         else old(db.habits)
    ensures db.entries == if id.Some? then old(db.entries)[id.value := FreshEntries(today, HabitSpanDays + 1)]
                          else old(db.entries)
    ensures db.emails == old(db.emails) && db.todos == old(db.todos) && db.notes == old(db.notes)
    ensures db.nextToDoId == old(db.nextToDoId) && db.nextNoteId == old(db.nextNoteId)
  {
    var end := today + HabitSpanDays;
    id := db.CreateHabit(NewHabit(user, name, today, end, now));
    if id.Some? {
      FillEntries(db, id.value, today, end);
    }
  }

  /** The get_or_create loop of `habits` over a habit that has no entries yet */
  method FillEntries(db: Store, hid: HabitId, start: Date, end: Date)
    requires db.Valid() && hid in db.habits && db.entries[hid] == [] && start <= end + 1
    modifies db
    ensures db.Valid()
    ensures db.entries == old(db.entries)[hid := FreshEntries(start, end + 1 - start)]
    ensures db.habits == old(db.habits) && db.emails == old(db.emails)
    ensures db.todos == old(db.todos) && db.notes == old(db.notes)
    ensures db.nextHabitId == old(db.nextHabitId) && db.nextToDoId == old(db.nextToDoId) && db.nextNoteId == old(db.nextNoteId)
  {
    var current := start;
    while current <= end
      invariant start <= current <= end + 1
      invariant db.Valid() && hid in db.habits
      invariant db.entries == old(db.entries)[hid := FreshEntries(start, current - start)]
      invariant db.habits == old(db.habits) && db.emails == old(db.emails)
      invariant db.todos == old(db.todos) && db.notes == old(db.notes)
      invariant db.nextHabitId == old(db.nextHabitId) && db.nextToDoId == old(db.nextToDoId) && db.nextNoteId == old(db.nextNoteId)
      decreases end + 1 - current
    {
      NextDay(db, hid, start, current);
      current := current + 1;
    }
  }

  /** One turn of that loop: get_or_create on a day after all the habit's entries appends it */
  method NextDay(db: Store, hid: HabitId, start: Date, current: Date)
    requires db.Valid() && hid in db.habits && start <= current
    requires db.entries[hid] == FreshEntries(start, current - start)
    modifies db
    ensures db.Valid() && hid in db.habits
    ensures db.entries == old(db.entries)[hid := FreshEntries(start, current + 1 - start)]
    ensures db.habits == old(db.habits) && db.emails == old(db.emails)
    ensures db.todos == old(db.todos) && db.notes == old(db.notes)
    ensures db.nextHabitId == old(db.nextHabitId) && db.nextToDoId == old(db.nextToDoId) && db.nextNoteId == old(db.nextNoteId)
  {
    ghost var rows := db.entries[hid];
    FreshStep(start, current);
    var created, pos := db.GetOrCreateEntry(hid, current);
    PositionAfterAll(rows, current, pos);
  }

  /** Each day of the loop is new to the habit, so get_or_create appends it */
  lemma FreshStep(start: Date, current: Date)
    requires start <= current
    ensures var rows := FreshEntries(start, current - start);
      && (forall k :: 0 <= k < |rows| ==> rows[k].date < current)
      && rows[..|rows|] + [NewEntry(current)] + rows[|rows|..] == FreshEntries(start, current + 1 - start)
  {
    var rows := FreshEntries(start, current - start);
    assert rows[..|rows|] == rows && rows[|rows|..] == [];
  }

  /** A date later than every entry is placed after all of them */
  lemma PositionAfterAll(rows: seq<HabitEntry>, date: Date, pos: nat)
    requires pos <= |rows|
    requires forall k :: 0 <= k < |rows| ==> rows[k].date < date
    requires forall k :: pos <= k < |rows| ==> rows[k].date >= date
    ensures pos == |rows|
  {
    if rows != [] {
      var k := if pos < |rows| then pos else 0;
      assert rows[k].date < date;
    }
  }

  /** A new habit has one uncompleted entry for each of the 31 days from its start to its end date */
  lemma NewHabitSpan(start: Date)
    ensures var rows := FreshEntries(start, HabitSpanDays + 1);
      && |rows| == 31
      && DateOrdered(rows)
      && rows[0].date == start && rows[30].date == start + 30
      && (forall d :: start <= d <= start + 30 <==> NewEntry(d) in rows)
      && (forall e :: e in rows ==> !e.completed)
  {
    FreshEntriesMembers(start, HabitSpanDays + 1);
  }

  /** The entries with the one on date flipped between completed and not */
  function ToggledAt(rows: seq<HabitEntry>, date: Date): (toggled: seq<HabitEntry>)
    ensures |toggled| == |rows|
    ensures forall i :: 0 <= i < |rows| ==> toggled[i].date == rows[i].date
    ensures forall i :: 0 <= i < |rows| ==> (toggled[i].completed != rows[i].completed <==> rows[i].date == date)
  {
    if rows == [] then []
    else
      var last := rows[|rows| - 1];
      ToggledAt(rows[..|rows| - 1], date) + [if last.date == date then last.(completed := !last.completed) else last]
  }

  /** Toggling keeps the dates, so the entries stay in date order */
  lemma ToggleKeepsOrder(rows: seq<HabitEntry>, date: Date)
    requires DateOrdered(rows)
    ensures DateOrdered(ToggledAt(rows, date))
  {
  }

  /** Toggling the same day twice restores the entries */
  lemma ToggleTwice(rows: seq<HabitEntry>, date: Date)
    ensures ToggledAt(ToggledAt(rows, date), date) == rows
  {
    var twice := ToggledAt(ToggledAt(rows, date), date);
    assert forall i :: 0 <= i < |rows| ==> twice[i] == rows[i];
  }

  /**
   * Toggling a day that has an entry moves the habit's completed count by
   * one: up when the day was not completed, down when it was.
   */
  lemma ToggleCount(rows: seq<HabitEntry>, date: Date, k: nat)
    requires DateOrdered(rows)
    requires k < |rows| && rows[k].date == date
    ensures CompletedCount(ToggledAt(rows, date)) == if rows[k].completed then CompletedCount(rows) - 1 else CompletedCount(rows) + 1
  {
    forall i | 0 <= i < |rows| && i != k
      ensures rows[i].date != date
    {
      if i < k {
        assert rows[i].date < rows[k].date;
      } else {
        assert rows[k].date < rows[i].date;
      }
    }
    ToggleCountAt(rows, date, k);
  }

  /** The same, for any entries in which entry k alone falls on date */
  lemma {:induction false} ToggleCountAt(rows: seq<HabitEntry>, date: Date, k: nat)
    requires k < |rows| && rows[k].date == date
    requires forall i :: 0 <= i < |rows| && i != k ==> rows[i].date != date
    ensures CompletedCount(ToggledAt(rows, date)) == if rows[k].completed then CompletedCount(rows) - 1 else CompletedCount(rows) + 1
  {
    var init := rows[..|rows| - 1];
    var last := rows[|rows| - 1];
    ToggledAtLast(rows, date);
    assert CompletedCount(rows) == CompletedCount(init) + (if last.completed then 1 else 0);
    if k == |rows| - 1 {
      assert forall i :: 0 <= i < |init| ==> init[i].date != date;
      ToggleMisses(init, date);
    } else {
      assert init[k] == rows[k];
      ToggleCountAt(init, date, k);
    }
  }

  /** The completed count after toggling, split at the last entry */
  lemma ToggledAtLast(rows: seq<HabitEntry>, date: Date)
    requires rows != []
    ensures var last := rows[|rows| - 1];
      CompletedCount(ToggledAt(rows, date))
      == CompletedCount(ToggledAt(rows[..|rows| - 1], date)) + (if (last.date == date) != last.completed then 1 else 0)
  {
    var front := ToggledAt(rows[..|rows| - 1], date);
    var toggled := ToggledAt(rows, date);
    assert toggled[..|rows| - 1] == front;
  }

  /** Toggling a day no entry has changes nothing */
  lemma ToggleMisses(rows: seq<HabitEntry>, date: Date)
    requires forall i :: 0 <= i < |rows| ==> rows[i].date != date
    ensures ToggledAt(rows, date) == rows
  {
    var toggled := ToggledAt(rows, date);
    assert forall i :: 0 <= i < |rows| ==> toggled[i] == rows[i];
  }

  /** In date-ordered entries, toggling the date of entry i flips that entry alone */
  lemma ToggleAtEntry(rows: seq<HabitEntry>, i: nat)
    requires DateOrdered(rows) && i < |rows|
    ensures ToggledAt(rows, rows[i].date) == rows[i := rows[i].(completed := !rows[i].completed)]
  {
    var toggled := ToggledAt(rows, rows[i].date);
    forall j | 0 <= j < |rows|
      ensures toggled[j] == rows[i := rows[i].(completed := !rows[i].completed)][j]
    {
      if j < i {
        assert rows[j].date < rows[i].date;
      } else if j > i {
        assert rows[i].date < rows[j].date;
      }
    }
  }

  /** The position of the entry on date, if there is one */
  method FindDate(rows: seq<HabitEntry>, date: Date) returns (k: Option<nat>)
    ensures k.Some? ==> k.value < |rows| && rows[k.value].date == date
    ensures k.None? <==> forall i :: 0 <= i < |rows| ==> rows[i].date != date
  {
    var i := 0;
    while i < |rows|
      invariant i <= |rows|
      invariant forall j :: 0 <= j < i ==> rows[j].date != date
    {
      if rows[i].date == date {
        return Some(i);
      }
      i := i + 1;
    }
    return None;
  }

  /**
   * `update_habit`: the entry of the user's habit on date has its completed
   * flag inverted. Found is false (the lookup fails) when the habit is not
   * the user's or has no entry that day; nothing changes then. A deleted or
   * completed habit can still be toggled.
   */
  method UpdateHabit(db: Store, user: UserId, habitId: HabitId, date: Date) returns (found: bool)
    requires db.Valid()
    modifies db
    ensures db.Valid()
    ensures found <==> habitId in old(db.habits) && old(db.habits)[habitId].user == user
                       && date in DatesOf(old(db.entries)[habitId])
    ensures db.entries == if found then old(db.entries)[habitId := ToggledAt(old(db.entries)[habitId], date)]
                          else old(db.entries)
    ensures db.habits == old(db.habits) && db.emails == old(db.emails)
    ensures db.todos == old(db.todos) && db.notes == old(db.notes)
    ensures db.nextHabitId == old(db.nextHabitId) && db.nextToDoId == old(db.nextToDoId) && db.nextNoteId == old(db.nextNoteId)
  {
    if habitId !in db.habits || db.habits[habitId].user != user {
      return false;
    }
    var rows := db.entries[habitId];
    var k := FindDate(rows, date);
    if k.None? {
      assert date !in DatesOf(rows);
      return false;
    }
    var i := k.value;
    assert rows[i] in rows;
    var updated := rows[i := rows[i].(completed := !rows[i].completed)];
    ToggleAtEntry(rows, i);
    ToggleKeepsOrder(rows, date);
    db.entries := db.entries[habitId := updated];
    found := true;
  }

  /**
   * `delete_habit`: the user's habit is marked deleted; its other fields and
   * its entries stay as they were. Found is false when the habit is not the
   * user's, and nothing changes then.
   */
  method DeleteHabit(db: Store, user: UserId, habitId: HabitId) returns (found: bool)
    requires db.Valid()
    modifies db
    ensures db.Valid()
    ensures found <==> habitId in old(db.habits) && old(db.habits)[habitId].user == user
    ensures db.habits == if found then old(db.habits)[habitId := old(db.habits)[habitId].(isDeleted := true)]
                         else old(db.habits)
    ensures db.entries == old(db.entries) && db.emails == old(db.emails)
    ensures db.todos == old(db.todos) && db.notes == old(db.notes)
    ensures db.nextHabitId == old(db.nextHabitId) && db.nextToDoId == old(db.nextToDoId) && db.nextNoteId == old(db.nextNoteId)
  {
    if habitId !in db.habits || db.habits[habitId].user != user {
      return false;
    }
    db.habits := db.habits[habitId := db.habits[habitId].(isDeleted := true)];
    found := true;
  }

  /**
   * `complete_habit`: the user's habit is marked completed; its other fields
   * and its entries stay as they were. Found is false when the habit is not
   * the user's, and nothing changes then.
   */
  method CompleteHabit(db: Store, user: UserId, habitId: HabitId) returns (found: bool)
    requires db.Valid()
    modifies db
    ensures db.Valid()
    ensures found <==> habitId in old(db.habits) && old(db.habits)[habitId].user == user
    ensures db.habits == if found then old(db.habits)[habitId := old(db.habits)[habitId].(isCompleted := true)]
                         else old(db.habits)
    ensures db.entries == old(db.entries) && db.emails == old(db.emails)
    ensures db.todos == old(db.todos) && db.notes == old(db.notes)
    ensures db.nextHabitId == old(db.nextHabitId) && db.nextToDoId == old(db.nextToDoId) && db.nextNoteId == old(db.nextNoteId)
  {
    if habitId !in db.habits || db.habits[habitId].user != user {
      return false;
    }
    db.habits := db.habits[habitId := db.habits[habitId].(isCompleted := true)];
    found := true;
  }

  /** A deleted habit shows only under the deleted and all tabs, whatever its completed flag */
  lemma DeletedHabitTabs(user: UserId, h: Habit)
    requires h.user == user
    ensures var d := h.(isDeleted := true);
      InTab(user, DeletedTab, d) && InTab(user, AllTab, d)
      && !InTab(user, OngoingTab, d) && !InTab(user, CompletedTab, d)
  {
  }

  /** Completing a habit that is not deleted moves it from the ongoing tab to the completed tab */
  lemma CompletedHabitTabs(user: UserId, h: Habit)
    requires h.user == user && !h.isDeleted
    ensures var c := h.(isCompleted := true);
      InTab(user, CompletedTab, c) && !InTab(user, OngoingTab, c) && !InTab(user, DeletedTab, c)
  {
  }
}
