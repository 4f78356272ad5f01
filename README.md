# Streak tracker: habit analytics and to-do bookkeeping in Dafny

A model of the core of a Django habit tracker, with proofs about that model. Users keep habits. Each habit has one entry per day, and an entry is either completed or not. The app reports on each habit:
- its completion rate;
- its highest streak of completed days;
- a summary tier and milestone badges.

Users also keep to-do items, each with a deadline and a reminder, and a background task mails the reminder. The model covers:
- the records, and the constraints the database keeps over them (`models.dfy`, `store.dfy`);
- the analytics of the `reports` view (`rates.dfy`, `streaks.dfy`, `reports.dfy`);
- the habit views `habits`, `update_habit`, `delete_habit` and `complete_habit` (`habits.dfy`);
- the to-do views `to_do`, `update_todo_status` and `delete_todo` (`todos.dfy`);
- the note views `notes` and `delete_note` (`notes.dfy`);
- the reminder task `send_reminder_email`, the task queue and the mail transport (`tasks.dfy`).

Modelling conventions:
- Dates are whole days and timestamps whole seconds, both as integers. Rates are exact rationals (`real`).
- The database is a `Store` object with one map per table. Its invariant `Valid()` states five things:
  - each habit's entries are strictly ordered by date, which is the `(habit, date)` uniqueness constraint;
  - entries never outlive their habit;
  - character columns stay within their widths;
  - every record belongs to a registered user;
  - every id is below the counter its table hands ids out from, so a new row always gets a fresh id.
- The views that change state are module-level methods that take the `Store` (and the task queue or outbox where they use one) as parameters. The views that only list or report read the habit table as a sequence of rows, in the order the query returns them.
- The streak loop, the report loop, the milestone appends, the habit listing, and the entry-creation loop of `habits` are imperative methods. Each is proved equal to a functional specification, and the lemmas state the properties of that specification.

Main results:
- **Highest streak.** The streak pass records only positive runs. The runs add up to the number of completed entries. The highest streak is exactly the length of the longest run of completed entries with no date gap inside it: every such run is at most that long, and one is exactly that long.
- **Completion rates.** Every rate lies in [0, 100]. A rate is 0 exactly when nothing is completed. For a habit with at least one entry, it is 100 exactly when every entry is completed; a habit with no entries stands at 0.
- **Report.**
  - There is one record per ongoing habit, and ongoing plus completed habits make up all habits.
  - Completed days never exceed possible days.
  - The summary tier is chosen by inclusive thresholds.
  - The milestone list is empty exactly when there are no habits. Each badge appears exactly when its own threshold is met, in the fixed order. "First Steps" appears alone and only as the fallback.
- **Creating a habit.** It yields exactly the 31 uncompleted entries from the start date to the end date. `get_or_create` never duplicates a date.
- **Toggling.** Toggling an entry flips exactly that entry. Doing it twice restores it. Each toggle moves the completed count by one.
- **To-do admission.** A to-do is refused when a field is missing, when a time is malformed, or when a time is before the cutoff, in that order. The cutoff is now truncated to the minute, less one minute. The reminder's delay is never negative and fires the reminder at its time, or at once when that time is past. An admitted to-do is saved before its reminder is handed to the task queue. When the queue refuses the run, the user sees an unexpected error, and the to-do stays saved without a reminder.
- **Reminder mail.** A run sends at most one mail: to the owner only, with subject "Reminder: " followed by the task, and only while the to-do exists and is pending. A run never raises and never changes the store.

## Model

| member | source | states |
|---|---|---|
| Models.NewHabit | core/models.py:18-25 | a habit as created holds the given owner, name and dates, and is neither completed nor deleted |
| Models.NewEntry | core/models.py:30-33 | an entry as created is for the given date and not completed |
| Models.NewToDo | core/models.py:41-47 | a to-do as created holds the given owner, task, deadline and reminder, and is pending |
| Models.Flip | core/views.py:324 | the swap `update_todo_status` applies between the two status choices of core/models.py:47; the new status always differs from the old one |
| Models.FlipTwice | core/views.py:324 | swapping twice restores the status |
| Models.OneEntryPerDate | core/models.py:35-36 | in a habit's date-ordered entries, two entries with the same date are the same entry: at most one entry per (habit, date) |
| Models.FreshEntries | core/views.py:194-197 | the entries made for a new habit: n of them, the i-th an uncompleted entry for day start + i (completed defaults to false, core/models.py:33) |
| Models.FreshEntriesMembers | core/views.py:194-197 | fresh entries are in date order, and they are exactly the uncompleted entries for the days start to start + n - 1 |
| Rates.CompletedCount | core/views.py:68 | the completed entries number at most all entries; all entries are completed iff the count equals the length; none is iff the count is 0 |
| Rates.Percent | core/views.py:69 | part / whole * 100, guarded to 0 for an empty whole; non-negative, at most 100 when part <= whole, 0 iff part is 0 and 100 iff part == whole |
| Rates.PercentAtLeast | core/views.py:125-131 | a rate is at least a whole-number threshold t iff part * 100 >= t * whole |
| Rates.CompletionRate | core/views.py:67-69 | a habit's rate lies in [0, 100], is 0 with no entries, is 100 iff every entry is completed, and is 0 iff none is |
| Rates.HalfCompleted | core/views.py:181-183 | a habit with 10 of 20 entries completed stands at 50% |
| Streaks.Step | core/views.py:76-86 | one iteration: the entry's date becomes the last date seen, the counter is positive exactly after a completed entry, and it grows by at most one |
| Streaks.ScanAll | core/views.py:72-86 | after the whole pass the last date seen is the last entry's, and the counter is at most the number of entries |
| Streaks.Streaks | core/views.py:71-88 | the runs recorded once the last run is closed are all positive |
| Streaks.HighestStreak | core/views.py:90 | max(streaks) if streaks else 0: no recorded run exceeds it, it is one of the recorded runs, and it is 0 when none was recorded |
| Streaks.AnalyseStreaks | core/views.py:71-90 | the loop over the date-ordered entries returns the recorded runs Streaks(entries) and the highest streak max(streaks), or 0 with no streaks |
| Streaks.HighestStreakIsLongestRun | core/views.py:72-90 | every run of completed entries without a date gap of more than one day is at most the highest streak, and a positive highest streak is the length of such a run |
| Streaks.StreaksAccountForCompletedEntries | core/views.py:78-88 | every recorded run is positive; the runs sum to the number of completed entries; the highest streak never exceeds that number and is 0 exactly when nothing is completed |
| Streaks.UnbrokenEntriesFormOneStreak | core/views.py:76-90 | when every entry is completed and the dates are consecutive, the pass records one run as long as the list, and the highest streak is the entry count (0 for no entries) |
| Streaks.GapSplitsStreaks | core/views.py:77-80 | a missing day between two completed pairs closes the first run: days 1, 2, 4, 5 give runs [2, 2] and highest streak 2 |
| Streaks.ScanFacts | core/views.py:72-86 | after any prefix the running counter is the length of the run ending at the last entry, the last date is remembered, the recorded runs are positive and sum with the counter to the completed count |
| Reports.Live | core/views.py:57 | the user's habits that are not deleted, and nothing else; each such row appears as often as in the table |
| Reports.Ongoing | core/views.py:65 | the user's habits that are neither deleted nor completed, and nothing else; each such row appears as often as in the table |
| Reports.Finished | core/views.py:58 | the user's habits that are completed and not deleted, and nothing else; each such row appears as often as in the table |
| Reports.Stats | core/views.py:67-97 | the analysis of one habit keeps its name and completion flag; its rate is a percentage; its highest streak never exceeds its completed days |
| Reports.HabitDataOf | core/views.py:92-97 | one habit_data record per analysed habit, in order, holding its name, rate, completion flag and highest streak |
| Reports.DaysCompleted | core/views.py:98 | the completed days total 0 exactly when no analysed habit has a completed entry |
| Reports.DaysPossible | core/views.py:99 | the possible days total 0 exactly when no analysed habit has an entry |
| Reports.PartitionCounts | core/views.py:57-58 | ongoing and completed habits together are all habits that are not deleted |
| Reports.CompletedWithinPossible | core/views.py:98-99 | the total of completed days never exceeds the total of possible days |
| Reports.SummaryTier | core/views.py:106-113 | zero state iff there are no habits; otherwise top tier iff the overall rate is >= 75, mid tier iff it is in [50, 75), encouragement iff below 50 |
| Reports.EarnedBadges | core/views.py:117-132 | the badges collected by the eight checks come in their fixed order and never include the fallback |
| Reports.EarnedBadgeMember | core/views.py:117-132 | each badge is collected iff its own threshold is met, independently of the others |
| Reports.EarnedBadgesEmpty | core/views.py:117-133 | no badge is collected iff no threshold is met |
| Reports.MilestonesFor | core/views.py:115-134 | empty iff there are no habits; every other badge present iff habits exist and its threshold is met; "First Steps" present iff habits exist and no threshold is met, and then alone; the fixed order holds; a habit at 100% brings all four rate badges |
| Reports.CollectMilestones | core/views.py:115-134 | the appends of the milestones block build exactly MilestonesFor |
| Reports.AnalyseHabits | core/views.py:66-99 | the loop over ongoing habits builds habit_data and totals the completed and possible days of those habits only |
| Reports.ReportOf | core/views.py:56-134 | the report holds one record per ongoing habit; ongoing habits never outnumber all habits; the overall rate is 0 when there are no possible days |
| Reports.Reports | core/views.py:56-144 | the view computes ReportOf: analysis of the ongoing habits, counts, overall rate, summary tier and milestones |
| Reports.ReportConsistent | core/views.py:57-134 | one record per ongoing habit, in order; ongoing + completed == total; completed days <= possible days; overall rate 0 with no possible days and always in [0, 100]; zero-state summary iff no habits; no milestones iff no habits |
| Reports.NoHabitsReport | core/views.py:106-116 | a user without habits that are not deleted gets the zero-state summary and no milestones |
| Store.Store.Valid | core/models.py:4-47 | the invariant above (foreign keys, column widths at lines 6-7, 20, 43, cascade at 31, unique_together at 35-36); it implies that entry lists exist only under habit ids already handed out |
| Store.Store.constructor | core/models.py:4-47 | an empty database over the registered users satisfies every constraint |
| Store.Store.CreateHabit | core/models.py:18-25 | a new habit row gets a fresh id and no entries; a name longer than 100 characters is refused and nothing changes |
| Store.Store.GetOrCreateEntry | core/views.py:196 | get_or_create on (habit, date): a new uncompleted entry is inserted in date order iff no entry has that date, otherwise nothing changes; uniqueness is kept |
| Store.Store.DeleteHabitRow | core/models.py:31 | deleting a habit removes its entries with it, and nothing else |
| Store.Store.CreateToDo | core/models.py:41-47 | a new to-do gets the next fresh id; a task longer than 200 characters is refused and nothing changes |
| Store.Store.CreateNote | core/models.py:4-9 | a new note gets a fresh id; a title over 100 or a heading over 200 characters is refused and nothing changes |
| Store.InsertKeepsOrder | core/models.py:35-36 | placing a new date between the earlier and the later entries keeps them strictly date-ordered |
| HabitViews.ParseTab | core/views.py:165-168 | with no tab in the URL (the route `habits/`) the tab is all; each of the four tab names selects its tab; any other name selects the ongoing tab |
| HabitViews.ParseTabName | core/views.py:166-177 | every tab is reached by its own name |
| HabitViews.InTab | core/views.py:170-177 | a tab shows only the user's own habits, and the all tab shows every one of them |
| HabitViews.HabitsInTab | core/views.py:170-177 | the habits shown under a tab are exactly the user's habits that pass the tab's filter, each as often as in the table |
| HabitViews.TabsPartitionAll | core/views.py:170-177 | the ongoing, completed and deleted tabs together show exactly as many habits as the all tab |
| HabitViews.RatesOf | core/views.py:179-187 | one listing element per shown habit, in order, carrying its completion rate |
| HabitViews.ListHabits | core/views.py:165-187 | the loop of `habits` lists every habit under the chosen tab (all when the URL names none) with its rate, each rate in [0, 100] |
| HabitViews.RateHabits | core/views.py:179-187 | the loop building habits_with_rates yields exactly RatesOf of the habits shown: one element per habit, in order, with its rate |
| HabitViews.AddHabit | core/views.py:189-197 | a new habit running from today to today + 30, not completed and not deleted, with exactly FreshEntries(today, 31); a name over 100 characters creates nothing |
| HabitViews.FillEntries | core/views.py:194-197 | the while loop from start to end inclusive leaves the habit with one fresh entry per day and changes nothing else |
| HabitViews.NewHabitSpan | core/views.py:191-197 | a new habit has 31 entries, in date order, from its start date to its end date, one per day, none completed |
| HabitViews.ToggledAt | core/views.py:209-211 | toggling a date keeps every entry's date and flips the completed flag of exactly the entries on that date |
| HabitViews.ToggleKeepsOrder | core/views.py:209-211 | toggling keeps the entries date-ordered |
| HabitViews.ToggleTwice | core/views.py:210 | toggling the same date twice restores the entries |
| HabitViews.ToggleCount | core/views.py:210 | toggling a day that has an entry raises the completed count by one when the day was open, and lowers it by one when it was done |
| HabitViews.FindDate | core/views.py:209 | the lookup finds the position of the entry on a date, or reports that there is none |
| HabitViews.UpdateHabit | core/views.py:208-213 | found iff the habit is the user's and has an entry that day; then exactly that entry is flipped; otherwise nothing changes |
| HabitViews.DeleteHabit | core/views.py:216-221 | the user's habit gets is_deleted set and nothing else changes; another user's or a missing habit changes nothing |
| HabitViews.CompleteHabit | core/views.py:224-229 | the user's habit gets is_completed set and nothing else changes; another user's or a missing habit changes nothing |
| HabitViews.DeletedHabitTabs | core/views.py:170-177 | a deleted habit shows under the deleted and all tabs only |
| HabitViews.CompletedHabitTabs | core/views.py:170-173 | completing a habit that is not deleted moves it from the ongoing tab to the completed tab |
| ToDoViews.Cutoff | core/views.py:273-288 | the cutoff is a whole minute in (now - 120, now - 60] |
| ToDoViews.CutoffUnique | core/views.py:273-288 | it is the only whole minute in that window, so it is now truncated to the minute less one minute |
| ToDoViews.CutoffMonotonic | core/views.py:273-288 | a later clock never moves the cutoff back |
| ToDoViews.Admission | core/views.py:277-290 | missing fields first, then malformed times, then times before the cutoff; admitted iff all fields are present, both times parse and neither is before the cutoff, and then carries the two times |
| ToDoViews.LastMinuteAdmitted | core/views.py:288 | times no more than a minute old are always admitted |
| ToDoViews.TwoMinutesRejected | core/views.py:288-289 | a deadline or reminder two minutes old or more is always refused as in the past |
| ToDoViews.AdmittedEarlier | core/views.py:288 | a to-do admitted at some clock reading is admitted at every earlier reading |
| ToDoViews.Eta | core/views.py:292 | the delay is never negative; it is 0 iff the reminder is not after the clock, and otherwise ends exactly at the reminder |
| ToDoViews.RecentReminderFiresAtOnce | core/views.py:288-292 | a reminder 30 seconds in the past is admitted and scheduled with delay 0 |
| ToDoViews.PostToDo | core/views.py:269-311 | only an AJAX POST acts; a refused admission returns its reason and changes nothing; an admitted one saves a pending to-do under the next fresh id, stamped with the save time; an over-long task is an unexpected error that saves nothing; once saved, exactly one reminder run firing at the reminder (or at once) is queued, or, when the queue refuses it, the reply is the unexpected error and the to-do stays saved with no run queued |
| ToDoViews.PostToDoAsWritten | core/views.py:269-311 | `to_do` with the delay passed as `eta` (lines 292-293): an admitted to-do whose reminder is in the future is saved, gets no reminder run, and the reply is the unexpected error; only a reminder not in the future is queued, with delay 0; every other request gets the same reply and state as in PostToDo, and no other table or counter changes |
| ToDoViews.UpdateToDoStatus | core/views.py:321-327 | an AJAX POST on the user's to-do swaps pending and completed and changes nothing else; other requests are invalid; another user's or a missing to-do is not found |
| ToDoViews.DeleteToDo | core/views.py:330-335 | an AJAX POST removes the user's to-do and nothing else; other requests go back to the list; another user's or a missing to-do is not found |
| NoteViews.PostNote | core/views.py:237-244 | a note is stored iff the request is a POST, all three fields are non-empty and title and heading fit their columns |
| NoteViews.DeleteNote | core/views.py:253-256 | the user's note is removed and nothing else; another user's or a missing note changes nothing |
| Tasks.JobQueue.Schedule | core/views.py:293 | scheduling appends exactly one run to the queue |
| Tasks.Subject | core/tasks.py:12 | the subject is "Reminder: " followed by the task |
| Tasks.SubjectDeterminesTask | core/tasks.py:12 | two tasks with the same subject line are the same task |
| Tasks.ReminderMail | core/tasks.py:10-19 | a mail is due iff the to-do exists, is pending and has an owner; it is about that task and deadline and goes only to the owner's address |
| Tasks.SendReminderEmail | core/tasks.py:8-25 | a missing to-do and a non-pending one send nothing; a pending one sends exactly its reminder mail when the transport accepts it; a failed send is swallowed; the store is only read |
| Tasks.MailDueIffPending | core/tasks.py:10-19 | in a consistent database a reminder is due exactly for an existing pending to-do |
| Tasks.CompletedToDoGetsNoMail | core/tasks.py:11 | a to-do marked completed before its reminder runs gets no mail |
| Tasks.DeletedToDoGetsNoMail | core/tasks.py:10-23 | a to-do deleted before its reminder runs gets no mail |

## Left out

- The authentication views (`register`, `user_login`, `user_logout`) and `dashboard` and `home` only call the framework's session and template code.
- Rendering, flash messages, redirect targets, the JSON payloads, `strftime` output, the summary and milestone texts and colours, and the `print` logging are presentation. The model keeps the tier, the badge and the response kind.
- The `strptime`/`make_aware` parsing and time zones are library calls. Each form field arrives already parsed (blank, malformed, or a timestamp). `timezone.now().date()` is the `today` parameter.
- The `to_do` view reads the clock twice: once for the admission rule, once for the delay. The store stamps `created_at` when it saves the to-do (`auto_now_add`). All three times are parameters.
- HabitViews.UpdateHabit: the date from the URL (`update_habit/<int:habit_id>/<str:date>/`) arrives already parsed as a day. A string that is not a date ends the source request with a server error; the model has no such input.
- Reports.MilestonesFor: the rate badges compare the exact rate. The source compares the rate in habit_data, which it rounds to one decimal (core/views.py:94, 125-131). So a rate just below a threshold, such as 89.96, earns "Near-Perfect Achiever" in the source but not in the model. Floating-point division is not modelled.
- HabitViews.ListHabits: the listed rates are exact, not rounded to one decimal.
- Scheduling and mail are logs. `JobQueue` records each `apply_async` call and `Outbox` records each mail the transport accepted. A parameter says whether a send fails. Whether the task queue accepts a run is a parameter of `PostToDo`; `PostToDoAsWritten` fixes it to the queue's handling of a delay passed as `eta` (see Findings). The mail body text is not kept, only the task and deadline it is made from.
- A failed lookup (`DoesNotExist` in `update_habit`, `delete_habit`, `complete_habit`, `update_todo_status`, `delete_todo`, `delete_note`) ends the source request with a server error. The model returns a not-found result and changes nothing.
- Column widths are modelled as enforced by the database: creating a record with an over-long value fails and stores nothing. `to_do` reports this as its unexpected-error response. `habits` and `notes` have no handler, so the model returns no id and changes nothing.
- The `name` field missing from the `habits` POST (a request error in the source) is not modelled. The name is always given.
- The listings of `to_do` (ordered by deadline) and `notes` (newest first) only read and sort the table for display. They are not modelled.
- The listing in `habits` and the `reports` view read the habit table as a sequence of rows in query order. The model does not state that these rows are the store's habits with their entries.
- Deleting a user and its cascades is not modelled; the set of users is fixed. Store.Store.DeleteHabitRow models the habit-to-entry cascade, which no view triggers.
- Concurrency is not modelled: racing requests, and a reminder run interleaved with other requests. The reminder task can be run against any store state.
- The routing tables, the task-queue configuration and the browser theme script are not part of this model.

## Findings

| source | as written | input that shows it | evidently intended | confidence | as-written member | corrected member |
|---|---|---|---|---|---|---|
| core/views.py:292-293 | the delay in seconds is passed as `eta=`, which the task queue takes as a point in time; a positive number has no ISO form and raises, the handler at line 309 replies with the unexpected error, and the to-do saved at line 291 stays without a reminder | an AJAX POST admitted with the reminder one hour after the clock: eta is 3600.0 | pass the delay as `countdown=` (or pass the reminder itself as `eta=`), so every admitted to-do gets one reminder run at its reminder time | medium, not executed; rests on the task queue library's handling of `eta` | ToDoViews.PostToDoAsWritten | ToDoViews.PostToDo |
