# Consistify: task and calendar bookkeeping

Consistify is a small tkinter reminder and task manager. The application object keeps
a list of tasks. Each task has a title, a description and a weekly reminder schedule,
which maps each chosen weekday to a time text such as `09:00 AM`. The object also keeps
the month that its calendar tab shows. This project models the bookkeeping under the
widgets, in `Consistify_App.py`:

- **Adding and editing tasks.** `handle_add_task` and `handle_update_task` trim the
  title and the description. They build the schedule from the seven per-day inputs
  (check box, time entry, AM/PM box). Then they append the task, or replace the task at
  the edited index, but only when the trimmed title is not empty. A new task's item id
  is its index in the list.
- **Schedule text.** Each entry is stored as `time + " " + ampm`. The edit window reads
  an entry back by splitting it on whitespace, with `"AM"` as the default meridiem.
- **Schedule summary.** The task list shows `Mon: 09:00 AM, Fri: 5:30 PM`: the scheduled
  days in Monday-to-Sunday order, each as its first three letters, `": "` and its entry.
- **Month navigation.** `prev_month` and `next_month` step `current_month` and
  `current_year`, wrapping at January and December.
- **Calendar cell.** For a date's weekday, the cell lists `title @ time` for every task
  scheduled on that weekday, in task-list order.

Modules: `Wrappers` (Option, Result); `Text` (Python's `str.strip()`, `str.split()` and
`sep.join`); `Schedule` (weekdays, form inputs, encoding and decoding of entries, the
summary, the loop that builds a schedule); `Tasks` (the task record, the form, the
validation both handlers share, the edit form's prefill); `Months` (month arithmetic);
`Calendar` (a cell's lines); `App` (class `ConsistifyApp` with the fields `tasks`,
`currentYear` and `currentMonth`, and one method per handler).

The code has no next-occurrence computation, no background poller, no snooze or complete
actions and no notion of a task's delivery state. The model follows the code, so none of
these appear. Schedule times are opaque strings, as in the code, which never parses or
validates them.

## Model

| member | source | states |
|---|---|---|
| Text.TrimStartSpec | Consistify_App.py:133-134 | leading-whitespace removal keeps a suffix of the input, and every character it drops is whitespace |
| Text.TrimEndSpec | Consistify_App.py:133-134 | trailing-whitespace removal keeps a prefix of the input, and every character it drops is whitespace |
| Text.TrimSpec | Consistify_App.py:133-134 | `strip()` gives the slice of the input that remains once the whitespace before and after it is dropped; the slice has no whitespace at either end and is empty exactly when the input is all whitespace |
| Text.TrimmedIsFixed | Consistify_App.py:220-221 | a string without whitespace at either end is left as it is by `strip()` |
| Text.TrimIdempotent | Consistify_App.py:138-139 | stripping twice equals stripping once |
| Text.TakeWordSpec | Consistify_App.py:201 | the first word is a whitespace-free prefix, followed by whitespace or by the end of the string |
| Text.WordsSpec | Consistify_App.py:201 | `split()` yields no word exactly on all-whitespace input; otherwise the first word is the non-whitespace run after the leading whitespace; every word is non-empty and whitespace-free |
| Text.TakeWordOf | Consistify_App.py:201 | a whitespace-free word followed by whitespace or nothing is taken whole |
| Text.WordsOfWord | Consistify_App.py:207 | a single whitespace-free word splits to just that word |
| Text.WordsSkipSpace | Consistify_App.py:201 | leading whitespace contributes no word to `split()` |
| Text.WordsOfPair | Consistify_App.py:140 | two non-empty whitespace-free words joined by a space split back into the two words |
| Text.LastSpaceSpec | Consistify_App.py:140-207 | the corrected decoder's helper, which splits the l.140 encoding at its last space: the last-space search finds a space exactly when there is one, and no space comes after the one found |
| Schedule.AllDaysListing | Consistify_App.py:102 | the form's day list holds every weekday once, Monday to Sunday |
| Schedule.FilterDaysSpec | Consistify_App.py:136-141 | filtering an ordered day list keeps exactly the days in the key set, in order |
| Schedule.DaysInSpec | Consistify_App.py:136-146 | the Monday-to-Sunday day list of a schedule has exactly its keys, in increasing order |
| Schedule.ScheduleByDay | Consistify_App.py:135-141 | a map with an entry for exactly the checked days, each built from that day's trimmed inputs, is the form's schedule |
| Schedule.BuildSchedule | Consistify_App.py:135-141 | the loop yields exactly the checked days, each mapped to `trim(time) + " " + trim(ampm)`, and inserts the keys Monday to Sunday |
| Schedule.SummaryLayout | Consistify_App.py:146 | the summary has one item per scheduled day, Monday to Sunday, each `day[:3] + ": " + entry`; it starts with the first item and is empty exactly when no day is scheduled |
| Schedule.SummaryExample | Consistify_App.py:146 | a Friday-and-Monday schedule is summarised as `Mon: 9:00 AM, Fri: 5:30 PM` |
| Schedule.DecodeAsWrittenShape | Consistify_App.py:200-207 | the as-written decoder fails exactly on an all-whitespace entry; otherwise time and meridiem are non-empty and whitespace-free |
| Schedule.DecodeAsWrittenRoundTrip | Consistify_App.py:200-207 | a non-empty, whitespace-free time and meridiem, encoded and then decoded as written, come back unchanged |
| Schedule.DecodeAsWrittenDefaultsToAM | Consistify_App.py:140-207 | an entry with no meridiem part decodes to its time and `"AM"`: both a bare time and `time + " "`, the entry stored when the AM/PM box is cleared |
| Schedule.BlankEntryRaises | Consistify_App.py:201-202 | a day ticked with empty time and meridiem is stored as `" "`, and decoding it as written raises IndexError |
| Schedule.SpacedTimeMisread | Consistify_App.py:201-207 | a day ticked with time `9 30` and `PM` is stored as `"9 30 PM"`, decodes as written to time `9`, meridiem `30`, and decodes with the corrected decoder to time `9 30`, meridiem `PM` |
| Schedule.EmptyTimeMisread | Consistify_App.py:201-207 | a day ticked with an empty time and `AM` is stored as `" AM"`, and decodes as written to time `AM`, meridiem `AM` |
| Schedule.DecodeEntryRoundTrip | Consistify_App.py:200-207 | the corrected decoder inverts encoding for any time and any meridiem without a space; an empty meridiem comes back as `"AM"` |
| Schedule.DecodeEntryAgrees | Consistify_App.py:200-207 | wherever the as-written decoder reads an encoded entry right, the corrected decoder reads it the same way |
| Schedule.EditDaysSpec | Consistify_App.py:192-207 | with the corrected decoder, the edit form ticks exactly the scheduled days and fills each with its decoded time and meridiem |
| Schedule.ReopenedEntry | Consistify_App.py:224-229 | with the corrected decoder, an entry read into the edit form and stored again is unchanged when its meridiem is non-empty and space-free |
| Schedule.EntryRoundTrips | Consistify_App.py:138-140 | the entry a checked day stores with an AM/PM-box meridiem decodes (corrected decoder) to trimmed parts that encode back to it |
| Schedule.ReopenedScheduleUnchanged | Consistify_App.py:192-207 | with the corrected decoder, a schedule reopened in the edit form and resubmitted untouched is unchanged, given AM/PM-box meridiems |
| Tasks.Submit | Consistify_App.py:133-144 | a form is refused with TitleRequired exactly when its title is all whitespace; an accepted task is well formed and schedules exactly the checked days |
| Tasks.DescriptionReadBack | Consistify_App.py:178 | a trimmed description written into the text box, read back with Tk's trailing newline and stripped, is unchanged |
| Tasks.ReopenedTaskUnchanged | Consistify_App.py:219-232 | with the corrected decoder, a stored task opened in the edit window and updated untouched is stored again unchanged |
| Tasks.SubmitReopenable | Consistify_App.py:133-144 | a task accepted from a form whose checked days carry AM/PM-box meridiems is reopenable (corrected decoder): well formed, and every entry round-trips through `DecodeEntry` |
| Tasks.ReopenedStoredTask | Consistify_App.py:164-232 | with the corrected decoder, any reopenable task opened in the edit window and updated untouched is stored again unchanged |
| Months.SerialBijection | Consistify_App.py:308-323 | on months 1..12, `12*year + month` and its inverse are mutually inverse |
| Months.Next | Consistify_App.py:317-322 | from a month in 1..12, the next month is in 1..12 and `12*year + month` grows by exactly 1 |
| Months.Prev | Consistify_App.py:308-313 | from a month in 1..12, the previous month is in 1..12 and `12*year + month` shrinks by exactly 1 |
| Months.NextPrevBySerial | Consistify_App.py:308-323 | next and previous month are the successor and predecessor in month order |
| Months.NextPrevInverse | Consistify_App.py:308-323 | on months 1..12, next and previous month undo each other |
| Months.ForwardBySerial | Consistify_App.py:317-322 | n presses of the next-month button move exactly n months later |
| Calendar.MatchingSpec | Consistify_App.py:299-300 | the matching positions are exactly the tasks scheduled on the day, once each, in increasing order |
| Calendar.CellTextSpec | Consistify_App.py:298-301 | a cell has one line per task scheduled on the day; line k is `title + " @ " + time` of the k-th such task |
| App.ConsistifyApp.constructor | Consistify_App.py:14-19 | starts with no task, showing the current month |
| App.ConsistifyApp.HandleAddTask | Consistify_App.py:132-152 | blank title: error, nothing changes; otherwise exactly one task appended, earlier tasks kept, id equal to the new length minus one, row shows title and summary; the new task is reopenable (corrected decoder) when the form's meridiems are AM/PM-box ones |
| App.ConsistifyApp.HandleUpdateTask | Consistify_App.py:219-238 | blank title: error, nothing changes; otherwise only `tasks[index]` replaced, same length, row keeps the index and shows the new summary; the new task is reopenable (corrected decoder) when the form's meridiems are AM/PM-box ones |
| App.ConsistifyApp.OpenEditTaskWindow | Consistify_App.py:164-207 | the edit form holds the task's title, description and per-day prefill; since every stored task is well formed, submitting it untouched is accepted and keeps the title and description; for a task reopenable with the corrected decoder it yields that same task, so a following update leaves `tasks` unchanged |
| App.ConsistifyApp.PrevMonth | Consistify_App.py:308-314 | one month earlier, January going to December of the year before; tasks untouched |
| App.ConsistifyApp.NextMonth | Consistify_App.py:317-323 | one month later, December going to January of the year after; tasks untouched |
| App.ConsistifyApp.CellTaskTexts | Consistify_App.py:298-301 | the loop collects exactly the lines of `CellText`: one per task scheduled on the day, in task-list order |

## Left out

- Widgets: window, frame, Treeview and style construction, `task_tree.insert`/`item`, `window.destroy`, `mainloop`, and clearing the calendar grid. These only display things. Each handler instead returns the Treeview row (item id, title, summary) it would write.
- `print("Task title is required.")` is console output. It becomes the result `Failure(TitleRequired)`, and the task list stays unchanged.
- `datetime.now()` is the clock. The constructor takes the current year and month as a parameter.
- `calendar.Calendar(firstweekday=6).monthdayscalendar` and `date(...).strftime("%A")` are library calls. The cell method takes the date's weekday as a `Weekday` parameter. The locale-dependent day name that `strftime` returns is not modelled, so the model assumes English names.
- The month label and the cell label with its `"\n"`-joined text are display only. `update_custom_calendar` as a whole is left out except for its task-matching loop.
- Years outside 1..9999: `datetime.date` would raise there. The modelled year is an unbounded integer.
- Dictionary order: Python's `dict` keeps insertion order. The model's schedule is a `map`, and `BuildSchedule` returns the insertion order separately. The summary is built over that order, which is proved to be Monday to Sunday.
- Day keys are the `Weekday` values, not the name strings `"Monday"`…`"Sunday"`. The form's inputs are a map from weekday to (checked, time text, AM/PM text).
- `App.ConsistifyApp.OpenEditTaskWindow`, `Schedule.EditDaysSpec`, `Schedule.ReopenedEntry`, `Schedule.ReopenedScheduleUnchanged` and `Tasks.SubmitReopenable` use the corrected decoder, and "reopenable" (`Tasks.Reopenable`) means round-tripping through it (see Findings). As written, the edit window does not keep these round trips: it raises on `" "`, reads `" AM"` back as `AM AM`, and reads `"9 30 PM"` back as time `9`, meridiem `30`. The as-written decoder is modelled by `Schedule.DecodeAsWritten` only.
- `App.ConsistifyApp.HandleUpdateTask` requires `index < |tasks|`, because the index always comes from the item id of a row on screen.
- Whitespace follows the character set of Python's `str.isspace`, written out as a fixed list.
- `Consistify_App.cpp` and `Consistify_App(1).py` are not part of this model. The first is scaffolding with hard-coded sample lists. The second is an earlier version of the app: `add_task` (l.128-155) and a calendar task filter (l.171-182) that writes `title at time` lines, with no update handler or edit window.

## Findings

| source | as written | input that shows it | evidently intended | confidence | as-written member | corrected member |
|---|---|---|---|---|---|---|
| Consistify_App.py:201-202 | the edit window takes `split()[0]` of the stored entry as the time | tick Monday, clear both the time entry and the AM/PM box, add the task: the entry is `" "`, and opening the task raises IndexError | the edit window opens and shows the stored (empty) time | high (not executed) | Schedule.BlankEntryRaises | Schedule.DecodeEntryRoundTrip |
| Consistify_App.py:201-207 | the time is the first word and the meridiem the second word of the whitespace split | tick Monday, clear the time entry, keep `AM`: the entry is `" AM"`, and the edit window puts `AM` in the time box; updating untouched stores `"AM AM"` | reopening and updating a task without changes stores the same task | high (not executed) | Schedule.EmptyTimeMisread | Tasks.ReopenedTaskUnchanged |
| Consistify_App.py:201-207 | the time is the first word of the whitespace split, so a time containing a space is cut at that space | tick Monday, type `9 30` as the time, keep `PM`: the entry is `"9 30 PM"`, and the edit window shows time `9` and meridiem `30` | the edit window shows the stored time `9 30` and meridiem `PM` | high (not executed) | Schedule.SpacedTimeMisread | Schedule.ReopenedEntry |
