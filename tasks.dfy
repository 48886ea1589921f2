/** A task as the application stores it, the add/edit form it is read from, and the
    validation both handlers apply before storing anything. */
module Tasks {

  import opened Wrappers
  import opened Text
  import opened Schedule

  /** One stored task: the record `{"title", "description", "reminder_schedule"}`. */
  datatype Task = Task(title: string, description: string, schedule: map<Weekday, string>)

  /** What a handler reads from the add or edit window: the title entry, the text of the
      description box (as `get("1.0", END)` returns it) and the per-day inputs. */
  datatype TaskForm = TaskForm(title: string, description: string, days: map<Weekday, DayInput>)

  /** The only reason a handler refuses a form. */
  datatype FormError = TitleRequired

  /** A stored task has a non-empty title and neither its title nor its description has
      whitespace at either end. */
  predicate WellFormed(t: Task) {
    t.title != [] && Trimmed(t.title) && Trimmed(t.description)
  }

  /** The task a form describes, or `TitleRequired` when the title is empty once trimmed.
      The refusal happens exactly when the title entry holds whitespace only, and an
      accepted task is well formed and schedules exactly the checked days. */
  function Submit(form: TaskForm): (r: Result<Task, FormError>)
    ensures r.Failure? <==> AllSpace(form.title)
    ensures r.Success? ==> WellFormed(r.value)
    ensures r.Success? ==> r.value.schedule.Keys == CheckedDays(form.days)
  {
    TrimSpec(form.title);
    TrimSpec(form.description);
    var title := Trim(form.title);
    if title == [] then Failure(TitleRequired)
    else Success(Task(title, Trim(form.description), ScheduleOf(form.days)))
  }

  /** The edit window for a task: the title entry holds the title, the description box
      the description (Tk's text widget reads back with a trailing newline), and the days
      are prefilled from the schedule. */
  function EditForm(t: Task): TaskForm {
    TaskForm(t.title, t.description + "\n", EditDays(t.schedule))
  }

  /** Reading back a trimmed description from the text box gives it unchanged. */
  lemma DescriptionReadBack(d: string)
    requires Trimmed(d)
    ensures Trim(d + "\n") == d
  {
    var s := d + "\n";
    if d == [] {
      assert s == ['\n'];
      assert TrimStart(s) == TrimStart(s[1..]);
    } else {
      assert TrimStart(s) == s;
      assert s[..|s| - 1] == d;
      assert TrimEnd(d) == d;
    }
  }

  /** A stored task that survives a reopen-and-update untouched: well formed, and every
      entry of its schedule round-trips through the corrected edit form (`DecodeEntry`). */
  predicate Reopenable(t: Task) {
    WellFormed(t) && forall d :: d in t.schedule ==> RoundTrips(t.schedule[d])
  }

  /** A task accepted from a form whose checked days carry AM/PM-box meridiems is
      reopenable. */
  lemma SubmitReopenable(form: TaskForm)
    requires Submit(form).Success?
    requires forall d :: d in CheckedDays(form.days) ==> MeridiemOk(Trim(form.days[d].ampmText))
    ensures Reopenable(Submit(form).value)
  {
    var s := Submit(form).value.schedule;
    forall d | d in s ensures RoundTrips(s[d]) {
      EntryRoundTrips(form.days[d]);
    }
  }

  /** Opening a reopenable task in the edit window and pressing "Update Task" without
      touching anything stores the same task again. */
  lemma ReopenedStoredTask(t: Task)
    requires Reopenable(t)
    ensures Submit(EditForm(t)) == Success(t)
  {
    TrimmedIsFixed(t.title);
    DescriptionReadBack(t.description);
    var e := EditDays(t.schedule);
    EditDaysSpec(t.schedule);
    var r := ScheduleOf(e);
    assert r.Keys == t.schedule.Keys;
    forall d | d in t.schedule ensures r[d] == t.schedule[d] {
      var p := DecodeEntry(t.schedule[d]);
      TrimmedIsFixed(p.0);
      TrimmedIsFixed(p.1);
    }
    SameMap(r, t.schedule);
  }

  /** Opening a stored task in the edit window and pressing "Update Task" without
      touching anything stores the same task again, provided every checked day's
      meridiem was one the AM/PM box offers. */
  lemma ReopenedTaskUnchanged(form: TaskForm, t: Task)
    requires Submit(form) == Success(t)
    requires forall d :: d in CheckedDays(form.days) ==> MeridiemOk(Trim(form.days[d].ampmText))
    ensures Submit(EditForm(t)) == Success(t)
  {
    TrimmedIsFixed(t.title);
    DescriptionReadBack(t.description);
    ReopenedScheduleUnchanged(form.days);
  }
}
