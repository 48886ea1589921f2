/** The application object: its task list and the month its calendar tab shows, with the
    handlers of the add and edit windows, the edit window's prefill, the month
    navigation buttons and the task lines of a calendar cell. */
module App {

  import opened Wrappers
  import opened Text
  import opened Schedule
  import opened Tasks
  import opened Months
  import opened Calendar

  /** The row a handler writes into the task list view: its item id (the task's index)
      and the two columns, title and schedule summary. */
  datatype TreeRow = TreeRow(iid: nat, title: string, summary: string)

  class ConsistifyApp {
    var tasks: seq<Task>
    var currentYear: int
    var currentMonth: int

    /** Every stored task is well formed and the month number is one of 1..12. */
    ghost predicate Valid()
      reads this
    {
      Months.Valid(Shown()) && forall i :: 0 <= i < |tasks| ==> WellFormed(tasks[i])
    }

    /** The month the calendar tab shows. */
    function Shown(): YearMonth
      reads this
    {
      YearMonth(currentYear, currentMonth)
    }

    /** Starts with no task, showing the current month (the clock is a parameter). */
    constructor (now: YearMonth)
      requires Months.Valid(now)
      ensures Valid()
      ensures tasks == [] && Shown() == now
    {
      tasks := [];
      currentYear := now.year;
      currentMonth := now.month;
    }

    /** `handle_add_task`: with a title that is not blank, appends the form's task at the
        end, its index becoming its item id; with a blank title, changes nothing. */
    method HandleAddTask(form: TaskForm) returns (r: Result<TreeRow, FormError>)
      requires Valid()
      modifies this
      ensures Valid()
      ensures Shown() == old(Shown())
      ensures r.Failure? <==> AllSpace(form.title)
      ensures r.Failure? ==> r.error == TitleRequired && tasks == old(tasks)
      ensures r.Success? ==>
                && tasks == old(tasks) + [Submit(form).value]
                && r.value.iid == |tasks| - 1
                && r.value.title == tasks[r.value.iid].title
                && r.value.summary == Summary(tasks[r.value.iid].schedule)
      ensures r.Success? && (forall d :: d in CheckedDays(form.days) ==> MeridiemOk(Trim(form.days[d].ampmText))) ==>
                Reopenable(tasks[|tasks| - 1])
    {
      var title := Trim(form.title);
      var description := Trim(form.description);
      var schedule, order := BuildSchedule(form.days);
      DaysInSpec(schedule);
      TrimSpec(form.title);
      TrimSpec(form.description);
      if title != [] {
        var task := Task(title, description, schedule);
        tasks := tasks + [task];
        r := Success(TreeRow(|tasks| - 1, title, SummaryOver(schedule, order)));
        if forall d :: d in CheckedDays(form.days) ==> MeridiemOk(Trim(form.days[d].ampmText)) {
          SubmitReopenable(form);
        }
      } else {
        r := Failure(TitleRequired);
      }
    }

    /** `handle_update_task`: with a title that is not blank, replaces the task at
        `index` and nothing else; with a blank title, changes nothing. */
    method HandleUpdateTask(index: nat, form: TaskForm) returns (r: Result<TreeRow, FormError>)
      requires Valid()
      requires index < |tasks|
      modifies this
      ensures Valid()
      ensures Shown() == old(Shown())
      ensures |tasks| == |old(tasks)|
      ensures r.Failure? <==> AllSpace(form.title)
      ensures r.Failure? ==> r.error == TitleRequired && tasks == old(tasks)
      ensures r.Success? ==>
                && tasks == old(tasks)[index := Submit(form).value]
                && (forall i :: 0 <= i < |tasks| && i != index ==> tasks[i] == old(tasks)[i])
                && r.value == TreeRow(index, tasks[index].title, Summary(tasks[index].schedule))
      ensures r.Success? && (forall d :: d in CheckedDays(form.days) ==> MeridiemOk(Trim(form.days[d].ampmText))) ==>
                Reopenable(tasks[index])
    {
      var title := Trim(form.title);
      var description := Trim(form.description);
      var schedule, order := BuildSchedule(form.days);
      DaysInSpec(schedule);
      TrimSpec(form.title);
      TrimSpec(form.description);
      if title != [] {
        tasks := tasks[index := Task(title, description, schedule)];
        r := Success(TreeRow(index, title, SummaryOver(schedule, order)));
        if forall d :: d in CheckedDays(form.days) ==> MeridiemOk(Trim(form.days[d].ampmText)) {
          SubmitReopenable(form);
        }
      } else {
        r := Failure(TitleRequired);
      }
    }

    /** `open_edit_task_window`: the form prefilled from the task at `index`, one day at
        a time in form order. Submitting it untouched is accepted and keeps the task's
        title and description, whatever its schedule. */
    method OpenEditTaskWindow(index: nat) returns (form: TaskForm)
      requires Valid()
      requires index < |tasks|
      ensures form == EditForm(tasks[index])
      ensures Submit(form).Success?
      ensures Submit(form).value.title == tasks[index].title
      ensures Submit(form).value.description == tasks[index].description
      ensures Reopenable(tasks[index]) ==> Submit(form) == Success(tasks[index])
    {
      var task := tasks[index];
      var days: map<Weekday, DayInput> := map[];
      var i := 0;
      while i < |AllDays|
        invariant 0 <= i <= |AllDays|
        invariant forall d :: d in days <==> d in AllDays[..i]
        invariant forall d :: d in days ==> days[d] == EditDays(task.schedule)[d]
      {
        var day := AllDays[i];
        if day in task.schedule {
          var parts := DecodeEntry(task.schedule[day]);
          days := days[day := DayInput(true, parts.0, parts.1)];
        } else {
          days := days[day := DayInput(false, "HH:MM", "AM")];
        }
        i := i + 1;
      }
      assert AllDays[..i] == AllDays;
      assert days == EditDays(task.schedule);
      form := TaskForm(task.title, task.description + "\n", days);
      TrimmedIsFixed(task.title);
      DescriptionReadBack(task.description);
      if Reopenable(task) {
        ReopenedStoredTask(task);
      }
    }

    /** `prev_month`: one month back, January wrapping to December of the year before. */
    method PrevMonth()
      requires Valid()
      modifies this
      ensures Valid()
      ensures Shown() == Prev(old(Shown())) && tasks == old(tasks)
      ensures Serial(Shown()) == Serial(old(Shown())) - 1
      ensures old(currentMonth) == 1 ==> currentMonth == 12 && currentYear == old(currentYear) - 1
    {
      if currentMonth == 1 {
        currentMonth := 12;
        currentYear := currentYear - 1;
      } else {
        currentMonth := currentMonth - 1;
      }
    }

    /** `next_month`: one month on, December wrapping to January of the year after. */
    method NextMonth()
      requires Valid()
      modifies this
      ensures Valid()
      ensures Shown() == Next(old(Shown())) && tasks == old(tasks)
      ensures Serial(Shown()) == Serial(old(Shown())) + 1
      ensures old(currentMonth) == 12 ==> currentMonth == 1 && currentYear == old(currentYear) + 1
    {
      if currentMonth == 12 {
        currentMonth := 1;
        currentYear := currentYear + 1;
      } else {
        currentMonth := currentMonth + 1;
      }
    }

    /** The loop of `update_custom_calendar` that collects a cell's lines: one
        `title @ time` line for every task scheduled on `day`, in task-list order. */
    method CellTaskTexts(day: Weekday) returns (taskTexts: seq<string>)
      ensures taskTexts == CellText(tasks, day)
      ensures |taskTexts| == |Matching(tasks, day)|
      ensures forall k :: 0 <= k < |taskTexts| ==>
                Matching(tasks, day)[k] < |tasks| && day in tasks[Matching(tasks, day)[k]].schedule
                && taskTexts[k] == CellLine(tasks[Matching(tasks, day)[k]], day)
    {
      taskTexts := [];
      var i := 0;
      while i < |tasks|
        invariant 0 <= i <= |tasks|
        invariant taskTexts == CellText(tasks[..i], day)
      {
        var task := tasks[i];
        assert tasks[..i + 1][..i] == tasks[..i];
        if day in task.schedule {
          taskTexts := taskTexts + [task.title + " @ " + task.schedule[day]];
        }
        i := i + 1;
      }
      assert tasks[..i] == tasks;
      CellTextSpec(tasks, day);
    }
  }
}
