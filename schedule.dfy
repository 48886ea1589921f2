/** A task's weekly reminder schedule: the seven weekdays of the add and edit forms,
    the per-day form inputs, the stored text of one entry (`time + " " + meridiem`),
    the decoding of that text back into the edit form, and the one-line summary shown
    in the task list. */
module Schedule {

  import opened Wrappers
  import opened Text

  datatype Weekday = Monday | Tuesday | Wednesday | Thursday | Friday | Saturday | Sunday

  /** The order in which both forms list, and therefore insert, the days. */
  const AllDays: seq<Weekday> := [Monday, Tuesday, Wednesday, Thursday, Friday, Saturday, Sunday]

  /** The position of a day in `AllDays`. */
  function Index(d: Weekday): nat {
    match d
    case Monday => 0
    case Tuesday => 1
    case Wednesday => 2
    case Thursday => 3
    case Friday => 4
    case Saturday => 5
    case Sunday => 6
  }

  /** The day's English name, the key under which the form and the schedule file it. */
  function Name(d: Weekday): string {
    match d
    case Monday => "Monday"
    case Tuesday => "Tuesday"
    case Wednesday => "Wednesday"
    case Thursday => "Thursday"
    case Friday => "Friday"
    case Saturday => "Saturday"
    case Sunday => "Sunday"
  }

  /** `day[:3]`: the first three letters of the name. */
  function Abbrev(d: Weekday): string {
    Name(d)[..3]
  }

  /** The days of `ds` strictly follow the Monday-to-Sunday order. */
  predicate Ascending(ds: seq<Weekday>) {
    forall i, j :: 0 <= i < j < |ds| ==> Index(ds[i]) < Index(ds[j])
  }

  /** `AllDays` lists every weekday once, Monday to Sunday. */
  lemma AllDaysListing()
    ensures forall d: Weekday :: d in AllDays && AllDays[Index(d)] == d
    ensures Ascending(AllDays)
  {
    forall d: Weekday ensures d in AllDays && AllDays[Index(d)] == d {
      match d
      case Monday => assert AllDays[0] == d;
      case Tuesday => assert AllDays[1] == d;
      case Wednesday => assert AllDays[2] == d;
      case Thursday => assert AllDays[3] == d;
      case Friday => assert AllDays[4] == d;
      case Saturday => assert AllDays[5] == d;
      case Sunday => assert AllDays[6] == d;
    }
    assert forall k :: 0 <= k < |AllDays| ==> Index(AllDays[k]) == k;
  }

  /** What the form holds for one day: the check box, the time entry and the AM/PM box. */
  datatype DayInput = DayInput(checked: bool, timeText: string, ampmText: string)

  /** The stored text of one schedule entry: the time, a space, the meridiem. */
  function EncodeEntry(time: string, ampm: string): string {
    time + " " + ampm
  }

  /** The entry a checked day contributes: its time and its meridiem, each trimmed. */
  function EntryOf(input: DayInput): string {
    EncodeEntry(Trim(input.timeText), Trim(input.ampmText))
  }

  /** The days whose check box is ticked. */
  function CheckedDays(days: map<Weekday, DayInput>): set<Weekday> {
    set d | d in days && days[d].checked
  }

  /** The schedule a form describes: one entry per checked day. */
  function ScheduleOf(days: map<Weekday, DayInput>): map<Weekday, string> {
    map d | d in CheckedDays(days) :: EntryOf(days[d])
  }

  /** The days of `ds` that belong to `keys`, in the order of `ds`. */
  function FilterDays(ds: seq<Weekday>, keys: set<Weekday>): seq<Weekday>
    decreases |ds|
  {
    if ds == [] then []
    else
      var rest := FilterDays(ds[..|ds| - 1], keys);
      if ds[|ds| - 1] in keys then rest + [ds[|ds| - 1]] else rest
  }

  /** The days scheduled in `m`, Monday to Sunday. */
  function DaysIn(m: map<Weekday, string>): seq<Weekday> {
    FilterDays(AllDays, m.Keys)
  }

  /** Filtering keeps exactly the days of `ds` that are in `keys`, and keeps their order. */
  lemma {:induction false} FilterDaysSpec(ds: seq<Weekday>, keys: set<Weekday>)
    requires Ascending(ds)
    ensures forall d :: d in FilterDays(ds, keys) <==> d in ds && d in keys
    ensures Ascending(FilterDays(ds, keys))
    decreases |ds|
  {
    if ds != [] {
      var init := ds[..|ds| - 1];
      var last := ds[|ds| - 1];
      assert ds == init + [last];
      FilterDaysSpec(init, keys);
      var rest := FilterDays(init, keys);
      forall i | 0 <= i < |rest| ensures Index(rest[i]) < Index(last) {
        assert rest[i] in rest;
        var j :| 0 <= j < |init| && init[j] == rest[i];
      }
    }
  }

  /** The summary and the calendar see each scheduled day once, Monday to Sunday. */
  lemma DaysInSpec(m: map<Weekday, string>)
    ensures forall d :: d in DaysIn(m) <==> d in m
    ensures Ascending(DaysIn(m))
  {
    AllDaysListing();
    FilterDaysSpec(AllDays, m.Keys);
  }

  /** A schedule that has an entry for exactly the checked days, each the entry that
      day's inputs give, is the schedule of the form. */
  lemma ScheduleByDay(days: map<Weekday, DayInput>, schedule: map<Weekday, string>)
    requires forall d :: d in schedule <==> d in AllDays && d in CheckedDays(days)
    requires forall d :: d in schedule ==> d in days && schedule[d] == EntryOf(days[d])
    ensures schedule.Keys == CheckedDays(days)
    ensures schedule == ScheduleOf(days)
  {
    AllDaysListing();
    assert schedule.Keys == ScheduleOf(days).Keys;
  }

  /** `handle_add_task` and `handle_update_task` fill the schedule by visiting the days
      in form order and storing `time + " " + ampm` (both trimmed) for every checked day.
      `order` lists the keys in the order they were inserted, which is the order Python's
      dictionary iterates them in: it is Monday to Sunday. */
  method BuildSchedule(days: map<Weekday, DayInput>) returns (schedule: map<Weekday, string>, order: seq<Weekday>)
    ensures schedule == ScheduleOf(days)
    ensures order == DaysIn(schedule)
  {
    schedule, order := map[], [];
    var i := 0;
    while i < |AllDays|
      invariant 0 <= i <= |AllDays|
      invariant forall d :: d in schedule <==> d in AllDays[..i] && d in CheckedDays(days)
      invariant forall d :: d in schedule ==> schedule[d] == EntryOf(days[d])
      invariant order == FilterDays(AllDays[..i], CheckedDays(days))
    {
      var day := AllDays[i];
      assert AllDays[..i + 1] == AllDays[..i] + [day];
      if day in days && days[day].checked {
        var timeText := Trim(days[day].timeText);
        var ampm := Trim(days[day].ampmText);
        schedule := schedule[day := EncodeEntry(timeText, ampm)];
        order := order + [day];
      }
      i := i + 1;
    }
    AllDaysListing();
    assert AllDays[..i] == AllDays;
    ScheduleByDay(days, schedule);
  }

  /** The summary items for the days `ks`, in that order: `day[:3] + ": " + entry`. */
  function SummaryItems(m: map<Weekday, string>, ks: seq<Weekday>): (items: seq<string>)
    requires forall k :: k in ks ==> k in m
  {
    seq(|ks|, i requires 0 <= i < |ks| => Abbrev(ks[i]) + ": " + m[ks[i]])
  }

  /** The summary line the task list shows for a schedule whose keys were inserted in
      the order `ks`: the items joined with ", ". */
  function SummaryOver(m: map<Weekday, string>, ks: seq<Weekday>): string
    requires forall k :: k in ks ==> k in m
  {
    Join(", ", SummaryItems(m, ks))
  }

  /** The summary of a schedule filled in form order. */
  function Summary(m: map<Weekday, string>): string {
    DaysInSpec(m);
    SummaryOver(m, DaysIn(m))
  }

  /** The summary has one item per scheduled day, Monday to Sunday, each the day's
      three-letter abbreviation, ": ", and that day's entry. It starts with the first
      scheduled day's item, and it is empty exactly when nothing is scheduled. */
  lemma SummaryLayout(m: map<Weekday, string>)
    ensures forall d :: d in DaysIn(m) <==> d in m
    ensures Ascending(DaysIn(m))
    ensures |SummaryItems(m, DaysIn(m))| == |DaysIn(m)|
    ensures forall k :: 0 <= k < |DaysIn(m)| ==>
              SummaryItems(m, DaysIn(m))[k] == Abbrev(DaysIn(m)[k]) + ": " + m[DaysIn(m)[k]]
    ensures DaysIn(m) != [] ==> SummaryItems(m, DaysIn(m))[0] <= Summary(m)
    ensures Summary(m) == [] <==> m == map[]
  {
    DaysInSpec(m);
    var items := SummaryItems(m, DaysIn(m));
    if DaysIn(m) != [] {
      assert items[0] <= Join(", ", items);
      assert |items[0]| >= 3;
    } else {
      assert forall d :: d !in m;
      assert m == map[];
    }
  }

  /** Filtering the week by Friday and Monday yields Monday first. */
  lemma MondayFridayDays(keys: set<Weekday>)
    requires keys == {Friday, Monday}
    ensures FilterDays(AllDays, keys) == [Monday, Friday]
  {
    assert AllDays[..1] == [Monday];
    assert FilterDays(AllDays[..1], keys) == [Monday];
    assert AllDays[..2][..1] == AllDays[..1];
    assert FilterDays(AllDays[..2], keys) == [Monday];
    assert AllDays[..3][..2] == AllDays[..2];
    assert FilterDays(AllDays[..3], keys) == [Monday];
    assert AllDays[..4][..3] == AllDays[..3];
    assert FilterDays(AllDays[..4], keys) == [Monday];
    assert AllDays[..5][..4] == AllDays[..4];
    assert FilterDays(AllDays[..5], keys) == [Monday, Friday];
    assert AllDays[..6][..5] == AllDays[..5];
    assert FilterDays(AllDays[..6], keys) == [Monday, Friday];
    assert AllDays[..6] == AllDays[..|AllDays| - 1];
  }

  /** The summary items of the Monday-and-Friday schedule, Monday first. */
  lemma MondayFridayItems(m: map<Weekday, string>)
    requires m == map[Friday := "5:30 PM", Monday := "9:00 AM"]
    ensures SummaryItems(m, [Monday, Friday]) == ["Mon: 9:00 AM", "Fri: 5:30 PM"]
  {
    var items := SummaryItems(m, [Monday, Friday]);
    assert items[0] == "Mon: 9:00 AM" by {
      assert Abbrev(Monday) == "Mon";
    }
    assert items[1] == "Fri: 5:30 PM" by {
      assert Abbrev(Friday) == "Fri";
    }
  }

  /** A schedule for Friday and Monday is summarised Monday first, whatever order the
      entries are given in. */
  lemma SummaryExample()
    ensures Summary(map[Friday := "5:30 PM", Monday := "9:00 AM"]) == "Mon: 9:00 AM, Fri: 5:30 PM"
  {
    var m := map[Friday := "5:30 PM", Monday := "9:00 AM"];
    assert m.Keys == {Friday, Monday};
    MondayFridayDays(m.Keys);
    MondayFridayItems(m);
    JoinPair(", ", ["Mon: 9:00 AM", "Fri: 5:30 PM"]);
  }

  /** What the as-written decoder raises when `split()` yields no word: `parts[0]`
      does not exist. */
  datatype DecodeError = IndexError

  /** The edit window's reading of a stored entry, as written: split on whitespace, take
      the first word as the time (raising when there is none) and the second as the
      meridiem, defaulting to "AM" when there is no second word. */
  function DecodeAsWritten(entry: string): (r: Result<(string, string), DecodeError>)
  {
    var parts := Words(entry);
    if |parts| == 0 then Failure(IndexError)
    else Success((parts[0], if |parts| > 1 then parts[1] else "AM"))
  }

  /** The as-written decoder returns a whitespace-free time and meridiem, and fails
      exactly on an entry made of whitespace only. */
  lemma DecodeAsWrittenShape(entry: string)
    ensures DecodeAsWritten(entry).Failure? <==> Trim(entry) == []
    ensures DecodeAsWritten(entry).Success? ==>
              DecodeAsWritten(entry).value.0 != [] && NoSpace(DecodeAsWritten(entry).value.0)
              && DecodeAsWritten(entry).value.1 != [] && NoSpace(DecodeAsWritten(entry).value.1)
  {
    TrimSpec(entry);
    TrimStartSpec(entry);
    WordsSpec(entry);
    var t := TrimStart(entry);
    if t != [] {
      assert entry[|entry| - |t|] == t[0];
    } else {
      assert TrimEnd(t) == [];
    }
    assert NoSpace("AM");
  }

  /** Encoding a non-empty, whitespace-free time and meridiem and decoding the result as
      written gives the pair back. */
  lemma DecodeAsWrittenRoundTrip(time: string, ampm: string)
    requires time != [] && NoSpace(time)
    requires ampm != [] && NoSpace(ampm)
    ensures DecodeAsWritten(EncodeEntry(time, ampm)) == Success((time, ampm))
  {
    WordsOfPair(time, ampm);
  }

  /** An entry with no meridiem part decodes to its time and "AM": both a bare time and
      the entry stored when the AM/PM box is cleared, the time followed by one space. */
  lemma DecodeAsWrittenDefaultsToAM(time: string)
    requires time != [] && NoSpace(time)
    ensures DecodeAsWritten(time) == Success((time, "AM"))
    ensures DecodeAsWritten(EncodeEntry(time, "")) == Success((time, "AM"))
  {
    WordsOfWord(time);
    var e := EncodeEntry(time, "");
    assert e == time + " ";
    assert TrimStart(e) == e;
    TakeWordOf(time, " ");
    assert e[|time|..] == " ";
    assert " " == [' '] + "";
    WordsSkipSpace(' ', "");
    assert Words(e) == [time] + Words(" ");
  }

  /** The empty string trims to itself. */
  lemma EmptyTrim()
    ensures Trim("") == ""
  {
    assert TrimStart("") == "";
    assert TrimEnd("") == "";
  }

  /** A day ticked with both the time and the meridiem left empty is stored as " ";
      reopening the task then raises `IndexError` in the edit window. */
  lemma BlankEntryRaises()
    ensures EntryOf(DayInput(true, "", "")) == " "
    ensures DecodeAsWritten(EntryOf(DayInput(true, "", ""))) == Failure(IndexError)
  {
    EmptyTrim();
    assert EntryOf(DayInput(true, "", "")) == [' '] + "";
    WordsSkipSpace(' ', "");
    assert DecodeAsWritten(" ") == Failure(IndexError);
  }

  /** A day ticked with the time left empty is stored as " AM"; reopening the task puts
      "AM" into the time box, and updating the task untouched stores "AM AM". */
  lemma EmptyTimeMisread()
    ensures EntryOf(DayInput(true, "", "AM")) == " AM"
    ensures DecodeAsWritten(EntryOf(DayInput(true, "", "AM"))) == Success(("AM", "AM"))
    ensures EntryOf(DayInput(true, "AM", "AM")) == "AM AM"
  {
    EmptyTrim();
    TrimmedIsFixed("AM");
    assert EntryOf(DayInput(true, "", "AM")) == [' '] + "AM";
    WordsSkipSpace(' ', "AM");
    WordsOfWord("AM");
    assert DecodeAsWritten(" AM") == Success(("AM", "AM"));
  }

  /** The entry stored for a day ticked with time "9 30" and meridiem "PM". */
  lemma SpacedTimeEntry()
    ensures EntryOf(DayInput(true, "9 30", "PM")) == "9 30 PM"
  {
    TrimmedIsFixed("9 30");
    TrimmedIsFixed("PM");
  }

  /** The whitespace split of "9 30 PM" has three words. */
  lemma SpacedTimeWords()
    ensures Words("9 30 PM") == ["9", "30", "PM"]
  {
    assert "9 30 PM" == "9" + " " + "30" + " " + "PM";
    assert NoSpace("9") && NoSpace("30") && NoSpace("PM");
    WordsOfTriple("9", "30", "PM");
  }

  /** A day ticked with a time typed as "9 30" and meridiem "PM" is stored as "9 30 PM";
      reopening the task puts "9" into the time box and "30" into the AM/PM box, while the
      corrected decoder reads back ("9 30", "PM"). */
  lemma SpacedTimeMisread()
    ensures EntryOf(DayInput(true, "9 30", "PM")) == "9 30 PM"
    ensures DecodeAsWritten(EntryOf(DayInput(true, "9 30", "PM"))) == Success(("9", "30"))
    ensures DecodeEntry(EntryOf(DayInput(true, "9 30", "PM"))) == ("9 30", "PM")
  {
    SpacedTimeEntry();
    SpacedTimeWords();
    assert EncodeEntry("9 30", "PM") == "9 30 PM";
    DecodeEntryRoundTrip("9 30", "PM");
  }

  /** The edit window's reading of a stored entry, corrected: the entry was built as
      `time + " " + ampm`, so it is split at its last space; the meridiem defaults to
      "AM" when it is empty or when there is no space at all. */
  function DecodeEntry(entry: string): (string, string) {
    match LastSpace(entry)
    case None => (entry, "AM")
    case Some(k) => (entry[..k], if entry[k + 1..] == [] then "AM" else entry[k + 1..])
  }

  /** Decoding inverts encoding for every time and every meridiem without a space
      character; an empty meridiem comes back as "AM". */
  lemma DecodeEntryRoundTrip(time: string, ampm: string)
    requires ' ' !in ampm
    ensures DecodeEntry(EncodeEntry(time, ampm)) == (time, if ampm == [] then "AM" else ampm)
  {
    var e := EncodeEntry(time, ampm);
    LastSpaceSpec(e);
    assert e[|time|] == ' ';
    assert forall j :: |time| < j < |e| ==> e[j] == ampm[j - |time| - 1];
    assert LastSpace(e) == Some(|time|);
    assert e[..|time|] == time;
    assert e[|time| + 1..] == ampm;
  }

  /** Wherever the as-written decoder reads an encoded entry correctly, the corrected one
      reads it the same way. */
  lemma DecodeEntryAgrees(time: string, ampm: string)
    requires time != [] && NoSpace(time)
    requires ampm != [] && NoSpace(ampm)
    ensures DecodeAsWritten(EncodeEntry(time, ampm)) == Success(DecodeEntry(EncodeEntry(time, ampm)))
  {
    DecodeAsWrittenRoundTrip(time, ampm);
    assert ' ' !in ampm by { assert IsSpace(' '); }
    DecodeEntryRoundTrip(time, ampm);
  }

  /** The edit form's inputs for a stored schedule: a scheduled day is ticked, with its
      decoded time and meridiem; any other day shows the "HH:MM" placeholder and "AM". */
  function EditDays(schedule: map<Weekday, string>): map<Weekday, DayInput> {
    map d | d in AllDays ::
      if d in schedule then DayInput(true, DecodeEntry(schedule[d]).0, DecodeEntry(schedule[d]).1)
      else DayInput(false, "HH:MM", "AM")
  }

  /** A meridiem as the AM/PM box offers it: non-empty and without spaces. */
  predicate MeridiemOk(ampm: string) {
    ampm != [] && ' ' !in ampm
  }

  /** The edit form ticks exactly the scheduled days and fills each with its decoded
      time and meridiem. */
  lemma EditDaysSpec(schedule: map<Weekday, string>)
    ensures CheckedDays(EditDays(schedule)) == schedule.Keys
    ensures forall d :: d in schedule ==>
              d in EditDays(schedule)
              && EditDays(schedule)[d] == DayInput(true, DecodeEntry(schedule[d]).0, DecodeEntry(schedule[d]).1)
  {
    AllDaysListing();
  }

  /** A stored entry that the edit form reads back and stores again unchanged: its decoded
      time and meridiem have no whitespace at either end and encode back to it. */
  predicate RoundTrips(entry: string) {
    var p := DecodeEntry(entry);
    Trimmed(p.0) && Trimmed(p.1) && EncodeEntry(p.0, p.1) == entry
  }

  /** The entry a checked day stores round-trips, for a meridiem the AM/PM box offers. */
  lemma EntryRoundTrips(input: DayInput)
    requires MeridiemOk(Trim(input.ampmText))
    ensures RoundTrips(EntryOf(input))
  {
    var t := Trim(input.timeText);
    var a := Trim(input.ampmText);
    DecodeEntryRoundTrip(t, a);
    TrimSpec(input.timeText);
    TrimSpec(input.ampmText);
  }

  /** Re-reading one stored entry into the form and storing it again gives the same
      entry, for a meridiem the AM/PM box offers. */
  lemma ReopenedEntry(input: DayInput)
    requires MeridiemOk(Trim(input.ampmText))
    ensures EntryOf(DayInput(true, DecodeEntry(EntryOf(input)).0, DecodeEntry(EntryOf(input)).1)) == EntryOf(input)
  {
    var t := Trim(input.timeText);
    var a := Trim(input.ampmText);
    DecodeEntryRoundTrip(t, a);
    TrimIdempotent(input.timeText);
    TrimIdempotent(input.ampmText);
  }

  /** One checked day of a reopened schedule is stored again with its old entry. */
  lemma ReopenedDay(days: map<Weekday, DayInput>, d: Weekday)
    requires d in CheckedDays(days) && MeridiemOk(Trim(days[d].ampmText))
    ensures EditDays(ScheduleOf(days))[d].checked
    ensures EntryOf(EditDays(ScheduleOf(days))[d]) == ScheduleOf(days)[d]
  {
    var s := ScheduleOf(days);
    EditDaysSpec(s);
    ReopenedEntry(days[d]);
  }

  /** Two maps with the same keys and the same value at each key are equal. */
  lemma SameMap(a: map<Weekday, string>, b: map<Weekday, string>)
    requires a.Keys == b.Keys
    requires forall k :: k in a ==> a[k] == b[k]
    ensures a == b
  {
  }

  /** Reopening a schedule in the edit form and submitting it untouched stores the same
      schedule, provided every checked day's meridiem is one the AM/PM box offers. */
  lemma ReopenedScheduleUnchanged(days: map<Weekday, DayInput>)
    requires forall d :: d in CheckedDays(days) ==> MeridiemOk(Trim(days[d].ampmText))
    ensures ScheduleOf(EditDays(ScheduleOf(days))) == ScheduleOf(days)
  {
    var s := ScheduleOf(days);
    var e := EditDays(s);
    EditDaysSpec(s);
    var r := ScheduleOf(e);
    assert r.Keys == s.Keys;
    forall d | d in s ensures r[d] == s[d] {
      ReopenedDay(days, d);
    }
    SameMap(r, s);
  }
}
