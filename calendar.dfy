/** The text of one calendar cell: a line `title @ time` for every task that has a reminder
    on the cell's weekday, in task-list order. */
module Calendar {

  import opened Schedule
  import opened Tasks

  /** The line a task contributes to a cell for day `d`. */
  function CellLine(t: Task, d: Weekday): string
    requires d in t.schedule
  {
    t.title + " @ " + t.schedule[d]
  }

  /** The cell's lines for day `d`, built as the loop over the task list builds them. */
  function CellText(tasks: seq<Task>, d: Weekday): seq<string>
    decreases |tasks|
  {
    if tasks == [] then []
    else
      var last := tasks[|tasks| - 1];
      CellText(tasks[..|tasks| - 1], d) + (if d in last.schedule then [CellLine(last, d)] else [])
  }

  /** The positions in `tasks` of the tasks scheduled on day `d`, in increasing order. */
  function Matching(tasks: seq<Task>, d: Weekday): seq<nat>
    decreases |tasks|
  {
    if tasks == [] then []
    else
      var n := |tasks| - 1;
      Matching(tasks[..n], d) + (if d in tasks[n].schedule then [n] else [])
  }

  /** `Matching` lists every task scheduled on `d`, and no other, once each, in order. */
  lemma {:induction false} MatchingSpec(tasks: seq<Task>, d: Weekday)
    ensures forall i :: i in Matching(tasks, d) <==> 0 <= i < |tasks| && d in tasks[i].schedule
    ensures forall a, b :: 0 <= a < b < |Matching(tasks, d)| ==> Matching(tasks, d)[a] < Matching(tasks, d)[b]
    decreases |tasks|
  {
    if tasks != [] {
      var n := |tasks| - 1;
      MatchingSpec(tasks[..n], d);
      var m := Matching(tasks[..n], d);
      forall a | 0 <= a < |m| ensures m[a] < n {
        assert m[a] in m;
      }
      assert forall i :: 0 <= i < n ==> tasks[..n][i] == tasks[i];
    }
  }

  /** The cell holds exactly one line per task scheduled on `d`, in task-list order:
      line `k` is `title @ time` of the `k`-th such task. */
  lemma {:induction false} CellTextSpec(tasks: seq<Task>, d: Weekday)
    ensures |CellText(tasks, d)| == |Matching(tasks, d)|
    ensures forall k :: 0 <= k < |CellText(tasks, d)| ==>
              Matching(tasks, d)[k] < |tasks| && d in tasks[Matching(tasks, d)[k]].schedule
              && CellText(tasks, d)[k] == CellLine(tasks[Matching(tasks, d)[k]], d)
    decreases |tasks|
  {
    if tasks != [] {
      var n := |tasks| - 1;
      CellTextSpec(tasks[..n], d);
      MatchingSpec(tasks[..n], d);
      assert forall i :: 0 <= i < n ==> tasks[..n][i] == tasks[i];
    }
  }
}
