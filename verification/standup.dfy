/**
 * The standup command: resolve the report's dates and queries, then run
 * the three task queries in sequence, printing each section as its query
 * succeeds and stopping at the first failure.
 */
module Standup {
  import opened Options
  import opened Dates
  import opened BusinessCalendar
  import opened Filters
  import opened Dedup
  import opened Render

  /** The line printed before any query is issued. */
  const Greeting := "Standup update from @Luis Cipriani:\n"

  /**
   * A command invocation: the positional arguments (the first one holds the
   * filter words) and the reference date as a day number.
   */
  datatype Invocation = Invocation(args: seq<seq<string>>, today: int)

  /** The dates, texts and queries an invocation resolves to before any query runs. */
  datatype Plan = Plan(
    filter: string,
    todayText: string,
    previous: int,
    previousText: string,
    previousQuery: string,
    todayQuery: string,
    dueQuery: string)

  /** A day's text contains no space, so it stays one word of a query. */
  lemma DayTextIsOneWord(z: int)
    ensures HasNoSpace(DayText(z))
  {
    DayTextCharacters(z);
  }

  /**
   * Resolves the previous working day, the widening decision and the three
   * queries. Each query is the filter followed by its date constraints, and
   * read as space-separated words it is the filter's words followed by one
   * word per constraint: `completed:` on the previous working day when
   * yesterday was a working day, otherwise a `completedBefore:` today and a
   * `completedAfter:` the previous working day that bound the whole
   * non-working gap; then `completed:` and `due:` on today.
   */
  function MakePlan(cal: WorkingCalendar, inv: Invocation): (p: Plan)
    requires HasWorkingWeekday(cal)
    ensures p.filter == CallerFilter(inv.args)
    ensures p.previous < inv.today && IsWorkingDay(cal, p.previous)
    ensures forall k :: p.previous < k < inv.today ==> !IsWorkingDay(cal, k)
    ensures HasNoSpace(p.todayText) && HasNoSpace(p.previousText)
    ensures IsWorkingDay(cal, inv.today - 1) ==>
              p.previous == inv.today - 1
              && p.previousQuery == p.filter + " completed:" + p.previousText
              && SplitAtSpaces(p.previousQuery) == SplitAtSpaces(p.filter) + ["completed:" + p.previousText]
    ensures !IsWorkingDay(cal, inv.today - 1) ==>
              p.previousQuery == p.filter + " completedBefore:" + p.todayText + " completedAfter:" + p.previousText
              && SplitAtSpaces(p.previousQuery)
                 == SplitAtSpaces(p.filter) + ["completedBefore:" + p.todayText, "completedAfter:" + p.previousText]
    ensures p.todayQuery == p.filter + " completed:" + p.todayText
    ensures SplitAtSpaces(p.todayQuery) == SplitAtSpaces(p.filter) + ["completed:" + p.todayText]
    ensures p.dueQuery == p.filter + " due:" + p.todayText
    ensures SplitAtSpaces(p.dueQuery) == SplitAtSpaces(p.filter) + ["due:" + p.todayText]
  {
    var filter := CallerFilter(inv.args);
    var todayText := DayText(inv.today);
    var prev := PreviousWorkingDay(cal, inv.today);
    var prevText := DayText(prev);
    GapMeansNonWorkingYesterday(cal, inv.today);
    PreviousWorkingDayStep(cal, inv.today);
    DayTextIsOneWord(inv.today);
    DayTextIsOneWord(prev);
    CompletedQueryText(filter, todayText);
    DueQueryText(filter, todayText);
    CompletedQueryWords(filter, todayText);
    DueQueryWords(filter, todayText);
    CompletedQueryWords(filter, prevText);
    WidenedQueryWords(filter, todayText, prevText);
    Plan(filter, todayText, prev, prevText,
         PreviousDayQuery(filter, todayText, prevText, HasNonWorkingGap(prev, inv.today)),
         TypedFilter(filter, "completed", todayText),
         TypedFilter(filter, "due", todayText))
  }

  /** The plan's dates are written as the `DD/MM/YYYY` texts of today and of the previous working day. */
  lemma PlanTexts(cal: WorkingCalendar, inv: Invocation)
    requires HasWorkingWeekday(cal)
    ensures var p := MakePlan(cal, inv);
            p.todayText == DayText(inv.today) && p.previousText == DayText(p.previous)
  {
  }

  /** The header of the previous-work-day section. */
  function PreviousHeader(p: Plan): string
  {
    "*What you did in the previous work day?* (" + p.previousText + ")"
  }

  /** The header of the today section; the due bullets follow its bullets directly. */
  function TodayHeader(p: Plan): string
  {
    "*What you will do today?* (" + p.todayText + ")"
  }

  /**
   * The lines printed when the previous-work-day query succeeds: its
   * header, one bullet per task, then an empty line.
   */
  function PreviousSection(p: Plan, completed: seq<string>): seq<string>
  {
    [PreviousHeader(p)] + Bullets(completed) + [""]
  }

  /** The lines printed when the today query succeeds: its header and one bullet per task. */
  function TodaySection(p: Plan, doneToday: seq<string>): seq<string>
  {
    [TodayHeader(p)] + Bullets(doneToday)
  }

  /** What the command has done so far: the queries it issued and the lines it printed. */
  datatype Output = Output(queries: seq<string>, lines: seq<string>)

  /**
   * The command's nested callbacks: the result of each query decides
   * whether its section is printed and the next query is issued.
   */
  function Report(p: Plan, previous: Option<seq<string>>, completedToday: Option<seq<string>>,
                  due: Option<seq<string>>): (out: Output)
    ensures |out.lines| >= 1 && out.lines[0] == Greeting
    ensures previous.None? ==> out.queries == [p.previousQuery] && out.lines == [Greeting]
    ensures previous.Some? && completedToday.None? ==>
              out.queries == [p.previousQuery, p.todayQuery]
              && out.lines == [Greeting] + PreviousSection(p, previous.value)
    ensures previous.Some? && completedToday.Some? ==>
              out.queries == [p.previousQuery, p.todayQuery, p.dueQuery]
    ensures previous.Some? && completedToday.Some? && due.None? ==>
              out.lines == [Greeting] + PreviousSection(p, previous.value) + TodaySection(p, completedToday.value)
    ensures previous.Some? && completedToday.Some? && due.Some? ==>
              out.lines == [Greeting] + PreviousSection(p, previous.value) + TodaySection(p, completedToday.value)
                           + Bullets(Without(due.value, completedToday.value))
  {
    var start := Output([p.previousQuery], [Greeting]);
    match previous
    case None => start
    case Some(completed) =>
      var afterPrevious := Output(start.queries + [p.todayQuery], start.lines + PreviousSection(p, completed));
      match completedToday
      case None => afterPrevious
      case Some(doneToday) =>
        var afterToday := Output(afterPrevious.queries + [p.dueQuery],
                                 afterPrevious.lines + TodaySection(p, doneToday));
        match due
        case None => afterToday
        case Some(dueToday) =>
          Output(afterToday.queries, afterToday.lines + Bullets(Without(dueToday, doneToday)))
  }

  /** A failed due query prints exactly what an empty due list would. */
  lemma DueFailurePrintsNoBullets(p: Plan, previous: seq<string>, completedToday: seq<string>)
    ensures Report(p, Some(previous), Some(completedToday), None)
            == Report(p, Some(previous), Some(completedToday), Some([]))
  {
    assert Bullets(Without([], completedToday)) == [];
  }

  /** The due bullets come right after the today section, and list the due tasks not completed today. */
  lemma DueBulletsFollowToday(p: Plan, previous: seq<string>, completedToday: seq<string>, due: seq<string>)
    ensures Report(p, Some(previous), Some(completedToday), Some(due)).lines
            == Report(p, Some(previous), Some(completedToday), None).lines + Bullets(Without(due, completedToday))
  {
  }

  /** The progress of the command as a state machine driven by query results. */
  datatype State =
    | QueryingPrevious(out: Output)
    | QueryingToday(out: Output)
    | QueryingDue(out: Output, completedToday: seq<string>)
    | Done(out: Output)
    | Failed(out: Output)
  {
    /** No query is pending any more. */
    predicate IsFinal()
    {
      Done? || Failed?
    }

    /** How many queries are still to be answered, the pending one included. */
    function QueriesLeft(): nat
    {
      match this
      case QueryingPrevious(_) => 3
      case QueryingToday(_) => 2
      case QueryingDue(_, _) => 1
      case Done(_) => 0
      case Failed(_) => 0
    }
  }

  /** Before any result: the greeting is printed and the previous-work-day query is pending. */
  function Start(p: Plan): (s: State)
    ensures s.QueryingPrevious? && s.QueriesLeft() == 3
    ensures s.out.queries == [p.previousQuery] && s.out.lines == [Greeting]
  {
    QueryingPrevious(Output([p.previousQuery], [Greeting]))
  }

  /**
   * The pending query's result arrives: on success its section is printed
   * and the next query issued, on failure the run stops where it is.
   */
  function Step(p: Plan, s: State, result: Option<seq<string>>): (t: State)
    ensures s.IsFinal() ==> t == s
    ensures !s.IsFinal() ==> t.IsFinal() || t.QueriesLeft() == s.QueriesLeft() - 1
    ensures result.None? ==> t.IsFinal() && t.out == s.out
    ensures !s.IsFinal() && result.Some? ==> !t.Failed? && t.QueriesLeft() == s.QueriesLeft() - 1
    ensures s.out.lines <= t.out.lines && s.out.queries <= t.out.queries
    ensures s.QueryingPrevious? && result.Some? ==>
              t.out.queries == s.out.queries + [p.todayQuery]
              && t.out.lines == s.out.lines + PreviousSection(p, result.value)
    ensures s.QueryingToday? && result.Some? ==>
              t.out.queries == s.out.queries + [p.dueQuery]
              && t.out.lines == s.out.lines + TodaySection(p, result.value)
              && t.completedToday == result.value
    ensures s.QueryingDue? && result.Some? ==>
              t.Done? && t.out.queries == s.out.queries
              && t.out.lines == s.out.lines + Bullets(Without(result.value, s.completedToday))
  {
    match s
    case QueryingPrevious(out) =>
      (match result
       case None => Failed(out)
       case Some(completed) =>
         QueryingToday(Output(out.queries + [p.todayQuery], out.lines + PreviousSection(p, completed))))
    case QueryingToday(out) =>
      (match result
       case None => Failed(out)
       case Some(doneToday) =>
         QueryingDue(Output(out.queries + [p.dueQuery], out.lines + TodaySection(p, doneToday)),
                     doneToday))
    case QueryingDue(out, doneToday) =>
      (match result
       case None => Failed(out)
       case Some(dueToday) => Done(Output(out.queries, out.lines + Bullets(Without(dueToday, doneToday)))))
    case Done(_) => s
    case Failed(_) => s
  }

  /** The state after the given query results arrive in order. */
  function Run(p: Plan, results: seq<Option<seq<string>>>): (s: State)
    ensures s.IsFinal() || s.QueriesLeft() == 3 - |results|
    ensures |results| >= 3 ==> s.IsFinal()
  {
    if results == [] then Start(p)
    else Step(p, Run(p, results[..|results| - 1]), results[|results| - 1])
  }

  /** The state machine and the nested callbacks issue the same queries and print the same lines. */
  lemma RunMatchesReport(p: Plan, r1: Option<seq<string>>, r2: Option<seq<string>>, r3: Option<seq<string>>)
    ensures Run(p, [r1, r2, r3]).out == Report(p, r1, r2, r3)
    ensures Run(p, [r1, r2, r3]).Failed? <==> r1.None? || r2.None? || r3.None?
  {
    var rs := [r1, r2, r3];
    assert rs[..2] == [r1, r2] && [r1, r2][..1] == [r1] && [r1][..0] == [];
    var s1 := Step(p, Start(p), r1);
    assert Run(p, [r1]) == s1;
    var s2 := Step(p, s1, r2);
    assert Run(p, [r1, r2]) == s2;
    assert Run(p, rs) == Step(p, s2, r3);
  }

  /** Output only grows: whatever a shorter run printed or issued, a longer one did too. */
  lemma {:induction false} OutputGrows(p: Plan, results: seq<Option<seq<string>>>, k: nat)
    requires k <= |results|
    ensures Run(p, results[..k]).out.lines <= Run(p, results).out.lines
    ensures Run(p, results[..k]).out.queries <= Run(p, results).out.queries
  {
    if k < |results| {
      var n := |results| - 1;
      assert results[..n][..k] == results[..k];
      OutputGrows(p, results[..n], k);
    } else {
      assert results[..k] == results;
    }
  }

  /**
   * After a failed query nothing more happens: no further query is issued
   * and nothing more is printed, whatever results would follow.
   */
  lemma {:induction false} NothingAfterFailure(p: Plan, results: seq<Option<seq<string>>>, i: nat)
    requires i < |results| && results[i].None?
    ensures Run(p, results).IsFinal()
    ensures Run(p, results).out == Run(p, results[..i]).out
  {
    if i < |results| - 1 {
      var n := |results| - 1;
      assert results[..n][i] == results[i];
      assert results[..n][..i] == results[..i];
      NothingAfterFailure(p, results[..n], i);
    } else {
      assert results[..|results| - 1] == results[..i];
    }
  }
}
