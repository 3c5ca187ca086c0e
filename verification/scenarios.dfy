/**
 * Worked examples: the standup calendar around the Ascension holiday of
 * 2021, the deduplication example, and the queries of a Monday report.
 */
module Scenarios {
  import opened Dates
  import opened BusinessCalendar
  import opened Filters
  import opened Dedup
  import opened Standup

  /** Day numbers of Friday 2021-05-14 and Monday 2021-05-17 (Sunday is weekday 0). */
  lemma MayDayNumbers()
    ensures DaysFromCivil(Civil(2021, 5, 14)) == 18761 && Weekday(18761) == 5
    ensures DaysFromCivil(Civil(2021, 5, 17)) == 18764 && Weekday(18764) == 1
  {
    DaysIn2021(5, 14);
    DaysIn2021(5, 17);
  }

  /** On Monday 2021-05-17 the previous working day is Friday 2021-05-14, across a weekend gap. */
  lemma MondayAfterWeekend(cal: WorkingCalendar)
    requires HasStandupRule(cal)
    ensures PreviousWorkingDay(cal, 18764) == 18761
    ensures HasNonWorkingGap(18761, 18764)
  {
    assert 1 in cal.workingWeekdays;
    PreviousWorkingDayUnique(cal, 18764, 18761);
  }

  /** On Tuesday 2021-05-18 the previous working day is the day before, with no gap. */
  lemma TuesdayAfterMonday(cal: WorkingCalendar)
    requires HasStandupRule(cal)
    ensures PreviousWorkingDay(cal, 18765) == 18764
    ensures !HasNonWorkingGap(18764, 18765)
  {
    assert 1 in cal.workingWeekdays;
    PreviousWorkingDayUnique(cal, 18765, 18764);
  }

  /** On Friday 2021-05-14 the holiday of Thursday 2021-05-13 is skipped back to Wednesday 2021-05-12. */
  lemma FridayAfterHoliday(cal: WorkingCalendar)
    requires HasStandupRule(cal)
    ensures PreviousWorkingDay(cal, 18761) == 18759
    ensures HasNonWorkingGap(18759, 18761)
  {
    assert 1 in cal.workingWeekdays;
    assert HolidayNumbers[5] == 18760;
    assert IsWorkingDay(cal, 18759);
    assert !IsWorkingDay(cal, 18760);
    PreviousWorkingDayUnique(cal, 18761, 18759);
  }

  /** Due A, B, C with B completed today leaves A, C. */
  lemma CompletedNameDropped()
    ensures Without(["A", "B", "C"], ["B"]) == ["A", "C"]
  {
    assert ["A", "B", "C"][..2] == ["A", "B"] && ["A", "B"][..1] == ["A"];
  }

  /** The report's text of the day number of a valid date is that date's text. */
  lemma DayTextOf(z: int, c: Civil)
    requires Valid(c) && DaysFromCivil(c) == z
    ensures DayText(z) == FormatDisplay(c)
  {
    CivilRoundTrip(c);
  }

  /** Monday 2021-05-17 is written `17/05/2021`. */
  lemma MondayDisplay()
    ensures FormatDisplay(Civil(2021, 5, 17)) == "17/05/2021"
  {
  }

  /** Friday 2021-05-14 is written `14/05/2021`. */
  lemma FridayDisplay()
    ensures FormatDisplay(Civil(2021, 5, 14)) == "14/05/2021"
  {
  }

  /**
   * The texts of Monday 2021-05-17 and Friday 2021-05-14. The day numbers are
   * parameters pinned by a `requires`, so the verifier does not evaluate the
   * date conversion of a literal in full.
   */
  lemma MondayTexts(monday: int, friday: int)
    requires monday == 18764 && friday == 18761
    ensures DayText(monday) == "17/05/2021" && DayText(friday) == "14/05/2021"
  {
    MayDayNumbers();
    MondayDisplay();
    FridayDisplay();
    DayTextOf(monday, Civil(2021, 5, 17));
    DayTextOf(friday, Civil(2021, 5, 14));
  }

  /**
   * A report on Monday 2021-05-17 with filter words `list:Work` widens the
   * previous-day query across the weekend back to Friday 2021-05-14.
   */
  lemma MondayReportQueries(cal: WorkingCalendar, inv: Invocation)
    requires HasStandupRule(cal) && inv == Invocation([["list:Work"]], 18764)
    ensures var p := MakePlan(cal, inv);
            p.previousQuery == "list:Work" + " completedBefore:" + "17/05/2021" + " completedAfter:" + "14/05/2021"
            && p.todayQuery == "list:Work" + " completed:" + "17/05/2021"
            && p.dueQuery == "list:Work" + " due:" + "17/05/2021"
  {
    MondayAfterWeekend(cal);
    assert !IsWorkingDay(cal, inv.today - 1);
    var p := MakePlan(cal, inv);
    PlanTexts(cal, inv);
    MondayTexts(inv.today, p.previous);
    assert p.filter == "list:Work";
    assert p.todayText == "17/05/2021" && p.previousText == "14/05/2021";
  }
}
