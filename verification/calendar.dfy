/**
 * The business calendar: which days are working days, and the previous
 * working day before a reference date (moment-business-days' `isBusinessDay`
 * and `businessSubtract(1)`, as configured by the standup command).
 */
module BusinessCalendar {
  import opened Options
  import opened Dates

  /**
   * The working-day rule as an immutable value: the working weekdays
   * (0 = Sunday ... 6 = Saturday) and the holidays as day numbers.
   */
  datatype WorkingCalendar = WorkingCalendar(workingWeekdays: set<int>, holidays: set<int>)

  /** A working day has a working weekday and is not a holiday. */
  predicate IsWorkingDay(cal: WorkingCalendar, z: int)
    ensures z in cal.holidays ==> !IsWorkingDay(cal, z)
    ensures cal.workingWeekdays == MondayToFriday && IsWorkingDay(cal, z) ==> Weekday(z) != 0 && Weekday(z) != 6
  {
    Weekday(z) in cal.workingWeekdays && z !in cal.holidays
  }

  /** Some day of the week is a working weekday; otherwise no day is a working day. */
  predicate HasWorkingWeekday(cal: WorkingCalendar)
  {
    exists w :: 0 <= w <= 6 && w in cal.workingWeekdays
  }

  predicate IsLowerBound(b: int, s: set<int>)
  {
    forall h :: h in s ==> b <= h
  }

  /** Every finite set of day numbers has a lower bound. */
  lemma {:induction false} FiniteSetBoundedBelow(s: set<int>)
    ensures exists b :: IsLowerBound(b, s)
  {
    if s == {} {
      assert IsLowerBound(0, s);
    } else {
      if forall x :: x !in s {
        assert false;
      }
      var e :| e in s;
      FiniteSetBoundedBelow(s - {e});
      var b :| IsLowerBound(b, s - {e});
      var m := if e < b then e else b;
      forall x | x in s
        ensures m <= x
      {
        if x != e {
          assert x in s - {e};
        }
      }
      assert IsLowerBound(m, s);
    }
  }

  /**
   * A day no later than `d` such that some working day lies between it and `d`:
   * a whole week below every holiday and below `d` holds a day of each weekday.
   */
  ghost function SearchFloor(cal: WorkingCalendar, d: int): (lo: int)
    requires HasWorkingWeekday(cal)
    ensures lo <= d && exists k :: lo <= k <= d && IsWorkingDay(cal, k)
  {
    FiniteSetBoundedBelow(cal.holidays);
    var b :| IsLowerBound(b, cal.holidays);
    var w :| 0 <= w <= 6 && w in cal.workingWeekdays;
    var lo := (if b - 7 < d - 6 then b - 7 else d - 6);
    var k := DayWithWeekday(lo, w);
    assert IsWorkingDay(cal, k);
    lo
  }

  /**
   * Steps back from `d` one day at a time until it meets a working day;
   * `lo` is a ghost floor below which the search never goes.
   */
  function StepBack(cal: WorkingCalendar, d: int, ghost lo: int): (r: int)
    requires lo <= d && exists k :: lo <= k <= d && IsWorkingDay(cal, k)
    ensures lo <= r <= d && IsWorkingDay(cal, r)
    ensures forall k :: r < k <= d ==> !IsWorkingDay(cal, k)
    decreases d - lo
  {
    if IsWorkingDay(cal, d) then d else StepBack(cal, d - 1, lo)
  }

  /**
   * The previous working day before `today` (`businessSubtract(1)`): the
   * latest working day strictly before `today`.
   */
  function PreviousWorkingDay(cal: WorkingCalendar, today: int): (p: int)
    requires HasWorkingWeekday(cal)
    ensures p < today && IsWorkingDay(cal, p)
    ensures forall k :: p < k < today ==> !IsWorkingDay(cal, k)
  {
    StepBack(cal, today - 1, SearchFloor(cal, today - 1))
  }

  /** The previous working day is the only working day before `today` with no working day after it. */
  lemma PreviousWorkingDayUnique(cal: WorkingCalendar, today: int, p: int)
    requires HasWorkingWeekday(cal)
    requires p < today && IsWorkingDay(cal, p)
    requires forall k :: p < k < today ==> !IsWorkingDay(cal, k)
    ensures p == PreviousWorkingDay(cal, today)
  {
  }

  /**
   * One step of the backward walk: if yesterday is a working day it is the
   * answer, otherwise the answer is the one for yesterday.
   */
  lemma PreviousWorkingDayStep(cal: WorkingCalendar, today: int)
    requires HasWorkingWeekday(cal)
    ensures IsWorkingDay(cal, today - 1) ==> PreviousWorkingDay(cal, today) == today - 1
    ensures !IsWorkingDay(cal, today - 1) ==>
              PreviousWorkingDay(cal, today) == PreviousWorkingDay(cal, today - 1)
  {
    if !IsWorkingDay(cal, today - 1) {
      var p := PreviousWorkingDay(cal, today - 1);
      PreviousWorkingDayUnique(cal, today, p);
    } else {
      PreviousWorkingDayUnique(cal, today, today - 1);
    }
  }

  /** Milliseconds in a day, the unit of moment's `diff`. */
  const MillisPerDay := 86_400_000

  /** Milliseconds from the midnight of day `earlier` to that of day `later`. */
  function DiffMillis(later: int, earlier: int): int
  {
    (later - earlier) * MillisPerDay
  }

  /**
   * The widening test: the calendar day before `today` is at least one
   * millisecond after the previous working day.
   */
  predicate HasNonWorkingGap(prev: int, today: int)
    ensures HasNonWorkingGap(prev, today) <==> today - prev >= 2
  {
    DiffMillis(today - 1, prev) >= 1
  }

  /**
   * There is a gap exactly when at least one calendar day lies strictly
   * between the previous working day and `today`, and for the previous
   * working day that happens exactly when yesterday was not a working day.
   */
  lemma GapMeansNonWorkingYesterday(cal: WorkingCalendar, today: int)
    requires HasWorkingWeekday(cal)
    ensures HasNonWorkingGap(PreviousWorkingDay(cal, today), today)
            <==> today - PreviousWorkingDay(cal, today) >= 2
    ensures HasNonWorkingGap(PreviousWorkingDay(cal, today), today)
            <==> !IsWorkingDay(cal, today - 1)
  {
    PreviousWorkingDayStep(cal, today);
  }

  /** The working weekdays the command configures: Monday to Friday. */
  const MondayToFriday: set<int> := {1, 2, 3, 4, 5}

  /** The holiday list the command configures, as calendar dates. */
  const HolidayDates: seq<Civil> := [
    Civil(2021, 3, 8), Civil(2021, 4, 2), Civil(2021, 4, 4), Civil(2021, 4, 5),
    Civil(2021, 5, 1), Civil(2021, 5, 13), Civil(2021, 5, 24), Civil(2021, 10, 3),
    Civil(2021, 12, 25), Civil(2021, 12, 26)]

  /** The `YYYY-MM-DD` texts of a list of dates. */
  function IsoTexts(dates: seq<Civil>): (texts: seq<string>)
    ensures |texts| == |dates|
    ensures forall i :: 0 <= i < |dates| ==> texts[i] == FormatIso(dates[i])
  {
    seq(|dates|, i requires 0 <= i < |dates| => FormatIso(dates[i]))
  }

  /** The holiday list as the command writes it, one `YYYY-MM-DD` text per holiday. */
  function HolidayTexts(): seq<string>
  {
    IsoTexts(HolidayDates)
  }

  /** Two zero-padded digits of a number below 100: its tens, then its units. */
  lemma TwoDigits(n: nat)
    requires n <= 99
    ensures FixedDigits(n, 2) == [DigitChar(n / 10), DigitChar(n % 10)]
  {
    var tens := n / 10;
    assert tens < 10 && tens / 10 == 0 && tens % 10 == tens;
    assert FixedDigits(tens, 1) == FixedDigits(0, 0) + [DigitChar(tens)];
    assert FixedDigits(n, 2) == FixedDigits(tens, 1) + [DigitChar(n % 10)];
  }

  /** The `YYYY-MM-DD` text of a date of 2021, given the digits of its month and day. */
  lemma Iso2021(c: Civil, m1: nat, m0: nat, d1: nat, d0: nat)
    requires m1 <= 9 && m0 <= 9 && d1 <= 9 && d0 <= 9
    requires c == Civil(2021, 10 * m1 + m0, 10 * d1 + d0)
    ensures FormatIso(c) == ['2', '0', '2', '1', '-', DigitChar(m1), DigitChar(m0), '-', DigitChar(d1), DigitChar(d0)]
  {
    assert YearText(c.year) == "2021";
    TwoDigits(c.month);
    TwoDigits(c.day);
  }

  /** The holiday list exactly as the command writes it. */
  const HolidayTextsAsWritten: seq<string> := [
    "2021-03-08", "2021-04-02", "2021-04-04", "2021-04-05", "2021-05-01",
    "2021-05-13", "2021-05-24", "2021-10-03", "2021-12-25", "2021-12-26"]

  /**
   * The texts of the listed holiday dates, passed as `dates`, are the command's holiday strings.
   * Here and below, a constant is passed as a parameter pinned by a `requires` so that the
   * verifier reasons about it symbolically instead of evaluating the literal in full.
   */
  lemma IsoTextsWritten(dates: seq<Civil>)
    requires dates == HolidayDates
    ensures IsoTexts(dates) == HolidayTextsAsWritten
  {
    Iso2021(dates[0], 0, 3, 0, 8);
    Iso2021(dates[1], 0, 4, 0, 2);
    Iso2021(dates[2], 0, 4, 0, 4);
    Iso2021(dates[3], 0, 4, 0, 5);
    Iso2021(dates[4], 0, 5, 0, 1);
    Iso2021(dates[5], 0, 5, 1, 3);
    Iso2021(dates[6], 0, 5, 2, 4);
    Iso2021(dates[7], 1, 0, 0, 3);
    Iso2021(dates[8], 1, 2, 2, 5);
    Iso2021(dates[9], 1, 2, 2, 6);
  }

  /** The texts of the listed holiday dates are the command's holiday strings, in order. */
  lemma HolidayTextsWritten()
    ensures HolidayTexts() == HolidayTextsAsWritten
  {
    IsoTextsWritten(HolidayDates);
  }

  /**
   * The day numbers of the entries of a holiday list that name a date of the
   * calendar; an entry such as `2021-02-30` names no day.
   */
  function HolidayDays(texts: seq<string>): (days: set<int>)
    ensures forall t :: t in texts && ParseIso(t).Some? && Valid(ParseIso(t).value) ==>
              DaysFromCivil(ParseIso(t).value) in days
  {
    set t | t in texts && ParseIso(t).Some? && Valid(ParseIso(t).value) :: DaysFromCivil(ParseIso(t).value)
  }

  /** A holiday list whose one entry is the text of a non-date names no holiday. */
  lemma NonDateIgnored(texts: seq<string>, c: Civil)
    requires !Valid(c) && 0 <= c.year <= 9999 && c.month <= 99 && c.day <= 99
    requires texts == [FormatIso(c)]
    ensures HolidayDays(texts) == {}
  {
    IsoRoundTrip(c);
  }

  /** The entry `2021-02-30` names no day, so it adds no holiday. */
  lemma February30Ignored(t: string)
    requires t == "2021-02-30"
    ensures HolidayDays([t]) == {}
  {
    var c := Civil(2021, 2, 30);
    Iso2021(c, 0, 2, 3, 0);
    assert DaysInMonth(2021, 2) == 28;
    NonDateIgnored([t], c);
  }

  /** The calendar of the standup command. */
  function StandupCalendar(): (cal: WorkingCalendar)
    ensures HasWorkingWeekday(cal)
  {
    assert 1 in MondayToFriday;
    WorkingCalendar(MondayToFriday, HolidayDays(HolidayTexts()))
  }

  /** Dates of the calendar whose texts read back unchanged: years 0..9999. */
  predicate PrintableDates(dates: seq<Civil>)
  {
    forall i :: 0 <= i < |dates| ==> Valid(dates[i]) && 0 <= dates[i].year <= 9999
  }

  /** A holiday list written from dates denotes exactly the day numbers of those dates. */
  lemma IsoHolidayDays(dates: seq<Civil>)
    requires PrintableDates(dates)
    ensures HolidayDays(IsoTexts(dates)) == set i | 0 <= i < |dates| :: DaysFromCivil(dates[i])
  {
    var texts := IsoTexts(dates);
    forall x | x in HolidayDays(texts)
      ensures x in set i | 0 <= i < |dates| :: DaysFromCivil(dates[i])
    {
      var t :| t in texts && ParseIso(t).Some? && Valid(ParseIso(t).value) && DaysFromCivil(ParseIso(t).value) == x;
      var i :| 0 <= i < |texts| && texts[i] == t;
      ValidBounds(dates[i]);
      IsoRoundTrip(dates[i]);
      assert ParseIso(t).value == dates[i];
    }
    forall i | 0 <= i < |dates|
      ensures DaysFromCivil(dates[i]) in HolidayDays(texts)
    {
      var t := texts[i];
      ValidBounds(dates[i]);
      IsoRoundTrip(dates[i]);
      assert ParseIso(t) == Some(dates[i]) && Valid(dates[i]);
      assert t in texts;
    }
  }

  /** The configured holidays are exactly the listed dates. */
  lemma StandupHolidays()
    ensures StandupCalendar().holidays == set i | 0 <= i < |HolidayDates| :: DaysFromCivil(HolidayDates[i])
  {
    HolidayDatesPrintable(HolidayDates);
    IsoHolidayDays(HolidayDates);
  }

  /** Every listed holiday is a date of the calendar in a four-digit year. */
  lemma HolidayDatesPrintable(dates: seq<Civil>)
    requires dates == HolidayDates
    ensures PrintableDates(dates)
  {
    assert DaysInMonth(2021, 3) == 31 && DaysInMonth(2021, 4) == 30 && DaysInMonth(2021, 5) == 31;
    assert DaysInMonth(2021, 10) == 31 && DaysInMonth(2021, 12) == 31;
  }

  /** The day numbers of the listed holidays. */
  const HolidayNumbers: seq<int> := [18694, 18719, 18721, 18722, 18748, 18760, 18771, 18903, 18986, 18987]

  /** From March on, the days of 2021 are numbered from 18687, the number of 2021-03-01. */
  lemma DaysIn2021(month: nat, day: nat)
    requires 3 <= month <= 12
    ensures DaysFromCivil(Civil(2021, month, day)) == 18687 + DaysBeforeMonth(month) + day - 1
  {
  }

  /** Each listed holiday date has the day number at the same position of `HolidayNumbers`. */
  lemma HolidayDatesNumbers()
    ensures forall i :: 0 <= i < |HolidayDates| ==> DaysFromCivil(HolidayDates[i]) == HolidayNumbers[i]
  {
    forall i | 0 <= i < |HolidayDates|
      ensures DaysFromCivil(HolidayDates[i]) == HolidayNumbers[i]
    {
      DaysIn2021(HolidayDates[i].month, HolidayDates[i].day);
    }
  }

  /** A day is a configured holiday exactly when it is one of the listed day numbers. */
  lemma StandupHolidayNumbers(z: int)
    ensures z in StandupCalendar().holidays <==> z in HolidayNumbers
  {
    StandupHolidays();
    HolidayDatesNumbers();
    if z in StandupCalendar().holidays {
      var i :| 0 <= i < |HolidayDates| && DaysFromCivil(HolidayDates[i]) == z;
      assert z == HolidayNumbers[i];
    }
    if z in HolidayNumbers {
      var i :| 0 <= i < |HolidayNumbers| && HolidayNumbers[i] == z;
      assert DaysFromCivil(HolidayDates[i]) == z;
    }
  }

  /**
   * The rule the standup command configures: Monday to Friday, except the
   * listed holidays.
   */
  ghost predicate HasStandupRule(cal: WorkingCalendar)
  {
    cal.workingWeekdays == MondayToFriday
    && forall z :: z in cal.holidays <==> z in HolidayNumbers
  }

  /** The configured calendar follows the standup rule, so the rule's consequences apply to it. */
  lemma StandupCalendarRule()
    ensures HasStandupRule(StandupCalendar())
  {
    forall z
      ensures z in StandupCalendar().holidays <==> z in HolidayNumbers
    {
      StandupHolidayNumbers(z);
    }
  }
}
