/**
 * Calendar dates for the standup report.
 *
 * A date is modelled as an integer day number: day 0 is 1970-01-01 and
 * consecutive calendar days have consecutive numbers (`CivilFromDaysNext`). The proleptic
 * Gregorian conversion in both directions follows the well-known
 * "days from civil" / "civil from days" era arithmetic (eras of 400 years,
 * years starting on the 1st of March), in which every division is by a
 * positive constant, so Dafny's Euclidean `/` coincides with floor division.
 */
module Dates {
  import opened Options

  /** A calendar date as year, month (1..12) and day of month. */
  datatype Civil = Civil(year: int, month: nat, day: nat)

  /** Days in one 400-year era of the Gregorian calendar. */
  const DaysPerEra := 146097
  /** Day number of 0000-03-01, the first day of era 0. */
  const EraShift := 719468

  /** Days since the 1st of March before the first day of (1-based) month `m`. */
  function DaysBeforeMonth(m: int): int
  {
    var mp := if m > 2 then m - 3 else m + 9;
    (153 * mp + 2) / 5
  }

  /** Gregorian leap years: every 4th year, except centuries not divisible by 400. */
  predicate IsLeapYear(y: int)
  {
    y % 4 == 0 && (y % 100 != 0 || y % 400 == 0)
  }

  function DaysInMonth(y: int, m: int): int
    requires 1 <= m <= 12
  {
    if m == 2 then (if IsLeapYear(y) then 29 else 28)
    else if m == 4 || m == 6 || m == 9 || m == 11 then 30
    else 31
  }

  /** A date that exists in the calendar. */
  predicate Valid(c: Civil)
  {
    1 <= c.month <= 12 && 1 <= c.day <= DaysInMonth(c.year, c.month)
  }

  /** A date of the calendar has a month of 1..12 and a day of 1..31. */
  lemma ValidBounds(c: Civil)
    requires Valid(c)
    ensures 1 <= c.month <= 12 && 1 <= c.day <= 31
  {
  }

  /** Day number of a civil date (1970-01-01 is day 0). */
  function DaysFromCivil(c: Civil): int
  {
    var y := if c.month <= 2 then c.year - 1 else c.year;
    var era := y / 400;
    var yoe := y - era * 400;
    var doy := DaysBeforeMonth(c.month) + c.day - 1;
    var doe := yoe * 365 + yoe / 4 - yoe / 100 + doy;
    era * DaysPerEra + doe - EraShift
  }

  /** Day of the 400-year era whose year-of-era is `yoe`, on the 1st of March. */
  function YearStart(yoe: int): int
  {
    yoe * 365 + yoe / 4 - yoe / 100
  }

  /**
   * Length of year `yoe` of an era, counted from the 1st of March: it holds
   * the 29th of February of the following calendar year when that one is leap.
   */
  function YearLength(yoe: int): int
  {
    if (yoe + 1) % 4 == 0 && ((yoe + 1) % 100 != 0 || yoe == 399) then 366 else 365
  }

  /**
   * The year of era that contains day of era `doe`. An era is three
   * centuries of 36524 days and a last one of 36525; a century is made of
   * four-year blocks of 1461 days (the last block of the first three
   * centuries is one day shorter); a block is three years of 365 days and
   * a leap year of 366, whose extra day is the block's last.
   */
  function YearOfEra(doe: int): (yoe: int)
    requires 0 <= doe < DaysPerEra
    ensures 0 <= yoe <= 399
    ensures YearStart(yoe) <= doe < YearStart(yoe) + YearLength(yoe)
  {
    var cent := if doe / 36524 == 4 then 3 else doe / 36524;
    var inCent := doe - cent * 36524;
    var quad := inCent / 1461;
    var inQuad := inCent - quad * 1461;
    var yr := if inQuad / 365 == 4 then 3 else inQuad / 365;
    var yoe := 100 * cent + 4 * quad + yr;
    assert yoe / 4 == 25 * cent + quad;
    assert yoe / 100 == cent;
    yoe
  }

  /**
   * Month and day of a day of the March-based year `doy` (0 = 1st of March):
   * months are counted from March, `(153 * mp + 2) / 5` days precede month `mp`.
   */
  function MonthOfYear(doy: int): (md: (int, int))
    requires 0 <= doy <= 365
    ensures 1 <= md.0 <= 12 && 1 <= md.1 <= 31
    ensures DaysBeforeMonth(md.0) + md.1 - 1 == doy
  {
    var mp := (5 * doy + 2) / 153;
    var d := doy - (153 * mp + 2) / 5 + 1;
    (if mp < 10 then mp + 3 else mp - 9, d)
  }

  /** A shifted day number split into its 400-year era and its day within the era. */
  function SplitEra(shifted: int): (ed: (int, int))
    ensures 0 <= ed.1 < DaysPerEra && ed.0 * DaysPerEra + ed.1 == shifted
  {
    (shifted / DaysPerEra, shifted % DaysPerEra)
  }

  /** Civil date of day `doe` of 400-year era `era` (day 0 = 1st of March of the era's first year). */
  function CivilOfEraDay(era: int, doe: int): (c: Civil)
    requires 0 <= doe < DaysPerEra
    ensures 1 <= c.month <= 12 && 1 <= c.day <= 31
  {
    var yoe := YearOfEra(doe);
    var md := MonthOfYear(doe - YearStart(yoe));
    var y := yoe + era * 400;
    Civil(if md.0 <= 2 then y + 1 else y, md.0, md.1)
  }

  /** Civil date of a day number; inverse of DaysFromCivil. */
  function CivilFromDays(z: int): (c: Civil)
    ensures 1 <= c.month <= 12 && 1 <= c.day <= 31
  {
    var ed := SplitEra(z + EraShift);
    CivilOfEraDay(ed.0, ed.1)
  }

  /** The civil date of a day of an era has that day's number. */
  lemma CivilOfEraDayNumber(era: int, doe: int)
    requires 0 <= doe < DaysPerEra
    ensures DaysFromCivil(CivilOfEraDay(era, doe)) == era * DaysPerEra + doe - EraShift
  {
    var yoe := YearOfEra(doe);
    var c := CivilOfEraDay(era, doe);
    assert (if c.month <= 2 then c.year - 1 else c.year) == era * 400 + yoe;
    DaysFromCivilInEra(c, era, yoe);
  }

  /** Every day number names a date that converts back to it. */
  lemma CivilFromDaysNumber(z: int)
    ensures DaysFromCivil(CivilFromDays(z)) == z
  {
    var ed := SplitEra(z + EraShift);
    CivilOfEraDayNumber(ed.0, ed.1);
  }

  /** Consecutive years of an era follow each other without gap or overlap. */
  lemma YearStartNext(k: int)
    requires 0 <= k < 399
    ensures YearStart(k + 1) == YearStart(k) + YearLength(k)
  {
  }

  /** Later years of an era start later. */
  lemma YearStartMonotone(a: int, b: int)
    requires 0 <= a <= b
    ensures YearStart(a) + (b - a) * 364 <= YearStart(b)
  {
  }

  /** A day of year `yoe` lies in no other year of the era. */
  lemma YearOfEraOfStart(yoe: int, doy: int, doe: int)
    requires 0 <= yoe <= 399 && 0 <= doy < YearLength(yoe) && doe == YearStart(yoe) + doy
    ensures 0 <= doe < DaysPerEra
    ensures YearOfEra(doe) == yoe
  {
    YearStartMonotone(yoe, 399);
    var other := YearOfEra(doe);
    if other < yoe {
      YearStartNext(other);
      YearStartMonotone(other + 1, yoe);
    } else if yoe < other {
      YearStartNext(yoe);
      YearStartMonotone(yoe + 1, other);
    }
  }

  /** A day of a March-based year names its month and day of month uniquely. */
  lemma MonthOfYearOf(month: int, day: int, leap: bool)
    requires 1 <= month <= 12
    requires 1 <= day <= (if month == 2 then (if leap then 29 else 28)
                          else if month == 4 || month == 6 || month == 9 || month == 11 then 30
                          else 31)
    ensures 0 <= DaysBeforeMonth(month) + day - 1 <= 365
    ensures MonthOfYear(DaysBeforeMonth(month) + day - 1) == (month, day)
  {
  }

  /** Leap years depend only on the year's place in its 400-year era. */
  lemma LeapInEra(era: int, yoe: int)
    requires 0 <= yoe <= 399
    ensures IsLeapYear(era * 400 + yoe + 1)
            <==> (yoe + 1) % 4 == 0 && ((yoe + 1) % 100 != 0 || yoe == 399)
  {
    var y := era * 400 + yoe + 1;
    assert y / 4 == era * 100 + (yoe + 1) / 4;
    assert y / 100 == era * 4 + (yoe + 1) / 100;
    assert y / 400 == era + (yoe + 1) / 400;
  }

  /** A day of an era splits back into that era and that day. */
  lemma SplitEraOf(shifted: int, era: int, doe: int)
    requires 0 <= doe < DaysPerEra && shifted == era * DaysPerEra + doe
    ensures SplitEra(shifted) == (era, doe)
  {
    assert shifted / DaysPerEra == era;
  }

  /** The civil date of a day of an era given by year of era and day of year. */
  lemma CivilOfYearDay(era: int, yoe: int, doy: int, doe: int, c: Civil)
    requires 0 <= yoe <= 399 && 0 <= doy < YearLength(yoe) && doe == YearStart(yoe) + doy
    requires MonthOfYear(doy) == (c.month, c.day)
    requires c.year == if c.month <= 2 then era * 400 + yoe + 1 else era * 400 + yoe
    ensures 0 <= doe < DaysPerEra
    ensures CivilOfEraDay(era, doe) == c
  {
    YearOfEraOfStart(yoe, doy, doe);
    assert doe - YearStart(YearOfEra(doe)) == doy;
  }

  /** The civil date of a day number is the civil date of its day within its era. */
  lemma CivilFromDaysOfEra(z: int, era: int, doe: int, c: Civil)
    requires 0 <= doe < DaysPerEra && z + EraShift == era * DaysPerEra + doe
    requires CivilOfEraDay(era, doe) == c
    ensures CivilFromDays(z) == c
  {
    SplitEraOf(z + EraShift, era, doe);
  }

  /** The day number of a date whose March-based year is year `yoe` of era `era`. */
  lemma DaysFromCivilInEra(c: Civil, era: int, yoe: int)
    requires 0 <= yoe <= 399
    requires (if c.month <= 2 then c.year - 1 else c.year) == era * 400 + yoe
    ensures DaysFromCivil(c)
            == era * DaysPerEra + YearStart(yoe) + DaysBeforeMonth(c.month) + c.day - 1 - EraShift
  {
    assert (era * 400 + yoe) / 400 == era;
  }

  /** The round trip for a date whose March-based year is year `yoe` of era `era`. */
  lemma CivilRoundTripInEra(c: Civil, era: int, yoe: int)
    requires Valid(c) && 0 <= yoe <= 399
    requires (if c.month <= 2 then c.year - 1 else c.year) == era * 400 + yoe
    ensures CivilFromDays(DaysFromCivil(c)) == c
  {
    var doy := DaysBeforeMonth(c.month) + c.day - 1;
    LeapInEra(era, yoe);
    MonthOfYearOf(c.month, c.day, IsLeapYear(c.year));
    assert doy < YearLength(yoe);
    var doe := YearStart(yoe) + doy;
    DaysFromCivilInEra(c, era, yoe);
    CivilOfYearDay(era, yoe, doy, doe, c);
    CivilFromDaysOfEra(DaysFromCivil(c), era, doe, c);
  }

  /**
   * Every valid date survives conversion to its day number and back, so
   * distinct valid dates have distinct day numbers.
   */
  lemma CivilRoundTrip(c: Civil)
    requires Valid(c)
    ensures CivilFromDays(DaysFromCivil(c)) == c
  {
    var y := if c.month <= 2 then c.year - 1 else c.year;
    CivilRoundTripInEra(c, y / 400, y % 400);
  }

  /** Every day of an era names a date of the calendar. */
  lemma CivilOfEraDayValid(era: int, doe: int)
    requires 0 <= doe < DaysPerEra
    ensures Valid(CivilOfEraDay(era, doe))
  {
    var yoe := YearOfEra(doe);
    var doy := doe - YearStart(yoe);
    var md := MonthOfYear(doy);
    var c := CivilOfEraDay(era, doe);
    assert c.month == md.0 && c.day == md.1;
    MonthOfYearFits(doy, YearLength(yoe) == 366);
    if md.0 == 2 {
      assert c.year == era * 400 + yoe + 1;
      LeapInEra(era, yoe);
    }
  }

  /** Every day number names a date of the calendar. */
  lemma CivilFromDaysValid(z: int)
    ensures Valid(CivilFromDays(z))
  {
    var ed := SplitEra(z + EraShift);
    CivilOfEraDayValid(ed.0, ed.1);
  }

  /** The month and day a day of a March-based year names exist in that year. */
  lemma MonthOfYearFits(doy: int, leap: bool)
    requires 0 <= doy < (if leap then 366 else 365)
    ensures var md := MonthOfYear(doy);
            md.1 <= (if md.0 == 2 then (if leap then 29 else 28)
                     else if md.0 == 4 || md.0 == 6 || md.0 == 9 || md.0 == 11 then 30
                     else 31)
  {
  }

  /** The calendar date after `c`: the next day of the month, of the year, or 1 January. */
  function NextDay(c: Civil): (n: Civil)
    requires Valid(c)
    ensures Valid(n)
  {
    if c.day < DaysInMonth(c.year, c.month) then Civil(c.year, c.month, c.day + 1)
    else if c.month < 12 then Civil(c.year, c.month + 1, 1)
    else Civil(c.year + 1, 1, 1)
  }

  /** Months other than February are as long in every year, and end where the next one begins. */
  lemma MonthEnd(y: int, m: int)
    requires 1 <= m <= 12 && m != 2
    ensures DaysBeforeMonth(if m == 12 then 1 else m + 1) == DaysBeforeMonth(m) + DaysInMonth(y, m)
  {
  }

  /** Within one March-based year, the day after `c` has the next day number. */
  lemma NextDaySameYear(c: Civil)
    requires Valid(c) && !(c.month == 2 && c.day == DaysInMonth(c.year, 2))
    ensures DaysFromCivil(NextDay(c)) == DaysFromCivil(c) + 1
  {
    var n := NextDay(c);
    var y := if c.month <= 2 then c.year - 1 else c.year;
    assert (if n.month <= 2 then n.year - 1 else n.year) == y;
    DaysFromCivilInEra(c, y / 400, y % 400);
    DaysFromCivilInEra(n, y / 400, y % 400);
    if n.month != c.month {
      MonthEnd(c.year, c.month);
    }
  }

  /** The day after the last day of February is the 1st of March, one day later. */
  lemma NextDayEndOfFebruary(c: Civil)
    requires Valid(c) && c.month == 2 && c.day == DaysInMonth(c.year, 2)
    ensures DaysFromCivil(NextDay(c)) == DaysFromCivil(c) + 1
  {
    var n := NextDay(c);
    assert n == Civil(c.year, 3, 1);
    var y := c.year - 1;
    var era, yoe := y / 400, y % 400;
    LeapInEra(era, yoe);
    DaysFromCivilInEra(c, era, yoe);
    assert DaysFromCivil(c) == era * DaysPerEra + YearStart(yoe) + YearLength(yoe) - 1 - EraShift;
    if yoe < 399 {
      YearStartNext(yoe);
      DaysFromCivilInEra(n, era, yoe + 1);
    } else {
      DaysFromCivilInEra(n, era + 1, 0);
    }
  }

  /** The calendar date after a valid date has the next day number. */
  lemma NextDayNumber(c: Civil)
    requires Valid(c)
    ensures DaysFromCivil(NextDay(c)) == DaysFromCivil(c) + 1
  {
    if c.month == 2 && c.day == DaysInMonth(c.year, 2) {
      NextDayEndOfFebruary(c);
    } else {
      NextDaySameYear(c);
    }
  }

  /**
   * Day `z + 1` is the calendar date after day `z`, so stepping a day number
   * by one steps the calendar by one day in either direction.
   */
  lemma CivilFromDaysNext(z: int)
    ensures Valid(CivilFromDays(z)) && CivilFromDays(z + 1) == NextDay(CivilFromDays(z))
  {
    var c := CivilFromDays(z);
    CivilFromDaysValid(z);
    var n := NextDay(c);
    assert DaysFromCivil(n) == z + 1 by {
      CivilFromDaysNumber(z);
      NextDayNumber(c);
    }
    CivilRoundTrip(n);
  }

  /** Day of week as moment's `day()` numbers it: 0 = Sunday, ..., 6 = Saturday. */
  function Weekday(z: int): (w: int)
    ensures 0 <= w <= 6
  {
    (z + 4) % 7
  }

  /** The day of the week starting on day `lo` whose weekday is `w`. */
  function DayWithWeekday(lo: int, w: int): (k: int)
    requires 0 <= w <= 6
    ensures lo <= k <= lo + 6 && Weekday(k) == w
  {
    lo + (w - Weekday(lo)) % 7
  }

  /** The decimal digit character of 0..9. */
  function DigitChar(n: int): char
    requires 0 <= n <= 9
  {
    ('0' as int + n) as char
  }

  predicate IsDigit(ch: char)
  {
    '0' <= ch <= '9'
  }

  function Pow10(k: nat): nat
  {
    if k == 0 then 1 else 10 * Pow10(k - 1)
  }

  /** The last `width` decimal digits of `n`, most significant first, zero-padded. */
  function FixedDigits(n: nat, width: nat): (s: string)
    ensures |s| == width
    ensures forall i :: 0 <= i < |s| ==> IsDigit(s[i])
  {
    if width == 0 then "" else FixedDigits(n / 10, width - 1) + [DigitChar(n % 10)]
  }

  /** The value of a string of decimal digits, or None if some character is not a digit. */
  function ParseDigits(s: string): (r: Option<nat>)
    ensures r.Some? <==> forall i :: 0 <= i < |s| ==> IsDigit(s[i])
  {
    if s == [] then Some(0)
    else
      var last := s[|s| - 1];
      match ParseDigits(s[..|s| - 1])
      case None => None
      case Some(v) => if IsDigit(last) then Some(10 * v + (last as int - '0' as int)) else None
  }

  /** Reading back `width` zero-padded digits gives the number, when it fits. */
  lemma {:induction false} ParseFixedDigits(n: nat, width: nat)
    requires n < Pow10(width)
    ensures ParseDigits(FixedDigits(n, width)) == Some(n)
  {
    if width > 0 {
      var s := FixedDigits(n, width);
      assert s[..|s| - 1] == FixedDigits(n / 10, width - 1);
      ParseFixedDigits(n / 10, width - 1);
    }
  }

  /** The `YYYY` field: four digits, with a leading minus sign before year 0. */
  function YearText(y: int): string
  {
    if y < 0 then "-" + FixedDigits(-y, 4) else FixedDigits(y, 4)
  }

  /** A date in the `DD/MM/YYYY` form the report uses for queries and headers. */
  function FormatDisplay(c: Civil): string
  {
    FixedDigits(c.day, 2) + "/" + FixedDigits(c.month, 2) + "/" + YearText(c.year)
  }

  /** Reads a `DD/MM/YYYY` text with exactly two, two and four digits. */
  function ParseDisplay(s: string): Option<Civil>
  {
    if |s| == 10 && s[2] == '/' && s[5] == '/' then
      match (ParseDigits(s[0..2]), ParseDigits(s[3..5]), ParseDigits(s[6..10]))
      case (Some(d), Some(m), Some(y)) => Some(Civil(y, m, d))
      case _ => None
    else None
  }

  /** A date in the `YYYY-MM-DD` form of the holiday list. */
  function FormatIso(c: Civil): string
  {
    YearText(c.year) + "-" + FixedDigits(c.month, 2) + "-" + FixedDigits(c.day, 2)
  }

  /** Reads a `YYYY-MM-DD` text with exactly four, two and two digits. */
  function ParseIso(s: string): Option<Civil>
  {
    if |s| == 10 && s[4] == '-' && s[7] == '-' then
      match (ParseDigits(s[0..4]), ParseDigits(s[5..7]), ParseDigits(s[8..10]))
      case (Some(y), Some(m), Some(d)) => Some(Civil(y, m, d))
      case _ => None
    else None
  }

  /** A date of years 0..9999 survives formatting as `DD/MM/YYYY` and parsing back. */
  lemma DisplayRoundTrip(c: Civil)
    requires 0 <= c.year <= 9999 && c.month <= 99 && c.day <= 99
    ensures ParseDisplay(FormatDisplay(c)) == Some(c)
  {
    var s := FormatDisplay(c);
    assert s[0..2] == FixedDigits(c.day, 2);
    assert s[3..5] == FixedDigits(c.month, 2);
    assert s[6..10] == FixedDigits(c.year, 4);
    ParseFixedDigits(c.day, 2);
    ParseFixedDigits(c.month, 2);
    ParseFixedDigits(c.year, 4);
  }

  /** A date of years 0..9999 survives formatting as `YYYY-MM-DD` and parsing back. */
  lemma IsoRoundTrip(c: Civil)
    requires 0 <= c.year <= 9999 && c.month <= 99 && c.day <= 99
    ensures ParseIso(FormatIso(c)) == Some(c)
  {
    var s := FormatIso(c);
    assert s[0..4] == FixedDigits(c.year, 4);
    assert s[5..7] == FixedDigits(c.month, 2);
    assert s[8..10] == FixedDigits(c.day, 2);
    ParseFixedDigits(c.day, 2);
    ParseFixedDigits(c.month, 2);
    ParseFixedDigits(c.year, 4);
  }

  /**
   * The report's text for day number `z`: two digits of the day, a slash, two
   * digits of the month, a slash, then the year.
   */
  function DayText(z: int): (s: string)
    ensures |s| >= 10 && s[2] == '/' && s[5] == '/'
  {
    FormatDisplay(CivilFromDays(z))
  }

  /** A day's text holds only digits, slashes and, before year 0 only, a minus sign. */
  lemma DayTextCharacters(z: int)
    ensures forall i :: 0 <= i < |DayText(z)| ==>
              IsDigit(DayText(z)[i]) || DayText(z)[i] == '/' || DayText(z)[i] == '-'
    ensures CivilFromDays(z).year >= 0 ==> forall i :: 0 <= i < |DayText(z)| ==> DayText(z)[i] != '-'
  {
    var c := CivilFromDays(z);
    var y := if c.year < 0 then -c.year else c.year;
    assert DayText(z) == FixedDigits(c.day, 2) + "/" + FixedDigits(c.month, 2) + "/" + YearText(c.year);
    assert YearText(c.year) == (if c.year < 0 then "-" else "") + FixedDigits(y, 4);
  }

  /** The day number a `DD/MM/YYYY` text denotes, if it is well formed. */
  function DayOfText(s: string): Option<int>
  {
    match ParseDisplay(s)
    case None => None
    case Some(c) => Some(DaysFromCivil(c))
  }

  /**
   * Formatting a day as text and parsing the text back yields the same day,
   * for every day of the years 0..9999.
   */
  lemma DayTextRoundTrip(z: int)
    requires 0 <= CivilFromDays(z).year <= 9999
    ensures DayOfText(DayText(z)) == Some(z)
  {
    DisplayRoundTrip(CivilFromDays(z));
    CivilFromDaysNumber(z);
  }
}
