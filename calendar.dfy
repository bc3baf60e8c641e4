/**
  Proleptic Gregorian calendar arithmetic behind the month view: leap years,
  month lengths, day numbers, weekdays, the normalisation that Go's time.Date
  applies to an out-of-range day, and the month navigation of the `/` handler.
 */
module Calendar {
  import opened Wrappers

  /** A calendar date; it is a real date when IsValid holds. */
  datatype Date = Date(year: int, month: int, day: int)

  /** A month of a year, as the handler's currentYear/currentMonth pair. */
  datatype YearMonth = YearMonth(year: int, month: int)

  /** Leap years, as in Appendix C of RFC 3339. */
  predicate IsLeapYear(y: int)
  {
    y % 4 == 0 && (y % 100 != 0 || y % 400 == 0)
  }

  /** The maximum day of each month, as in section 5.7 of RFC 3339. */
  function DaysInMonth(y: int, m: int): (n: int)
    requires 1 <= m <= 12
    ensures 28 <= n <= 31
    ensures n == 29 <==> m == 2 && IsLeapYear(y)
  {
    if m == 2 then (if IsLeapYear(y) then 29 else 28)
    else if m == 4 || m == 6 || m == 9 || m == 11 then 30
    else 31
  }

  predicate IsValid(t: Date)
  {
    1 <= t.month <= 12 && 1 <= t.day <= DaysInMonth(t.year, t.month)
  }

  /** Days from 0001-01-01 to January 1 of year y (negative before year 1). */
  function DaysBeforeYear(y: int): int
  {
    var p := y - 1;
    365 * p + p / 4 - p / 100 + p / 400
  }

  /** Days from January 1 to the first of month m: a cumulative table, plus the leap day from March on. */
  function DaysBeforeMonth(y: int, m: int): int
    requires 1 <= m <= 12
  {
    var before := [0, 31, 59, 90, 120, 151, 181, 212, 243, 273, 304, 334];
    before[m - 1] + (if IsLeapYear(y) && m >= 3 then 1 else 0)
  }

  /**
    The day number of day d of month m of year y, counted from 0001-01-01 = 0.
    The day may lie outside the month: day 0 is the last day of the month before.
   */
  function DayNumber(y: int, m: int, d: int): int
    requires 1 <= m <= 12
  {
    DaysBeforeYear(y) + DaysBeforeMonth(y, m) + d - 1
  }

  /** Stepping from p to p + 1 raises p / k by one exactly when k divides p + 1. */
  lemma FloorStep(p: int)
    ensures (p + 1) / 4 - p / 4 == (if (p + 1) % 4 == 0 then 1 else 0)
    ensures (p + 1) / 100 - p / 100 == (if (p + 1) % 100 == 0 then 1 else 0)
    ensures (p + 1) / 400 - p / 400 == (if (p + 1) % 400 == 0 then 1 else 0)
  {
  }

  lemma CenturyDivisibility(y: int)
    ensures y % 400 == 0 ==> y % 100 == 0
    ensures y % 100 == 0 ==> y % 4 == 0
  {
  }

  /** A Gregorian year has 366 days exactly when it is a leap year. */
  lemma YearLength(y: int)
    ensures DaysBeforeYear(y + 1) == DaysBeforeYear(y) + (if IsLeapYear(y) then 366 else 365)
  {
    FloorStep(y - 1);
    CenturyDivisibility(y);
  }

  /** The first of the next month is DaysInMonth days after the first of this one. */
  lemma MonthLength(y: int, m: int)
    requires 1 <= m <= 12
    ensures DayNumber(y, m, 1) + DaysInMonth(y, m)
            == if m == 12 then DaysBeforeYear(y + 1) else DayNumber(y, m + 1, 1)
  {
    if m == 12 {
      YearLength(y);
    }
  }

  /** The month after (y, m), rolling December over into January of the next year. */
  function NextMonth(y: int, m: int): (r: YearMonth)
    requires 1 <= m <= 12
    ensures 1 <= r.month <= 12
    ensures DayNumber(r.year, r.month, 1) == DayNumber(y, m, 1) + DaysInMonth(y, m)
  {
    MonthLength(y, m);
    var next := m + 1;
    if next > 12 then YearMonth(y + 1, 1) else YearMonth(y, next)
  }

  /** The month before (y, m), rolling January back into December of the previous year. */
  function PrevMonth(y: int, m: int): (r: YearMonth)
    requires 1 <= m <= 12
    ensures 1 <= r.month <= 12
    ensures DayNumber(r.year, r.month, 1) + DaysInMonth(r.year, r.month) == DayNumber(y, m, 1)
  {
    var prev := m - 1;
    var r := if prev < 1 then YearMonth(y - 1, 12) else YearMonth(y, prev);
    MonthLength(r.year, r.month);
    r
  }

  /** December rolls over into January of the next year, January back into December of the previous one. */
  lemma YearBoundary(y: int)
    ensures NextMonth(y, 12) == YearMonth(y + 1, 1)
    ensures PrevMonth(y, 1) == YearMonth(y - 1, 12)
  {
  }

  /** Previous and next month undo each other. */
  lemma NavigationRoundTrip(y: int, m: int)
    requires 1 <= m <= 12
    ensures var n := NextMonth(y, m); PrevMonth(n.year, n.month) == YearMonth(y, m)
    ensures var p := PrevMonth(y, m); NextMonth(p.year, p.month) == YearMonth(y, m)
  {
  }

  /**
    The valid date that day d of month m of year y names once the day is
    normalised the way Go's time.Date does it: a day before the first borrows
    from the months before, a day past the end carries into the months after.
   */
  function Resolve(y: int, m: int, d: int): (r: Date)
    requires 1 <= m <= 12
    ensures IsValid(r)
    ensures DayNumber(r.year, r.month, r.day) == DayNumber(y, m, d)
    decreases (if d < 1 then 1 - d else 0), (if d < 1 then 0 else d)
  {
    if d < 1 then
      var p := PrevMonth(y, m);
      Resolve(p.year, p.month, d + DaysInMonth(p.year, p.month))
    else if d > DaysInMonth(y, m) then
      var n := NextMonth(y, m);
      Resolve(n.year, n.month, d - DaysInMonth(y, m))
    else
      Date(y, m, d)
  }

  /**
    Go's norm(year, m, 12) on a zero-based month m: carry whole years out of
    the month with floor division, leaving a month in 1..12.
   */
  function CarryMonth(year: int, m: int): (r: YearMonth)
    ensures 1 <= r.month <= 12
    ensures 12 * r.year + r.month - 1 == 12 * year + m
    ensures 0 <= m < 12 ==> r == YearMonth(year, m + 1)
  {
    YearMonth(year + m / 12, m % 12 + 1)
  }

  /**
    Go's t.AddDate(years, months, days): add to the fields, carry the month
    into the year, then normalise the day.
   */
  function AddDate(t: Date, years: int, months: int, days: int): (r: Date)
    ensures IsValid(r)
    ensures var ym := CarryMonth(t.year + years, t.month - 1 + months);
      DayNumber(r.year, r.month, r.day) == DayNumber(ym.year, ym.month, t.day + days)
  {
    var ym := CarryMonth(t.year + years, t.month - 1 + months);
    Resolve(ym.year, ym.month, t.day + days)
  }

  /** Chronological order of dates: by year, then month, then day. */
  predicate Precedes(a: Date, b: Date)
  {
    a.year < b.year
    || (a.year == b.year && (a.month < b.month || (a.month == b.month && a.day < b.day)))
  }

  lemma {:induction false} YearStartsIncrease(y: int, z: int)
    requires y <= z
    ensures DaysBeforeYear(y) <= DaysBeforeYear(z)
    decreases z - y
  {
    if y < z {
      YearLength(y);
      YearStartsIncrease(y + 1, z);
    }
  }

  lemma DayWithinYear(t: Date)
    requires IsValid(t)
    ensures DaysBeforeYear(t.year) <= DayNumber(t.year, t.month, t.day) < DaysBeforeYear(t.year + 1)
  {
    YearLength(t.year);
  }

  lemma DayWithinMonth(t: Date)
    requires IsValid(t)
    ensures DayNumber(t.year, t.month, 1) <= DayNumber(t.year, t.month, t.day)
    ensures t.month < 12 ==> DayNumber(t.year, t.month, t.day) < DayNumber(t.year, t.month + 1, 1)
  {
    MonthLength(t.year, t.month);
  }

  lemma {:induction false} EarlierHasSmallerNumber(a: Date, b: Date)
    requires IsValid(a) && IsValid(b) && Precedes(a, b)
    ensures DayNumber(a.year, a.month, a.day) < DayNumber(b.year, b.month, b.day)
  {
    if a.year < b.year {
      DayWithinYear(a);
      DayWithinYear(b);
      YearStartsIncrease(a.year + 1, b.year);
    } else if a.month < b.month {
      DayWithinMonth(a);
      DayWithinMonth(b);
    }
  }

  /** Day numbers order valid dates chronologically, so each day number names at most one date. */
  lemma DayNumberOrder(a: Date, b: Date)
    requires IsValid(a) && IsValid(b)
    ensures Precedes(a, b) <==> DayNumber(a.year, a.month, a.day) < DayNumber(b.year, b.month, b.day)
    ensures a == b <==> DayNumber(a.year, a.month, a.day) == DayNumber(b.year, b.month, b.day)
  {
    if Precedes(a, b) {
      EarlierHasSmallerNumber(a, b);
    } else if a != b {
      EarlierHasSmallerNumber(b, a);
    }
  }

  /** Adding only days keeps the month and normalises the day. */
  lemma AddOnlyDays(t: Date, k: int)
    requires 1 <= t.month <= 12
    ensures AddDate(t, 0, 0, k) == Resolve(t.year, t.month, t.day + k)
  {
    assert CarryMonth(t.year, t.month - 1) == YearMonth(t.year, t.month);
  }

  /** Moving a valid date by k days moves its day number by k. */
  lemma AddDays(t: Date, k: int)
    requires IsValid(t)
    ensures var r := AddDate(t, 0, 0, k);
      DayNumber(r.year, r.month, r.day) == DayNumber(t.year, t.month, t.day) + k
  {
    AddOnlyDays(t, k);
  }

  /** Days 1..n of a month are reached from its first by adding d - 1 days. */
  lemma AddDaysWithinMonth(y: int, m: int, d: int)
    requires 1 <= m <= 12 && 1 <= d <= DaysInMonth(y, m)
    ensures AddDate(Date(y, m, 1), 0, 0, d - 1) == Date(y, m, d)
  {
    AddOnlyDays(Date(y, m, 1), d - 1);
    assert Resolve(y, m, d) == Date(y, m, d);
  }

  /** "First of the month, plus one month, minus one day" is the last day of the month. */
  lemma LastOfMonth(y: int, m: int)
    requires 1 <= m <= 12
    ensures AddDate(Date(y, m, 1), 0, 1, -1) == Date(y, m, DaysInMonth(y, m))
  {
    var r := AddDate(Date(y, m, 1), 0, 1, -1);
    MonthLength(y, m);
    DayNumberOrder(r, Date(y, m, DaysInMonth(y, m)));
  }

  /** Day of the week, Sunday = 0 through Saturday = 6; 0001-01-01 was a Monday. */
  function Weekday(y: int, m: int, d: int): (w: int)
    requires 1 <= m <= 12
    ensures 0 <= w < 7
  {
    (DayNumber(y, m, d) + 1) % 7
  }

  /** An independent reference for the weekday: Sakamoto's congruence. */
  function SakamotoWeekday(y: int, m: int, d: int): int
    requires 1 <= m <= 12
  {
    var offset := [0, 3, 2, 5, 0, 3, 5, 1, 4, 6, 2, 4];
    var z := if m < 3 then y - 1 else y;
    (z + z / 4 - z / 100 + z / 400 + offset[m - 1] + d) % 7
  }

  lemma ShiftBySevens(x: int, k: int)
    ensures (x + 7 * k) % 7 == x % 7
  {
  }

  /** The day-number weekday agrees with Sakamoto's congruence on every date. */
  lemma WeekdayMatchesSakamoto(y: int, m: int, d: int)
    requires 1 <= m <= 12
    ensures Weekday(y, m, d) == SakamotoWeekday(y, m, d)
  {
    var p := y - 1;
    var leaps := p / 4 - p / 100 + p / 400;
    var offset := [0, 3, 2, 5, 0, 3, 5, 1, 4, 6, 2, 4];
    var before := [0, 31, 59, 90, 120, 151, 181, 212, 243, 273, 304, 334];
    if m < 3 {
      // both sides count the same leap days; 365 = 52 * 7 + 1 and before - offset is 0 or 28
      var x := p + leaps + offset[m - 1] + d;
      assert DayNumber(y, m, d) + 1 == x + 7 * (52 * p + (before[m - 1] - offset[m - 1]) / 7);
      ShiftBySevens(x, 52 * p + (before[m - 1] - offset[m - 1]) / 7);
    } else {
      YearLength(y);
      var ly := if IsLeapYear(y) then 1 else 0;
      assert y / 4 - y / 100 + y / 400 == leaps + ly;
      var x := y + (leaps + ly) + offset[m - 1] + d;
      assert DayNumber(y, m, d) + 1 == x + 7 * (52 * p + (before[m - 1] - offset[m - 1] - 1) / 7);
      ShiftBySevens(x, 52 * p + (before[m - 1] - offset[m - 1] - 1) / 7);
    }
  }

  /**
    The month the `/` handler shows: the requested month and year when both
    parameters are present and parse as integers and the month is 1..12,
    otherwise the current month.
   */
  function SelectMonth(monthArg: Option<int>, yearArg: Option<int>, today: Date): (r: YearMonth)
    requires 1 <= today.month <= 12
    ensures 1 <= r.month <= 12
    ensures monthArg.Some? && yearArg.Some? && 1 <= monthArg.value <= 12
            ==> r == YearMonth(yearArg.value, monthArg.value)
    ensures !(monthArg.Some? && yearArg.Some? && 1 <= monthArg.value <= 12)
            ==> r == YearMonth(today.year, today.month)
  {
    match (yearArg, monthArg)
    case (Some(year), Some(month)) =>
      if 1 <= month <= 12 then YearMonth(year, month) else YearMonth(today.year, today.month)
    case _ => YearMonth(today.year, today.month)
  }
}
