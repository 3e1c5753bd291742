/** Calendar dates, as far as whole months need them. */
module Calendar {
  datatype Date = Date(year: int, month: int, day: int)

  predicate IsLeap(year: int)
  {
    year % 4 == 0 && (year % 100 != 0 || year % 400 == 0)
  }

  function DaysInMonth(year: int, month: int): (n: nat)
    ensures 28 <= n <= 31
  {
    if month == 2 then (if IsLeap(year) then 29 else 28)
    else if month == 4 || month == 6 || month == 9 || month == 11 then 30
    else 31
  }

  predicate IsDate(d: Date)
  {
    1 <= d.month <= 12 && 1 <= d.day <= DaysInMonth(d.year, d.month)
  }

  predicate Earlier(a: Date, b: Date)
  {
    || a.year < b.year
    || (a.year == b.year && a.month < b.month)
    || (a.year == b.year && a.month == b.month && a.day < b.day)
  }

  predicate NotAfter(a: Date, b: Date)
  {
    a == b || Earlier(a, b)
  }

  function NextDay(d: Date): Date
  {
    if d.day < DaysInMonth(d.year, d.month) then d.(day := d.day + 1)
    else if d.month < 12 then Date(d.year, d.month + 1, 1)
    else Date(d.year + 1, 1, 1)
  }

  function AddDays(d: Date, n: nat): Date
  {
    if n == 0 then d else NextDay(AddDays(d, n - 1))
  }

  function FirstOfNextMonth(d: Date): Date
  {
    if d.month < 12 then Date(d.year, d.month + 1, 1) else Date(d.year + 1, 1, 1)
  }

  /** Months counted from year zero, so that the next month is one more, across year ends. */
  function MonthNumber(d: Date): int
  {
    12 * d.year + d.month - 1
  }

  function MonthBounds(year: int, month: int): (Date, Date)
  {
    (Date(year, month, 1), Date(year, month, DaysInMonth(year, month)))
  }

  /** A first and last day of one calendar month. */
  predicate WholeMonth(start: Date, end: Date)
  {
    1 <= start.month <= 12 && (start, end) == MonthBounds(start.year, start.month)
  }

  /** The end the database asks for: one day before the first of the next month. */
  lemma BoundsMeetTheConstraint(year: int, month: int)
    requires 1 <= month <= 12
    ensures var (start, end) := MonthBounds(year, month);
      IsDate(start) && IsDate(end) && NotAfter(start, end) && NextDay(end) == FirstOfNextMonth(start)
  {
  }

  /** Two whole months that share a day are the same month. */
  lemma SharedDaySameMonth(s1: Date, e1: Date, s2: Date, e2: Date, day: Date)
    requires WholeMonth(s1, e1) && WholeMonth(s2, e2)
    requires NotAfter(s1, day) && NotAfter(day, e1) && NotAfter(s2, day) && NotAfter(day, e2)
    ensures s1 == s2 && e1 == e2
  {
  }

  // ── Against a count of days ─────────────────────────────────────────────────

  /** Days in a year: one more than 365 every fourth year, but not every hundredth, but every
   *  four-hundredth. */
  function DaysIn(year: int): int
  {
    if year % 400 == 0 then 366 else if year % 100 == 0 then 365 else if year % 4 == 0 then 366 else 365
  }

  /** Days from the first of January of year 0 to that of this year. */
  function DaysBefore(year: int): int
    decreases if year < 0 then -year else year
  {
    if year == 0 then 0
    else if year > 0 then DaysBefore(year - 1) + DaysIn(year - 1)
    else DaysBefore(year + 1) - DaysIn(year)
  }

  /** Days of a common year before the first of a month. */
  function DaysBeforeMonth(month: int): int
  {
    if month <= 1 then 0 else if month == 2 then 31 else if month == 3 then 59 else if month == 4 then 90
    else if month == 5 then 120 else if month == 6 then 151 else if month == 7 then 181 else if month == 8 then 212
    else if month == 9 then 243 else if month == 10 then 273 else if month == 11 then 304 else 334
  }

  /** The number of a day, counted from the first of January of year 0. */
  function DayNumber(d: Date): int
  {
    DaysBefore(d.year) + DaysBeforeMonth(d.month) + (if d.month > 2 then DaysIn(d.year) - 365 else 0) + d.day - 1
  }

  lemma YearLength(year: int)
    ensures DaysBefore(year + 1) == DaysBefore(year) + DaysIn(year)
    ensures DaysIn(year) == if IsLeap(year) then 366 else 365
  {
    if year % 400 == 0 {
      assert year == 4 * (100 * (year / 400));
    } else if year % 100 == 0 {
      assert year == 4 * (25 * (year / 100));
    }
  }

  /** A month has as many days as the count puts between its first and the first of the next. */
  lemma MonthLength(year: int, month: int)
    requires 1 <= month <= 12
    ensures DaysInMonth(year, month) == DayNumber(FirstOfNextMonth(Date(year, month, 1))) - DayNumber(Date(year, month, 1))
  {
    hide IsLeap, DaysBefore, DaysIn;
    YearLength(year);
  }

  /** The next day is the next number, across months, years and leap days. */
  lemma NextDayIsTheNextNumber(d: Date)
    requires IsDate(d)
    ensures IsDate(NextDay(d)) && DayNumber(NextDay(d)) == DayNumber(d) + 1
  {
    hide IsLeap, DaysBefore, DaysIn;
    YearLength(d.year);
  }

  lemma {:induction false} AddDaysAddsToTheNumber(d: Date, n: nat)
    requires IsDate(d)
    ensures IsDate(AddDays(d, n)) && DayNumber(AddDays(d, n)) == DayNumber(d) + n
  {
    if n == 0 {
    } else {
      hide IsDate, DayNumber, NextDay;
      AddDaysAddsToTheNumber(d, n - 1);
      NextDayIsTheNextNumber(AddDays(d, n - 1));
    }
  }

  lemma {:induction false} YearsGrow(a: int, b: int)
    requires a <= b
    ensures DaysBefore(a) + 365 * (b - a) <= DaysBefore(b)
    decreases b - a
  {
    if a == b {
    } else {
      hide DaysBefore, IsLeap;
      YearsGrow(a, b - 1);
      YearLength(b - 1);
    }
  }

  lemma WithinTheYear(d: Date)
    requires IsDate(d)
    ensures DaysBefore(d.year) <= DayNumber(d) < DaysBefore(d.year + 1)
  {
    hide IsLeap, DaysBefore, DaysIn;
    YearLength(d.year);
  }

  lemma EarlierIsSmaller(a: Date, b: Date)
    requires IsDate(a) && IsDate(b) && Earlier(a, b)
    ensures DayNumber(a) < DayNumber(b)
  {
    hide IsLeap, DaysBefore, DaysIn;
    YearLength(a.year);
    if a.year < b.year {
      WithinTheYear(a);
      WithinTheYear(b);
      YearsGrow(a.year + 1, b.year);
    }
  }

  /** Dates are ordered as their numbers, so no two dates share one. */
  lemma EarlierIffSmaller(a: Date, b: Date)
    requires IsDate(a) && IsDate(b)
    ensures Earlier(a, b) <==> DayNumber(a) < DayNumber(b)
    ensures DayNumber(a) == DayNumber(b) ==> a == b
  {
    hide DayNumber, IsDate;
    if Earlier(a, b) {
      EarlierIsSmaller(a, b);
    } else if Earlier(b, a) {
      EarlierIsSmaller(b, a);
    }
  }
}
