/** Proleptic Gregorian dates as Python's `datetime.date` has them:
    `(year, month, day)`, `date + timedelta(days=n)` and `str(date)`.
    Timezones and times of day are not modelled; a timestamp is its local date. */
module Calendar {
  import opened Text

  datatype Date = Date(year: int, month: int, day: int)

  predicate IsLeapYear(y: int) {
    y % 4 == 0 && (y % 100 != 0 || y % 400 == 0)
  }

  function DaysInMonth(y: int, m: int): (n: int)
    requires 1 <= m <= 12
    ensures 28 <= n <= 31
  {
    if m == 2 then (if IsLeapYear(y) then 29 else 28)
    else if m == 4 || m == 6 || m == 9 || m == 11 then 30
    else 31
  }

  function DaysInYear(y: int): int {
    if IsLeapYear(y) then 366 else 365
  }

  /** `datetime.date` accepts years from 1 (its upper bound 9999 is not modelled). */
  predicate ValidDate(d: Date) {
    1 <= d.year && 1 <= d.month <= 12 && 1 <= d.day <= DaysInMonth(d.year, d.month)
  }

  /** Days of the months before month `m`. */
  function DaysBeforeMonth(y: int, m: int): (n: int)
    requires 1 <= m <= 13
    ensures 0 <= n
    ensures m == 13 ==> n == DaysInYear(y)
    decreases m
  {
    if m == 1 then 0 else DaysBeforeMonth(y, m - 1) + DaysInMonth(y, m - 1)
  }

  /** 1 for 1 January, `DaysInYear` for 31 December. */
  function DayOfYear(d: Date): (n: int)
    requires ValidDate(d)
    ensures 1 <= n <= DaysInYear(d.year)
  {
    MonthsFit(d.year, d.month);
    DaysBeforeMonth(d.year, d.month) + d.day
  }

  lemma {:induction false} MonthsFit(y: int, m: int)
    requires 1 <= m <= 12
    ensures DaysBeforeMonth(y, m) + DaysInMonth(y, m) <= DaysInYear(y)
    decreases 12 - m
  {
    if m < 12 {
      MonthsFit(y, m + 1);
    }
  }

  /** The following calendar day. */
  function NextDay(d: Date): (r: Date)
    requires ValidDate(d)
    ensures ValidDate(r)
    ensures (r.year == d.year && DayOfYear(r) == DayOfYear(d) + 1)
            || (r.year == d.year + 1 && DayOfYear(r) == 1 && DayOfYear(d) == DaysInYear(d.year))
  {
    if d.day < DaysInMonth(d.year, d.month) then Date(d.year, d.month, d.day + 1)
    else if d.month < 12 then Date(d.year, d.month + 1, 1)
    else Date(d.year + 1, 1, 1)
  }

  /** `d + timedelta(days=n)`. */
  function AddDays(d: Date, n: nat): (r: Date)
    requires ValidDate(d)
    ensures ValidDate(r)
    decreases n
  {
    if n == 0 then d else AddDays(NextDay(d), n - 1)
  }

  /** Adding days that stay inside the year moves the day of the year by as much. */
  lemma {:induction false} AddDaysWithinYear(d: Date, n: nat)
    requires ValidDate(d)
    requires DayOfYear(d) + n <= DaysInYear(d.year)
    ensures AddDays(d, n).year == d.year
    ensures DayOfYear(AddDays(d, n)) == DayOfYear(d) + n
    decreases n
  {
    if n > 0 {
      AddDaysWithinYear(NextDay(d), n - 1);
    }
  }

  /** One more day is the next day after the sum. */
  lemma {:induction false} AddDaysStep(d: Date, n: nat)
    requires ValidDate(d)
    ensures AddDays(d, n + 1) == NextDay(AddDays(d, n))
    decreases n
  {
    if n > 0 {
      AddDaysStep(NextDay(d), n - 1);
    }
  }

  /** `str(date)`: ISO 8601 `YYYY-MM-DD`. */
  function IsoFormat(d: Date): (r: string)
    requires ValidDate(d)
    ensures |r| >= 10
  {
    ZeroPad(d.year, 4) + "-" + ZeroPad(d.month, 2) + "-" + ZeroPad(d.day, 2)
  }
}
