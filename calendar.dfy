/** The proleptic Gregorian calendar that JavaScript's `Date` uses to turn a
    count of days since 1 January 1970 into a year, month and day of month
    (index.ts:216 reads the day of month this way). `CivilFromDays` walks
    whole years and then whole months; `DaysFromCivil` is its inverse. */
module Calendar {

  const EPOCH_YEAR: int := 1970

  datatype CivilDate = CivilDate(year: int, month: int, day: int)

  predicate IsLeapYear(y: int) {
    y % 4 == 0 && (y % 100 != 0 || y % 400 == 0)
  }

  function DaysInYear(y: int): (n: nat)
    ensures n == 365 || n == 366
    ensures n == 366 <==> IsLeapYear(y)
  {
    if IsLeapYear(y) then 366 else 365
  }

  function DaysInMonth(y: int, m: int): (n: nat)
    requires 1 <= m <= 12
    ensures 28 <= n <= 31
    ensures n == 29 <==> m == 2 && IsLeapYear(y)
  {
    if m == 2 then (if IsLeapYear(y) then 29 else 28)
    else if m == 4 || m == 6 || m == 9 || m == 11 then 30
    else 31
  }

  /** Days of year `y` that come before the first day of month `m`. */
  function DaysBeforeMonth(y: int, m: int): nat
    requires 1 <= m <= 12
  {
    [0, 31, 59, 90, 120, 151, 181, 212, 243, 273, 304, 334][m - 1]
      + (if m > 2 && IsLeapYear(y) then 1 else 0)
  }

  /** The months of a year follow one another without gap and fill the year. */
  lemma MonthsFillYear(y: int, m: int)
    requires 1 <= m <= 12
    ensures m < 12 ==> DaysBeforeMonth(y, m + 1) == DaysBeforeMonth(y, m) + DaysInMonth(y, m)
    ensures m == 12 ==> DaysBeforeMonth(y, m) + DaysInMonth(y, m) == DaysInYear(y)
  {
  }

  /** The day number of 1 January of year `y`. */
  function YearStart(y: int): int
    decreases if y < EPOCH_YEAR then EPOCH_YEAR - y else y - EPOCH_YEAR
  {
    if y == EPOCH_YEAR then 0
    else if y > EPOCH_YEAR then YearStart(y - 1) + DaysInYear(y - 1)
    else YearStart(y + 1) - DaysInYear(y)
  }

  lemma YearStartStep(y: int)
    ensures YearStart(y + 1) == YearStart(y) + DaysInYear(y)
  {
  }

  /** Later years start later: year `y` ends no later than any later year starts. */
  lemma {:induction false} YearStartMonotone(y: int, z: int)
    requires y < z
    ensures YearStart(y) + DaysInYear(y) <= YearStart(z)
    decreases z - y
  {
    YearStartStep(y);
    if y + 1 < z {
      YearStartMonotone(y + 1, z);
      YearStartStep(y + 1);
    }
  }

  /** Splits `days`, counted from 1 January of year `y` (possibly negative or
      longer than the year), into a year and a day of that year counted from 0. */
  function YearAndDay(y: int, days: int): (r: (int, int))
    ensures 0 <= r.1 < DaysInYear(r.0)
    ensures YearStart(r.0) + r.1 == YearStart(y) + days
    decreases if days < 0 then 366 - days else days
  {
    if days < 0 then
      YearStartStep(y - 1);
      YearAndDay(y - 1, days + DaysInYear(y - 1))
    else if days < DaysInYear(y) then
      (y, days)
    else
      YearStartStep(y);
      YearAndDay(y + 1, days - DaysInYear(y))
  }

  /** The month of year `y` that holds day `doy` (counted from 0), searching from month `m`. */
  function MonthFrom(y: int, m: int, doy: int): (r: int)
    requires 1 <= m <= 12
    requires DaysBeforeMonth(y, m) <= doy < DaysInYear(y)
    ensures m <= r <= 12
    ensures DaysBeforeMonth(y, r) <= doy < DaysBeforeMonth(y, r) + DaysInMonth(y, r)
    decreases 12 - m
  {
    MonthsFillYear(y, m);
    if m == 12 || doy < DaysBeforeMonth(y, m) + DaysInMonth(y, m) then m
    else MonthFrom(y, m + 1, doy)
  }

  /** The calendar date of the day numbered `dayNumber` (0 is 1 January 1970). */
  function CivilFromDays(dayNumber: int): (d: CivilDate)
    ensures ValidDate(d)
    ensures DaysFromCivil(d) == dayNumber
  {
    var (y, doy) := YearAndDay(EPOCH_YEAR, dayNumber);
    var m := MonthFrom(y, 1, doy);
    CivilDate(y, m, doy - DaysBeforeMonth(y, m) + 1)
  }

  predicate ValidDate(d: CivilDate) {
    1 <= d.month <= 12 && 1 <= d.day <= DaysInMonth(d.year, d.month)
  }

  /** The day number of a calendar date. */
  function DaysFromCivil(d: CivilDate): int
    requires ValidDate(d)
  {
    YearStart(d.year) + DaysBeforeMonth(d.year, d.month) + d.day - 1
  }

  /** Every day of a month lies between 1 and 31. */
  lemma DayOfMonthRange(dayNumber: int)
    ensures 1 <= CivilFromDays(dayNumber).day <= 31
  {
  }

  /** Within one year, distinct months give distinct day ranges. */
  lemma {:induction false} MonthUnique(y: int, m: int, n: int, doy: int)
    requires 1 <= m <= 12 && 1 <= n <= 12
    requires DaysBeforeMonth(y, m) <= doy < DaysBeforeMonth(y, m) + DaysInMonth(y, m)
    requires DaysBeforeMonth(y, n) <= doy < DaysBeforeMonth(y, n) + DaysInMonth(y, n)
    ensures m == n
  {
  }

  /** Distinct calendar dates have distinct day numbers. */
  lemma DaysFromCivilInjective(d: CivilDate, e: CivilDate)
    requires ValidDate(d) && ValidDate(e)
    requires DaysFromCivil(d) == DaysFromCivil(e)
    ensures d == e
  {
    MonthsFillYear(d.year, 12);
    MonthsFillYear(e.year, 12);
    if d.year < e.year {
      YearStartMonotone(d.year, e.year);
      assert false;
    } else if e.year < d.year {
      YearStartMonotone(e.year, d.year);
      assert false;
    }
    MonthUnique(d.year, d.month, e.month, DaysBeforeMonth(d.year, d.month) + d.day - 1);
  }

  /** `CivilFromDays` undoes `DaysFromCivil`: the two are inverse bijections. */
  lemma CivilRoundTrip(d: CivilDate)
    requires ValidDate(d)
    ensures CivilFromDays(DaysFromCivil(d)) == d
  {
    DaysFromCivilInjective(CivilFromDays(DaysFromCivil(d)), d);
  }

  /** Day 0 is 1 January 1970 and day -1 is 31 December 1969. */
  lemma EpochDates()
    ensures CivilFromDays(0) == CivilDate(1970, 1, 1)
    ensures CivilFromDays(-1) == CivilDate(1969, 12, 31)
  {
    CivilRoundTrip(CivilDate(1970, 1, 1));
    assert YearStart(1969) == -365;
    CivilRoundTrip(CivilDate(1969, 12, 31));
  }
}
