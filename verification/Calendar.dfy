/**
 * Proleptic Gregorian dates as day counts, and instants as RFC 3339 text in UTC. This stands in for
 * the calendar library: its dates, its range, and its rendering in whole seconds with a `Z`.
 */
module Calendar {
  import opened Arithmetic

  predicate IsLeap(year: int) {
    year % 4 == 0 && (year % 100 != 0 || year % 400 == 0)
  }

  function DaysInYear(year: int): nat {
    if IsLeap(year) then 366 else 365
  }

  function DaysInMonth(year: int, month: nat): nat
    requires 1 <= month <= 12
  {
    if month == 2 then if IsLeap(year) then 29 else 28
    else if month in {4, 6, 9, 11} then 30
    else 31
  }

  datatype Date = Date(year: int, month: nat, day: nat)
  {
    predicate Valid() {
      1 <= month <= 12 && 1 <= day <= DaysInMonth(year, month)
    }

    predicate Before(other: Date) {
      || year < other.year
      || (year == other.year && month < other.month)
      || (year == other.year && month == other.month && day < other.day)
    }
  }

  /** Days from 0001-01-01 to the first day of a year. */
  function DaysBeforeYear(year: int): int {
    var y := year - 1;
    365 * y + y / 4 - y / 100 + y / 400
  }

  function DaysBeforeMonth(year: int, month: nat): nat
    requires 1 <= month <= 12
  {
    if month == 1 then 0 else DaysBeforeMonth(year, month - 1) + DaysInMonth(year, month - 1)
  }

  const EPOCH_DAYS := 719162

  /** Days from 1970-01-01. */
  function DayNumber(date: Date): int
    requires date.Valid()
  {
    DaysBeforeYear(date.year) + DaysBeforeMonth(date.year, date.month) + (date.day as int - 1) - EPOCH_DAYS
  }

  /** The lengths of the months: 30 days in four of them, and 28 or 29 in February. */
  lemma MonthTable(year: int, month: nat)
    requires 1 <= month <= 12
    ensures Date(year, month, 31).Valid() <==> month in {1, 3, 5, 7, 8, 10, 12}
    ensures Date(year, month, 30).Valid() <==> month != 2
    ensures Date(year, month, 29).Valid() <==> month != 2 || (year % 4 == 0 && (year % 100 != 0 || year % 400 == 0))
    ensures Date(year, month, 28).Valid() && Date(year, month, 1).Valid()
    ensures !Date(year, month, 32).Valid() && !Date(year, month, 0).Valid()
  {
  }

  lemma QuotientSteps(n: int, m: int)
    requires m > 0
    ensures n / m - (n - 1) / m == if n % m == 0 then 1 else 0
  {
    var q, r := n / m, n % m;
    DivisionLaw(n, m);
    assert (q - 1) * m == q * m - m;
    if r == 0 {
      DivisionUnique(n - 1, m, q - 1, m - 1);
    } else {
      DivisionUnique(n - 1, m, q, r - 1);
    }
  }

  lemma NextYear(year: int)
    ensures DaysBeforeYear(year + 1) == DaysBeforeYear(year) + DaysInYear(year)
  {
    QuotientSteps(year, 4);
    QuotientSteps(year, 100);
    QuotientSteps(year, 400);
  }

  lemma {:induction false} YearsMonotone(a: int, b: int)
    requires a <= b
    ensures DaysBeforeYear(a) + 365 * (b - a) <= DaysBeforeYear(b)
    decreases b - a
  {
    if a < b {
      YearsMonotone(a, b - 1);
      NextYear(b - 1);
    }
  }

  lemma {:induction false} MonthsMonotone(year: int, a: nat, b: nat)
    requires 1 <= a < b <= 12
    ensures DaysBeforeMonth(year, a) + DaysInMonth(year, a) <= DaysBeforeMonth(year, b)
  {
    if a < b - 1 {
      MonthsMonotone(year, a, b - 1);
    }
  }

  lemma MonthsFillYear(year: int)
    ensures DaysBeforeMonth(year, 12) + 31 == DaysInYear(year)
  {
    assert DaysBeforeMonth(year, 2) == 31;
    assert DaysBeforeMonth(year, 3) == 31 + DaysInMonth(year, 2);
    assert DaysBeforeMonth(year, 5) == DaysBeforeMonth(year, 3) + 61;
    assert DaysBeforeMonth(year, 7) == DaysBeforeMonth(year, 5) + 61;
    assert DaysBeforeMonth(year, 9) == DaysBeforeMonth(year, 7) + 62;
    assert DaysBeforeMonth(year, 11) == DaysBeforeMonth(year, 9) + 61;
  }

  lemma WithinYear(date: Date)
    requires date.Valid()
    ensures 0 <= DaysBeforeMonth(date.year, date.month) + (date.day - 1) < DaysInYear(date.year)
  {
    MonthsFillYear(date.year);
    if date.month < 12 {
      MonthsMonotone(date.year, date.month, 12);
    }
  }

  /** Later dates have larger day numbers, and only they. */
  lemma DayNumberMonotone(a: Date, b: Date)
    requires a.Valid() && b.Valid()
    ensures a.Before(b) <==> DayNumber(a) < DayNumber(b)
    ensures a == b <==> DayNumber(a) == DayNumber(b)
  {
    DayNumberGrows(a, b);
    DayNumberGrows(b, a);
    assert a == b || a.Before(b) || b.Before(a);
  }

  lemma DayNumberGrows(a: Date, b: Date)
    requires a.Valid() && b.Valid()
    ensures a.Before(b) ==> DayNumber(a) < DayNumber(b)
  {
    if a.year < b.year {
      WithinYear(a);
      WithinYear(b);
      NextYear(a.year);
      YearsMonotone(a.year + 1, b.year);
    } else if a.year == b.year && a.month < b.month {
      MonthsMonotone(a.year, a.month, b.month);
    }
  }

  lemma EpochIsDayZero()
    ensures DayNumber(Date(1970, 1, 1)) == 0
  {
  }

  // ----- From a day number back to the date -----

  ghost predicate InYear(days: int, year: int) {
    DaysBeforeYear(year) <= days < DaysBeforeYear(year + 1)
  }

  function YearFrom(days: int, year: int): (y: int)
    ensures InYear(days, y)
    decreases if days < DaysBeforeYear(year) then DaysBeforeYear(year) - days else days - DaysBeforeYear(year),
              days < DaysBeforeYear(year)
  {
    NextYear(year);
    NextYear(year - 1);
    if days < DaysBeforeYear(year) then
      YearDown(days, year - 1)
    else if days >= DaysBeforeYear(year + 1) then YearFrom(days, year + 1)
    else year
  }

  function YearDown(days: int, year: int): (y: int)
    requires days < DaysBeforeYear(year + 1)
    ensures InYear(days, y)
    decreases DaysBeforeYear(year + 1) - days, false
  {
    NextYear(year);
    if days >= DaysBeforeYear(year) then year else YearDown(days, year - 1)
  }

  function MonthFrom(year: int, dayOfYear: nat, month: nat): (m: nat)
    requires 1 <= month <= 12 && DaysBeforeMonth(year, month) <= dayOfYear < DaysInYear(year)
    ensures 1 <= m <= 12
    ensures DaysBeforeMonth(year, m) <= dayOfYear < DaysBeforeMonth(year, m) + DaysInMonth(year, m)
    decreases 12 - month
  {
    MonthsFillYear(year);
    if dayOfYear < DaysBeforeMonth(year, month) + DaysInMonth(year, month) then month
    else MonthFrom(year, dayOfYear, month + 1)
  }

  /** The date of a day number; `DateOf` and `DayNumber` are inverse to each other. */
  function DateOf(days: int): (date: Date)
    ensures date.Valid() && DayNumber(date) == days
  {
    var n := days + EPOCH_DAYS;
    var year := YearFrom(n, 1970);
    NextYear(year);
    var dayOfYear := n - DaysBeforeYear(year);
    var month := MonthFrom(year, dayOfYear, 1);
    Date(year, month, dayOfYear - DaysBeforeMonth(year, month) + 1)
  }

  lemma DateOfDayNumber(date: Date)
    requires date.Valid()
    ensures DateOf(DayNumber(date)) == date
  {
    DayNumberMonotone(DateOf(DayNumber(date)), date);
  }
}
