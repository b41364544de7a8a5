/** The proleptic Gregorian calendar, counted day by day from 1 January 1970. */
module Gregorian {
  import opened Bits

  datatype Date = Date(year: int, month: int, day: int)

  predicate IsLeap(year: int) {
    year % 4 == 0 && (year % 100 != 0 || year % 400 == 0)
  }

  function LeapDay(year: int): nat { if IsLeap(year) then 1 else 0 }

  function YearLength(year: int): nat { 365 + LeapDay(year) }

  function DaysInMonth(month: int, year: int): (n: int)
    ensures 28 <= n <= 31
  {
    if month < 1 || month > 12 then 31
    else if month == 2 then 28 + LeapDay(year)
    else if month in {4, 6, 9, 11} then 30
    else 31
  }

  predicate Valid(d: Date) {
    1 <= d.month <= 12 && 1 <= d.day <= DaysInMonth(d.month, d.year)
  }

  function NextDay(d: Date): (r: Date)
    requires Valid(d)
    ensures Valid(r)
  {
    if d.day < DaysInMonth(d.month, d.year) then d.(day := d.day + 1)
    else if d.month < 12 then Date(d.year, d.month + 1, 1)
    else Date(d.year + 1, 1, 1)
  }

  function PreviousDay(d: Date): (r: Date)
    requires Valid(d)
    ensures Valid(r) && NextDay(r) == d
  {
    if d.day > 1 then d.(day := d.day - 1)
    else if d.month > 1 then Date(d.year, d.month - 1, DaysInMonth(d.month - 1, d.year))
    else Date(d.year - 1, 12, 31)
  }

  /** The date n days after 1 January 1970, by counting. */
  function DateOf(n: int): (d: Date)
    ensures Valid(d)
    decreases if n < 0 then -n else n
  {
    if n == 0 then Date(1970, 1, 1)
    else if n > 0 then NextDay(DateOf(n - 1))
    else PreviousDay(DateOf(n + 1))
  }

  // ---- Day numbers ----

  /** Days from 1 January 1970 to 1 January of the year. */
  function YearStart(year: int): int
    decreases if year < 1970 then 1970 - year else year - 1970
  {
    if year == 1970 then 0
    else if year > 1970 then YearStart(year - 1) + YearLength(year - 1)
    else YearStart(year + 1) - YearLength(year)
  }

  /** Days from 1 January to the first of the month. */
  function MonthStart(month: int, year: int): nat
    decreases month
  {
    if month <= 1 then 0 else MonthStart(month - 1, year) + DaysInMonth(month - 1, year)
  }

  function DayNumber(d: Date): int {
    YearStart(d.year) + MonthStart(d.month, d.year) + d.day - 1
  }

  lemma YearStep(year: int)
    ensures YearStart(year + 1) == YearStart(year) + YearLength(year)
  {
  }

  /** The month table, from March on, in closed form. */
  lemma MonthStarts(year: int)
    ensures MonthStart(1, year) == 0 && MonthStart(2, year) == 31
    ensures var f := 59 + LeapDay(year);
            && MonthStart(3, year) == f && MonthStart(4, year) == f + 31 && MonthStart(5, year) == f + 61
            && MonthStart(6, year) == f + 92 && MonthStart(7, year) == f + 122 && MonthStart(8, year) == f + 153
            && MonthStart(9, year) == f + 184 && MonthStart(10, year) == f + 214 && MonthStart(11, year) == f + 245
            && MonthStart(12, year) == f + 275
  {
    assert MonthStart(2, year) == MonthStart(1, year) + DaysInMonth(1, year);
    assert MonthStart(3, year) == MonthStart(2, year) + DaysInMonth(2, year);
    assert MonthStart(4, year) == MonthStart(3, year) + DaysInMonth(3, year);
    assert MonthStart(5, year) == MonthStart(4, year) + DaysInMonth(4, year);
    assert MonthStart(6, year) == MonthStart(5, year) + DaysInMonth(5, year);
    assert MonthStart(7, year) == MonthStart(6, year) + DaysInMonth(6, year);
    assert MonthStart(8, year) == MonthStart(7, year) + DaysInMonth(7, year);
    assert MonthStart(9, year) == MonthStart(8, year) + DaysInMonth(8, year);
    assert MonthStart(10, year) == MonthStart(9, year) + DaysInMonth(9, year);
    assert MonthStart(11, year) == MonthStart(10, year) + DaysInMonth(10, year);
    assert MonthStart(12, year) == MonthStart(11, year) + DaysInMonth(11, year);
  }

  lemma NextDayNumber(d: Date)
    requires Valid(d)
    ensures DayNumber(NextDay(d)) == DayNumber(d) + 1
  {
    if d.day == DaysInMonth(d.month, d.year) && d.month == 12 {
      MonthStarts(d.year);
      YearStep(d.year);
    }
  }

  lemma EpochDay()
    ensures DayNumber(Date(1970, 1, 1)) == 0
  {
  }

  lemma {:induction false} DayNumberOfDate(n: int)
    ensures DayNumber(DateOf(n)) == n
    decreases if n < 0 then -n else n
  {
    hide NextDay, PreviousDay, DayNumber;
    if n > 0 {
      DayNumberOfDate(n - 1);
      NextDayNumber(DateOf(n - 1));
    } else if n < 0 {
      DayNumberOfDate(n + 1);
      NextDayNumber(DateOf(n));
    } else {
      EpochDay();
    }
  }

  lemma {:induction false} YearStartMonotone(a: int, b: int)
    requires a <= b
    ensures YearStart(a) + 365 * (b - a) <= YearStart(b)
    decreases b - a
  {
    if a < b {
      YearStartMonotone(a, b - 1);
      YearStep(b - 1);
    }
  }

  lemma {:induction false} MonthStartMonotone(a: int, b: int, year: int)
    requires 1 <= a < b
    ensures MonthStart(a, year) + DaysInMonth(a, year) <= MonthStart(b, year)
    decreases b - a
  {
    if a < b - 1 {
      MonthStartMonotone(a, b - 1, year);
    }
  }

  lemma DayWithinYear(d: Date)
    requires Valid(d)
    ensures YearStart(d.year) <= DayNumber(d) < YearStart(d.year + 1)
  {
    YearStep(d.year);
    MonthStarts(d.year);
    if d.month < 12 {
      MonthStartMonotone(d.month, 12, d.year);
    }
  }

  /** Distinct dates have distinct day numbers. */
  lemma DayNumberInjective(a: Date, b: Date)
    requires Valid(a) && Valid(b) && DayNumber(a) == DayNumber(b)
    ensures a == b
  {
    hide YearStart, MonthStart, IsLeap, DaysInMonth;
    DayWithinYear(a);
    DayWithinYear(b);
    if a.year < b.year {
      YearStartMonotone(a.year + 1, b.year);
    } else if b.year < a.year {
      YearStartMonotone(b.year + 1, a.year);
    } else if a.month < b.month {
      MonthStartMonotone(a.month, b.month, a.year);
    } else if b.month < a.month {
      MonthStartMonotone(b.month, a.month, a.year);
    }
  }

  /** A valid date is the one counting reaches after its day number of days. */
  lemma DateIsCounted(d: Date)
    requires Valid(d)
    ensures d == DateOf(DayNumber(d))
  {
    DayNumberOfDate(DayNumber(d));
    DayNumberInjective(d, DateOf(DayNumber(d)));
  }

  // ---- Years that start in March ----

  /** Day number of 1 March of the year. */
  function MarchStart(year: int): int {
    365 * year + year / 4 - year / 100 + year / 400 - 719468
  }

  lemma FloorStep(y: int)
    ensures y / 4 - (y - 1) / 4 == if y % 4 == 0 then 1 else 0
    ensures y / 100 - (y - 1) / 100 == if y % 100 == 0 then 1 else 0
    ensures y / 400 - (y - 1) / 400 == if y % 400 == 0 then 1 else 0
  {
  }

  lemma LeapCount(y: int)
    ensures LeapDay(y) == (if y % 4 == 0 then 1 else 0) - (if y % 100 == 0 then 1 else 0)
                          + (if y % 400 == 0 then 1 else 0)
  {
    MultipleOf(y, 25, 4);
    MultipleOf(y, 4, 100);
  }

  /** A multiple of c d is a multiple of d. */
  lemma MultipleOf(y: int, c: nat, d: nat)
    requires c > 0 && d > 0
    ensures y % (c * d) == 0 ==> y % d == 0
  {
    if y % (c * d) == 0 {
      var q := y / (c * d);
      MulAssoc(d, c, q);
      DivUnique(y, d, c * q, 0);
    }
  }

  lemma MarchStep(y: int)
    ensures MarchStart(y) == MarchStart(y - 1) + 365 + LeapDay(y)
  {
    FloorStep(y);
    LeapCount(y);
  }

  lemma {:induction false} MarchFirst(y: int)
    ensures YearStart(y) + 59 + LeapDay(y) == MarchStart(y)
    decreases if y < 1970 then 1970 - y else y - 1970
  {
    if y > 1970 {
      MarchFirst(y - 1);
      MarchStep(y);
    } else if y < 1970 {
      MarchFirst(y + 1);
      MarchStep(y + 1);
    }
  }

  lemma MarchShift(y: int, k: int)
    ensures MarchStart(y + 400 * k) == MarchStart(y) + 146097 * k
  {
    assert (y + 400 * k) / 4 == y / 4 + 100 * k;
    assert (y + 400 * k) / 100 == y / 100 + 4 * k;
    assert (y + 400 * k) / 400 == y / 400 + k;
  }
}
