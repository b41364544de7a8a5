/** Seconds since the epoch to broken-down time, by multiplications and high words instead of
    divisions by the lengths of years and months. */
module TimeConv {
  import opened Gregorian
  import opened Bits

  const SECS_PER_DAY: int := 86400
  const SECS_PER_HOUR: int := 3600
  const TWO_16: int := 0x1_0000
  /** Whole 400-year cycles added so that day and year counts are not negative. */
  const CYCLES: int := 15782959329850

  datatype Tm = Tm(sec: int, min: int, hour: int, mday: int, mon: int, year: int, wday: int, yday: int)

  /** Division and remainder that round toward zero, as the source's operators do. */
  function TruncDiv(a: int, b: int): int
    requires b > 0
  {
    if a >= 0 then a / b else -((-a) / b)
  }

  function TruncMod(a: int, b: int): int
    requires b > 0
  {
    a - b * TruncDiv(a, b)
  }

  function ToSigned(x: int): int {
    if x < TWO_64 / 2 then x else x - TWO_64
  }

  /** The broken-down fields describe this second of the calendar. */
  predicate Describes(tm: Tm, local: int) {
    var day, second := local / SECS_PER_DAY, local % SECS_PER_DAY;
    var date := Date(tm.year + 1900, tm.mon + 1, tm.mday);
    && tm.hour == second / 3600 && tm.min == second % 3600 / 60 && tm.sec == second % 60
    && date == DateOf(day)
    && tm.wday == (4 + day) % 7
    && tm.yday == day - YearStart(tm.year + 1900)
  }

  // ---- Exactness of the fast steps ----

  /** Splitting a day count into centuries and days of a century. */
  lemma CenturySplit(n: nat)
    ensures var c, d := (4 * n + 3) / 146097, (4 * n + 3) % 146097 / 4;
            && n == 36524 * c + c / 4 + d && 0 <= d
            && d < 36524 + if c % 4 == 3 then 1 else 0
  {
  }

  /** The high word of the product is the year, the low word the day: exact division by 1461. */
  lemma YearByHighWord(m: nat)
    requires m < 146100
    ensures var p := 2939745 * m;
            && p / TWO_32 == m / 1461
            && p % TWO_32 / 2939745 == m % 1461
  {
    var q, r := m / 1461, m % 1461;
    assert m == 1461 * q + r;
    assert 2939745 * m == TWO_32 * q + (149 * q + 2939745 * r);
    assert 0 <= 149 * q + 2939745 * r < TWO_32;
  }

  lemma YearSplit(d: nat)
    requires d < 36525
    ensures var y, e := (4 * d + 3) / 1461, (4 * d + 3) % 1461 / 4;
            && d == 365 * y + y / 4 + e && 0 <= e && y < 100
            && e < 365 + if y % 4 == 3 then 1 else 0
  {
  }

  /** Days before month m of a year that starts in March (March is 2, January 12). */
  function FromMarch(m: int): int {
    if m <= 2 then 0 else if m == 3 then 31 else if m == 4 then 61 else if m == 5 then 92
    else if m == 6 then 122 else if m == 7 then 153 else if m == 8 then 184 else if m == 9 then 214
    else if m == 10 then 245 else if m == 11 then 275 else if m == 12 then 306 else 337
  }

  /** The high half of the product is the month, the low half the day: the exact month table. */
  lemma MonthByHighHalf(e: nat)
    requires e < 366
    ensures var p := 2141 * e + 132377;
            && 2 <= p / TWO_16 <= 13
            && p % TWO_16 / 2141 == e - FromMarch(p / TWO_16)
            && 0 <= e - FromMarch(p / TWO_16) < (if p / TWO_16 == 13 then 29
                else FromMarch(p / TWO_16 + 1) - FromMarch(p / TWO_16))
            && (p / TWO_16 >= 12 <==> e >= 306)
  {
    var p := 2141 * e + 132377;
    var m, d := p / TWO_16, p % TWO_16 / 2141;
    assert p == TWO_16 * m + p % TWO_16;
  }

  /** Month m counted from March = 2 as a date, in the year y that starts in March. */
  function MarchDate(y: int, m: int, day: int): Date {
    if m >= 12 then Date(y + 1, m - 11, day) else Date(y, m + 1, day)
  }

  lemma MarchYear(y: int)
    ensures YearStart(y) == MarchStart(y) - 59 - LeapDay(y) && YearStart(y + 1) == MarchStart(y) + 306
  {
    MarchFirst(y);
    YearStep(y);
  }

  lemma MarchDateNumber(y: int, e: nat, m: int)
    requires e < 365 + LeapDay(y + 1) && 2 <= m <= 13 && (m >= 12 <==> e >= 306)
    requires 0 <= e - FromMarch(m) < if m == 13 then 29 else FromMarch(m + 1) - FromMarch(m)
    ensures var d := MarchDate(y, m, e - FromMarch(m) + 1);
            Valid(d) && DayNumber(d) == MarchStart(y) + e
  {
    hide YearStart, MarchStart, MonthStart, IsLeap;
    MarchYear(y);
    MonthStarts(y);
    MonthStarts(y + 1);
  }

  /** The parts of a shifted year give its leap rule. */
  lemma LeapOfParts(c: nat, y: nat, k: int)
    requires y < 100
    ensures IsLeap(100 * c + y - 400 * k) <==> if y != 0 then y % 4 == 0 else c % 4 == 0
  {
    var z, r := 100 * c + y - 400 * k, c % 4;
    DivUnique(z, 400, c / 4 - k, 100 * r + y);
    DivUnique(z, 100, c - 4 * k, y);
    DivUnique(z, 4, 25 * c - 100 * k + y / 4, y % 4);
  }

  lemma MarchOfParts(c: nat, y: nat, k: int)
    requires y < 100
    ensures MarchStart(100 * c + y - 400 * k) == 36524 * c + c / 4 + 365 * y + y / 4 - 719468 - 146097 * k
  {
    MarchShift(100 * c + y - 400 * k, k);
    var z := 100 * c + y;
    assert z / 4 == 25 * c + y / 4 && z / 100 == c && z / 400 == c / 4;
  }

  /** A day count taken apart by centuries and years lies within the year it names. */
  lemma PartsBound(n: nat, c: nat, y: nat, e: nat, k: int)
    requires c == (4 * n + 3) / 146097 && y == (4 * ((4 * n + 3) % 146097 / 4) + 3) / 1461
    requires e == (4 * ((4 * n + 3) % 146097 / 4) + 3) % 1461 / 4
    ensures y < 100 && MarchStart(100 * c + y - 400 * k) + e == n - 719468 - 146097 * k
    ensures e < 365 + LeapDay(100 * c + y - 400 * k + 1)
  {
    hide MarchStart, IsLeap;
    var d := (4 * n + 3) % 146097 / 4;
    CenturySplit(n);
    YearSplit(d);
    MarchOfParts(c, y, k);
    if y < 99 {
      LeapOfParts(c, y + 1, k);
    } else {
      LeapOfParts(c + 1, 0, k);
    }
  }

  // ---- The conversion ----

  datatype DayFields = DayFields(year: int, mon: int, mday: int, yday: int)

  /** Unsigned 64-bit arithmetic read back as signed is exact while the value fits. */
  lemma SignedWrap(x: int)
    requires -TWO_64 / 2 + 1900 <= x < TWO_64 / 2
    ensures ToSigned((x % TWO_64 - 1900) % TWO_64) == x - 1900
  {
  }

  lemma UnsignedDays(days: int)
    requires -0x1_0000_0000_0000 <= days <= 0x1_0000_0000_0000
    ensures (days % TWO_64 + 2305843009213814918) % TWO_64 == days + 719468 + 146097 * CYCLES
    ensures 0 <= days + 719468 + 146097 * CYCLES < 0x4000_0000_0000_0000
  {
  }

  /** Years of a March-based count of days, with the day within the year. */
  method SplitYear(udays: nat) returns (century: nat, yearOfCentury: nat, dayOfYear: nat)
    requires udays < 0x4000_0000_0000_0000
    ensures yearOfCentury < 100 && century < 0x4000_0000_0000_0000 / 36524
    ensures MarchStart(100 * century + yearOfCentury - 400 * CYCLES) + dayOfYear == udays - 719468 - 146097 * CYCLES
    ensures dayOfYear < 365 + LeapDay(100 * century + yearOfCentury - 400 * CYCLES + 1)
  {
    hide MarchStart, IsLeap;
    var u64tmp := 4 * udays + 3;
    century := u64tmp / 146097;
    var dayOfCentury := u64tmp % 146097 / 4;
    var u32tmp := 4 * dayOfCentury + 3;
    YearByHighWord(u32tmp);
    var product := 2939745 * u32tmp;
    yearOfCentury := product / TWO_32;
    dayOfYear := product % TWO_32 / 2939745 / 4;
    PartsBound(udays, century, yearOfCentury, dayOfYear, CYCLES);
    CenturySplit(udays);
  }

  /** The calendar part: exact for every day a 64-bit second count can reach. */
  method SplitDays(days: int) returns (r: DayFields)
    requires -0x1_0000_0000_0000 <= days <= 0x1_0000_0000_0000
    ensures Date(r.year + 1900, r.mon + 1, r.mday) == DateOf(days)
    ensures r.yday == days - YearStart(r.year + 1900)
  {
    hide YearStart, MarchStart, IsLeap, DateOf, DayNumber, FromMarch, ToSigned;
    var udays := (days % TWO_64 + 2305843009213814918) % TWO_64;
    UnsignedDays(days);
    var century, yearOfCentury, dayOfYear := SplitYear(udays);
    var year := 100 * century + yearOfCentury;
    var isLeap := if yearOfCentury != 0 then yearOfCentury % 4 == 0 else century % 4 == 0;
    LeapOfParts(century, yearOfCentury, CYCLES);
    MonthByHighHalf(dayOfYear);
    var u32tmp := 2141 * dayOfYear + 132377;
    var month := u32tmp / TWO_16;
    var day := u32tmp % TWO_16 / 2141;
    var janOrFeb := dayOfYear >= 306;
    ghost var y := year - 400 * CYCLES;
    MarchDateNumber(y, dayOfYear, month);
    MarchYear(y);
    DateIsCounted(MarchDate(y, month, day + 1));
    SignedWrap(if janOrFeb then y + 1 else y);
    year := (year + (if janOrFeb then 1 else 0) - 6313183731940000) % TWO_64;
    month := if janOrFeb then month - 12 else month;
    day := day + 1;
    var yday := if janOrFeb then dayOfYear - 306 else dayOfYear + 31 + 28 + if isLeap then 1 else 0;
    r := DayFields(ToSigned((year - 1900) % TWO_64), month, day, yday);
  }

  /** Whole days and second of the day, normalised by counting days up or down. */
  method SplitSeconds(totalsecs: int, offset: int) returns (days: int, rem: int)
    requires -TWO_64 / 2 <= totalsecs < TWO_64 / 2 && -TWO_32 / 2 <= offset < TWO_32 / 2
    ensures days == (totalsecs + offset) / SECS_PER_DAY && rem == (totalsecs + offset) % SECS_PER_DAY
    ensures -0x1_0000_0000_0000 <= days <= 0x1_0000_0000_0000
  {
    days := TruncDiv(totalsecs, SECS_PER_DAY);
    rem := TruncMod(totalsecs, SECS_PER_DAY) + offset;
    while rem < 0
      invariant SECS_PER_DAY * days + rem == totalsecs + offset
      decreases -rem
    {
      rem := rem + SECS_PER_DAY;
      days := days - 1;
    }
    while rem >= SECS_PER_DAY
      invariant rem >= 0 && SECS_PER_DAY * days + rem == totalsecs + offset
    {
      rem := rem - SECS_PER_DAY;
      days := days + 1;
    }
  }

  /** For every 64-bit second count and every offset the fields are those of the calendar. */
  method Time64ToTm(totalsecs: int, offset: int) returns (tm: Tm)
    requires -TWO_64 / 2 <= totalsecs < TWO_64 / 2 && -TWO_32 / 2 <= offset < TWO_32 / 2
    ensures Describes(tm, totalsecs + offset)
  {
    hide YearStart, DateOf;
    var days, rem := SplitSeconds(totalsecs, offset);
    var hour := rem / SECS_PER_HOUR;
    var left := rem % SECS_PER_HOUR;
    var wday := TruncMod(4 + days, 7);
    if wday < 0 {
      wday := wday + 7;
    }
    var d := SplitDays(days);
    tm := Tm(left % 60, left / 60, hour, d.mday, d.mon, d.year, wday, d.yday);
  }

  /** At most one set of fields describes a second. */
  lemma DescribesUnique(a: Tm, b: Tm, local: int)
    requires Describes(a, local) && Describes(b, local)
    ensures a == b
  {
  }
}
