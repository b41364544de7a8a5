/** The kernel's own calendar code: one-second ticks, and conversion by counting years and months. */
module KernelTime {
  import opened Bits
  import opened Gregorian
  import TimeConv

  datatype Stamp = Stamp(second: int, minute: int, hour: int, day: int, month: int, year: int)

  function DateIn(s: Stamp): Date { Date(s.year, s.month, s.day) }

  function TimeIn(s: Stamp): int { 3600 * s.hour + 60 * s.minute + s.second }

  predicate ClockValid(s: Stamp) {
    0 <= s.second <= 59 && 0 <= s.minute <= 59 && 0 <= s.hour <= 23
  }

  /** A real date of the calendar with a real time of day. */
  predicate CalendarValid(s: Stamp) {
    ClockValid(s) && Valid(DateIn(s))
  }

  /** What the kernel accepts: any day up to 31 passes, whatever the month. */
  predicate Accepted(s: Stamp) {
    s.year >= 1970 && 1 <= s.month <= 12 && 1 <= s.day <= 31 && ClockValid(s)
  }

  /** The fields fit their 8- and 16-bit storage. */
  predicate Stored(s: Stamp) {
    && 0 <= s.second < 256 && 0 <= s.minute < 256 && 0 <= s.hour < 256 && 0 <= s.day < 256 && 0 <= s.month < 256
    && 0 <= s.year < 0x1_0000
  }

  /** Seconds since the epoch. */
  function SecondsOf(s: Stamp): int {
    86400 * DayNumber(DateIn(s)) + TimeIn(s)
  }

  /** The stamp of a second count, from the day-by-day calendar. */
  function StampOf(e: int): (s: Stamp)
    ensures CalendarValid(s)
  {
    var d, t := DateOf(e / 86400), e % 86400;
    Stamp(t % 60, t / 60 % 60, t / 3600, d.day, d.month, d.year)
  }

  lemma SecondsOfStamp(e: int)
    ensures SecondsOf(StampOf(e)) == e
  {
    hide DateOf, DayNumber;
    DayNumberOfDate(e / 86400);
  }

  /** A valid stamp is the one of its second count. */
  lemma StampIsCounted(s: Stamp)
    requires CalendarValid(s)
    ensures StampOf(SecondsOf(s)) == s
  {
    hide DateOf, DayNumber;
    var e := SecondsOf(s);
    assert 0 <= TimeIn(s) < 86400;
    assert e / 86400 == DayNumber(DateIn(s)) && e % 86400 == TimeIn(s);
    DateIsCounted(DateIn(s));
    TimeOfDay(s.hour, s.minute, s.second);
  }

  lemma TimeOfDay(h: int, m: int, s: int)
    requires 0 <= s <= 59 && 0 <= m <= 59 && 0 <= h <= 23
    ensures var t := 3600 * h + 60 * m + s; t % 60 == s && t / 60 % 60 == m && t / 3600 == h
  {
    var t := 3600 * h + 60 * m + s;
    assert t / 60 == 60 * h + m;
  }

  // ---- Advancing by one second ----

  function Wrap8(x: int): int { if 0 <= x < 256 then x else x % 256 }

  function Tick(s: Stamp): Stamp {
    var second := Wrap8(s.second + 1);
    if second < 60 then s.(second := second) else
      var minute := Wrap8(s.minute + 1);
      if minute < 60 then s.(second := 0, minute := minute) else
        var hour := Wrap8(s.hour + 1);
        if hour < 24 then s.(second := 0, minute := 0, hour := hour) else
          TickDay(s)
  }

  function TickDay(s: Stamp): Stamp {
    var day := Wrap8(s.day + 1);
    if day <= DaysInMonth(s.month, s.year) then Stamp(0, 0, 0, day, s.month, s.year) else
      var month := Wrap8(s.month + 1);
      if month <= 12 then Stamp(0, 0, 0, 1, month, s.year)
      else Stamp(0, 0, 0, 1, 1, if s.year + 1 < 0x1_0000 then s.year + 1 else (s.year + 1) % 0x1_0000)
  }

  class DateTime {
    var second: int
    var minute: int
    var hour: int
    var day: int
    var month: int
    var year: int

    constructor (s: Stamp)
      ensures Value() == s
    {
      second, minute, hour, day, month, year := s.second, s.minute, s.hour, s.day, s.month, s.year;
    }

    function Value(): Stamp
      reads this
    {
      Stamp(second, minute, hour, day, month, year)
    }

    method AdvanceOneSecond()
      requires Stored(Value())
      modifies this
      ensures Value() == Tick(old(Value()))
    {
      second := Wrap8(second + 1);
      if second >= 60 {
        second := 0;
        minute := Wrap8(minute + 1);
        if minute >= 60 {
          minute := 0;
          hour := Wrap8(hour + 1);
          if hour >= 24 {
            hour := 0;
            day := Wrap8(day + 1);
            if day > DaysInMonth(month, year) {
              day := 1;
              month := Wrap8(month + 1);
              if month > 12 {
                month := 1;
                year := (year + 1) % 0x1_0000;
              }
            }
          }
        }
      }
    }
  }

  /** The last second of the last year 16 bits can hold. */
  predicate LastStorable(s: Stamp) {
    s == Stamp(59, 59, 23, 31, 12, 0xFFFF)
  }

  predicate BeforeMidnight(s: Stamp) {
    s.second == 59 && s.minute == 59 && s.hour == 23
  }

  lemma TickWithinDay(s: Stamp)
    requires ClockValid(s) && !BeforeMidnight(s)
    ensures ClockValid(Tick(s)) && DateIn(Tick(s)) == DateIn(s) && TimeIn(Tick(s)) == TimeIn(s) + 1
  {
  }

  lemma TickDayIsNextDay(s: Stamp)
    requires Valid(DateIn(s)) && Stored(s) && !(s.day == 31 && s.month == 12 && s.year == 0xFFFF)
    ensures DateIn(TickDay(s)) == NextDay(DateIn(s)) && ClockValid(TickDay(s)) && TimeIn(TickDay(s)) == 0
  {
    hide IsLeap;
    assert 1 <= s.day <= 31;
    assert Wrap8(s.day + 1) == s.day + 1 && Wrap8(s.month + 1) == s.month + 1;
  }

  lemma TickCarriesToDay(s: Stamp)
    requires BeforeMidnight(s)
    ensures Tick(s) == TickDay(s) && TimeIn(s) == 86399
  {
    hide TickDay;
  }

  lemma YearRunsOut(s: Stamp)
    requires LastStorable(s)
    ensures TickDay(s) == Stamp(0, 0, 0, 1, 1, 0) && CalendarValid(TickDay(s))
  {
  }

  lemma TickAtMidnight(s: Stamp)
    requires CalendarValid(s) && Stored(s) && BeforeMidnight(s)
    ensures CalendarValid(Tick(s)) && TimeIn(Tick(s)) == 0 && TimeIn(s) == 86399
    ensures DateIn(Tick(s)) == if LastStorable(s) then Date(0, 1, 1) else NextDay(DateIn(s))
  {
    hide NextDay, TickDay, Tick;
    TickCarriesToDay(s);
    if LastStorable(s) {
      YearRunsOut(s);
    } else {
      TickDayIsNextDay(s);
    }
  }

  /** A tick of a valid stamp is one second of the calendar, except where the year runs out. */
  lemma TickIsOneSecond(s: Stamp)
    requires CalendarValid(s) && Stored(s)
    ensures CalendarValid(Tick(s)) && (SecondsOf(Tick(s)) == SecondsOf(s) + 1 <==> !LastStorable(s))
  {
    hide DayNumber, Tick, NextDay;
    if !BeforeMidnight(s) {
      TickWithinDay(s);
    } else {
      TickAtMidnight(s);
      if LastStorable(s) {
        YearsApart(DateIn(Tick(s)), DateIn(s));
      } else {
        NextDayNumber(DateIn(s));
      }
    }
  }

  lemma YearsApart(a: Date, b: Date)
    requires Valid(a) && Valid(b) && a.year < b.year
    ensures DayNumber(a) < DayNumber(b)
  {
    hide YearStart, DayNumber;
    DayWithinYear(a);
    DayWithinYear(b);
    YearStartMonotone(a.year + 1, b.year);
  }

  // ---- Conversion by counting ----

  /** Seconds of an accepted stamp, wrapped to 32 bits; 0 for anything else. */
  function ToEpochValue(s: Stamp): int {
    if Accepted(s) then SecondsOf(s) % TWO_32 else 0
  }

  method ToEpoch(dt: Stamp) returns (epoch: int)
    ensures epoch == ToEpochValue(dt)
  {
    if !Accepted(dt) {
      return 0;
    }
    var days := 0;
    var year := 1970;
    while year < dt.year
      invariant 1970 <= year <= dt.year && days == YearStart(year)
    {
      days := days + 365 + if IsLeap(year) then 1 else 0;
      year := year + 1;
    }
    var month := 1;
    while month < dt.month
      invariant 1 <= month <= dt.month && days == YearStart(dt.year) + MonthStart(month, dt.year)
    {
      days := days + DaysInMonth(month, dt.year);
      month := month + 1;
    }
    days := days + dt.day - 1;
    epoch := (days * 86400 + dt.hour * 3600 + dt.minute * 60 + dt.second) % TWO_32;
  }

  lemma MonthFound(year: int, month: int, left: int)
    requires 1 <= month <= 12 && 0 <= left && MonthStart(month, year) + left < YearLength(year)
    ensures month == 12 ==> left < DaysInMonth(12, year)
  {
    MonthStarts(year);
  }

  method FromEpoch(epoch: int) returns (dt: Stamp)
    requires 0 <= epoch < TWO_32
    ensures dt == StampOf(epoch)
  {
    hide YearStart, MonthStart, DateOf;
    var second, minute, hour := epoch % 60, epoch / 60 % 60, epoch / 3600 % 24;
    var days := epoch / 86400;
    ghost var n := days;
    var year := 1970;
    YearZero();
    while days >= 365 + (if IsLeap(year) then 1 else 0)
      invariant 0 <= days && n == YearStart(year) + days
      decreases days
    {
      YearStep(year);
      days := days - (365 + if IsLeap(year) then 1 else 0);
      year := year + 1;
    }
    var month := 1;
    MonthZero(year);
    while days >= DaysInMonth(month, year)
      invariant 1 <= month <= 12 && 0 <= days && MonthStart(month, year) + days < YearLength(year)
      invariant n == YearStart(year) + MonthStart(month, year) + days
      decreases days
    {
      MonthFound(year, month, days);
      MonthStep(month, year);
      days := days - DaysInMonth(month, year);
      month := month + 1;
    }
    dt := Stamp(second, minute, hour, days + 1, month, year);
    DateIsCounted(DateIn(dt));
    TimeFields(epoch);
  }

  lemma YearZero() ensures YearStart(1970) == 0 {}

  lemma MonthZero(year: int) ensures MonthStart(1, year) == 0 {}

  lemma MonthStep(month: int, year: int)
    requires month >= 1
    ensures MonthStart(month + 1, year) == MonthStart(month, year) + DaysInMonth(month, year)
  {
  }

  lemma TimeFields(e: int)
    requires 0 <= e
    ensures e % 86400 % 60 == e % 60 && e % 86400 / 60 % 60 == e / 60 % 60 && e % 86400 / 3600 == e / 3600 % 24
  {
    Nested(e, 1440, 60);
    Nested(e, 24, 3600);
    Nested(e / 60, 24, 60);
    Nested(e % 86400, 60, 60);
    Nested(e, 60, 60);
    var q, t := e / 86400, e % 86400;
    assert e / 60 == 1440 * q + t / 60;
    var a := t / 60;
    assert (1440 * q + a) % 60 == a % 60 by { DivUnique(1440 * q + a, 60, 24 * q + a / 60, a % 60); }
  }

  /** Taking a count apart in two steps. */
  lemma Nested(e: int, c: int, d: int)
    requires 0 <= e && 0 < c && 0 < d
    ensures e % (c * d) % d == e % d && e / d == c * (e / (c * d)) + e % (c * d) / d && e % (c * d) / d == e / d % c
  {
    var n := c * d;
    assert n > 0 by { MulAtLeast(c, d); }
    var q, t := e / n, e % n;
    var u, v := t / d, t % d;
    assert e == d * (c * q + u) + v by {
      MulAssoc(d, c, q);
      Distribute(d, c * q, u);
    }
    DivUnique(e, d, c * q + u, v);
    assert u < c by {
      if u >= c {
        MulMono(c, u, d);
      }
    }
    DivUnique(c * q + u, c, q, u);
  }

  /** Every 32-bit epoch survives the conversion to fields and back. */
  lemma EpochRoundTrip(e: int)
    requires 0 <= e < TWO_32
    ensures ToEpochValue(StampOf(e)) == e
  {
    hide DateOf, SecondsOf;
    SecondsOfStamp(e);
    SinceEpoch(e / 86400);
  }

  lemma {:induction false} SinceEpoch(n: int)
    requires n >= 0
    ensures DateOf(n).year >= 1970
  {
    if n > 0 {
      SinceEpoch(n - 1);
    }
  }

  /** An accepted stamp comes back from its epoch exactly when its day exists and 32 bits hold it. */
  lemma StampRoundTripIff(s: Stamp)
    requires Accepted(s)
    ensures StampOf(ToEpochValue(s)) == s <==> s.day <= DaysInMonth(s.month, s.year) && SecondsOf(s) < TWO_32
  {
    hide SecondsOf, StampOf, CalendarValid, DaysInMonth;
    var e := ToEpochValue(s);
    SecondsOfStamp(e);
    AcceptedNotNegative(s);
    AcceptedIsValid(s);
    if CalendarValid(s) {
      StampIsCounted(s);
    }
  }

  lemma AcceptedIsValid(s: Stamp)
    requires Accepted(s)
    ensures CalendarValid(s) <==> s.day <= DaysInMonth(s.month, s.year)
  {
    hide DaysInMonth;
  }

  lemma AcceptedNotNegative(s: Stamp)
    requires Accepted(s)
    ensures SecondsOf(s) >= 0
  {
    hide YearStart;
    YearZero();
    YearStartMonotone(1970, s.year);
  }

  /** A day that its month does not have is accepted and taken for a day of the next month. */
  lemma OverflowingDay(s: Stamp)
    requires Accepted(s) && s.day > DaysInMonth(s.month, s.year) && SecondsOf(s) < TWO_32
    ensures StampOf(ToEpochValue(s)) == s.(month := s.month + 1, day := s.day - DaysInMonth(s.month, s.year))
  {
    hide StampOf, YearStart, IsLeap;
    var t := s.(month := s.month + 1, day := s.day - DaysInMonth(s.month, s.year));
    MonthStep(s.month, s.year);
    AcceptedNotNegative(s);
    assert SecondsOf(t) == SecondsOf(s);
    StampIsCounted(t);
  }

  lemma FebruaryThirtyFirst(s: Stamp)
    requires Accepted(s) && s.month == 2 && s.day == 31
    ensures StampOf(ToEpochValue(s)) != s
  {
    hide StampOf, SecondsOf;
    StampRoundTripIff(s);
  }

  /** A tick leads from the fields of an epoch to those of the next, except where 32 bits run out. */
  lemma TickMatchesEpoch(e: int)
    requires 0 <= e < TWO_32
    ensures Tick(StampOf(e)) == StampOf((e + 1) % TWO_32) <==> e + 1 < TWO_32
  {
    hide StampOf, Tick, SecondsOf;
    var s := StampOf(e);
    SecondsOfStamp(e);
    SecondsOfStamp((e + 1) % TWO_32);
    EpochStored(e);
    TickIsOneSecond(s);
    StampIsCounted(Tick(s));
  }

  lemma EpochStored(e: int)
    requires 0 <= e < TWO_32
    ensures Stored(StampOf(e)) && StampOf(e).year <= 2200
  {
    hide DateOf, YearStart, IsLeap;
    var s := StampOf(e);
    SecondsOfStamp(e);
    SinceEpoch(e / 86400);
    YearZero();
    if s.year > 2200 {
      YearStartMonotone(1970, s.year);
    }
  }

  /** The conversion by counting and the fast one give the same fields. */
  lemma AgreesWithFast(e: int, tm: TimeConv.Tm)
    requires 0 <= e < TWO_32 && TimeConv.Describes(tm, e)
    ensures StampOf(e) == Stamp(tm.sec, tm.min, tm.hour, tm.mday, tm.mon + 1, tm.year + 1900)
  {
    hide DateOf, YearStart;
    TimeFields(e);
    MinuteTwoWays(e % 86400);
  }

  lemma MinuteTwoWays(t: int)
    requires 0 <= t
    ensures t % 3600 / 60 == t / 60 % 60
  {
    var q, r := t / 3600, t % 3600;
    assert t / 60 == 60 * q + r / 60;
  }
}
