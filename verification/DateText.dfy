/** The clock's date and time strings, and the parser that reads such strings back.

    Strings are read as the source reads them: past the last character there is a NUL. */
module DateText {
  import opened Bits
  import opened Gregorian
  import opened KernelTime

  // ---- Printing ----

  /** The character k places after the zero. */
  function Char(k: int): char { if 0 <= k < 208 then (48 + k) as char else '?' }

  /** The last decimal digit of n. */
  function Digit(n: int): char { Char(n % 10) }

  function TwoDigits(n: int): string { [Char(n / 10), Digit(n)] }

  function FourDigits(n: int): string { [Digit(n / 1000), Digit(n / 100), Digit(n / 10), Digit(n)] }

  function DateString(s: Stamp): string {
    FourDigits(s.year) + "-" + TwoDigits(s.month) + "-" + TwoDigits(s.day)
  }

  function TimeString(s: Stamp): string {
    TwoDigits(s.hour) + ":" + TwoDigits(s.minute) + ":" + TwoDigits(s.second)
  }

  /** Every field has no more digits than its place. */
  predicate Printable(s: Stamp) {
    && 0 <= s.year <= 9999 && 0 <= s.month <= 99 && 0 <= s.day <= 99
    && 0 <= s.hour <= 99 && 0 <= s.minute <= 99 && 0 <= s.second <= 99
  }

  /** Writes both strings, NUL-terminated, into the caller's buffers. */
  method FormatDateTime(now: Stamp, date: array<char>, time: array<char>)
    requires Stored(now) && date.Length >= 11 && time.Length >= 9 && date != time
    modifies date, time
    ensures date[..11] == DateString(now) + "\0" && time[..9] == TimeString(now) + "\0"
  {
    FormatDate(now, date);
    FormatTime(now, time);
  }

  method FormatDate(now: Stamp, date: array<char>)
    requires Stored(now) && date.Length >= 11
    modifies date
    ensures date[..11] == DateString(now) + "\0"
  {
    hide Char;
    date[0] := Char(now.year / 1000 % 10);
    date[1] := Char(now.year / 100 % 10);
    date[2] := Char(now.year / 10 % 10);
    date[3] := Char(now.year % 10);
    date[4] := '-';
    date[5] := Char(now.month / 10);
    date[6] := Char(now.month % 10);
    date[7] := '-';
    date[8] := Char(now.day / 10);
    date[9] := Char(now.day % 10);
    date[10] := '\0';
  }

  method FormatTime(now: Stamp, time: array<char>)
    requires Stored(now) && time.Length >= 9
    modifies time
    ensures time[..9] == TimeString(now) + "\0"
  {
    hide Char;
    time[0] := Char(now.hour / 10);
    time[1] := Char(now.hour % 10);
    time[2] := ':';
    time[3] := Char(now.minute / 10);
    time[4] := Char(now.minute % 10);
    time[5] := ':';
    time[6] := Char(now.second / 10);
    time[7] := Char(now.second % 10);
    time[8] := '\0';
  }

  // ---- Parsing ----

  function At(s: string, p: nat): char { if p < |s| then s[p] else '\0' }

  predicate IsDigit(c: char) { '0' <= c <= '9' }

  /** The number written by n digits from p on, if there are n digits. */
  function Number(s: string, p: nat, n: nat): (r: int)
    ensures r >= -1
    decreases n
  {
    if n == 0 then 0
    else
      var high := Number(s, p, n - 1);
      if high < 0 || !IsDigit(At(s, p + n - 1)) then -1
      else 10 * high + (At(s, p + n - 1) as int - 48)
  }

  /** Where spaces end, from p on. */
  function SkipSpaces(s: string, p: nat): (q: nat)
    ensures p <= q
    decreases |s| - p
  {
    if At(s, p) == ' ' then SkipSpaces(s, p + 1) else p
  }

  predicate EndsAt(s: string, p: nat) { At(s, SkipSpaces(s, p)) in {'\0', '\n', '\r'} }

  predicate HasTime(s: string) { At(s, 10) in {' ', 'T'} }

  predicate DateShape(s: string) {
    && Number(s, 0, 4) >= 0 && At(s, 4) == '-' && Number(s, 5, 2) >= 0 && At(s, 7) == '-' && Number(s, 8, 2) >= 0
  }

  predicate TimeShape(s: string) {
    && Number(s, 11, 2) >= 0 && At(s, 13) == ':' && Number(s, 14, 2) >= 0 && At(s, 16) == ':' && Number(s, 17, 2) >= 0
  }

  predicate Shape(s: string) {
    DateShape(s) && if HasTime(s) then TimeShape(s) && EndsAt(s, 19) else EndsAt(s, 10)
  }

  function Fields(s: string): Stamp {
    if HasTime(s) then
      Stamp(Number(s, 17, 2), Number(s, 14, 2), Number(s, 11, 2), Number(s, 8, 2), Number(s, 5, 2), Number(s, 0, 4))
    else Stamp(0, 0, 0, Number(s, 8, 2), Number(s, 5, 2), Number(s, 0, 4))
  }

  /** Seconds since the epoch as the parser counts them: years before 1970 add nothing. */
  function CountedSeconds(s: Stamp): int {
    86400 * ((if s.year < 1970 then 0 else YearStart(s.year)) + MonthStart(s.month, s.year) + s.day - 1) + TimeIn(s)
  }

  function ParseValue(s: string): int {
    if Shape(s) && CalendarValid(Fields(s)) then CountedSeconds(Fields(s)) % TWO_32 else 0
  }

  method ReadNumber(s: string, p: nat, n: nat) returns (ok: bool, value: int)
    ensures ok <==> Number(s, p, n) >= 0
    ensures ok ==> value == Number(s, p, n)
  {
    value := 0;
    for i := 0 to n
      invariant 0 <= value == Number(s, p, i)
    {
      var c := At(s, p + i);
      if c < '0' || c > '9' {
        NumberStops(s, p, i + 1, n);
        return false, 0;
      }
      value := value * 10 + (c as int - 48);
    }
    ok := true;
  }

  lemma {:induction false} NumberStops(s: string, p: nat, i: nat, n: nat)
    requires i <= n && Number(s, p, i) < 0
    ensures Number(s, p, n) < 0
    decreases n
  {
    if i < n {
      NumberStops(s, p, i, n - 1);
    }
  }

  method ReadDate(s: string) returns (ok: bool, y: int, m: int, d: int)
    ensures ok <==> DateShape(s)
    ensures ok ==> y == Number(s, 0, 4) && m == Number(s, 5, 2) && d == Number(s, 8, 2)
  {
    hide Number;
    y, m, d := 0, 0, 0;
    ok, y := ReadNumber(s, 0, 4);
    if !ok { return; }
    if At(s, 4) != '-' { return false, 0, 0, 0; }
    ok, m := ReadNumber(s, 5, 2);
    if !ok { return; }
    if At(s, 7) != '-' { return false, 0, 0, 0; }
    ok, d := ReadNumber(s, 8, 2);
  }

  method ReadTime(s: string) returns (ok: bool, hour: int, minute: int, second: int)
    ensures ok <==> TimeShape(s)
    ensures ok ==> hour == Number(s, 11, 2) && minute == Number(s, 14, 2) && second == Number(s, 17, 2)
  {
    hide Number;
    hour, minute, second := 0, 0, 0;
    ok, hour := ReadNumber(s, 11, 2);
    if !ok { return; }
    if At(s, 13) != ':' { return false, 0, 0, 0; }
    ok, minute := ReadNumber(s, 14, 2);
    if !ok { return; }
    if At(s, 16) != ':' { return false, 0, 0, 0; }
    ok, second := ReadNumber(s, 17, 2);
  }

  /** Epoch seconds of a date, or of a date and time; 0 when the text is not one. */
  method Parse(s: string) returns (epoch: int)
    ensures epoch == ParseValue(s)
  {
    hide Number, YearStart, MonthStart, DateShape, TimeShape;
    var ok, y, m, d := ReadDate(s);
    if !ok { return 0; }
    var hour, minute, second := 0, 0, 0;
    var p: nat := 10;
    if At(s, p) == ' ' || At(s, p) == 'T' {
      ok, hour, minute, second := ReadTime(s);
      if !ok { return 0; }
      p := 19;
    }
    ghost var from := p;
    while At(s, p) == ' '
      invariant SkipSpaces(s, from) == SkipSpaces(s, p)
      decreases |s| - p
    {
      p := p + 1;
    }
    if At(s, p) != '\0' && At(s, p) != '\n' && At(s, p) != '\r' { return 0; }
    if m < 1 || m > 12 { return 0; }
    if d < 1 || d > DaysInMonth(m, y) { return 0; }
    if hour < 0 || hour > 23 || minute < 0 || minute > 59 || second < 0 || second > 59 { return 0; }
    var days := CountDays(y, m, d);
    epoch := (days * 86400 + hour * 3600 + minute * 60 + second) % TWO_32;
  }

  method CountDays(y: int, m: int, d: int) returns (days: int)
    requires 1 <= m
    ensures days == (if y < 1970 then 0 else YearStart(y)) + MonthStart(m, y) + d - 1
  {
    hide MonthStart;
    MonthZero(y);
    days := 0;
    var year := 1970;
    while year < y
      invariant year == 1970 || 1970 < year <= y
      invariant days == YearStart(year)
    {
      days := days + 365 + if IsLeap(year) then 1 else 0;
      year := year + 1;
    }
    assert days == if y < 1970 then 0 else YearStart(y);
    ghost var before := days;
    var month := 1;
    while month < m
      invariant 1 <= month <= m && days == before + MonthStart(month, y)
    {
      MonthStep(month, y);
      days := days + DaysInMonth(month, y);
      month := month + 1;
    }
    days := days + d - 1;
  }

  // ---- What is printed is read back ----

  lemma DigitValue(n: int)
    ensures IsDigit(Digit(n)) && Digit(n) as int - 48 == n % 10
  {
  }

  lemma TwoDigitsBack(s: string, p: nat, n: int)
    requires 0 <= n <= 99 && p + 2 <= |s| && s[p..p + 2] == TwoDigits(n)
    ensures Number(s, p, 2) == n
  {
    DigitValue(n / 10);
    DigitValue(n);
    assert s[p] == s[p..p + 2][0] && s[p + 1] == s[p..p + 2][1];
    assert Number(s, p, 1) == 10 * Number(s, p, 0) + n / 10;
  }

  /** One digit more multiplies by ten and adds. */
  lemma NumberNext(s: string, p: nat, k: nat, q: nat, v: int)
    requires 0 <= v == Number(s, p, k) && q == p + k < |s|
    ensures if IsDigit(s[q]) then Number(s, p, k + 1) == 10 * v + (s[q] as int - 48) else Number(s, p, k + 1) == -1
  {
  }

  lemma FourDigitsBack(s: string, n: int)
    requires 0 <= n <= 9999 && 4 <= |s| && s[..4] == FourDigits(n)
    ensures Number(s, 0, 4) == n
  {
    hide Digit, IsDigit, Number;
    assert s[0] == s[..4][0] && s[1] == s[..4][1] && s[2] == s[..4][2] && s[3] == s[..4][3];
    var a, b, c := n / 1000, n / 100, n / 10;
    DivTens(n);
    DigitValue(a);
    DigitValue(b);
    DigitValue(c);
    DigitValue(n);
    NumberZero(s, 0);
    NumberNext(s, 0, 0, 0, 0);
    NumberNext(s, 0, 1, 1, a);
    NumberNext(s, 0, 2, 2, b);
    NumberNext(s, 0, 3, 3, c);
  }

  lemma NumberZero(s: string, p: nat) ensures Number(s, p, 0) == 0 {}

  lemma DateBack(text: string, s: Stamp)
    requires Printable(s) && DateString(s) <= text
    ensures DateShape(text)
    ensures Number(text, 0, 4) == s.year && Number(text, 5, 2) == s.month && Number(text, 8, 2) == s.day
  {
    hide Number, FourDigits, TwoDigits;
    var w := DateString(s);
    assert |w| == 10 by { DateLength(s); }
    DateParts(s);
    assert text[..4] == w[..4] && text[5..7] == w[5..7] && text[8..10] == w[8..10];
    assert text[4] == w[4] && text[7] == w[7];
    FourDigitsBack(text, s.year);
    TwoDigitsBack(text, 5, s.month);
    TwoDigitsBack(text, 8, s.day);
  }

  lemma DateLength(s: Stamp)
    ensures |DateString(s)| == 10 && |TimeString(s)| == 8
  {
  }

  lemma DateParts(s: Stamp)
    ensures var w := DateString(s);
            && |w| == 10 && w[..4] == FourDigits(s.year) && w[4] == '-' && w[5..7] == TwoDigits(s.month)
            && w[7] == '-' && w[8..10] == TwoDigits(s.day)
  {
  }

  lemma TimeParts(s: Stamp)
    ensures var w := TimeString(s);
            && |w| == 8 && w[..2] == TwoDigits(s.hour) && w[2] == ':' && w[3..5] == TwoDigits(s.minute)
            && w[5] == ':' && w[6..8] == TwoDigits(s.second)
  {
  }

  lemma TimeBack(text: string, s: Stamp)
    requires Printable(s) && |text| >= 19 && text[11..19] == TimeString(s)
    ensures TimeShape(text)
    ensures Number(text, 11, 2) == s.hour && Number(text, 14, 2) == s.minute && Number(text, 17, 2) == s.second
  {
    hide Number, TwoDigits;
    var w := text[11..19];
    TimeParts(s);
    assert text[11..13] == w[..2] && text[14..16] == w[3..5] && text[17..19] == w[6..8];
    assert text[13] == w[2] && text[16] == w[5];
    TwoDigitsBack(text, 11, s.hour);
    TwoDigitsBack(text, 14, s.minute);
    TwoDigitsBack(text, 17, s.second);
  }

  /** A printed date and time, joined by a space or a T and followed by an end of text, is read back. */
  lemma ParsePrinted(s: Stamp, separator: char, tail: string)
    requires CalendarValid(s) && 0 <= s.year <= 9999 && separator in {' ', 'T'} && EndsAt(tail, 0)
    ensures ParseValue(DateString(s) + [separator] + TimeString(s) + tail) == CountedSeconds(s) % TWO_32
  {
    hide Number, TwoDigits, FourDigits, DateShape, TimeShape, DateString, TimeString, YearStart, MonthStart, IsLeap;
    var text := DateString(s) + [separator] + TimeString(s) + tail;
    DateLength(s);
    assert DateString(s) <= text && text[10] == separator && text[11..19] == TimeString(s);
    assert text[19..] == tail;
    DateBack(text, s);
    TimeBack(text, s);
    SpacesInTail(text, 19, tail, 0);
    assert Fields(text) == s;
  }

  lemma {:induction false} SpacesInTail(text: string, from: nat, tail: string, p: nat)
    requires from <= |text| && text[from..] == tail
    ensures At(text, SkipSpaces(text, from + p)) == At(tail, SkipSpaces(tail, p))
    decreases |tail| - p
  {
    assert At(text, from + p) == At(tail, p);
    if At(tail, p) == ' ' {
      SpacesInTail(text, from, tail, p + 1);
    } else {
      assert SkipSpaces(text, from + p) == from + p;
    }
  }

  /** For every 32-bit epoch, parsing what the clock shows gives the epoch. */
  lemma ClockTextRoundTrip(e: int)
    requires 0 <= e < TWO_32
    ensures var s := StampOf(e); ParseValue(DateString(s) + " " + TimeString(s)) == e
  {
    hide DateString, TimeString, ParseValue, StampOf, YearStart, MonthStart, IsLeap;
    var s := StampOf(e);
    EpochStored(e);
    SecondsOfStamp(e);
    EpochIsAccepted(e);
    assert EndsAt("", 0);
    ParsePrinted(s, ' ', "");
    assert DateString(s) + [' '] + TimeString(s) + "" == DateString(s) + " " + TimeString(s);
  }

  lemma EpochIsAccepted(e: int)
    requires 0 <= e < TWO_32
    ensures StampOf(e).year >= 1970
  {
    hide DateOf;
    SinceEpoch(e / 86400);
  }

  lemma {:induction false} YearStartBound(year: int)
    requires 0 <= year <= 1970
    ensures -366 * (1970 - year) <= YearStart(year)
    decreases 1970 - year
  {
    if year < 1970 {
      YearStartBound(year + 1);
    }
  }

  /** A whole number of days below that bound is no multiple of 2^32 seconds. */
  lemma DaysNoMultiple(k: int, c: int)
    requires 0 < k <= 366 * 1970
    ensures 86400 * k != c * TWO_32
  {
    if 0 < c < 15 {
      assert c == 1 || c == 2 || c == 3 || c == 4 || c == 5 || c == 6 || c == 7 || c == 8 || c == 9 || c == 10
          || c == 11 || c == 12 || c == 13 || c == 14;
      assert (c * 0x200_0000) % 675 != 0;
    }
  }

  /** The parser gives a well-formed text its calendar time, modulo 2^32, exactly for years from 1970 on. */
  lemma ParsedIffSince1970(text: string)
    requires Shape(text) && CalendarValid(Fields(text))
    ensures ParseValue(text) == SecondsOf(Fields(text)) % TWO_32 <==> Fields(text).year >= 1970
  {
    hide YearStart, MonthStart, Shape, CalendarValid, Number;
    var s := Fields(text);
    YearNotNegative(text);
    if s.year < 1970 {
      YearZero();
      YearStartMonotone(s.year, 1970);
      YearStartBound(s.year);
      var k := -YearStart(s.year);
      StrictlyBefore(s.year);
      var p, q := CountedSeconds(s), SecondsOf(s);
      assert p - q == 86400 * k;
      if p % TWO_32 == q % TWO_32 {
        DaysNoMultiple(k, p / TWO_32 - q / TWO_32);
      }
    }
  }

  lemma YearNotNegative(text: string)
    requires Shape(text)
    ensures Fields(text).year >= 0
  {
  }

  lemma {:induction false} StrictlyBefore(year: int)
    requires year < 1970
    ensures YearStart(year) < 0
    decreases 1970 - year
  {
    if year < 1969 {
      StrictlyBefore(year + 1);
    }
  }

  /** The last day of 1969 is taken for the last day of 1970. */
  lemma LastDayOf1969()
    ensures var text := "1969-12-31";
            Shape(text) && CalendarValid(Fields(text)) && ParseValue(text) != SecondsOf(Fields(text)) % TWO_32
  {
    hide YearStart, MonthStart, SecondsOf, ParseValue;
    var text := "1969-12-31";
    LastDayFields(text);
    ParsedIffSince1970(text);
  }

  lemma LastDayFields(text: string)
    requires text == "1969-12-31"
    ensures Shape(text) && Fields(text) == Stamp(0, 0, 0, 31, 12, 1969) && CalendarValid(Fields(text))
  {
    hide YearStart, MonthStart;
    NumberZero(text, 0);
    NumberZero(text, 5);
    NumberZero(text, 8);
    assert Number(text, 0, 1) == 1 && Number(text, 0, 2) == 19 && Number(text, 0, 3) == 196
           && Number(text, 0, 4) == 1969;
    assert Number(text, 5, 1) == 1 && Number(text, 5, 2) == 12;
    assert Number(text, 8, 1) == 3 && Number(text, 8, 2) == 31;
    assert SkipSpaces(text, 10) == 10;
  }

  // ---- Only such texts are read ----

  lemma TwoDigitsOf(s: string, p: nat)
    requires Number(s, p, 2) >= 0
    ensures p + 2 <= |s| && s[p..p + 2] == TwoDigits(Number(s, p, 2)) && Number(s, p, 2) <= 99
  {
    assert Number(s, p, 1) >= 0 && Number(s, p, 0) == 0;
    assert Number(s, p, 1) == At(s, p) as int - 48;
  }

  lemma FourDigitsOf(s: string)
    requires Number(s, 0, 4) >= 0
    ensures 4 <= |s| && s[..4] == FourDigits(Number(s, 0, 4)) && Number(s, 0, 4) <= 9999
  {
    hide Number, Digit;
    DivTens(Number(s, 0, 4));
    var c := NumberInit(s, 0, 4);
    var b := NumberInit(s, 0, 3);
    var a := NumberInit(s, 0, 2);
    var z := NumberInit(s, 0, 1);
    NumberZero(s, 0);
    DigitOf(s[3], c);
    DigitOf(s[2], b);
    DigitOf(s[1], a);
    DigitOf(s[0], z);
  }

  lemma DivTens(n: int)
    ensures n / 100 == n / 10 / 10 && n / 1000 == n / 10 / 10 / 10
  {
  }

  /** The digits before the last one, and the last one. */
  lemma NumberInit(s: string, p: nat, k: nat) returns (v: int)
    requires k > 0 && Number(s, p, k) >= 0
    ensures v == Number(s, p, k - 1) >= 0 && p + k <= |s| && IsDigit(s[p + k - 1])
    ensures Number(s, p, k) == 10 * v + (s[p + k - 1] as int - 48)
  {
    v := Number(s, p, k - 1);
  }

  lemma DigitOf(c: char, v: int)
    requires IsDigit(c) && v >= 0
    ensures Digit(10 * v + (c as int - 48)) == c && (10 * v + (c as int - 48)) / 10 == v
  {
    var n := 10 * v + (c as int - 48);
    assert n % 10 == c as int - 48;
  }

  /** A text that parses as a stamp starts with the printed date, and its time part, if it has one,
      is the printed time. */
  lemma ParsedIsPrinted(text: string)
    requires Shape(text)
    ensures var s := Fields(text);
            && DateString(s) <= text
            && (HasTime(text) ==> |text| >= 19 && text[11..19] == TimeString(s))
  {
    hide Number, TwoDigits, FourDigits;
    var s := Fields(text);
    FourDigitsOf(text);
    TwoDigitsOf(text, 5);
    TwoDigitsOf(text, 8);
    DateParts(s);
    JoinDate(text, s);
    if HasTime(text) {
      TwoDigitsOf(text, 11);
      TwoDigitsOf(text, 14);
      TwoDigitsOf(text, 17);
      TimeParts(s);
      JoinTime(text, s);
    }
  }

  lemma JoinDate(text: string, s: Stamp)
    requires |text| >= 10 && text[..4] == FourDigits(s.year) && text[4] == '-' && text[5..7] == TwoDigits(s.month)
    requires text[7] == '-' && text[8..10] == TwoDigits(s.day)
    ensures DateString(s) <= text
  {
    hide TwoDigits, FourDigits;
    assert text[..10] == text[..4] + [text[4]] + text[5..7] + [text[7]] + text[8..10];
  }

  lemma JoinTime(text: string, s: Stamp)
    requires |text| >= 19 && text[11..13] == TwoDigits(s.hour) && text[13] == ':' && text[14..16] == TwoDigits(s.minute)
    requires text[16] == ':' && text[17..19] == TwoDigits(s.second)
    ensures text[11..19] == TimeString(s)
  {
    hide TwoDigits;
    assert text[11..19] == text[11..13] + [text[13]] + text[14..16] + [text[16]] + text[17..19];
  }
}
