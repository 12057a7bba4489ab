/**
 * The calendar arithmetic of muduo (mucgi/muduo_base/Date.cc) and the UTC half of
 * mucgi/muduo_base/TimeZone.cc, over unbounded integers with C's truncating division.
 */
module Calendar {

  /** C's / and % for a positive divisor: truncation toward zero. */
  function Quot(a: int, b: int): int
    requires b > 0
  {
    if a >= 0 then a / b else -(-a / b)
  }

  function Rem(a: int, b: int): int
    requires b > 0
  {
    if a >= 0 then a % b else -(-a % b)
  }

  // ---------- The Gregorian calendar ----------

  datatype Date = Date(year: int, month: int, day: int)

  predicate Leap(year: int) {
    year % 4 == 0 && (year % 100 != 0 || year % 400 == 0)
  }

  function DaysInMonth(year: int, month: int): int {
    if month == 2 then (if Leap(year) then 29 else 28)
    else if month == 4 || month == 6 || month == 9 || month == 11 then 30
    else 31
  }

  /** A date of the (proleptic) Gregorian calendar. */
  predicate Proper(d: Date) {
    1 <= d.month <= 12 && 1 <= d.day <= DaysInMonth(d.year, d.month)
  }

  /** From 1 March of the year -4800 on, where the arithmetic stays non-negative. */
  predicate InRange(d: Date) {
    Proper(d) && (d.year > -4800 || (d.year == -4800 && d.month >= 3))
  }

  function NextDay(d: Date): Date {
    if d.day < DaysInMonth(d.year, d.month) then d.(day := d.day + 1)
    else if d.month < 12 then Date(d.year, d.month + 1, 1)
    else Date(d.year + 1, 1, 1)
  }

  predicate Earlier(d: Date, e: Date) {
    d.year < e.year || (d.year == e.year && (d.month < e.month || (d.month == e.month && d.day < e.day)))
  }

  // ---------- The code ----------

  function JulianDayNumber(d: Date): int {
    var a := Quot(14 - d.month, 12);
    var y := d.year + 4800 - a;
    var m := d.month + 12 * a - 3;
    d.day + Quot(153 * m + 2, 5) + y * 365 + Quot(y, 4) - Quot(y, 100) + Quot(y, 400) - 32045
  }

  function YearMonthDay(n: int): Date {
    var a := n + 32044;
    var b := Quot(4 * a + 3, 146097);
    var c := a - Quot(b * 146097, 4);
    var d := Quot(4 * c + 3, 1461);
    var e := c - Quot(1461 * d, 4);
    var m := Quot(5 * e + 2, 153);
    Date(b * 100 + d - 4800 + Quot(m, 10), m + 3 - 12 * Quot(m, 10), e - Quot(153 * m + 2, 5) + 1)
  }

  const FIRST := -32044
  const EPOCH := JulianDayNumber(Date(1970, 1, 1))

  function WeekDay(n: int): int {
    Rem(n + 1, 7)
  }

  // ---------- Years from March, in centuries and four-year cycles ----------

  /** Days before 1 March of year y, counted from 1 March of year 0. */
  function YearStart(y: int): int {
    365 * y + y / 4 - y / 100 + y / 400
  }

  /** Days before month m of a year that starts with March as month 0. */
  function MonthStart(m: int): int {
    (153 * m + 2) / 5
  }

  /** Century b, year d of it, day e of that: the day number counted from 1 March of year 0. */
  function DayAt(b: int, d: int, e: int): int {
    b * 146097 / 4 + 1461 * d / 4 + e
  }

  predicate IsDayAt(b: int, d: int, e: int) {
    b >= 0 && 0 <= d < 100 && 0 <= e < 365 + (if Leap(b * 100 + d + 1) then 1 else 0)
  }

  /** Which days of a century, and which of a year, a (4k+1)-day cycle of four has. */
  function Extra(q: int): int {
    if q % 4 == 3 then 1 else 0
  }

  lemma CenturyOf(a: int)
    requires a >= 0
    ensures var b := (4 * a + 3) / 146097;
            b >= 0 && 0 <= a - b * 146097 / 4 < 36524 + Extra(b)
  {
  }

  lemma CenturyIs(b: int, c: int)
    requires b >= 0 && 0 <= c < 36524 + Extra(b)
    ensures (4 * (b * 146097 / 4 + c) + 3) / 146097 == b
  {
  }

  lemma YearOf(c: int)
    requires c >= 0
    ensures var d := (4 * c + 3) / 1461;
            d >= 0 && 0 <= c - 1461 * d / 4 < 365 + Extra(d)
  {
  }

  lemma YearIs(d: int, e: int)
    requires d >= 0 && 0 <= e < 365 + Extra(d)
    ensures (4 * (1461 * d / 4 + e) + 3) / 1461 == d
  {
  }

  /** The leap rule, said by centuries. */
  lemma LeapByCentury(b: int, d: int)
    requires 0 <= d < 100
    ensures Leap(b * 100 + d + 1) <==> d % 4 == 3 && (d != 99 || b % 4 == 3)
  {
    var y := b * 100 + d + 1;
    Remainder(y, 4, 25 * b + (d + 1) / 4, (d + 1) % 4);
    if d == 99 {
      Remainder(y, 100, b + 1, 0);
      Remainder(y, 400, (b + 1) / 4, 100 * ((b + 1) % 4));
    } else {
      Remainder(y, 100, b, d + 1);
    }
  }

  lemma Remainder(y: int, k: int, q: int, r: int)
    requires k == 4 || k == 100 || k == 400
    requires y == q * k + r && 0 <= r < k
    ensures y % k == r && y / k == q
  {
  }

  lemma DayAtCentury(b: int, d: int, e: int)
    requires b >= 0 && 0 <= d && 0 <= e < 365 + Extra(d)
    ensures IsDayAt(b, d, e) <==> 1461 * d / 4 + e < 36524 + Extra(b)
  {
    if d < 100 {
      LeapByCentury(b, d);
    }
  }

  lemma YearStartAt(b: int, d: int)
    requires b >= 0 && 0 <= d < 100
    ensures YearStart(b * 100 + d) == b * 146097 / 4 + 1461 * d / 4
  {
    var y := b * 100 + d;
    assert y / 4 == 25 * b + d / 4;
    assert y / 100 == b;
    assert y / 400 == b / 4;
    assert b * 146097 / 4 == 36524 * b + b / 4;
    assert 1461 * d / 4 == 365 * d + d / 4;
  }

  // ---------- Months from March ----------

  /** The month of the year that starts with March as month 0. */
  function March(month: int): int {
    if month <= 2 then month + 9 else month - 3
  }

  lemma MonthLengths(year: int, month: int)
    requires 1 <= month <= 12
    ensures var m := March(month);
            MonthStart(m) + DaysInMonth(year, month)
            == (if m == 11 then 365 + (if Leap(year) then 1 else 0) else MonthStart(m + 1))
  {
  }

  lemma MonthOf(e: int)
    requires 0 <= e <= 365
    ensures var m := (5 * e + 2) / 153;
            0 <= m <= 11 && MonthStart(m) <= e && (m < 11 ==> e < MonthStart(m + 1))
  {
  }

  lemma MonthIs(m: int, e: int)
    requires 0 <= m <= 11 && 0 <= e <= 365 && MonthStart(m) <= e && (m < 11 ==> e < MonthStart(m + 1))
    ensures (5 * e + 2) / 153 == m
  {
    hide MonthStart;
    MonthOf(e);
    var n := (5 * e + 2) / 153;
    MonthsRise(m, n);
    MonthsRise(n, m);
  }

  lemma MonthsRise(m: int, n: int)
    requires 0 <= m && 0 <= n
    ensures m < n ==> MonthStart(m + 1) <= MonthStart(n)
  {
  }

  /** The year from March that a date falls in, and the day of that year. */
  function MarchYear(d: Date): int {
    if d.month <= 2 then d.year + 4799 else d.year + 4800
  }

  function DayOfMarchYear(d: Date): int {
    MonthStart(March(d.month)) + d.day - 1
  }

  lemma Position(d: Date)
    requires InRange(d)
    ensures JulianDayNumber(d) == FIRST + YearStart(MarchYear(d)) + DayOfMarchYear(d)
  {
  }

  lemma DateAt(d: Date)
    requires InRange(d)
    ensures var y := MarchYear(d);
            && y >= 0 && IsDayAt(y / 100, y % 100, DayOfMarchYear(d))
            && JulianDayNumber(d) == FIRST + DayAt(y / 100, y % 100, DayOfMarchYear(d))
  {
    hide JulianDayNumber;
    hide DaysInMonth;
    hide YearStart;
    hide MonthStart;
    hide Leap;
    var y := MarchYear(d);
    Position(d);
    DaysBeforeNextYear(d);
    YearStartAt(y / 100, y % 100);
    assert y == y / 100 * 100 + y % 100;
  }

  lemma LeapShift(year: int)
    ensures Leap(year + 4800) == Leap(year)
  {
    Remainder(year + 4800, 4, year / 4 + 1200, year % 4);
    Remainder(year + 4800, 100, year / 100 + 48, year % 100);
    Remainder(year + 4800, 400, year / 400 + 12, year % 400);
  }

  lemma DaysBeforeNextYear(d: Date)
    requires Proper(d)
    ensures 0 <= DayOfMarchYear(d) < 365 + (if Leap(MarchYear(d) + 1) then 1 else 0)
  {
    LeapShift(d.year);
    MonthLengths(d.year, d.month);
    var m := March(d.month);
    if m < 11 {
      MonthsRise(m, 11);
    }
  }

  // ---------- The two conversions undo each other ----------

  /** What getYearMonthDay computes on the way. */
  lemma Unravel(b: int, d: int, e: int)
    requires IsDayAt(b, d, e)
    ensures var m := (5 * e + 2) / 153;
            && 0 <= m <= 11 && DayAt(b, d, e) >= 0
            && YearMonthDay(FIRST + DayAt(b, d, e))
               == Date(b * 100 + d - 4800 + m / 10, m + 3 - 12 * (m / 10), e - MonthStart(m) + 1)
  {
    hide Leap;
    hide Extra;
    hide YearMonthDay;
    DaysOfYear(b, d, e);
    DayAtCentury(b, d, e);
    var c := 1461 * d / 4 + e;
    CenturyIs(b, c);
    YearIs(d, e);
    MonthOf(e);
    var a, m := DayAt(b, d, e), (5 * e + 2) / 153;
    QuotIs(4 * a + 3, 146097);
    QuotIs(b * 146097, 4);
    QuotIs(4 * c + 3, 1461);
    QuotIs(1461 * d, 4);
    QuotIs(5 * e + 2, 153);
    QuotIs(m, 10);
    QuotIs(153 * m + 2, 5);
    hide Quot;
    Stages(FIRST + a, b, c, d, e, m);
  }

  /** getYearMonthDay once its intermediate results are known. */
  lemma Stages(n: int, b: int, c: int, d: int, e: int, m: int)
    requires b == Quot(4 * (n + 32044) + 3, 146097) && c == n + 32044 - Quot(b * 146097, 4)
    requires d == Quot(4 * c + 3, 1461) && e == c - Quot(1461 * d, 4) && m == Quot(5 * e + 2, 153)
    ensures YearMonthDay(n)
            == Date(b * 100 + d - 4800 + Quot(m, 10), m + 3 - 12 * Quot(m, 10), e - Quot(153 * m + 2, 5) + 1)
  {
    hide Quot;
  }

  lemma QuotIs(x: int, k: int)
    requires x >= 0 && k > 0
    ensures Quot(x, k) == x / k
  {
  }

  lemma DaysOfYear(b: int, d: int, e: int)
    requires IsDayAt(b, d, e)
    ensures 0 <= e < 365 + Extra(d) <= 366
  {
    LeapByCentury(b, d);
  }

  lemma MonthBack(d: Date)
    requires Proper(d)
    ensures var e := DayOfMarchYear(d);
            (5 * e + 2) / 153 == March(d.month) && 0 <= e <= 365
  {
    DaysBeforeNextYear(d);
    MonthLengths(d.year, d.month);
    MonthIs(March(d.month), DayOfMarchYear(d));
  }

  lemma DateRoundTrip(d: Date)
    requires InRange(d)
    ensures JulianDayNumber(d) >= FIRST && YearMonthDay(JulianDayNumber(d)) == d
  {
    hide JulianDayNumber;
    hide YearMonthDay;
    hide MonthStart;
    hide IsDayAt;
    hide DayAt;
    DateAt(d);
    var y := MarchYear(d);
    Unravel(y / 100, y % 100, DayOfMarchYear(d));
    MonthBack(d);
    assert y == y / 100 * 100 + y % 100;
  }

  lemma NumberAt(n: int) returns (b: int, d: int, e: int)
    requires n >= FIRST
    ensures IsDayAt(b, d, e) && n == FIRST + DayAt(b, d, e)
  {
    var a := n - FIRST;
    b := (4 * a + 3) / 146097;
    CenturyOf(a);
    var c := a - b * 146097 / 4;
    d := (4 * c + 3) / 1461;
    YearOf(c);
    e := c - 1461 * d / 4;
    DayAtCentury(b, d, e);
  }

  /** The date that lies e days into year y from March. */
  lemma ProperAt(y: int, e: int)
    requires y >= 0 && 0 <= e < 365 + (if Leap(y + 1) then 1 else 0)
    ensures var m := (5 * e + 2) / 153;
            var d := Date(y - 4800 + m / 10, m + 3 - 12 * (m / 10), e - MonthStart(m) + 1);
            InRange(d) && MarchYear(d) == y && DayOfMarchYear(d) == e
  {
    MonthOf(e);
    var m := (5 * e + 2) / 153;
    var year, month := y - 4800 + m / 10, m + 3 - 12 * (m / 10);
    assert March(month) == m;
    MonthLengths(year, month);
    LeapShift(year);
  }

  lemma NumberRoundTrip(n: int)
    requires n >= FIRST
    ensures InRange(YearMonthDay(n)) && JulianDayNumber(YearMonthDay(n)) == n
  {
    hide JulianDayNumber;
    hide YearMonthDay;
    hide MonthStart;
    hide DayAt;
    hide Leap;
    var b, d, e := NumberAt(n);
    var y := b * 100 + d;
    Unravel(b, d, e);
    ProperAt(y, e);
    DateAt(YearMonthDay(n));
    assert y / 100 == b && y % 100 == d;
  }

  // ---------- Days follow one another ----------

  lemma YearStartNext(y: int)
    ensures YearStart(y + 1) == YearStart(y) + 365 + (if Leap(y + 1) then 1 else 0)
  {
    QuotientNext(y, 4);
    QuotientNext(y, 100);
    QuotientNext(y, 400);
    Divisible(y + 1);
  }

  lemma QuotientNext(y: int, k: int)
    requires k == 4 || k == 100 || k == 400
    ensures (y + 1) / k == y / k + (if (y + 1) % k == 0 then 1 else 0)
  {
  }

  lemma Divisible(y: int)
    ensures y % 400 == 0 ==> y % 100 == 0
    ensures y % 100 == 0 ==> y % 4 == 0
  {
  }

  lemma NextDayFollows(d: Date)
    requires InRange(d)
    ensures InRange(NextDay(d)) && JulianDayNumber(NextDay(d)) == JulianDayNumber(d) + 1
    ensures Earlier(d, NextDay(d))
  {
    hide JulianDayNumber;
    hide YearStart;
    hide MonthStart;
    Position(d);
    Position(NextDay(d));
    MonthLengths(d.year, d.month);
    YearStartNext(MarchYear(d));
    LeapShift(d.year);
    FirstMonth();
  }

  lemma FirstMonth()
    ensures MonthStart(0) == 0
  {
  }

  /** k days after d. */
  function After(d: Date, k: nat): Date {
    if k == 0 then d else NextDay(After(d, k - 1))
  }

  lemma {:induction false} AfterCounts(d: Date, k: nat)
    requires InRange(d)
    ensures InRange(After(d, k)) && JulianDayNumber(After(d, k)) == JulianDayNumber(d) + k
    ensures k > 0 ==> Earlier(d, After(d, k))
    decreases k
  {
    hide JulianDayNumber;
    hide NextDay;
    hide DaysInMonth;
    if k > 0 {
      AfterCounts(d, k - 1);
      NextDayFollows(After(d, k - 1));
    }
  }

  /**
   * Julian day numbers count days: the day numbered k past the epoch is the k-th successor of
   * 1 January 1970, a Thursday, and day numbers order dates as the calendar does.
   */
  lemma CountingDays(k: nat)
    ensures YearMonthDay(EPOCH + k) == After(Date(1970, 1, 1), k)
    ensures WeekDay(EPOCH + k) == (4 + k) % 7
  {
    hide YearMonthDay;
    hide JulianDayNumber;
    EpochIs();
    AfterCounts(Date(1970, 1, 1), k);
    DateRoundTrip(After(Date(1970, 1, 1), k));
  }

  lemma EpochIs()
    ensures EPOCH == 2440588 && JulianDayNumber(Date(1970, 1, 1)) == EPOCH
  {
  }

  lemma OrderIsDayOrder(d: Date, e: Date)
    requires InRange(d) && InRange(e)
    ensures Earlier(d, e) <==> JulianDayNumber(d) < JulianDayNumber(e)
  {
    hide JulianDayNumber;
    hide YearMonthDay;
    hide InRange;
    hide After;
    DateRoundTrip(d);
    DateRoundTrip(e);
    var m, n := JulianDayNumber(d), JulianDayNumber(e);
    if m <= n {
      AfterCounts(d, n - m);
      DateRoundTrip(After(d, n - m));
    } else {
      AfterCounts(e, m - n);
      DateRoundTrip(After(e, m - n));
    }
  }

  /** The truncating remainder makes this a weekday exactly from day -1 on, and on every seventh day before. */
  lemma WeekDayExact(n: int)
    ensures 0 <= WeekDay(n) < 7 <==> n >= -1 || (n + 1) % 7 == 0
    ensures n >= -1 ==> WeekDay(n + 1) == (if WeekDay(n) == 6 then 0 else WeekDay(n) + 1)
  {
  }

  /** The day before the first one that has a weekday. */
  lemma WeekDayFails()
    ensures WeekDay(-2) == -1
  {
  }

  // ---------- UTC ----------

  const DAY := 24 * 60 * 60

  /** struct tm: the year counted from 1900, the month from 0. */
  datatype Tm = Tm(sec: int, min: int, hour: int, mday: int, mon: int, year: int, wday: int, yday: int) {
    function ToDate(): Date {
      Date(year + 1900, mon + 1, mday)
    }

    predicate ProperTime() {
      Proper(ToDate()) && 0 <= hour < 24 && 0 <= min < 60 && 0 <= sec < 60
    }

    /** The same instant, whatever the derived fields say. */
    predicate SameInstant(t: Tm) {
      ToDate() == t.ToDate() && hour == t.hour && min == t.min && sec == t.sec
    }
  }

  /** Days before a month, and the day of the year counted from 0, by adding up month lengths. */
  function DaysBefore(year: int, month: int): int {
    if month <= 1 then 0 else DaysBefore(year, month - 1) + DaysInMonth(year, month - 1)
  }

  function DayOfYear(d: Date): int {
    DaysBefore(d.year, d.month) + d.day - 1
  }

  function DayNumber(seconds: int): int {
    EPOCH + seconds / DAY
  }

  /** The broken-down time of an instant, by flooring division. */
  function UtcTime(seconds: int, yday: bool): Tm {
    var n, rest := DayNumber(seconds), seconds % DAY;
    var d := YearMonthDay(n);
    Tm(rest % 60, rest / 60 % 60, rest / 3600, d.day, d.month - 1, d.year - 1900, WeekDay(n),
       if yday then n - JulianDayNumber(Date(d.year, 1, 1)) else 0)
  }

  function FromUtcTime(t: Tm): int {
    var secondsInDay := t.hour * 3600 + t.min * 60 + t.sec;
    var days := JulianDayNumber(t.ToDate()) - EPOCH;
    days * DAY + secondsInDay
  }

  /** fillHMS, whose argument is unsigned. */
  method FillHMS(seconds: nat, utc: Tm) returns (r: Tm)
    ensures 0 <= r.sec < 60 && 0 <= r.min < 60 && seconds == r.hour * 3600 + r.min * 60 + r.sec
    ensures r.(sec := utc.sec, min := utc.min, hour := utc.hour) == utc
  {
    r := utc.(sec := seconds % 60);
    var minutes := seconds / 60;
    r := r.(min := minutes % 60);
    r := r.(hour := minutes / 60);
  }

  /** toUtcTime: truncating division and a sign fix-up. */
  method ToUtcTime(secondsSinceEpoch: int, yday: bool) returns (utc: Tm)
    ensures utc == UtcTime(secondsSinceEpoch, yday)
  {
    hide YearMonthDay;
    hide JulianDayNumber;
    utc := Tm(0, 0, 0, 0, 0, 0, 0, 0);
    var seconds := Rem(secondsSinceEpoch, DAY);
    var days := Quot(secondsSinceEpoch, DAY);
    if seconds < 0 {
      seconds := seconds + DAY;
      days := days - 1;
    }
    Floored(secondsSinceEpoch, days, seconds);
    utc := FillHMS(seconds, utc);
    HmsIs(seconds, utc.hour, utc.min, utc.sec);
    var n := days + EPOCH;
    var ymd := YearMonthDay(n);
    utc := utc.(year := ymd.year - 1900);
    utc := utc.(mon := ymd.month - 1);
    utc := utc.(mday := ymd.day);
    utc := utc.(wday := WeekDay(n));
    if yday {
      utc := utc.(yday := n - JulianDayNumber(Date(ymd.year, 1, 1)));
    }
  }

  lemma Floored(s: int, days: int, seconds: int)
    requires s == days * DAY + seconds && 0 <= seconds < DAY
    ensures days == s / DAY && seconds == s % DAY
  {
  }

  lemma HmsIs(rest: int, hour: int, min: int, sec: int)
    requires rest == hour * 3600 + min * 60 + sec && 0 <= min < 60 && 0 <= sec < 60
    ensures sec == rest % 60 && min == rest / 60 % 60 && hour == rest / 3600
  {
  }

  lemma HmsBack(rest: int)
    ensures rest == rest / 3600 * 3600 + rest / 60 % 60 * 60 + rest % 60
  {
  }

  /** Every instant from the first day on survives, negative ones included, and its fields are right. */
  lemma InstantRoundTrip(seconds: int, yday: bool)
    requires DayNumber(seconds) >= FIRST
    ensures var t := UtcTime(seconds, yday);
            t.ProperTime() && InRange(t.ToDate()) && FromUtcTime(t) == seconds
  {
    hide YearMonthDay;
    hide JulianDayNumber;
    NumberRoundTrip(DayNumber(seconds));
    HmsBack(seconds % DAY);
  }

  /** Every proper broken-down time survives. */
  lemma TimeRoundTrip(t: Tm, yday: bool)
    requires t.ProperTime() && InRange(t.ToDate())
    ensures UtcTime(FromUtcTime(t), yday).SameInstant(t)
  {
    hide YearMonthDay;
    hide JulianDayNumber;
    hide Proper;
    DateRoundTrip(t.ToDate());
    var rest := t.hour * 3600 + t.min * 60 + t.sec;
    Floored(FromUtcTime(t), JulianDayNumber(t.ToDate()) - EPOCH, rest);
    HmsIs(rest, t.hour, t.min, t.sec);
  }

  lemma SameMonth(d: Date)
    requires InRange(d)
    ensures JulianDayNumber(d) == JulianDayNumber(d.(day := 1)) + d.day - 1
  {
  }

  lemma {:induction false} DayOfYearCounts(d: Date)
    requires InRange(d) && d.year >= -4799
    ensures JulianDayNumber(d) - JulianDayNumber(Date(d.year, 1, 1)) == DayOfYear(d)
    ensures 0 <= DayOfYear(d) <= 365
    decreases d.month
  {
    hide JulianDayNumber;
    SameMonth(d);
    if d.month > 1 {
      var last := Date(d.year, d.month - 1, DaysInMonth(d.year, d.month - 1));
      NextDayFollows(last);
      DayOfYearCounts(last);
    }
    YearBound(d);
  }

  lemma YearBound(d: Date)
    requires Proper(d)
    ensures 0 <= DayOfYear(d) <= 365
  {
    var y := d.year;
    assert DaysBefore(y, 2) == 31;
    assert DaysBefore(y, 3) == 31 + DaysInMonth(y, 2);
    assert DaysBefore(y, 4) == DaysBefore(y, 3) + 31;
    assert DaysBefore(y, 5) == DaysBefore(y, 4) + 30;
    assert DaysBefore(y, 6) == DaysBefore(y, 5) + 31;
    assert DaysBefore(y, 7) == DaysBefore(y, 6) + 30;
    assert DaysBefore(y, 8) == DaysBefore(y, 7) + 31;
    assert DaysBefore(y, 9) == DaysBefore(y, 8) + 31;
    assert DaysBefore(y, 10) == DaysBefore(y, 9) + 30;
    assert DaysBefore(y, 11) == DaysBefore(y, 10) + 31;
    assert DaysBefore(y, 12) == DaysBefore(y, 11) + 30;
  }

  /** The first second of 1 January -4799. */
  const YDAY_FROM := (JulianDayNumber(Date(-4799, 1, 1)) - EPOCH) * DAY

  /** The day of the year is right exactly from the year -4799 on: 1 January -4800 is before the first day. */
  lemma YdayExact(seconds: int)
    requires DayNumber(seconds) >= FIRST
    ensures var t := UtcTime(seconds, true);
            t.yday == DayOfYear(t.ToDate()) <==> seconds >= YDAY_FROM
  {
    hide YearMonthDay;
    hide JulianDayNumber;
    hide DayOfYear;
    var d := YearMonthDay(DayNumber(seconds));
    NumberRoundTrip(DayNumber(seconds));
    if d.year >= -4799 {
      DayOfYearCounts(d);
    } else {
      FirstYear(d);
    }
    OrderIsDayOrder(d, Date(-4799, 1, 1));
    SecondsOrder(seconds, JulianDayNumber(Date(-4799, 1, 1)));
  }

  lemma SecondsOrder(seconds: int, n: int)
    ensures DayNumber(seconds) < n <==> seconds < (n - EPOCH) * DAY
  {
  }

  /** 1 March -4800 is the day 60 of a leap year, counted from 0, and is given as day 59. */
  lemma YdayFails()
    ensures var seconds := (FIRST - EPOCH) * DAY;
            var t := UtcTime(seconds, true);
            && DayNumber(seconds) >= FIRST && t.ToDate() == Date(-4800, 3, 1)
            && t.yday == 59 && DayOfYear(t.ToDate()) == 60
  {
    hide JulianDayNumber;
    hide YearMonthDay;
    var d := Date(-4800, 3, 1);
    FirstDate();
    DateRoundTrip(d);
    FirstYear(d);
    assert DaysBefore(-4800, 2) == 31;
    assert DaysBefore(-4800, 3) == 60;
    Floored((FIRST - EPOCH) * DAY, FIRST - EPOCH, 0);
  }

  lemma FirstDate()
    ensures JulianDayNumber(Date(-4800, 3, 1)) == FIRST
  {
  }

  lemma {:induction false} FirstYear(d: Date)
    requires InRange(d) && d.year == -4800
    ensures JulianDayNumber(d) - JulianDayNumber(Date(-4800, 1, 1)) == DayOfYear(d) - 1
    decreases d.month
  {
    hide JulianDayNumber;
    if d.month == 3 {
      assert DaysBefore(-4800, 2) == 31;
      assert DaysBefore(-4800, 3) == 60;
      MarchOfFirstYear(d);
    } else {
      SameMonth(d);
      var last := Date(d.year, d.month - 1, DaysInMonth(d.year, d.month - 1));
      NextDayFollows(last);
      FirstYear(last);
    }
  }

  lemma MarchOfFirstYear(d: Date)
    requires d.year == -4800 && d.month == 3
    ensures JulianDayNumber(d) - JulianDayNumber(Date(-4800, 1, 1)) == 58 + d.day
  {
  }
}
