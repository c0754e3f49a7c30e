/** Seconds since the Epoch to calendar time (mini_gmtime_r, include/client/logging.hpp), for a
    64-bit `time_t`. The reference is the formula of section 4.16 of the Base Definitions of
    IEEE Std 1003.1-2017, with division rounding down for years before 1900. */
module Calendar {
  import opened Arithmetic
  import opened Common

  /** The fields of `struct tm` that the function sets. `year` counts from 1900. */
  datatype Tm = Tm(sec: int, min: int, hour: int, mday: int, mon: int, year: int, wday: int, yday: int)

  const INT64_MIN := -0x8000_0000_0000_0000
  const INT64_MAX := 0x7fff_ffff_ffff_ffff

  predicate Int64(x: int) {
    INT64_MIN <= x <= INT64_MAX
  }

  /** C division and remainder: towards zero. */
  function Div(x: int, d: int): int
    requires d > 0
  {
    if x >= 0 then x / d else -((-x) / d)
  }

  function Mod(x: int, d: int): int
    requires d > 0
  {
    if x >= 0 then x % d else -((-x) % d)
  }

  // ---------------------------------------------------------------- the reference

  predicate Leap(year: int) {
    year % 4 == 0 && (year % 100 != 0 || (year + 300) % 400 == 0)
  }

  /** Days from the Epoch to day `yday` of the year. */
  function DaysTo(year: int, yday: int): int {
    365 * (year - 70) + (year - 69) / 4 - (year - 1) / 100 + (year + 299) / 400 + yday
  }

  /** The POSIX formula. */
  function SecondsSinceEpoch(tm: Tm): int {
    tm.sec + tm.min * 60 + tm.hour * 3600 + DaysTo(tm.year, tm.yday) * 86400
  }

  /** Days of the year before the first of the month. */
  function DaysBefore(mon: int, leap: bool): int
    requires 0 <= mon < 12
  {
    [0, 31, 59, 90, 120, 151, 181, 212, 243, 273, 304, 334][mon] + (if leap && mon >= 2 then 1 else 0)
  }

  function DaysIn(mon: int, leap: bool): int
    requires 0 <= mon < 12
  {
    if mon == 1 && leap then 29 else [31, 28, 31, 30, 31, 30, 31, 31, 30, 31, 30, 31][mon]
  }

  /** A date and time of the Gregorian calendar, with all fields in agreement. */
  predicate Civil(tm: Tm) {
    && 0 <= tm.sec < 60 && 0 <= tm.min < 60 && 0 <= tm.hour < 24
    && 0 <= tm.mon < 12 && 1 <= tm.mday <= DaysIn(tm.mon, Leap(tm.year))
    && tm.yday == DaysBefore(tm.mon, Leap(tm.year)) + tm.mday - 1
    && tm.wday == (DaysTo(tm.year, tm.yday) + 4) % 7
  }

  // ---------------------------------------------------------------- division rounding down

  /** Quotient and remainder of C, corrected for negative numbers. */
  lemma CorrectedQuotient(x: int, d: int)
    requires d > 0
    ensures Div(x, d) - (if Mod(x, d) < 0 then 1 else 0) == x / d
    ensures Mod(x, d) + (if Mod(x, d) < 0 then d else 0) == x % d
  {
    if x < 0 {
      var q, r := (-x) / d, (-x) % d;
      assert -x == q * d + r;
      Negated(q, d);
      if r == 0 {
        RemainderUnique(x, d, -q, 0);
      } else {
        RemainderUnique(x, d, -q - 1, d - r);
      }
    }
  }

  lemma Negated(q: int, d: int)
    ensures (-q) * d == -(q * d) && (-q - 1) * d == -(q * d) - d
  {
  }

  // ---------------------------------------------------------------- the March-based year

  /** The century `n` and the year `c` since March 1900 of a day: 400-year cycles leave out
      three leap days, so the count of days is stretched by one for each other century. */
  lemma YearOfDay(t: int, n: int, c: int)
    requires 146097 * n <= 4 * t + 102032 < 146097 * (n + 1)
    requires var t' := t + (n - 1) - (n - 1) / 4;
             1461 * c <= 4 * t' + 102035 < 1461 * (c + 1)
    ensures 100 * n <= c < 100 * (n + 1)
  {
    var u, v := (n - 1) / 4, (n - 1) % 4;
    assert n - 1 == 4 * u + v;
    assert 4 * (t + (n - 1) - u) + 102035 == 4 * t + 102032 + 3 * n + v;
  }

  /** The day of that year, counted so that the first of March is day 60. */
  lemma DayOfYear(t': int, c: int)
    requires 1461 * c <= 4 * t' + 102035 < 1461 * (c + 1)
    ensures 60 <= t' - 365 * c - c / 4 + 25568 <= 425
  {
    var a, b, s := c / 4, c % 4, 4 * t' + 102035 - 1461 * c;
    assert c == 4 * a + b;
    assert 4 * (t' - 365 * c - a + 25568) == b + s + 237;
  }

  lemma YearQuotients(n: int, u: int, v: int, a: int, b: int, c: int, d: int)
    requires n - 1 == 4 * u + v && 0 <= v < 4 && c == 4 * a + b && 0 <= b < 4 && c == 100 * n + d && 0 <= d < 100
    ensures (c - 69) / 4 == a - 18 + (if b >= 1 then 1 else 0)
    ensures (c + 1 - 69) / 4 == a - 17
    ensures (c - 1) / 100 == n - (if d == 0 then 1 else 0) && (c + 1 - 1) / 100 == n
    ensures (c + 299) / 400 == u + (if v == 0 && d == 0 then 0 else 1)
    ensures (c + 1 + 299) / 400 == u + 1
    ensures Leap(c) <==> b == 0 && (d != 0 || v == 0)
  {
    RemainderUnique(c - 69, 4, a - 18 + (if b >= 1 then 1 else 0), if b >= 1 then b - 1 else 3);
    RemainderUnique(c + 1 - 69, 4, a - 17, b);
    RemainderUnique(c - 1, 100, n - (if d == 0 then 1 else 0), if d == 0 then 99 else d - 1);
    RemainderUnique(c, 100, n, d);
    var x := 100 * v + 399 + d;
    RemainderUnique(c + 299, 400, if v == 0 && d == 0 then u else u + 1, if v == 0 && d == 0 then 399 else x - 400);
    RemainderUnique(c + 300, 400, u + 1, 100 * v + d);
    RemainderUnique(c, 4, a, b);
  }

  /** Where year `c` and the next one start, with the quotients named. */
  lemma YearStarts(n: int, u: int, v: int, a: int, b: int, c: int, d: int, k: int)
    requires n - 1 == 4 * u + v && 0 <= v < 4 && c == 4 * a + b && 0 <= b < 4 && c == 100 * n + d && 0 <= d < 100
    ensures DaysTo(c + 1, k) == 365 * (c - 69) + a - 17 - n + u + 1 + k
    ensures DaysTo(c, k) == DaysTo(c + 1, k) - (if Leap(c) then 366 else 365)
  {
    hide Leap;
    YearQuotients(n, u, v, a, b, c, d);
  }

  /** Day `yday` of March-based year `c` in century `n` is the same day counted in calendar
      years: in the year after, from January on, and in year `c` itself before. */
  lemma CountedInCalendarYears(n: int, c: int, yday: int, t: int)
    requires 100 * n <= c < 100 * (n + 1)
    requires t + (n - 1) - (n - 1) / 4 == yday + 365 * c + c / 4 - 25568
    ensures DaysTo(c + 1, yday - 366) == t
    ensures DaysTo(c, yday - (if Leap(c) then 0 else 1)) == t
  {
    hide Leap, DaysTo;
    var u, v := (n - 1) / 4, (n - 1) % 4;
    var a, b, d := c / 4, c % 4, c - 100 * n;
    YearStarts(n, u, v, a, b, c, d, yday - 366);
    YearStarts(n, u, v, a, b, c, d, yday - (if Leap(c) then 0 else 1));
  }

  // ---------------------------------------------------------------- months

  /** First day of month `m` (2 for March to 13 for the next February) in that counting. */
  function FirstOf(m: int): int
    requires 2 <= m <= 14
  {
    [60, 91, 121, 152, 182, 213, 244, 274, 305, 335, 366, 397, 427][m - 2]
  }

  lemma MonthOfDay(yday: int, m: int)
    requires 2 <= m <= 13 && 153 * m <= 5 * yday + 8 < 153 * (m + 1)
    ensures FirstOf(m) <= yday < FirstOf(m + 1)
    ensures (5 * yday + 8 - 153 * m) / 5 == yday - FirstOf(m)
  {
    var r := 5 * FirstOf(m) + 8 - 153 * m;
    assert 0 <= r < 5;
    RemainderUnique(5 * yday + 8 - 153 * m, 5, yday - FirstOf(m), r);
  }

  lemma LeapAfter(n: int, u: int, v: int, a: int, b: int, c: int, d: int)
    requires n - 1 == 4 * u + v && 0 <= v < 4 && c == 4 * a + b && 0 <= b < 4 && c == 100 * n + d && 0 <= d < 100
    ensures Leap(c + 1) <==> b == 3 && (d != 99 || v == 3)
  {
    var last := d == 99;
    RemainderUnique(c + 1, 4, if b == 3 then a + 1 else a, if b == 3 then 0 else b + 1);
    RemainderUnique(c + 1, 100, if last then n + 1 else n, if last then 0 else d + 1);
    if last {
      RemainderUnique(c + 301, 400, if v == 3 then u + 2 else u + 1, if v == 3 then 0 else 100 * v + 100);
    }
  }

  /** With the quotients named: a day on which a year of 366 days would end needs a leap year. */
  lemma LastDay(t: int, n: int, u: int, v: int, a: int, b: int, c: int, d: int)
    requires n - 1 == 4 * u + v && 0 <= v < 4 && c == 4 * a + b && 0 <= b < 4 && c == 100 * n + d && 0 <= d < 100
    requires 4 * t + 102032 < 146097 * (n + 1)
    requires 4 * (t + (n - 1) - u) + 102035 < 1461 * (c + 1)
    ensures t + (n - 1) - u - 365 * c - a + 25568 <= 424 + if b == 3 && (d != 99 || v == 3) then 1 else 0
  {
  }

  /** The year ends with the 29th of February only if that February has one. */
  lemma LastDayOfYear(t: int, n: int, c: int)
    requires 146097 * n <= 4 * t + 102032 < 146097 * (n + 1)
    requires var t' := t + (n - 1) - (n - 1) / 4;
             1461 * c <= 4 * t' + 102035 < 1461 * (c + 1)
    ensures var t' := t + (n - 1) - (n - 1) / 4;
            t' - 365 * c - c / 4 + 25568 <= 424 + if Leap(c + 1) then 1 else 0
  {
    hide Leap;
    YearOfDay(t, n, c);
    var u, v := (n - 1) / 4, (n - 1) % 4;
    var a, b, d := c / 4, c % 4, c - 100 * n;
    LeapAfter(n, u, v, a, b, c, d);
    LastDay(t, n, u, v, a, b, c, d);
  }

  /** Month and day of the month agree with the day of the year. */
  lemma MonthFields(c: int, yday: int, m: int)
    requires 60 <= yday <= 424 + if Leap(c + 1) then 1 else 0
    requires m == (5 * yday + 8) / 153
    ensures 2 <= m <= 13
    ensures var mday := 1 + (5 * yday + 8) % 153 / 5;
            if m >= 12 then
              && 1 <= mday <= DaysIn(m - 12, Leap(c + 1))
              && yday - 366 == DaysBefore(m - 12, Leap(c + 1)) + mday - 1
            else
              && 1 <= mday <= DaysIn(m, Leap(c))
              && yday - (if Leap(c) then 0 else 1) == DaysBefore(m, Leap(c)) + mday - 1
  {
    hide Leap;
    var x := 5 * yday + 8;
    assert x == 153 * m + x % 153;
    MonthOfDay(yday, m);
  }

  /** What the steps up to `yday` compute, for the day `t` since the Epoch. */
  lemma DateOfDay(t: int, n: int, c: int, yday: int, m: int)
    requires n == (4 * t + 102032) / 146097
    requires var t' := t + (n - 1) - (n - 1) / 4;
             && c == (4 * t' + 102035) / 1461
             && yday == t' - 365 * c - c / 4 + 25568
    requires m == (5 * yday + 8) / 153
    ensures 60 <= yday <= 425 && 2 <= m <= 13
    ensures var mday := 1 + (5 * yday + 8) % 153 / 5;
            if m >= 12 then
              && DaysTo(c + 1, yday - 366) == t
              && 1 <= mday <= DaysIn(m - 12, Leap(c + 1))
              && yday - 366 == DaysBefore(m - 12, Leap(c + 1)) + mday - 1
            else
              var yd := yday - (if Leap(c) then 0 else 1);
              && DaysTo(c, yd) == t
              && 1 <= mday <= DaysIn(m, Leap(c))
              && yd == DaysBefore(m, Leap(c)) + mday - 1
  {
    hide Leap, DaysTo, DaysIn, DaysBefore;
    var t' := t + (n - 1) - (n - 1) / 4;
    assert 146097 * n <= 4 * t + 102032 < 146097 * (n + 1);
    assert 1461 * c <= 4 * t' + 102035 < 1461 * (c + 1);
    YearOfDay(t, n, c);
    DayOfYear(t', c);
    LastDayOfYear(t, n, c);
    CountedInCalendarYears(n, c, yday, t);
    MonthFields(c, yday, m);
  }

  lemma ClockFields(hms: int)
    requires 0 <= hms < 86400
    ensures 0 <= hms % 60 < 60 && 0 <= hms / 60 % 60 < 60 && 0 <= hms / 60 / 60 < 24
    ensures hms % 60 + hms / 60 % 60 * 60 + hms / 60 / 60 * 3600 == hms
  {
  }

  /** A signed value stored in an `unsigned`. */
  function ToUnsigned(x: int): int {
    x % 0x1_0000_0000
  }

  lemma SplitDay(ts: int)
    requires Int64(ts)
    ensures var hms := ToUnsigned(Mod(ts, 86400));
            && (ToInt32(hms) < 0 <==> Mod(ts, 86400) < 0)
            && (Mod(ts, 86400) < 0 ==> ToUnsigned(hms + 86400) == ts % 86400)
            && (Mod(ts, 86400) >= 0 ==> hms == ts % 86400)
    ensures Div(ts, 86400) - (if Mod(ts, 86400) < 0 then 1 else 0) == ts / 86400
    ensures -110000000000000 < ts / 86400 < 110000000000000
  {
    hide Div;
    CorrectedQuotient(ts, 86400);
    var m := Mod(ts, 86400);
    assert -86400 < m < 86400;
    if m < 0 {
      RemainderUnique(m, 0x1_0000_0000, -1, m + 0x1_0000_0000);
      RemainderUnique(m + 0x1_0000_0000 + 0x8000_0000, 0x1_0000_0000, 1, m + 0x8000_0000);
      RemainderUnique(m + 0x1_0000_0000 + 86400, 0x1_0000_0000, 1, m + 86400);
    } else {
      RemainderUnique(m, 0x1_0000_0000, 0, m);
      RemainderUnique(m + 0x8000_0000, 0x1_0000_0000, 0, m + 0x8000_0000);
    }
  }

  /** First part of `mini_gmtime_r`: days and time of day. */
  method SplitTime(ts: int) returns (t: int, sec: int, min: int, hour: int)
    requires Int64(ts)
    ensures -110000000000000 < t < 110000000000000
    ensures 0 <= sec < 60 && 0 <= min < 60 && 0 <= hour < 24
    ensures t * 86400 + hour * 3600 + min * 60 + sec == ts
  {
    hide Div, Mod, ToInt32, ToUnsigned, Int64;
    t := Div(ts, 86400);
    var hms := ToUnsigned(Mod(ts, 86400));
    SplitDay(ts);
    if ToInt32(hms) < 0 {
      t := t - 1;
      hms := ToUnsigned(hms + 86400);
    }
    ClockFields(hms);
    sec := hms % 60;
    hms := hms / 60;
    min, hour := hms % 60, hms / 60;
  }

  /** Second part: the weekday, the March-based year and the day in it. The assertions show
      that no 64-bit intermediate value overflows. */
  method YearAndDay(day: int) returns (wday: int, c: int, yday: int, ghost n: int)
    requires -110000000000000 < day < 110000000000000
    ensures wday == (day + 4) % 7
    ensures n == (4 * day + 102032) / 146097
    ensures var t' := day + (n - 1) - (n - 1) / 4;
            && c == (4 * t' + 102035) / 1461
            && yday == t' - 365 * c - c / 4 + 25568
  {
    hide Div, Mod;
    var t := day;
    CorrectedQuotient(t + 4, 7);
    var f := Mod(t + 4, 7);
    if f < 0 { f := f + 7; }
    wday := f;
    c := t * 4 + 102032;
    assert Int64(t * 4) && Int64(c);
    CorrectedQuotient(c, 146097);
    f := Div(c, 146097);
    if Mod(c, 146097) < 0 { f := f - 1; }
    n := f;
    f := f - 1;
    t := t + f;
    f := f / 4;
    t := t - f;
    f := t * 4 + 102035;
    assert Int64(t * 4) && Int64(f);
    CorrectedQuotient(f, 1461);
    c := Div(f, 1461);
    if Mod(f, 1461) < 0 { c := c - 1; }
    assert Int64(365 * c) && Int64(t - 365 * c) && Int64(t - 365 * c - c / 4);
    yday := t - 365 * c - c / 4 + 25568;
  }

  /** `tm` is the calendar time of `ts`, with its year cut to 32 bits. */
  ghost predicate Tells(tm: Tm, year: int, ts: int) {
    tm.year == ToInt32(year) && Civil(tm.(year := year)) && SecondsSinceEpoch(tm.(year := year)) == ts
  }

  /** `mini_gmtime_r`. The result is the one calendar time whose seconds since the Epoch are
      `ts`, for every 64-bit `ts`; only `tm_year` is cut to 32 bits. */
  method Gmtime(ts: int) returns (tm: Tm)
    requires Int64(ts)
    ensures exists year :: Tells(tm, year, ts)
  {
    hide Leap, DaysIn, DaysBefore, DaysTo, ToInt32;
    var t, sec, min, hour := SplitTime(ts);
    var wday, c, yday;
    ghost var n;
    wday, c, yday, n := YearAndDay(t);
    var a := yday * 5 + 8;
    var mon := a / 153;
    DateOfDay(t, n, c, yday, mon);
    a := a % 153;
    var mday := 1 + a / 5;
    if mon >= 12 {
      mon := mon - 12;
      c := c + 1;
      yday := yday - 366;
    } else if !Leap(c) {
      yday := yday - 1;
    }
    tm := Tm(sec, min, hour, mday, mon, ToInt32(c), wday, yday);
    assert Tells(tm, c, ts);
  }

  // ---------------------------------------------------------------- the formula is injective

  lemma YearLength(y: int)
    ensures DaysTo(y + 1, 0) == DaysTo(y, 0) + if Leap(y) then 366 else 365
  {
    hide Leap, DaysTo;
    var n, d := y / 100, y % 100;
    var a, b := y / 4, y % 4;
    var u, v := (n - 1) / 4, (n - 1) % 4;
    YearStarts(n, u, v, a, b, y, d, 0);
  }

  lemma {:induction false} YearsAreOrdered(y: int, y': int)
    requires y < y'
    ensures DaysTo(y, 0) + (if Leap(y) then 366 else 365) <= DaysTo(y', 0)
    decreases y' - y
  {
    hide DaysTo, Leap;
    YearLength(y);
    if y + 1 < y' {
      YearsAreOrdered(y + 1, y');
    }
  }

  lemma DayFitsYear(tm: Tm)
    requires Civil(tm)
    ensures 0 <= tm.yday < if Leap(tm.year) then 366 else 365
  {
    hide Leap, DaysTo;
  }

  lemma SameDaySameDate(tm: Tm, tm': Tm)
    requires Civil(tm) && Civil(tm') && DaysTo(tm.year, tm.yday) == DaysTo(tm'.year, tm'.yday)
    ensures tm.year == tm'.year && tm.yday == tm'.yday
  {
    DayFitsYear(tm);
    DayFitsYear(tm');
    DayOffset(tm.year, tm.yday);
    DayOffset(tm'.year, tm'.yday);
    hide DaysTo, Leap, Civil;
    if tm.year < tm'.year {
      YearsAreOrdered(tm.year, tm'.year);
    } else if tm'.year < tm.year {
      YearsAreOrdered(tm'.year, tm.year);
    }
  }

  lemma DayOffset(y: int, yday: int)
    ensures DaysTo(y, yday) == DaysTo(y, 0) + yday
  {
  }

  lemma SameMonth(leap: bool, m: int, d: int, m': int, d': int)
    requires 0 <= m < 12 && 0 <= m' < 12 && 1 <= d <= DaysIn(m, leap) && 1 <= d' <= DaysIn(m', leap)
    requires DaysBefore(m, leap) + d == DaysBefore(m', leap) + d'
    ensures m == m' && d == d'
  {
    if m < m' {
      MonthsAreOrdered(leap, m, m');
    } else if m' < m {
      MonthsAreOrdered(leap, m', m);
    }
  }

  lemma {:induction false} MonthsAreOrdered(leap: bool, m: int, m': int)
    requires 0 <= m < m' < 12
    ensures DaysBefore(m, leap) + DaysIn(m, leap) <= DaysBefore(m', leap)
    decreases m' - m
  {
    assert DaysBefore(m, leap) + DaysIn(m, leap) == DaysBefore(m + 1, leap);
    if m + 1 < m' {
      MonthsAreOrdered(leap, m + 1, m');
    }
  }

  lemma SplitUnique(t: int, s: int, t': int, s': int)
    requires 0 <= s < 86400 && 0 <= s' < 86400 && t * 86400 + s == t' * 86400 + s'
    ensures t == t' && s == s'
  {
  }

  lemma ClockUnique(h: int, m: int, s: int, h': int, m': int, s': int)
    requires 0 <= s < 60 && 0 <= m < 60 && 0 <= s' < 60 && 0 <= m' < 60
    requires s + m * 60 + h * 3600 == s' + m' * 60 + h' * 3600
    ensures h == h' && m == m' && s == s'
  {
  }

  /** No two calendar times have the same seconds since the Epoch, so the function above is the
      inverse of the formula in both directions. */
  lemma CivilTimeIsUnique(tm: Tm, tm': Tm)
    requires Civil(tm) && Civil(tm') && SecondsSinceEpoch(tm) == SecondsSinceEpoch(tm')
    ensures tm == tm'
  {
    hide DaysTo, Leap, DaysIn, DaysBefore;
    SplitUnique(DaysTo(tm.year, tm.yday), tm.sec + tm.min * 60 + tm.hour * 3600,
                DaysTo(tm'.year, tm'.yday), tm'.sec + tm'.min * 60 + tm'.hour * 3600);
    SameDaySameDate(tm, tm');
    ClockUnique(tm.hour, tm.min, tm.sec, tm'.hour, tm'.min, tm'.sec);
    SameMonth(Leap(tm.year), tm.mon, tm.mday, tm'.mon, tm'.mday);
  }

  /** So a result whose year fits `tm_year` determines its time, and no other result does. */
  lemma ToldTimeIsUnique(tm: Tm, year: int, tm': Tm, year': int, ts: int)
    requires Tells(tm, year, ts) && Tells(tm', year', ts)
    ensures tm == tm' && year == year'
    ensures -0x8000_0000 <= year < 0x8000_0000 ==> tm.year == year
  {
    hide SecondsSinceEpoch, Civil;
    CivilTimeIsUnique(tm.(year := year), tm'.(year := year'));
  }
}
