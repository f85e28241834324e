/** The calendar behind POSIX times (atcacert_date.c): seconds since 1970 to a date and back. */
module Calendar {
  import opened Bytes
  import opened Status

  /** atcacert_tm_utc_t: `year` counts from 1900 and `mon` from 0. */
  datatype Tm = Tm(year: int, mon: int, mday: int, hour: int, minute: int, sec: int)

  // ----- Specification -----

  predicate LeapYear(year: int) {
    year % 400 == 0 || (year % 4 == 0 && year % 100 != 0)
  }

  function YearSecs(year: int): (r: nat) {
    (if LeapYear(year) then 366 else 365) * 86400
  }

  function MonthDays(year: int, mon: nat): (r: nat)
    requires mon < 12
    ensures 28 <= r <= 31
  {
    if mon == 1 then (if LeapYear(year) then 29 else 28)
    else if mon == 3 || mon == 5 || mon == 8 || mon == 10 then 30
    else 31
  }

  function MonthSecs(year: int, mon: nat): (r: nat) {
    if mon < 12 then MonthDays(year, mon) * 86400 else 0
  }

  /** Seconds from 1970 to the start of a year. */
  function YearStart(year: int): (r: nat)
    decreases year
  {
    if year <= 1970 then 0 else YearStart(year - 1) + YearSecs(year - 1)
  }

  /** Seconds from the start of a year to the start of one of its months. */
  function MonthStart(year: int, mon: int): (r: nat)
    decreases mon
  {
    if mon <= 0 then 0 else MonthStart(year, mon - 1) + MonthSecs(year, mon - 1)
  }

  function TimeOfMonth(d: Tm): int {
    (d.mday - 1) * 86400 + d.hour * 3600 + d.minute * 60 + d.sec
  }

  /** Seconds since 1970. */
  function Seconds(d: Tm): int {
    YearStart(d.year + 1900) + MonthStart(d.year + 1900, d.mon) + TimeOfMonth(d)
  }

  predicate InRange(d: Tm) {
    && 0 <= d.mon <= 11 && 1 <= d.mday <= 31
    && 0 <= d.hour <= 23 && 0 <= d.minute <= 59 && 0 <= d.sec <= 59
  }

  /** A day that the calendar has. */
  predicate RealDate(d: Tm) {
    InRange(d) && d.mday <= MonthDays(d.year + 1900, d.mon)
  }

  predicate Before(a: Tm, b: Tm) {
    if a.year != b.year then a.year < b.year
    else if a.mon != b.mon then a.mon < b.mon
    else if a.mday != b.mday then a.mday < b.mday
    else if a.hour != b.hour then a.hour < b.hour
    else if a.minute != b.minute then a.minute < b.minute
    else a.sec < b.sec
  }

  function YearOf(secs: nat, year: int): (r: int)
    requires year >= 1970
    ensures r >= year
  {
    if secs < YearSecs(year) then year else YearOf(secs - YearSecs(year), year + 1)
  }

  function MonthOf(secs: nat, year: int, mon: nat): (r: nat)
    requires mon < 12 && secs < MonthStart(year, 12) - MonthStart(year, mon)
    ensures mon <= r < 12
    decreases 12 - mon
  {
    if mon == 11 || secs < MonthSecs(year, mon) then mon else MonthOf(secs - MonthSecs(year, mon), year, mon + 1)
  }

  /** The date some seconds into a month. */
  function WithDay(year: int, mon: int, secs: nat): (d: Tm) {
    var day := secs % 86400;
    Tm(year - 1900, mon, 1 + secs / 86400, day / 3600, day % 3600 / 60, day % 3600 % 60)
  }

  function GmTime(t: nat): (d: Tm) {
    var year := YearOf(t, 1970);
    YearContains(t, 1970);
    MonthsMakeYear(year);
    var secs := t - YearStart(year);
    var mon := MonthOf(secs, year, 0);
    MonthContains(secs, year, 0);
    WithDay(year, mon, secs - MonthStart(year, mon))
  }

  // ----- Laws -----

  lemma {:induction false} YearContains(secs: nat, year: int)
    requires year >= 1970
    ensures var y := YearOf(secs, year);
            YearStart(y) - YearStart(year) <= secs < YearStart(y) - YearStart(year) + YearSecs(y)
  {
    if secs >= YearSecs(year) { YearContains(secs - YearSecs(year), year + 1); }
  }

  /** Twelve months make a year, so the search for the month never runs past December. */
  lemma MonthsMakeYear(year: int)
    ensures MonthStart(year, 12) == YearSecs(year)
  {
    assert MonthStart(year, 2) == (59 + if LeapYear(year) then 1 else 0) * 86400;
    assert MonthStart(year, 4) == MonthStart(year, 2) + 61 * 86400;
    assert MonthStart(year, 6) == MonthStart(year, 4) + 61 * 86400;
    assert MonthStart(year, 8) == MonthStart(year, 6) + 62 * 86400;
    assert MonthStart(year, 10) == MonthStart(year, 8) + 61 * 86400;
    assert MonthStart(year, 12) == MonthStart(year, 10) + 61 * 86400;
  }

  /** How many days of the year come before a month, or before the next year. */
  function DaysBefore(mon: nat, leap: bool): nat
    requires mon <= 12
  {
    [0, 31, 59, 90, 120, 151, 181, 212, 243, 273, 304, 334, 365][mon] + if mon > 1 && leap then 1 else 0
  }

  /** Every month starts on its own day, and the leap day is the 29 February of the Gregorian leap years. */
  lemma {:induction false} MonthStarts(year: int, mon: nat)
    requires mon <= 12
    ensures MonthStart(year, mon)
            == 86400 * DaysBefore(mon, year % 4 == 0 && (year % 100 != 0 || year % 400 == 0))
  {
    hide DaysBefore, MonthDays;
    NoDaysBefore();
    if mon > 0 {
      MonthStarts(year, mon - 1);
      DaysOfMonth(year, mon - 1);
    }
  }

  lemma NoDaysBefore()
    ensures DaysBefore(0, true) == DaysBefore(0, false) == 0
  {}

  lemma DaysOfMonth(year: int, mon: nat)
    requires mon < 12
    ensures DaysBefore(mon + 1, LeapYear(year)) == DaysBefore(mon, LeapYear(year)) + MonthDays(year, mon)
  {
    hide LeapYear;
  }

  lemma {:induction false} MonthContains(secs: nat, year: int, mon: nat)
    requires mon < 12 && secs < MonthStart(year, 12) - MonthStart(year, mon)
    ensures var m := MonthOf(secs, year, mon);
            MonthStart(year, m) - MonthStart(year, mon) <= secs
            < MonthStart(year, m) - MonthStart(year, mon) + MonthSecs(year, m)
    decreases 12 - mon
  {
    if mon < 11 && secs >= MonthSecs(year, mon) {
      assert MonthStart(year, mon + 1) == MonthStart(year, mon) + MonthSecs(year, mon);
      MonthContains(secs - MonthSecs(year, mon), year, mon + 1);
    }
  }

  lemma {:induction false} YearStartMonotone(a: int, b: int)
    requires a <= b
    ensures YearStart(a) <= YearStart(b)
    decreases b - a
  {
    if a < b { YearStartMonotone(a, b - 1); }
  }

  lemma {:induction false} MonthStartMonotone(year: int, a: int, b: int)
    requires a <= b
    ensures MonthStart(year, a) <= MonthStart(year, b)
    decreases b - a
  {
    if a < b { MonthStartMonotone(year, a, b - 1); }
  }

  /** Every second count decodes to a real date, and counting that date's seconds gives it back. */
  lemma SecondsOfGmTime(t: nat)
    ensures RealDate(GmTime(t)) && GmTime(t).year >= 70 && Seconds(GmTime(t)) == t
  {
    hide YearStart, MonthStart, YearOf, MonthOf, YearSecs, TimeOfMonth;
    var year := YearOf(t, 1970);
    YearContains(t, 1970);
    FirstStarts(year);
    MonthsMakeYear(year);
    var secs := t - YearStart(year);
    MonthContains(secs, year, 0);
    var mon := MonthOf(secs, year, 0);
    WithDayCounts(year, mon, secs - MonthStart(year, mon));
  }

  lemma FirstStarts(year: int)
    ensures YearStart(1970) == 0 && MonthStart(year, 0) == 0
  {}

  lemma WithDayCounts(year: int, mon: nat, secs: nat)
    requires mon < 12 && secs < MonthSecs(year, mon)
    ensures RealDate(WithDay(year, mon, secs)) && TimeOfMonth(WithDay(year, mon, secs)) == secs
  {}

  lemma WithinMonth(d: Tm)
    requires RealDate(d)
    ensures 0 <= TimeOfMonth(d) < MonthSecs(d.year + 1900, d.mon)
  {}

  lemma WithinYear(d: Tm)
    requires RealDate(d)
    ensures 0 <= MonthStart(d.year + 1900, d.mon) + TimeOfMonth(d) < YearSecs(d.year + 1900)
  {
    hide MonthStart, MonthDays, YearSecs, TimeOfMonth;
    WithinMonth(d);
    NextMonth(d.year + 1900, d.mon);
    MonthStartMonotone(d.year + 1900, d.mon + 1, 12);
    MonthsMakeYear(d.year + 1900);
  }

  /** Counting seconds keeps the order of the calendar strictly. */
  lemma SecondsMonotone(a: Tm, b: Tm)
    requires RealDate(a) && RealDate(b) && a.year >= 70 && b.year >= 70
    ensures Before(a, b) <==> Seconds(a) < Seconds(b)
    ensures Seconds(a) == Seconds(b) <==> a == b
  {
    if Before(a, b) {
      SecondsBefore(a, b);
    } else if Before(b, a) {
      SecondsBefore(b, a);
    }
  }

  lemma SecondsBefore(a: Tm, b: Tm)
    requires RealDate(a) && RealDate(b) && a.year >= 70 && b.year >= 70 && Before(a, b)
    ensures Seconds(a) < Seconds(b)
  {
    hide YearStart, MonthStart, TimeOfMonth;
    if a.year < b.year {
      WithinYear(a);
      WithinYear(b);
      NextYear(a.year + 1900);
      YearStartMonotone(a.year + 1901, b.year + 1900);
    } else if a.mon < b.mon {
      WithinMonth(a);
      WithinMonth(b);
      NextMonth(a.year + 1900, a.mon);
      MonthStartMonotone(a.year + 1900, a.mon + 1, b.mon);
    } else {
      BeforeInMonth(a, b);
    }
  }

  lemma BeforeInMonth(a: Tm, b: Tm)
    requires InRange(a) && InRange(b) && a.year == b.year && a.mon == b.mon && Before(a, b)
    ensures TimeOfMonth(a) < TimeOfMonth(b)
  {}

  /** Decoding the seconds of a real date gives the date back. */
  lemma GmTimeOfSeconds(d: Tm)
    requires RealDate(d) && d.year >= 70
    ensures Seconds(d) >= 0 && GmTime(Seconds(d)) == d
  {
    WithinMonth(d);
    SecondsOfGmTime(Seconds(d));
    SecondsMonotone(GmTime(Seconds(d)), d);
  }

  /** The next second, by carrying: the calendar's own account of time. */
  function Tick(d: Tm): (r: Tm)
    requires RealDate(d)
    ensures RealDate(r)
  {
    if d.sec < 59 then d.(sec := d.sec + 1)
    else if d.minute < 59 then d.(sec := 0, minute := d.minute + 1)
    else if d.hour < 23 then d.(sec := 0, minute := 0, hour := d.hour + 1)
    else if d.mday < MonthDays(d.year + 1900, d.mon) then d.(sec := 0, minute := 0, hour := 0, mday := d.mday + 1)
    else if d.mon < 11 then d.(sec := 0, minute := 0, hour := 0, mday := 1, mon := d.mon + 1)
    else Tm(d.year + 1, 0, 1, 0, 0, 0)
  }

  /** The date reached by letting t seconds tick by from the start of 1970. */
  function Clock(t: nat): (r: Tm)
    ensures RealDate(r)
  {
    if t == 0 then Tm(70, 0, 1, 0, 0, 0) else Tick(Clock(t - 1))
  }

  lemma TickAddsOne(d: Tm)
    requires RealDate(d) && d.year >= 70
    ensures Tick(d).year >= 70 && Seconds(Tick(d)) == Seconds(d) + 1
  {
    if !LastOfMonth(d) {
      TickInMonth(d);
    } else if d.mon < 11 {
      TickMonth(d);
    } else {
      TickYear(d);
    }
  }

  lemma TickInMonth(d: Tm)
    requires RealDate(d) && !LastOfMonth(d)
    ensures Tick(d).year == d.year && Tick(d).mon == d.mon && TimeOfMonth(Tick(d)) == TimeOfMonth(d) + 1
  {}

  predicate LastOfMonth(d: Tm) {
    RealDate(d) && d.sec == 59 && d.minute == 59 && d.hour == 23 && d.mday == MonthDays(d.year + 1900, d.mon)
  }

  lemma TickMonth(d: Tm)
    requires LastOfMonth(d) && d.mon < 11
    ensures Seconds(Tick(d)) == Seconds(d) + 1
  {
    hide YearStart, MonthStart, MonthDays;
    NextMonth(d.year + 1900, d.mon);
    FirstAfter(d, Tm(d.year, d.mon + 1, 1, 0, 0, 0), MonthDays(d.year + 1900, d.mon));
  }

  lemma TickYear(d: Tm)
    requires LastOfMonth(d) && d.mon == 11 && d.year >= 70
    ensures Seconds(Tick(d)) == Seconds(d) + 1
  {
    NextMonth(d.year + 1900, 11);
    MonthsMakeYear(d.year + 1900);
    NextYear(d.year + 1900);
    FirstAfter(d, Tm(d.year + 1, 0, 1, 0, 0, 0), 31);
  }

  lemma FirstAfter(d: Tm, t: Tm, days: int)
    requires d.sec == 59 && d.minute == 59 && d.hour == 23 && d.mday == days
    requires t.sec == t.minute == t.hour == 0 && t.mday == 1
    requires YearStart(t.year + 1900) + MonthStart(t.year + 1900, t.mon)
             == YearStart(d.year + 1900) + MonthStart(d.year + 1900, d.mon) + days * 86400
    ensures Seconds(t) == Seconds(d) + 1
  {
    hide YearStart, MonthStart;
  }

  lemma NextMonth(year: int, mon: nat)
    requires mon < 12
    ensures MonthStart(year, mon + 1) == MonthStart(year, mon) + MonthDays(year, mon) * 86400
  {}

  lemma NextYear(year: int)
    requires year >= 1970
    ensures YearStart(year + 1) == YearStart(year) + YearSecs(year) && MonthStart(year + 1, 0) == 0
  {}

  lemma {:induction false} SecondsOfClock(t: nat)
    ensures Clock(t).year >= 70 && Seconds(Clock(t)) == t
  {
    if t > 0 {
      SecondsOfClock(t - 1);
      TickAddsOne(Clock(t - 1));
    } else {
      assert Clock(t) == Tm(70, 0, 1, 0, 0, 0);
    }
  }

  /** The decoder agrees with the calendar's own count of every second. */
  lemma GmTimeIsClock(t: nat)
    ensures GmTime(t) == Clock(t)
  {
    SecondsOfClock(t);
    GmTimeOfSeconds(Clock(t));
  }

  /** Leap years before a year, by the Gregorian rule. */
  function LeapsBefore(year: int): int {
    (year - 1) / 4 - (year - 1) / 100 + (year - 1) / 400
  }

  lemma {:induction false} YearStartClosed(year: int)
    requires year >= 1970
    ensures YearStart(year) == 86400 * (365 * (year - 1970) + LeapsBefore(year) - LeapsBefore(1970))
  {
    if year > 1970 {
      YearStartClosed(year - 1);
      LeapStep(year - 1);
    }
  }

  lemma LeapStep(year: int)
    ensures LeapsBefore(year + 1) == LeapsBefore(year) + if LeapYear(year) then 1 else 0
  {
    StepBy4(year);
    StepBy100(year);
    StepBy400(year);
    Multiples(year);
  }

  lemma StepBy4(n: int)
    ensures n / 4 - (n - 1) / 4 == if n % 4 == 0 then 1 else 0
  {}

  lemma StepBy100(n: int)
    ensures n / 100 - (n - 1) / 100 == if n % 100 == 0 then 1 else 0
  {}

  lemma StepBy400(n: int)
    ensures n / 400 - (n - 1) / 400 == if n % 400 == 0 then 1 else 0
  {}

  lemma Multiples(n: int)
    ensures n % 400 == 0 ==> n % 100 == 0
    ensures n % 100 == 0 ==> n % 4 == 0
  {}

  /** What the encoder of POSIX times accepts. */
  predicate PosixAccepts(d: Tm) {
    && 1970 <= d.year + 1900 <= 2106 && InRange(d)
    && !Before(Tm(206, 1, 7, 6, 28, 14), d)
  }

  lemma Start2106()
    ensures YearStart(2106) == 4291747200
  {
    hide YearStart;
    YearStartClosed(2106);
  }

  lemma MonthStartBound(year: int, mon: int)
    requires 0 <= mon <= 11
    ensures MonthStart(year, mon) + 31 * 86400 <= YearSecs(year)
  {
    MonthStartMonotone(year, mon, 11);
    MonthsMakeYear(year);
    assert MonthStart(year, 12) == MonthStart(year, 11) + 31 * 86400;
  }

  /** No accepted date makes the 32-bit sum wrap, not even one with too large a day for its month. */
  lemma AcceptedFits(d: Tm)
    requires PosixAccepts(d)
    ensures 0 <= Seconds(d) < TWO32 - 1
  {
    var year := d.year + 1900;
    assert 0 <= TimeOfMonth(d) < 31 * 86400;
    Start2106();
    if year < 2106 {
      MonthStartBound(year, d.mon);
      YearStartMonotone(year + 1, 2106);
    } else {
      assert MonthStart(2106, 1) == 31 * 86400;
    }
  }

  /** The encoder accepts exactly the dates in range whose seconds, counted with the days of their month as they are,
      come before the last 32-bit count. */
  lemma AcceptsExactly(d: Tm)
    ensures PosixAccepts(d)
            <==> && 0 <= d.mon <= 11 && 1 <= d.mday <= 31 && 0 <= d.hour <= 23
                 && 0 <= d.minute <= 59 && 0 <= d.sec <= 59
                 && d.year >= 70 && Seconds(d) < 0xFFFF_FFFF
  {
    hide YearStart, MonthStart, LeapYear;
    if InRange(d) && d.year >= 70 {
      var year := d.year + 1900;
      Start2106();
      MonthStarts(year, d.mon);
      if year < 2106 {
        MonthStartBound(year, d.mon);
        YearStartMonotone(year + 1, 2106);
        NextYear(year);
      } else if year > 2106 {
        YearStartMonotone(2107, year);
        NextYear(2106);
      }
    }
  }

  /** Of all 32-bit second counts, the encoder rejects the date of the last one only. */
  lemma AcceptsDecoded(t: nat)
    requires t < TWO32
    ensures PosixAccepts(GmTime(t)) <==> t != TWO32 - 1
  {
    SecondsOfGmTime(t);
    var last := Tm(206, 1, 7, 6, 28, 14);
    Start2106();
    assert MonthStart(2106, 1) == 31 * 86400;
    assert RealDate(last) && Seconds(last) == TWO32 - 2;
    SecondsMonotone(last, GmTime(t));
    YearBound(GmTime(t));
  }

  lemma YearBound(d: Tm)
    requires RealDate(d) && d.year >= 70 && Seconds(d) < TWO32
    ensures d.year <= 206
  {
    if d.year > 206 {
      Start2106();
      assert YearStart(2107) == YearStart(2106) + YearSecs(2106);
      YearStartMonotone(2107, d.year + 1900);
      WithinYear(d);
    }
  }

  // ----- Code -----

  /** The year loop of atcacert_gmtime32. */
  method FindYear(posixTime: nat) returns (year: int, remaining: nat)
    ensures year == YearOf(posixTime, 1970) && remaining == posixTime - YearStart(year) && remaining < YearSecs(year)
  {
    remaining := posixTime;
    year := 1970;
    var secs := YearSecs(year);
    while remaining >= secs
      invariant year >= 1970 && secs == YearSecs(year)
      invariant YearOf(remaining, year) == YearOf(posixTime, 1970)
      invariant remaining == posixTime - YearStart(year)
      decreases remaining
    {
      year := year + 1;
      remaining := remaining - secs;
      secs := YearSecs(year);
    }
  }

  /** The month loop of atcacert_gmtime32. */
  method FindMonth(ofYear: nat, year: int) returns (mon: nat, remaining: nat)
    requires ofYear < MonthStart(year, 12) - MonthStart(year, 0)
    ensures mon < 12 && mon == MonthOf(ofYear, year, 0) && remaining == ofYear - MonthStart(year, mon)
  {
    mon, remaining := 0, ofYear;
    var secs := MonthSecs(year, mon);
    while remaining >= secs
      invariant mon < 12 && secs == MonthSecs(year, mon)
      invariant remaining == ofYear - MonthStart(year, mon) && remaining < MonthStart(year, 12) - MonthStart(year, mon)
      invariant MonthOf(remaining, year, mon) == MonthOf(ofYear, year, 0)
      decreases remaining
    {
      assert MonthStart(year, mon + 1) == MonthStart(year, mon) + secs;
      mon := mon + 1;
      remaining := remaining - secs;
      secs := MonthSecs(year, mon);
    }
  }

  /** atcacert_gmtime32 */
  method GmTime32(posixTime: nat) returns (result: Tm)
    requires posixTime < TWO32
    ensures result == GmTime(posixTime)
  {
    hide YearSecs, MonthSecs, YearStart, YearOf, MonthOf;
    var year, remaining := FindYear(posixTime);
    MonthsMakeYear(year);
    var mon: nat;
    mon, remaining := FindMonth(remaining, year);
    result := SplitDay(year, mon, remaining);
  }

  /** The divisions of atcacert_gmtime32. */
  method SplitDay(year: int, mon: nat, secs: nat) returns (result: Tm)
    ensures result == WithDay(year, mon, secs)
  {
    var remaining := secs;
    var mday := 1 + remaining / 86400;
    remaining := remaining % 86400;
    var hour := remaining / 3600;
    remaining := remaining % 3600;
    result := Tm(year - 1900, mon, mday, hour, remaining / 60, remaining % 60);
  }

  lemma ModAdd(sum: int, x: int)
    ensures (sum % TWO32 + x) % TWO32 == (sum + x) % TWO32
  {}

  /** atcacert_mkgmtime32, whose sum is kept in 32 bits. */
  method MkGmTime32(timeptr: Tm) returns (posixTime: nat)
    ensures posixTime == Seconds(timeptr) % TWO32
  {
    hide YearSecs, MonthSecs;
    var year := timeptr.year + 1900;
    var current: int := year - 1;
    ghost var sum: int := 0;
    posixTime := 0;
    while current >= 1970
      invariant current <= year - 1 && sum == YearStart(year) - YearStart(current + 1)
      invariant posixTime == sum % TWO32
      decreases current
    {
      ModAdd(sum, YearSecs(current));
      posixTime := (posixTime + YearSecs(current)) % TWO32;
      sum := sum + YearSecs(current);
      current := current - 1;
    }
    assert sum == YearStart(year);
    current := timeptr.mon - 1;
    while current >= 0
      invariant current <= timeptr.mon - 1
      invariant sum == YearStart(year) + MonthStart(year, timeptr.mon) - MonthStart(year, current + 1)
      invariant posixTime == sum % TWO32
      decreases current
    {
      ModAdd(sum, MonthSecs(year, current));
      posixTime := (posixTime + MonthSecs(year, current)) % TWO32;
      sum := sum + MonthSecs(year, current);
      current := current - 1;
    }
    assert sum == YearStart(year) + MonthStart(year, timeptr.mon);
    posixTime := AddTimeOfMonth(posixTime, timeptr, sum);
  }

  /** The last four sums of atcacert_mkgmtime32. */
  method AddTimeOfMonth(start: nat, timeptr: Tm, ghost sum: int) returns (posixTime: nat)
    requires start == sum % TWO32
    ensures posixTime == (sum + TimeOfMonth(timeptr)) % TWO32
  {
    ghost var a, b, c, d := (timeptr.mday - 1) * 86400, timeptr.hour * 3600, timeptr.minute * 60, timeptr.sec;
    ModAdd(sum, a);
    ModAdd(sum + a, b);
    ModAdd(sum + a + b, c);
    ModAdd(sum + a + b + c, d);
    posixTime := (start + (timeptr.mday - 1) * 86400) % TWO32;
    posixTime := (posixTime + timeptr.hour * 3600) % TWO32;
    posixTime := (posixTime + timeptr.minute * 60) % TWO32;
    posixTime := (posixTime + timeptr.sec) % TWO32;
  }

  /** The checks of atcacert_date_enc_posix_uint32. */
  method PosixRange(timestamp: Tm) returns (ok: bool)
    ensures ok == PosixAccepts(timestamp)
  {
    var year := timestamp.year + 1900;
    if year > 2106 || year < 1970 {
      return false;
    }
    if timestamp.mon < 0 || timestamp.mon > 11 {
      return false;
    }
    if timestamp.mday < 1 || timestamp.mday > 31 {
      return false;
    }
    if timestamp.hour < 0 || timestamp.hour > 23 {
      return false;
    }
    if timestamp.minute < 0 || timestamp.minute > 59 {
      return false;
    }
    if timestamp.sec < 0 || timestamp.sec > 59 {
      return false;
    }
    if year == 2106 {
      if timestamp.mon > 1 {
        return false;
      }
      if timestamp.mon == 1 {
        if timestamp.mday > 7 {
          return false;
        }
        if timestamp.mday == 7 {
          if timestamp.hour > 6 {
            return false;
          }
          if timestamp.hour == 6 {
            if timestamp.minute > 28 {
              return false;
            }
            if timestamp.minute == 28 && timestamp.sec > 14 {
              return false;
            }
          }
        }
      }
    }
    ok := true;
  }

  /** atcacert_date_enc_posix_uint32 */
  method EncPosix(timestamp: Tm) returns (status: Status, posix: nat)
    ensures status == if PosixAccepts(timestamp) then Success else InvalidDate
    ensures status == Success ==> posix == Seconds(timestamp)
  {
    posix := 0;
    var ok := PosixRange(timestamp);
    if !ok {
      return InvalidDate, posix;
    }
    AcceptedFits(timestamp);
    posix := MkGmTime32(timestamp);
    status := Success;
  }
}
