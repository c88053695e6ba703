/** The two calendar conversions (kernel/sysinfo.c, unix_to_datetime; kernel/rtc.c,
    rtc_datetime_to_unix) are inverse up to the fixed ten-hour offset. */
module Calendar {

  const OFFSET: nat := 36000
  const WRAP: nat := 0x1_0000_0000

  /** A civil date and time. */
  datatype DateTime = DateTime(year: int, mon: int, day: int, hour: int, min: int, sec: int)

  predicate Leap(y: int) { (y % 4 == 0 && y % 100 != 0) || y % 400 == 0 }

  function YearDays(y: int): nat { if Leap(y) then 366 else 365 }

  /** Days in each month of an ordinary year, and with the leap day. */
  const DAYS: seq<nat> := [31, 28, 31, 30, 31, 30, 31, 31, 30, 31, 30, 31]

  function MonthDays(y: int, m: int): nat
    requires 1 <= m <= 12
  {
    DAYS[m - 1] + if m == 2 && Leap(y) then 1 else 0
  }

  /** A date of the Gregorian calendar from 1970 on, and a time of day. */
  predicate ValidDateTime(d: DateTime) {
    && d.year >= 1970 && 1 <= d.mon <= 12 && 1 <= d.day <= MonthDays(d.year, d.mon)
    && 0 <= d.hour < 24 && 0 <= d.min < 60 && 0 <= d.sec < 60
  }

  // ---------------------------------------------------------------------------
  // Counting days
  // ---------------------------------------------------------------------------

  /** Days from 1970 to the start of a year. */
  function DaysToYear(y: int): nat
    decreases y
  {
    if y <= 1970 then 0 else DaysToYear(y - 1) + YearDays(y - 1)
  }

  /** Days of the year before a month, counted month by month. */
  function DaysToMonth(y: int, m: int): nat
    requires 1 <= m <= 13
    decreases m
  {
    if m == 1 then 0 else DaysToMonth(y, m - 1) + MonthDays(y, m - 1)
  }

  function DayNumber(d: DateTime): int
    requires 1 <= d.mon <= 12
  {
    DaysToYear(d.year) + DaysToMonth(d.year, d.mon) + d.day - 1
  }

  function Seconds(d: DateTime): int
    requires 1 <= d.mon <= 12
  {
    ((DayNumber(d) * 24 + d.hour) * 60 + d.min) * 60 + d.sec
  }

  /** The table of rtc.c. */
  const BEFORE: seq<nat> := [0, 31, 59, 90, 120, 151, 181, 212, 243, 273, 304, 334]

  lemma MonthTable(y: int, m: int)
    requires 1 <= m <= 12
    ensures DaysToMonth(y, m) == BEFORE[m - 1] + if m > 2 && Leap(y) then 1 else 0
    ensures DaysToMonth(y, 13) == YearDays(y)
  {
    assert DaysToMonth(y, 3) == DaysToMonth(y, 2) + MonthDays(y, 2);
    assert DaysToMonth(y, 2) == DaysToMonth(y, 1) + MonthDays(y, 1);
    assert DaysToMonth(y, 5) == DaysToMonth(y, 4) + MonthDays(y, 4);
    assert DaysToMonth(y, 4) == DaysToMonth(y, 3) + MonthDays(y, 3);
    assert DaysToMonth(y, 7) == DaysToMonth(y, 6) + MonthDays(y, 6);
    assert DaysToMonth(y, 6) == DaysToMonth(y, 5) + MonthDays(y, 5);
    assert DaysToMonth(y, 9) == DaysToMonth(y, 8) + MonthDays(y, 8);
    assert DaysToMonth(y, 8) == DaysToMonth(y, 7) + MonthDays(y, 7);
    assert DaysToMonth(y, 11) == DaysToMonth(y, 10) + MonthDays(y, 10);
    assert DaysToMonth(y, 10) == DaysToMonth(y, 9) + MonthDays(y, 9);
    assert DaysToMonth(y, 13) == DaysToMonth(y, 12) + MonthDays(y, 12);
    assert DaysToMonth(y, 12) == DaysToMonth(y, 11) + MonthDays(y, 11);
  }

  // ---------------------------------------------------------------------------
  // The conversions
  // ---------------------------------------------------------------------------

  /** unix_to_datetime; the sum with the offset is a 32-bit one. */
  method UnixToDateTime(unix: nat) returns (d: DateTime)
    requires unix < WRAP
    ensures ValidDateTime(d) && Seconds(d) == (unix + OFFSET) % WRAP
  {
    var s := (unix + 36000) % 0x1_0000_0000;
    var sec := s % 60;
    s := s / 60;
    var min := s % 60;
    s := s / 60;
    var hour := s % 24;
    var days := s / 24;
    ghost var all: nat := days;
    var y := 1970;
    while true
      invariant y >= 1970 && 0 <= days && DaysToYear(y) + days == all
      decreases days
    {
      if days < YearDays(y) { break; }
      days := days - YearDays(y);
      y := y + 1;
    }
    var m := 1;
    MonthTable(y, 12);
    while m <= 12
      invariant 1 <= m <= 12 && 0 <= days && DaysToYear(y) + DaysToMonth(y, m) + days == all
      invariant DaysToMonth(y, m) + days < DaysToMonth(y, 13)
      decreases 13 - m
    {
      if days < MonthDays(y, m) { break; }
      days := days - MonthDays(y, m);
      m := m + 1;
    }
    d := DateTime(y, m, days + 1, hour, min, sec);
  }

  /** rtc_datetime_to_unix, in 32 bits. */
  method DateTimeToUnix(d: DateTime) returns (unix: nat)
    requires 1 <= d.mon <= 12 && d.day >= 1 && 0 <= d.hour && 0 <= d.min && 0 <= d.sec
    ensures unix == Seconds(d) % WRAP
  {
    var days := 0;
    var y := 1970;
    while y < d.year
      invariant 1970 <= y && (y <= d.year || y == 1970) && days == DaysToYear(y)
    {
      days := days + if Leap(y) then 366 else 365;
      y := y + 1;
    }
    MonthTable(d.year, d.mon);
    days := days + BEFORE[d.mon - 1];
    if d.mon > 2 && Leap(d.year) { days := days + 1; }
    days := days + (d.day - 1);
    unix := (((days * 24 + d.hour) * 60 + d.min) * 60 + d.sec) % 0x1_0000_0000;
  }

  // ---------------------------------------------------------------------------
  // Order and uniqueness
  // ---------------------------------------------------------------------------

  /** Earlier in the calendar: the first field that differs decides. */
  predicate Before(a: DateTime, b: DateTime) {
    a.year < b.year || (a.year == b.year && (a.mon < b.mon || (a.mon == b.mon && (a.day < b.day || (a.day == b.day &&
    (a.hour < b.hour || (a.hour == b.hour && (a.min < b.min || (a.min == b.min && a.sec < b.sec)))))))))
  }

  lemma {:induction false} YearsAdd(y: int, z: int)
    requires 1970 <= y < z
    ensures DaysToYear(y) + YearDays(y) <= DaysToYear(z)
    decreases z - y
  {
    if y + 1 < z { YearsAdd(y, z - 1); }
  }

  lemma {:induction false} MonthsAdd(y: int, m: int, n: int)
    requires 1 <= m < n <= 13
    ensures DaysToMonth(y, m) + MonthDays(y, m) <= DaysToMonth(y, n)
    decreases n - m
  {
    if m + 1 < n { MonthsAdd(y, m, n - 1); }
  }

  /** Calendar order is the order of the seconds. */
  lemma BeforeIsEarlier(a: DateTime, b: DateTime)
    requires ValidDateTime(a) && ValidDateTime(b)
    ensures Before(a, b) ==> Seconds(a) < Seconds(b)
    ensures !Before(a, b) && !Before(b, a) ==> a == b
  {
    if Before(a, b) {
      MonthTable(a.year, 12);
      if a.year < b.year {
        YearsAdd(a.year, b.year);
        MonthsAdd(a.year, a.mon, 13);
      } else if a.mon < b.mon {
        MonthsAdd(a.year, a.mon, b.mon);
      }
      assert DayNumber(a) < DayNumber(b) || DayNumber(a) == DayNumber(b);
    }
  }

  /** Two dates with the same seconds are the same date, so the fields of a time are determined. */
  lemma SecondsDetermine(a: DateTime, b: DateTime)
    requires ValidDateTime(a) && ValidDateTime(b)
    ensures (Seconds(a) == Seconds(b) <==> a == b) && (Seconds(a) < Seconds(b) <==> Before(a, b))
  {
    BeforeIsEarlier(a, b);
    BeforeIsEarlier(b, a);
  }

  /** Converting to a date and back gives the time plus the offset, for all times that the 32-bit
      sum does not wrap. */
  method ThereAndBack(unix: nat) returns (d: DateTime, back: nat)
    requires unix < WRAP - OFFSET
    ensures ValidDateTime(d) && back == unix + OFFSET
  {
    d := UnixToDateTime(unix);
    back := DateTimeToUnix(d);
  }
}
