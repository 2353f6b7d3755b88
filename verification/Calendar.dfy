/** Calendar dates, UTC timestamps and GPS time: the hand-written conversion and
    the separate inverse used for public alerts. */
module Calendar {
  import opened Wrappers

  datatype Date = Date(year: int, month: int, day: int)

  predicate IsLeapYear(y: int) {
    (y % 4 == 0 && y % 100 != 0) || y % 400 == 0
  }

  function YearDays(y: int): int {
    if IsLeapYear(y) then 366 else 365
  }

  function MonthDays(month: int, leap: bool): int {
    if month == 2 then (if leap then 29 else 28)
    else if month == 4 || month == 6 || month == 9 || month == 11 then 30
    else 31
  }

  predicate IsDate(d: Date) {
    d.year >= 1980 && 1 <= d.month <= 12 && 1 <= d.day <= MonthDays(d.month, IsLeapYear(d.year))
  }

  // `(base..year).map(..).sum()`.
  function DaysFromYear(base: int, year: int): int
    decreases year - base
  {
    if year <= base then 0 else DaysFromYear(base, year - 1) + YearDays(year - 1)
  }

  // Days in the months before this one; a month past 12 counts as 13.
  function DaysBeforeMonth(month: int, leap: bool): int
    decreases month
  {
    if month <= 1 then 0
    else DaysBeforeMonth(month - 1, leap) + if month - 1 <= 12 then MonthDays(month - 1, leap) else 0
  }

  // The month table, patched for leap years, summed up to the month.
  method SumMonthTable(month: nat, leap: bool) returns (days: int)
    requires month >= 1
    ensures days == DaysBeforeMonth(month, leap)
  {
    var table := new int[12] [31, 28, 31, 30, 31, 30, 31, 31, 30, 31, 30, 31];
    if leap { table[1] := 29; }
    days := 0;
    var i := 0;
    while i < month - 1 && i < 12
      invariant 0 <= i <= 12 && i <= month - 1
      invariant forall m :: 0 <= m < 12 ==> table[m] == MonthDays(m + 1, leap)
      invariant days == DaysBeforeMonth(i + 1, leap)
    {
      days := days + table[i];
      i := i + 1;
    }
    NoMonthPastTwelve(i + 1, month, leap);
  }

  lemma {:induction false} NoMonthPastTwelve(i: int, month: int, leap: bool)
    requires i == month || 13 <= i <= month
    ensures DaysBeforeMonth(month, leap) == DaysBeforeMonth(i, leap)
    decreases month
  {
    if i == month {
    } else {
      NoMonthPastTwelve(i, month - 1, leap);
    }
  }

  const EPOCH := Date(1980, 1, 6)

  // Days since 1980-01-06.
  function DayNumber(d: Date): int {
    DaysFromYear(1980, d.year) - 5 + DaysBeforeMonth(d.month, IsLeapYear(d.year)) + (d.day - 1)
  }

  // ------------------------------------- the reference: counting days

  function NextDay(d: Date): Date {
    if d.day < MonthDays(d.month, IsLeapYear(d.year)) then d.(day := d.day + 1)
    else if d.month < 12 then Date(d.year, d.month + 1, 1)
    else Date(d.year + 1, 1, 1)
  }

  // The date n days after the epoch, one day at a time.
  function NthDay(n: nat): Date {
    if n == 0 then EPOCH else NextDay(NthDay(n - 1))
  }

  lemma YearIsTwelveMonths(leap: bool)
    ensures DaysBeforeMonth(12, leap) == if leap then 335 else 334
  {
    assert DaysBeforeMonth(3, leap) == if leap then 60 else 59;
    assert DaysBeforeMonth(5, leap) == DaysBeforeMonth(3, leap) + 61;
    assert DaysBeforeMonth(7, leap) == DaysBeforeMonth(5, leap) + 61;
    assert DaysBeforeMonth(9, leap) == DaysBeforeMonth(7, leap) + 62;
    assert DaysBeforeMonth(11, leap) == DaysBeforeMonth(9, leap) + 61;
  }

  lemma NextDayAdvances(d: Date)
    requires IsDate(d)
    ensures IsDate(NextDay(d)) && DayNumber(NextDay(d)) == DayNumber(d) + 1
  {
    if d.day >= MonthDays(d.month, IsLeapYear(d.year)) {
      if d.month == 12 { YearIsTwelveMonths(IsLeapYear(d.year)); }
    }
  }

  lemma {:induction false} NthDayHasNumber(n: nat)
    ensures IsDate(NthDay(n)) && DayNumber(NthDay(n)) == n
  {
    if n == 0 {
    } else {
      NthDayHasNumber(n - 1);
      NextDayAdvances(NthDay(n - 1));
    }
  }

  predicate Before(a: Date, b: Date) {
    a.year < b.year || (a.year == b.year && (a.month < b.month || (a.month == b.month && a.day < b.day)))
  }

  lemma {:induction false} MonthsAddUp(m: int, n: int, leap: bool)
    requires 1 <= m < n <= 13
    ensures DaysBeforeMonth(m, leap) + MonthDays(m, leap) <= DaysBeforeMonth(n, leap)
    decreases n
  {
    if m == n - 1 {
    } else {
      MonthsAddUp(m, n - 1, leap);
    }
  }

  lemma {:induction false} YearsAddUp(base: int, y: int, z: int)
    requires base <= y < z
    ensures DaysFromYear(base, y) + YearDays(y) <= DaysFromYear(base, z)
    decreases z - y
  {
    if y == z - 1 {
    } else {
      YearsAddUp(base, y, z - 1);
    }
  }

  lemma DayOfYearBounds(d: Date)
    requires IsDate(d)
    ensures 0 <= DaysBeforeMonth(d.month, IsLeapYear(d.year)) + d.day - 1 < YearDays(d.year)
  {
    var leap := IsLeapYear(d.year);
    YearIsTwelveMonths(leap);
    assert DaysBeforeMonth(13, leap) == YearDays(d.year);
    MonthsAddUp(d.month, 13, leap);
    if d.month > 1 { MonthsAddUp(1, d.month, leap); }
  }

  // Later dates have larger numbers.
  lemma DayNumberIsMonotone(a: Date, b: Date)
    requires IsDate(a) && IsDate(b) && Before(a, b)
    ensures DayNumber(a) < DayNumber(b)
  {
    if a.year < b.year {
      DayOfYearBounds(a);
      DayOfYearBounds(b);
      YearsAddUp(1980, a.year, b.year);
    } else if a.month < b.month {
      MonthsAddUp(a.month, b.month, IsLeapYear(a.year));
    }
  }

  lemma DayNumberIsInjective(a: Date, b: Date)
    requires IsDate(a) && IsDate(b) && DayNumber(a) == DayNumber(b)
    ensures a == b
  {
    if Before(a, b) { DayNumberIsMonotone(a, b); }
    if Before(b, a) { DayNumberIsMonotone(b, a); }
  }

  /** The year sum plus month table counts next-day steps from the epoch; with
      NthDayHasNumber, a bijection between later dates and the naturals. */
  lemma DayNumberCountsSteps(d: Date)
    requires IsDate(d) && !Before(d, EPOCH)
    ensures DayNumber(d) >= 0 && NthDay(DayNumber(d)) == d
  {
    if Before(EPOCH, d) { DayNumberIsMonotone(EPOCH, d); }
    NthDayHasNumber(DayNumber(d));
    DayNumberIsInjective(NthDay(DayNumber(d)), d);
  }

  // ------------------------------------------------------- leap seconds

  // (threshold, accumulated leap seconds), as compiled into the program.
  const LEAP_SECONDS: seq<(int, int)> := [
    (46828800, 1), (78364801, 2), (109900802, 3), (173059203, 4), (252028804, 5), (315187205, 6),
    (346723206, 7), (393984007, 8), (425520008, 9), (457056009, 10), (504489610, 11), (551750411, 12),
    (599184012, 13), (820108813, 14), (914803214, 15), (1025136015, 16), (1119744016, 17), (1167264017, 18)
  ]

  // The days on which leap seconds had been introduced, UTC midnight.
  const INTRODUCED: seq<Date> := [
    Date(1981, 7, 1), Date(1982, 7, 1), Date(1983, 7, 1), Date(1985, 7, 1), Date(1988, 1, 1), Date(1990, 1, 1),
    Date(1991, 1, 1), Date(1992, 7, 1), Date(1993, 7, 1), Date(1994, 7, 1), Date(1996, 1, 1), Date(1997, 7, 1),
    Date(1999, 1, 1), Date(2006, 1, 1), Date(2009, 1, 1), Date(2012, 7, 1), Date(2015, 7, 1), Date(2017, 1, 1)
  ]

  // How many of the first n thresholds have been reached.
  function Reached(u: int, n: nat): nat
    requires n <= 18
  {
    if n == 0 then 0 else Reached(u, n - 1) + if LEAP_SECONDS[n - 1].0 <= u then 1 else 0
  }

  function LeapSecondsAt(u: int): nat {
    Reached(u, 18)
  }

  lemma TableIsOrdered()
    ensures |LEAP_SECONDS| == 18
    ensures forall i :: 0 <= i < 18 ==> LEAP_SECONDS[i].1 == i + 1
    ensures forall i :: 0 <= i < 17 ==> LEAP_SECONDS[i].0 < LEAP_SECONDS[i + 1].0
  {
  }

  lemma {:induction false} ThresholdsAscend(i: nat, j: nat)
    requires i <= j < 18
    ensures LEAP_SECONDS[i].0 <= LEAP_SECONDS[j].0
    decreases j
  {
    TableIsOrdered();
    if i == j {
    } else {
      ThresholdsAscend(i, j - 1);
    }
  }

  lemma {:induction false} NoneReachedAfter(u: int, i: nat, n: nat)
    requires i <= n <= 18 && (i < 18 ==> u < LEAP_SECONDS[i].0)
    ensures Reached(u, n) == Reached(u, i)
    decreases n
  {
    if i == n {
    } else {
      NoneReachedAfter(u, i, n - 1);
      ThresholdsAscend(i, n - 1);
    }
  }

  // The scan stops at the first threshold not yet reached.
  method ScanLeapSeconds(u: int) returns (leaps: nat)
    ensures leaps == LeapSecondsAt(u)
  {
    TableIsOrdered();
    leaps := 0;
    var i := 0;
    while i < |LEAP_SECONDS|
      invariant 0 <= i <= 18 && leaps == i == Reached(u, i)
    {
      var (threshold, total) := LEAP_SECONDS[i];
      if u < threshold { break; }
      leaps := total;
      i := i + 1;
    }
    NoneReachedAfter(u, i, 18);
  }

  // Closed form of the year sum, by counting multiples of 4, 100 and 400.
  lemma {:induction false} YearSumClosedForm(base: int, y: int)
    requires 1 <= base <= y
    ensures DaysFromYear(base, y) == 365 * (y - base) + Multiples(y - 1) - Multiples(base - 1)
    decreases y - base
  {
    hide Multiples, IsLeapYear;
    if base == y {
    } else {
      YearSumClosedForm(base, y - 1);
      OneMoreYear(y - 1);
    }
  }

  // Leap years from year 1 up to y.
  function Multiples(y: int): int {
    y / 4 - y / 100 + y / 400
  }

  lemma OneMoreYear(y: int)
    ensures Multiples(y) == Multiples(y - 1) + if IsLeapYear(y) then 1 else 0
  {
    assert y / 4 - (y - 1) / 4 == if y % 4 == 0 then 1 else 0;
    assert y / 100 - (y - 1) / 100 == if y % 100 == 0 then 1 else 0;
    assert y / 400 - (y - 1) / 400 == if y % 400 == 0 then 1 else 0;
    MultipleOfFour(y);
  }

  lemma MultipleOfFour(y: int)
    ensures y % 400 == 0 ==> y % 100 == 0
    ensures y % 100 == 0 ==> y % 4 == 0
  {
    if y % 400 == 0 {
      var q := y / 400;
      assert y == 400 * q;
      HundredTimes(4 * q);
    }
    if y % 100 == 0 {
      var q := y / 100;
      assert y == 100 * q;
      FourTimes(25 * q);
    }
  }

  lemma HundredTimes(n: int)
    ensures (100 * n) % 100 == 0
  {
  }

  lemma FourTimes(n: int)
    ensures (4 * n) % 4 == 0
  {
  }

  // Thirty or thirty-one days in turn, as the Gregorian calendar has them.
  lemma MonthsClosedForm(m: int, leap: bool)
    requires 1 <= m <= 12
    ensures DaysBeforeMonth(m, leap) == (367 * m - 362) / 12 - (if m <= 2 then 0 else if leap then 1 else 2)
    ensures MonthDays(m, leap)
         == (367 * m + 5) / 12 - (367 * m - 362) / 12 - (if m != 2 then 0 else if leap then 1 else 2)
  {
    hide DaysBeforeMonth;
    MonthSums(leap);
    assert m == 1 || m == 2 || m == 3 || m == 4 || m == 5 || m == 6
        || m == 7 || m == 8 || m == 9 || m == 10 || m == 11 || m == 12;
  }

  lemma MonthSums(leap: bool)
    ensures DaysBeforeMonth(1, leap) == 0 && DaysBeforeMonth(2, leap) == 31
    ensures
      var march := DaysBeforeMonth(3, leap);
      && march == (if leap then 60 else 59)
      && DaysBeforeMonth(4, leap) == march + 31 && DaysBeforeMonth(5, leap) == march + 61
      && DaysBeforeMonth(6, leap) == march + 92 && DaysBeforeMonth(7, leap) == march + 122
      && DaysBeforeMonth(8, leap) == march + 153 && DaysBeforeMonth(9, leap) == march + 184
      && DaysBeforeMonth(10, leap) == march + 214 && DaysBeforeMonth(11, leap) == march + 245
      && DaysBeforeMonth(12, leap) == march + 275
  {
    assert DaysBeforeMonth(3, leap) == if leap then 60 else 59;
    assert DaysBeforeMonth(5, leap) == DaysBeforeMonth(3, leap) + 61;
    assert DaysBeforeMonth(7, leap) == DaysBeforeMonth(5, leap) + 61;
    assert DaysBeforeMonth(9, leap) == DaysBeforeMonth(7, leap) + 62;
    assert DaysBeforeMonth(11, leap) == DaysBeforeMonth(9, leap) + 61;
  }

  // Days from 1980-01-06, with no table and no sum.
  function DaysByFormula(d: Date): int {
    var leap := d.year % 4 == 0 && (d.year % 100 != 0 || d.year % 400 == 0);
    var last := d.year - 1;
    365 * (d.year - 1980) + last / 4 - last / 100 + last / 400
    + (367 * d.month - 362) / 12 - (if d.month <= 2 then 0 else if leap then 1 else 2) + d.day - 485
  }

  /** The day number of every date in one formula: no sum over years or months. */
  lemma DayNumberClosedForm(d: Date)
    requires IsDate(d)
    ensures
      DayNumber(d) == DaysByFormula(d)
  {
    YearSumClosedForm(1980, d.year);
    MonthsClosedForm(d.month, IsLeapYear(d.year));
    MultipleOfFour(d.year);
    assert Multiples(1979) == 479;
  }

  function Midnight(d: Date): int {
    86400 * DayNumber(d)
  }

  lemma HalfYear(leap: bool)
    ensures DaysBeforeMonth(7, leap) == if leap then 182 else 181
  {
    assert DaysBeforeMonth(4, leap) == if leap then 91 else 90;
  }

  // Midnight of the first of January or July.
  lemma MidnightClosedForm(d: Date)
    requires IsDate(d) && d.day == 1 && (d.month == 1 || d.month == 7)
    ensures
      var half := if d.month == 1 then 0 else if IsLeapYear(d.year) then 182 else 181;
      Midnight(d) == 86400 * (365 * (d.year - 1980) + Multiples(d.year - 1) - 484 + half)
  {
    hide IsLeapYear;
    YearSumClosedForm(1980, d.year);
    HalfYear(IsLeapYear(d.year));
    assert Multiples(1979) == 479;
  }

  /** Entry k of the table is the introduction date's midnight plus the k leap
      seconds before it, although it is compared with a count free of them. */
  lemma ThresholdsIncludeEarlierLeaps(k: nat)
    requires k < 18
    ensures LEAP_SECONDS[k].0 == Midnight(INTRODUCED[k]) + k
  {
    hide Midnight;
    MidnightClosedForm(INTRODUCED[k]);
    if k < 9 {
      assert k == 0 || k == 1 || k == 2 || k == 3 || k == 4 || k == 5 || k == 6 || k == 7 || k == 8;
    } else {
      assert k == 9 || k == 10 || k == 11 || k == 12 || k == 13 || k == 14 || k == 15 || k == 16 || k == 17;
    }
  }

  // How many of the first n introduction dates have been reached.
  function Introduced(u: int, n: nat): nat
    requires n <= 18
  {
    if n == 0 then 0 else Introduced(u, n - 1) + if Midnight(INTRODUCED[n - 1]) <= u then 1 else 0
  }

  // Within k seconds of introduction date k.
  predicate LateWindow(u: int, k: nat)
    requires k < 18
  {
    Midnight(INTRODUCED[k]) <= u < Midnight(INTRODUCED[k]) + k
  }

  ghost predicate JustIntroduced(u: int, n: nat)
    requires n <= 18
  {
    exists k :: 0 <= k < n && LateWindow(u, k)
  }

  lemma {:induction false} LatenessAdds(u: int, n: nat)
    requires n <= 18
    ensures Reached(u, n) <= Introduced(u, n)
    ensures Reached(u, n) == Introduced(u, n) <==> !JustIntroduced(u, n)
  {
    hide Midnight;
    if n == 0 {
    } else {
      LatenessAdds(u, n - 1);
      ThresholdsIncludeEarlierLeaps(n - 1);
      LateByOne(u, n);
    }
  }

  lemma LateByOne(u: int, n: nat)
    requires 0 < n <= 18
    ensures JustIntroduced(u, n) <==> JustIntroduced(u, n - 1) || LateWindow(u, n - 1)
  {
    hide LateWindow;
    if LateWindow(u, n - 1) { assert JustIntroduced(u, n); }
  }

  /** The offset used equals the number of leap seconds introduced by that UTC
      second, except in the first k seconds after the k-th later introduction
      (k from 1 to 17), where it is still too small. */
  lemma OffsetIsRightIff(u: int)
    ensures LeapSecondsAt(u) <= Introduced(u, 18)
    ensures LeapSecondsAt(u) == Introduced(u, 18) <==> !JustIntroduced(u, 18)
  {
    LatenessAdds(u, 18);
  }

  // At midnight of 2017-01-01 the eighteenth leap second is not applied yet.
  lemma LateOnFirstOfJanuary2017()
    ensures LeapSecondsAt(Midnight(Date(2017, 1, 1))) == 17
  {
    ThresholdsIncludeEarlierLeaps(17);
    ThresholdsIncludeEarlierLeaps(16);
    var u := Midnight(Date(2017, 1, 1));
    assert u == 1167264000;
    NoneReachedAfter(u, 17, 18);
    AllReachedBefore(u, 17);
  }

  lemma {:induction false} AllReachedBefore(u: int, n: nat)
    requires n <= 18 && (n > 0 ==> LEAP_SECONDS[n - 1].0 <= u)
    ensures Reached(u, n) == n
  {
    if n > 1 { ThresholdsAscend(n - 2, n - 1); }
    if n == 0 {
    } else {
      AllReachedBefore(u, n - 1);
    }
  }

  lemma {:induction false} ReachedGrows(u: int, v: int, n: nat)
    requires n <= 18 && u <= v
    ensures Reached(u, n) <= Reached(v, n) <= n
  {
    if n == 0 {
    } else {
      ReachedGrows(u, v, n - 1);
    }
  }

  // ---------------------------------------------------------- timestamps

  datatype Timestamp = Timestamp(date: Date, hour: int, minute: int, second: real)

  predicate IsTimestamp(t: Timestamp) {
    IsDate(t.date) && 0 <= t.hour < 24 && 0 <= t.minute < 60 && 0.0 <= t.second < 60.0
  }

  function SecondOfDay(t: Timestamp): real {
    (3600 * t.hour + 60 * t.minute) as real + t.second
  }

  // Seconds since the GPS epoch with no leap seconds counted.
  function UtcSeconds(t: Timestamp): real {
    Midnight(t.date) as real + SecondOfDay(t)
  }

  // `as i64`: towards zero.
  function Truncate(x: real): int {
    if x >= 0.0 then x.Floor else -((-x).Floor)
  }

  function GpsSeconds(t: Timestamp): real {
    UtcSeconds(t) + LeapSecondsAt(Truncate(UtcSeconds(t))) as real
  }

  predicate Earlier(s: Timestamp, t: Timestamp) {
    || Before(s.date, t.date)
    || (s.date == t.date && (s.hour < t.hour || (s.hour == t.hour && (s.minute < t.minute || (s.minute == t.minute
        && s.second < t.second)))))
  }

  lemma SecondOfDayBounds(t: Timestamp)
    requires IsTimestamp(t)
    ensures 0.0 <= SecondOfDay(t) < 86400.0
  {
    assert 3600 * t.hour + 60 * t.minute <= 86340;
  }

  lemma UtcIsMonotone(s: Timestamp, t: Timestamp)
    requires IsTimestamp(s) && IsTimestamp(t) && Earlier(s, t)
    ensures UtcSeconds(s) < UtcSeconds(t)
  {
    SecondOfDayBounds(s);
    SecondOfDayBounds(t);
    if Before(s.date, t.date) {
      DayNumberIsMonotone(s.date, t.date);
      assert Midnight(s.date) + 86400 <= Midnight(t.date);
    } else if s.hour < t.hour {
      assert 3600 * s.hour + 60 * s.minute + 60 <= 3600 * t.hour + 60 * t.minute;
    } else if s.minute < t.minute {
      assert 60 * s.minute + 60 <= 60 * t.minute;
    }
  }

  lemma OffsetIsMonotone(x: real, y: real)
    requires x <= y
    ensures x + LeapSecondsAt(Truncate(x)) as real <= y + LeapSecondsAt(Truncate(y)) as real
    ensures x < y ==> x + LeapSecondsAt(Truncate(x)) as real < y + LeapSecondsAt(Truncate(y)) as real
  {
    ReachedGrows(Truncate(x), Truncate(y), 18);
  }

  /** The conversion to GPS time is strictly increasing on valid timestamps. */
  lemma GpsIsMonotone(s: Timestamp, t: Timestamp)
    requires IsTimestamp(s) && IsTimestamp(t) && Earlier(s, t)
    ensures GpsSeconds(s) < GpsSeconds(t)
  {
    UtcIsMonotone(s, t);
    OffsetIsMonotone(UtcSeconds(s), UtcSeconds(t));
  }

  /** An instant inside a leap second, written with second 60, is given the GPS
      time of the same fraction of the following day's first second. */
  lemma LeapSecondFoldsOver(d: Date, fraction: real)
    requires IsDate(d)
    ensures GpsSeconds(Timestamp(d, 23, 59, 60.0 + fraction)) == GpsSeconds(Timestamp(NextDay(d), 0, 0, fraction))
  {
    NextDayAdvances(d);
  }

  // ------------------------------------------------- the alert's inverse

  const GPS_EPOCH_UNIX := 315964800
  const ALERT_LEAP_SECONDS := 18

  // `gps_to_utc_iso` up to formatting: Unix milliseconds.
  function UnixMillisOfGps(gps: real): int {
    Truncate((gps + (GPS_EPOCH_UNIX - ALERT_LEAP_SECONDS) as real) * 1000.0)
  }

  // The calendar's own Unix milliseconds, counted from 1970-01-01.
  function UnixMillis(t: Timestamp, millis: int): int {
    var months := DaysBeforeMonth(t.date.month, IsLeapYear(t.date.year));
    var days := DaysFromYear(1970, t.date.year) + months + (t.date.day - 1);
    1000 * (86400 * days + 3600 * t.hour + 60 * t.minute) + millis
  }

  lemma UnixDays(year: int)
    requires year >= 1980
    ensures DaysFromYear(1970, year) == DaysFromYear(1980, year) + 3652
  {
    YearSumClosedForm(1970, year);
    YearSumClosedForm(1980, year);
  }

  lemma UnixFromUtc(t: Timestamp, millis: int)
    requires IsDate(t.date) && t.second == millis as real / 1000.0
    ensures UnixMillis(t, millis) as real == (UtcSeconds(t) + GPS_EPOCH_UNIX as real) * 1000.0
  {
    UnixDays(t.date.year);
    var whole := 86400 * (DayNumber(t.date) + 3657) + 3600 * t.hour + 60 * t.minute;
    assert UnixMillis(t, millis) == 1000 * whole + millis;
    assert UtcSeconds(t) + GPS_EPOCH_UNIX as real == whole as real + t.second;
  }

  lemma TruncateInteger(n: int)
    ensures Truncate(n as real) == n
  {
  }

  /** Converting a millisecond timestamp to GPS time and back through the alert
      formula gives the calendar's Unix milliseconds exactly from
      2017-01-01T00:00:17 on, and never before. */
  lemma AlertInvertsIff(t: Timestamp, millis: int)
    requires IsTimestamp(t) && t.second == millis as real / 1000.0
    ensures UnixMillisOfGps(GpsSeconds(t)) == UnixMillis(t, millis) <==> UtcSeconds(t) >= 1167264017.0
  {
    var u := UtcSeconds(t);
    var leaps: int := LeapSecondsAt(Truncate(u));
    UnixFromUtc(t, millis);
    var exact := UnixMillis(t, millis) + 1000 * (leaps - 18);
    assert (GpsSeconds(t) + (GPS_EPOCH_UNIX - ALERT_LEAP_SECONDS) as real) * 1000.0 == exact as real;
    TruncateInteger(exact);
    EighteenIff(Truncate(u));
    assert u >= 1167264017.0 <==> Truncate(u) >= 1167264017;
  }

  lemma EighteenIff(u: int)
    ensures LeapSecondsAt(u) == 18 <==> u >= 1167264017
  {
    if u >= LEAP_SECONDS[17].0 {
      AllReachedBefore(u, 18);
    } else {
      ReachedGrows(u, u, 17);
    }
  }

  // `as i64` drops the fraction, on either side of zero.
  lemma TruncateDropsFraction(x: real)
    ensures x >= 0.0 ==> 0.0 <= x - Truncate(x) as real < 1.0 && Truncate(x) >= 0
    ensures x <= 0.0 ==> 0.0 <= Truncate(x) as real - x < 1.0 && Truncate(x) <= 0
  {
  }

  /** GPS time of every instant from 2017-01-01T00:00:17 on, in one formula. */
  lemma GpsClosedForm(t: Timestamp)
    requires IsTimestamp(t) && UtcSeconds(t) >= 1167264017.0
    ensures
      GpsSeconds(t) == (86400 * DaysByFormula(t.date) + 3600 * t.hour + 60 * t.minute + 18) as real + t.second
  {
    DayNumberClosedForm(t.date);
    EighteenIff(Truncate(UtcSeconds(t)));
  }

  /** Instants whose GPS time is known: the GPS epoch, and the signals GW150914,
      GW170817 and GW190425. */
  lemma KnownInstants()
    ensures GpsSeconds(Timestamp(Date(1980, 1, 6), 0, 0, 0.0)) == 0.0
    ensures GpsSeconds(Timestamp(Date(2015, 9, 14), 9, 50, 45.4)) == 1126259462.4
    ensures GpsSeconds(Timestamp(Date(2017, 8, 17), 12, 41, 4.4)) == 1187008882.4
    ensures GpsSeconds(Timestamp(Date(2019, 4, 25), 8, 18, 5.0)) == 1240215503.0
  {
    hide DayNumber, LeapSecondsAt;
    NoneAtTheEpoch();
    KnownDays();
    SeventeenIn2015();
    EighteenIff(1187008864);
    EighteenIff(1240215485);
  }

  lemma KnownDays()
    ensures DayNumber(Date(1980, 1, 6)) == 0 && DayNumber(Date(2015, 9, 14)) == 13035
    ensures DayNumber(Date(2017, 8, 17)) == 13738 && DayNumber(Date(2019, 4, 25)) == 14354
  {
    hide DayNumber;
    DayNumberClosedForm(Date(1980, 1, 6));
    DayNumberClosedForm(Date(2015, 9, 14));
    DayNumberClosedForm(Date(2017, 8, 17));
    DayNumberClosedForm(Date(2019, 4, 25));
  }

  lemma NoneAtTheEpoch()
    ensures LeapSecondsAt(0) == 0
  {
    NoneReachedAfter(0, 0, 18);
  }

  lemma SeventeenIn2015()
    ensures LeapSecondsAt(1126259445) == 17
  {
    NoneReachedAfter(1126259445, 17, 18);
    AllReachedBefore(1126259445, 17);
  }

  // The boundary named as a date.
  lemma BoundaryIsSeventeenSecondsIn()
    ensures UtcSeconds(Timestamp(Date(2017, 1, 1), 0, 0, 17.0)) == 1167264017.0
  {
    ThresholdsIncludeEarlierLeaps(17);
  }
}
