/**
  Seconds since 2000 in a clock chip that keeps calendar digits (software/bios/time.c:12-94): seven stored bytes,
  a setter and a getter.  The calendar has a leap year every four years.
 */
module RealTimeClock {
  import opened MachineTypes
  import opened Arithmetic

  /** struct RealTimeClockBCD, as stored. */
  datatype Bcd = Bcd(second: byte, minute: byte, hour: byte, day: byte, wday: byte, month: byte, year: byte)

  const DAY := 86400
  /** Four years. */
  const CYCLE := 1461

  function FromBcd(v: byte): int { v / 16 * 10 + v % 16 }

  function ToBcd(v: nat): byte { (v / 10 * 16 + v % 10) % 256 }

  lemma BcdRoundTrip(v: nat)
    requires v < 160
    ensures FromBcd(ToBcd(v)) == v
  {
    var tens, ones := v / 10, v % 10;
    assert v == tens * 10 + ones && tens < 16;
    assert ToBcd(v) == tens * 16 + ones;
    DivUnique(tens * 16 + ones, 16, tens, ones);
  }

  // ---------------------------------------------------------------- the calendar

  predicate Leap(year: int) { year % 4 == 0 }

  /** days_in_month, for months 0 to 11 of a common year. */
  function CommonDays(month: nat): (r: nat)
    requires month < 12
    ensures 28 <= r <= 31
  {
    [31, 28, 31, 30, 31, 30, 31, 31, 30, 31, 30, 31][month]
  }

  function DaysIn(year: nat, month: nat): nat
    requires month < 12
  {
    if Leap(year) && month == 1 then 29 else CommonDays(month)
  }

  function YearStart(year: nat): nat {
    if year == 0 then 0 else YearStart(year - 1) + if Leap(year - 1) then 366 else 365
  }

  function MonthStart(year: nat, month: nat): nat
    requires month <= 12
  {
    if month == 0 then 0 else MonthStart(year, month - 1) + DaysIn(year, month - 1)
  }

  function CommonStart(month: nat): nat
    requires month <= 12
  {
    if month == 0 then 0 else CommonStart(month - 1) + CommonDays(month - 1)
  }

  /** Month 0 to 11, day 0 to 30. */
  datatype Moment = Moment(year: nat, month: nat, day: nat, hour: nat, minute: nat, second: nat)

  predicate ValidMoment(m: Moment) {
    m.month < 12 && m.day < DaysIn(m.year, m.month) && m.hour < 24 && m.minute < 60 && m.second < 60
  }

  /** The seconds before a moment, counted year by year and month by month. */
  function SecondsOf(m: Moment): nat
    requires m.month < 12
  {
    (YearStart(m.year) + MonthStart(m.year, m.month) + m.day) * DAY + m.hour * 3600 + m.minute * 60 + m.second
  }

  lemma {:induction false} YearStartFormula(year: nat)
    ensures YearStart(year) == year * 365 + (year + 3) / 4
    decreases year
  {
    if year > 0 {
      YearStartFormula(year - 1);
    }
  }

  lemma {:induction false} MonthStartFormula(year: nat, month: nat)
    requires month <= 12
    ensures MonthStart(year, month) == CommonStart(month) + if Leap(year) && month > 1 then 1 else 0
    decreases month
  {
    if month > 0 {
      MonthStartFormula(year, month - 1);
    }
  }

  lemma CommonStarts()
    ensures CommonStart(0) == 0 && CommonStart(1) == 31 && CommonStart(2) == 59 && CommonStart(3) == 90
    ensures CommonStart(4) == 120 && CommonStart(5) == 151 && CommonStart(6) == 181 && CommonStart(7) == 212
    ensures CommonStart(8) == 243 && CommonStart(9) == 273 && CommonStart(10) == 304 && CommonStart(11) == 334
    ensures CommonStart(12) == 365
  {
    assert CommonStart(3) == 90;
    assert CommonStart(4) == 120;
    assert CommonStart(5) == 151;
    assert CommonStart(6) == 181;
    assert CommonStart(7) == 212;
    assert CommonStart(8) == 243;
    assert CommonStart(9) == 273;
    assert CommonStart(10) == 304;
    assert CommonStart(11) == 334;
  }

  lemma {:induction false} CommonStartMonotone(m: nat, n: nat)
    requires m <= n <= 12
    ensures CommonStart(m) <= CommonStart(n)
    decreases n
  {
    hide CommonDays;
    if m < n {
      CommonStartMonotone(m, n - 1);
    }
  }

  lemma CommonStartStep(month: nat)
    requires month < 12
    ensures CommonStart(month + 1) == CommonStart(month) + CommonDays(month)
  {
    hide CommonDays;
  }

  // ---------------------------------------------------------------- the getter

  function MomentOf(b: Bcd): Moment
    requires FromBcd(b.month) >= 1 && FromBcd(b.day) >= 1
  {
    Moment(FromBcd(b.year), FromBcd(b.month) - 1, FromBcd(b.day) - 1, FromBcd(b.hour), FromBcd(b.minute), FromBcd(b.second % 128))
  }

  predicate Readable(b: Bcd) {
    1 <= FromBcd(b.month) <= 12 && 1 <= FromBcd(b.day)
  }

  /** get_seconds_since_2000 */
  method GetSeconds(b: Bcd) returns (seconds: uint32)
    requires Readable(b)
    ensures seconds == U32(SecondsOf(MomentOf(b)))
  {
    hide U32, FromBcd, CommonDays, YearStart, MonthStart, CommonStart;
    var year := FromBcd(b.year);
    var month := FromBcd(b.month) - 1;
    ghost var m := MomentOf(b);
    var days := year * 365 + (year + 3) / 4 + FromBcd(b.day) - 1;
    YearStartFormula(m.year);
    MonthStartFormula(m.year, m.month);
    ghost var start := days;
    assert CommonStart(0) == 0 by { CommonStarts(); }
    var i := 0;
    while i < month
      invariant 0 <= i <= month && days == start + CommonStart(i)
    {
      CommonStartStep(i);
      days := days + CommonDays(i);
      i := i + 1;
    }
    if year % 4 == 0 && month > 1 { days := days + 1; }
    assert days == YearStart(m.year) + MonthStart(m.year, m.month) + m.day;
    seconds := U32(days * (24 * 3600) + FromBcd(b.hour) * 3600 + FromBcd(b.minute) * 60 + FromBcd(b.second % 128));
  }

  // ---------------------------------------------------------------- the setter

  /** The day is a 29 February: day 59 of a cycle of four years. */
  predicate LeapDay(seconds: uint32) { seconds / DAY % CYCLE == 59 }

  function YearOf(day: nat): nat {
    day / CYCLE * 4 + if day % CYCLE >= 366 then (day % CYCLE - 366) / 365 + 1 else 0
  }

  function DayOfYear(day: nat): nat {
    if day % CYCLE >= 366 then (day % CYCLE - 366) % 365 else day % CYCLE
  }

  lemma YearOfDay(day: nat)
    ensures YearStart(YearOf(day)) + DayOfYear(day) == day
    ensures DayOfYear(day) < if Leap(YearOf(day)) then 366 else 365
    ensures (Leap(YearOf(day)) && DayOfYear(day) == 59) <==> day % CYCLE == 59
  {
    var q, r := day / CYCLE, day % CYCLE;
    YearStartFormula(YearOf(day));
    if r >= 366 {
      var k := (r - 366) / 365;
      assert 0 <= k <= 2;
      assert YearOf(day) == 4 * q + k + 1;
    }
  }

  /** What the setter stores, as a moment; on a leap day month 1, day 29, which no calendar has. */
  ghost predicate Stored(seconds: uint32, b: Bcd) {
    var day := seconds / DAY;
    && Readable(b)
    && var m := MomentOf(b);
       && m.year == YearOf(day) && m.hour == seconds / 3600 % 24 && m.minute == seconds / 60 % 60 && m.second == seconds % 60
       && b.wday == (day + 6) % 7
       && (if LeapDay(seconds) then m.month == 1 && m.day == 29
           else m.day < DaysIn(m.year, m.month) && MonthStart(m.year, m.month) + m.day == DayOfYear(day))
  }

  /** The months are taken off one by one until the day lies in the one that is left. */
  method FindMonth(dayOfYear: nat) returns (month: nat, day: nat)
    requires dayOfYear < 365
    ensures month < 12 && day < CommonDays(month) && CommonStart(month) + day == dayOfYear
  {
    hide CommonDays;
    CommonStarts();
    month, day := 0, dayOfYear;
    while day >= CommonDays(month)
      invariant month < 12 && CommonStart(month) + day == dayOfYear
      decreases 12 - month
    {
      day := day - CommonDays(month);
      month := month + 1;
    }
  }

  method SetSeconds(seconds: uint32) returns (b: Bcd)
    ensures Stored(seconds, b)
  {
    hide FromBcd, ToBcd, YearStart, MonthStart, CommonDays, CommonStart;
    var day := seconds / DAY;
    ghost var d := day;
    var wday := (day + 6) % 7;
    var year := day / CYCLE * 4;
    day := day % CYCLE;
    if day >= 366 {
      year := year + (day - 366) / 365 + 1;
      day := (day - 366) % 365;
    }
    assert year == YearOf(d) && day == DayOfYear(d);
    YearOfDay(d);
    var month := 0;
    if year % 4 == 0 && day == 59 {
      month := 1;
      day := 29;
    } else {
      ghost var dayOfYear := day;
      if year % 4 == 0 && day > 59 { day := day - 1; }
      month, day := FindMonth(day);
      FoundMonth(year, dayOfYear, month, day);
    }
    Digits(seconds, year);
    BcdRoundTrip(seconds % 60);
    BcdRoundTrip(seconds / 60 % 60);
    BcdRoundTrip(seconds / 3600 % 24);
    BcdRoundTrip(day + 1);
    BcdRoundTrip(month + 1);
    BcdRoundTrip(year);
    b := Bcd(ToBcd(seconds % 60), ToBcd(seconds / 60 % 60), ToBcd(seconds / 3600 % 24),
             ToBcd(day + 1), wday, ToBcd(month + 1), ToBcd(year));
  }

  lemma Digits(seconds: uint32, year: nat)
    requires year == YearOf(seconds / DAY)
    ensures year <= 136 && ToBcd(seconds % 60) < 128
  {
  }

  /** A month found in the table of a common year is right for a leap year once 29 February is taken out. */
  lemma FoundMonth(year: nat, dayOfYear: nat, month: nat, day: nat)
    requires month < 12 && day < CommonDays(month) && (Leap(year) ==> dayOfYear != 59)
    requires CommonStart(month) + day == if Leap(year) && dayOfYear > 59 then dayOfYear - 1 else dayOfYear
    ensures day < DaysIn(year, month) && MonthStart(year, month) + day == dayOfYear && day < 31
  {
    MonthStartFormula(year, month);
    CommonStarts();
    if month >= 2 { CommonStartMonotone(2, month); } else { CommonStartMonotone(month + 1, 2); }
  }

  // ---------------------------------------------------------------- reading back

  lemma TimeOfDay(s: nat)
    ensures s / DAY * DAY + s / 3600 % 24 * 3600 + s / 60 % 60 * 60 + s % 60 == s
  {
    var minutes, second := s / 60, s % 60;
    var hours, minute := minutes / 60, minutes % 60;
    var days, hour := hours / 24, hours % 24;
    assert s == minutes * 60 + second && minutes == hours * 60 + minute && hours == days * 24 + hour;
    DivUnique(s, 3600, hours, minute * 60 + second);
    DivUnique(s, DAY, days, hour * 3600 + minute * 60 + second);
  }

  /** Reading back what was written gives the same seconds exactly when the day is not a 29 February; then it is one day late. */
  lemma ReadBack(s: uint32, b: Bcd)
    requires Stored(s, b)
    ensures U32(SecondsOf(MomentOf(b))) == s <==> !LeapDay(s)
    ensures LeapDay(s) ==> U32(SecondsOf(MomentOf(b))) == s + DAY
    ensures !LeapDay(s) <==> ValidMoment(MomentOf(b))
  {
    hide FromBcd, YearStart, CommonDays, U32;
    var m := MomentOf(b);
    var day := s / DAY;
    YearOfDay(day);
    TimeOfDay(s);
    if LeapDay(s) {
      MonthStartFormula(m.year, 1);
      CommonStarts();
      LastLeapDay(s);
      assert SecondsOf(m) == s + DAY;
    } else {
      assert SecondsOf(m) == s;
    }
  }

  lemma LastLeapDay(s: uint32)
    requires LeapDay(s)
    ensures s + DAY < 0x1_0000_0000
  {
  }

  /** Setting and getting, as the program calls them. */
  method SetThenGet(s: uint32) returns (t: uint32)
    ensures t == if LeapDay(s) then s + DAY else s
  {
    var b := SetSeconds(s);
    t := GetSeconds(b);
    ReadBack(s, b);
  }

  predicate Earlier(m: Moment, n: Moment) {
    m.year < n.year || (m.year == n.year && (m.month < n.month || (m.month == n.month && (m.day < n.day || (m.day == n.day
      && (m.hour < n.hour || (m.hour == n.hour && (m.minute < n.minute || (m.minute == n.minute && m.second < n.second)))))))))
  }

  lemma {:induction false} YearStartOrder(y: nat, z: nat)
    requires y < z
    ensures YearStart(y) + (if Leap(y) then 366 else 365) <= YearStart(z)
    decreases z
  {
    if y < z - 1 {
      YearStartOrder(y, z - 1);
    }
  }

  lemma {:induction false} MonthStartOrder(year: nat, m: nat, n: nat)
    requires m < n <= 12
    ensures MonthStart(year, m) + DaysIn(year, m) <= MonthStart(year, n)
    decreases n
  {
    hide CommonDays;
    if m < n - 1 {
      MonthStartOrder(year, m, n - 1);
    }
  }

  lemma DaysBefore(m: Moment)
    requires ValidMoment(m)
    ensures MonthStart(m.year, m.month) + m.day < if Leap(m.year) then 366 else 365
  {
    MonthStartOrder(m.year, m.month, 12);
    MonthStartFormula(m.year, 12);
    CommonStarts();
  }

  /** Later valid dates have more seconds, before they are reduced to 32 bits. */
  lemma SecondsIncrease(m: Moment, n: Moment)
    requires ValidMoment(m) && ValidMoment(n) && Earlier(m, n)
    ensures SecondsOf(m) < SecondsOf(n)
  {
    hide YearStart, MonthStart, DaysIn;
    DaysBefore(m);
    if m.year < n.year {
      YearStartOrder(m.year, n.year);
    } else if m.month < n.month {
      MonthStartOrder(m.year, m.month, n.month);
      assert m.day < DaysIn(m.year, m.month);
    }
  }

  /** The last year whose seconds all fit 32 bits; two decimal digits hold no later one than 99. */
  const LAST_YEAR := 135

  lemma SecondsFit(m: Moment)
    requires ValidMoment(m) && m.year <= LAST_YEAR
    ensures U32(SecondsOf(m)) == SecondsOf(m)
  {
    hide YearStart, MonthStart, DaysIn;
    DaysBefore(m);
    YearStartFormula(m.year);
  }

  /** What the getter returns is strictly increasing on valid dates. */
  lemma GetterIncreases(b: Bcd, c: Bcd)
    requires Readable(b) && Readable(c) && ValidMoment(MomentOf(b)) && ValidMoment(MomentOf(c))
    requires Earlier(MomentOf(b), MomentOf(c)) && MomentOf(c).year <= LAST_YEAR
    ensures U32(SecondsOf(MomentOf(b))) < U32(SecondsOf(MomentOf(c)))
  {
    hide SecondsOf, FromBcd, ValidMoment, U32;
    SecondsIncrease(MomentOf(b), MomentOf(c));
    SecondsFit(MomentOf(c));
    SecondsFit(MomentOf(b));
  }
}
