/** Calendar arithmetic: `gmtime_r` and `timegm` of src/ansi/time.cpp, with the tables of src/internal/time.hpp. */
module Calendar {
  import opened Options
  import opened Nonlinear
  import opened CArithmetic

  const EPOCH_YEAR := 1970
  const INT_MAX := 0x7FFF_FFFF
  const DAY := 86400
  const LIMIT := 32500915200          // 2999-11-30 00:00:00

  // ---------------------------------------------------------------------------------------------------
  // The proleptic Gregorian calendar

  predicate IsLeap(year: int) {
    Mod(year, 400) == 0 || (Mod(year, 4) == 0 && Mod(year, 100) != 0)
  }

  function DaysPerYear(year: int): int {
    if IsLeap(year) then 366 else 365
  }

  const DAYS_NOLEAP: seq<int> := [31, 28, 31, 30, 31, 30, 31, 31, 30, 31, 30, 31]
  const DAYS_LEAP: seq<int> := [31, 29, 31, 30, 31, 30, 31, 31, 30, 31, 30, 31]

  function DaysPerMonthTable(year: int): (table: seq<int>)
    ensures |table| == 12 && forall m | 0 <= m < 12 :: 28 <= table[m] <= 31
  {
    if IsLeap(year) then DAYS_LEAP else DAYS_NOLEAP
  }

  function DaysInMonth(year: int, month: int): (days: int)
    requires 0 <= month < 12
    ensures 28 <= days <= 31
  {
    DaysPerMonthTable(year)[month]
  }

  /** Days in the months before `month`. */
  function DaysBeforeMonth(year: int, month: int): (days: int)
    requires 0 <= month <= 12
    ensures days >= 0
  {
    if month == 0 then 0 else DaysBeforeMonth(year, month - 1) + DaysInMonth(year, month - 1)
  }

  lemma MonthsFillYear(year: int)
    ensures DaysBeforeMonth(year, 12) == DaysPerYear(year)
  {
    var february := 31 + if IsLeap(year) then 29 else 28;
    assert DaysBeforeMonth(year, 1) == 31 && DaysBeforeMonth(year, 2) == february;
    assert DaysBeforeMonth(year, 4) == february + 61;
    assert DaysBeforeMonth(year, 6) == february + 122;
    assert DaysBeforeMonth(year, 8) == february + 184;
    assert DaysBeforeMonth(year, 10) == february + 245;
  }

  /** The rule of the Gregorian calendar. */
  function LeapDays(year: int): int {
    if year % 400 == 0 || (year % 4 == 0 && year % 100 != 0) then 1 else 0
  }

  /** Where each month starts: after January and February the lengths repeat so that a quotient gives the sum. */
  function MonthStart(year: int, month: int): int {
    if month == 0 then 0 else if month == 1 then 31 else 59 + LeapDays(year) + (153 * (month - 2) + 2) / 5
  }

  lemma {:induction false} MonthsStart(year: int, month: int)
    requires 0 <= month <= 12
    ensures DaysBeforeMonth(year, month) == MonthStart(year, month)
    ensures month < 12 ==> DaysInMonth(year, month) == MonthStart(year, month + 1) - MonthStart(year, month)
  {
    hide IsLeap, LeapDays;
    LeapRule(year);
    LeapDay(year);
    if month > 0 {
      MonthsStart(year, month - 1);
    }
  }

  lemma LeapDay(year: int)
    ensures LeapDays(year) == if IsLeap(year) then 1 else 0
  {
    hide IsLeap;
    LeapRule(year);
  }

  /** Leap years up to and including y, by the closed formula. */
  function LeapsThrough(y: int): int {
    y / 4 - y / 100 + y / 400
  }

  /** Days from 1970-01-01 to the first day of the year, negative before the epoch. */
  function DaysBeforeYear(year: int): int {
    365 * (year - EPOCH_YEAR) + LeapsThrough(year - 1) - LeapsThrough(EPOCH_YEAR - 1)
  }

  lemma YearStep(year: int)
    ensures DaysBeforeYear(year + 1) == DaysBeforeYear(year) + DaysPerYear(year)
  {
    hide IsLeap;
    LeapRule(year);
    EveryFourth(year);
    EveryHundredth(year);
    EveryFourHundredth(year);
  }

  lemma LeapRule(year: int)
    ensures IsLeap(year) <==> year % 400 == 0 || (year % 4 == 0 && year % 100 != 0)
    ensures (year % 400 == 0 ==> year % 100 == 0) && (year % 100 == 0 ==> year % 4 == 0)
  {
    hide Mod;
    FourMultiple(year);
    HundredMultiple(year);
    FourHundredMultiple(year);
  }

  lemma FourMultiple(y: int)
    ensures Mod(y, 4) == 0 <==> y % 4 == 0
  {}

  lemma HundredMultiple(y: int)
    ensures Mod(y, 100) == 0 <==> y % 100 == 0
    ensures y % 100 == 0 ==> y % 4 == 0
  {
    if y % 100 == 0 {
      assert y == 4 * (25 * (y / 100));
    }
  }

  lemma FourHundredMultiple(y: int)
    ensures Mod(y, 400) == 0 <==> y % 400 == 0
    ensures y % 400 == 0 ==> y % 100 == 0
  {
    if y % 400 == 0 {
      assert y == 100 * (4 * (y / 400));
    }
  }

  lemma EveryFourth(y: int)
    ensures y / 4 - (y - 1) / 4 == if y % 4 == 0 then 1 else 0
  {}

  lemma EveryHundredth(y: int)
    ensures y / 100 - (y - 1) / 100 == if y % 100 == 0 then 1 else 0
  {}

  lemma EveryFourHundredth(y: int)
    ensures y / 400 - (y - 1) / 400 == if y % 400 == 0 then 1 else 0
  {}

  lemma {:induction false} YearOrder(a: int, b: int)
    requires a < b
    ensures DaysBeforeYear(a + 1) <= DaysBeforeYear(b)
    decreases b - a
  {
    if a + 1 < b {
      YearOrder(a, b - 1);
      YearStep(b - 1);
    }
  }

  lemma {:induction false} MonthOrder(year: int, a: int, b: int)
    requires 0 <= a < b <= 12
    ensures DaysBeforeMonth(year, a + 1) <= DaysBeforeMonth(year, b)
    decreases b
  {
    if a + 1 < b {
      MonthOrder(year, a, b - 1);
    }
  }

  /** A date; `day` counts from 0 and may lie outside the month. */
  datatype Date = Date(year: int, month: int, day: int) {
    predicate Valid() {
      0 <= month < 12 && 0 <= day < DaysInMonth(year, month)
    }

    /** Days since 1970-01-01. */
    function Number(): int
      requires 0 <= month < 12
    {
      DaysBeforeYear(year) + DaysBeforeMonth(year, month) + day
    }
  }

  /** The day number in closed form: 1970-01-01 is day 0, and 477 leap days came before. */
  function DayNumber(year: int, month: int, day: int): int {
    365 * (year - 1970) + (year - 1) / 4 - (year - 1) / 100 + (year - 1) / 400 - 477 + MonthStart(year, month) + day
  }

  lemma NumberIsDayNumber(d: Date)
    requires 0 <= d.month < 12
    ensures d.Number() == DayNumber(d.year, d.month, d.day)
    ensures d.Valid() <==> 0 <= d.day < MonthStart(d.year, d.month + 1) - MonthStart(d.year, d.month)
  {
    hide MonthStart;
    MonthsStart(d.year, d.month);
  }

  lemma DateInYear(d: Date)
    requires d.Valid()
    ensures DaysBeforeYear(d.year) <= d.Number() < DaysBeforeYear(d.year + 1)
  {
    hide DaysBeforeYear;
    MonthOrder(d.year, d.month, 12);
    MonthsFillYear(d.year);
    YearStep(d.year);
  }

  /** The calendar gives every day one date. */
  lemma DateUnique(a: Date, b: Date)
    requires a.Valid() && b.Valid() && a.Number() == b.Number()
    ensures a == b
  {
    hide DaysBeforeYear;
    DateInYear(a);
    DateInYear(b);
    if a.year < b.year {
      YearOrder(a.year, b.year);
    } else if b.year < a.year {
      YearOrder(b.year, a.year);
    } else if a.month < b.month {
      MonthOrder(a.year, a.month, b.month);
    } else if b.month < a.month {
      MonthOrder(a.year, b.month, a.month);
    }
  }

  // ---------------------------------------------------------------------------------------------------
  // Broken-down time

  datatype Fields = Fields(sec: int, min: int, hour: int, mday: int, mon: int, year: int, wday: int, yday: int) {
    function Calendar(): Date {
      Date(year + 1900, mon, mday - 1)
    }

    /** Every field in the range ISO C gives it, with yday and wday agreeing with the date. */
    predicate Normal() {
      && 0 <= sec < 60 && 0 <= min < 60 && 0 <= hour < 24
      && Calendar().Valid()
      && yday == DaysBeforeMonth(year + 1900, mon) + mday - 1
      && wday == (Calendar().Number() + 4) % 7
    }
  }

  /** `struct tm` */
  class Tm {
    var sec: int
    var min: int
    var hour: int
    var mday: int
    var mon: int
    var year: int
    var wday: int
    var yday: int

    function Contents(): Fields
      reads this
    {
      Fields(sec, min, hour, mday, mon, year, wday, yday)
    }
  }

  lemma WeekBefore(days: int)
    requires days < -4
    ensures Mod(days + 5, 7) + 6 == (days + 4) % 7
  {
    var n := -(days + 5);
    assert days + 4 == 7 * (-(n / 7) - 1) + (6 - n % 7);
  }

  /** The day of the week, written with C's remainder. */
  function DayOfWeek(days: int): (w: int)
    ensures w == (days + 4) % 7
  {
    if days >= -4 then Mod(days + 4, 7) else WeekBefore(days); Mod(days + 5, 7) + 6
  }

  /** What `gmtime_r` stores for an accepted time: the date of the day number, or for a negative day number January
      1970 with that many days before it. */
  ghost predicate GmFields(t: int, f: Fields) {
    var days := Div(t, DAY);
    && f.sec == Mod(t, 60) && f.min == Mod(Div(t, 60), 60) && f.hour == Mod(Div(Div(t, 60), 60), 24)
    && f.wday == (days + 4) % 7
    && 0 <= f.mon < 12
    && f.yday == DaysBeforeMonth(f.year + 1900, f.mon) + f.mday - 1
    && f.Calendar().Number() == days
    && if days >= 0 then f.Calendar().Valid() else f.year + 1900 == EPOCH_YEAR && f.mon == 0
  }

  lemma EpochStart()
    ensures DaysBeforeYear(EPOCH_YEAR) == 0
  {}

  /** `gmtime_r` */
  method Gmtime(time: int, buf: Tm) returns (ok: bool)
    modifies buf
    ensures ok <==> -LIMIT <= time < LIMIT
    ensures ok ==> GmFields(time, buf.Contents())
    ensures !ok ==> buf.Contents() == old(buf.Contents())
  {
    var days := Div(time, DAY);
    if time < -LIMIT || time >= LIMIT {
      return false;
    }
    var wday := DayOfWeek(days);
    var year, left := SplitYear(days);
    var yday := left;
    var month, day := SplitMonth(year, left);
    buf.sec := Mod(time, 60);
    buf.min := Mod(Div(time, 60), 60);
    buf.hour := Mod(Div(Div(time, 60), 60), 24);
    buf.mday := day + 1;
    buf.mon := month;
    buf.year := year - 1900;
    buf.wday := wday;
    buf.yday := yday;
    return true;
  }

  /** The year loop of `gmtime_r`. */
  method SplitYear(days: int) returns (year: int, left: int)
    ensures DaysBeforeYear(year) + left == days && left < DaysPerYear(year)
    ensures days >= 0 ==> left >= 0
    ensures days < 0 ==> year == EPOCH_YEAR
  {
    hide DaysBeforeYear;
    year, left := EPOCH_YEAR, days;
    EpochStart();
    while true
      invariant DaysBeforeYear(year) + left == days
      invariant days >= 0 ==> left >= 0
      invariant days < 0 ==> year == EPOCH_YEAR && left == days
      decreases left
    {
      var n := DaysPerYear(year);
      if left >= n {
        YearStep(year);
        left := left - n;
        year := year + 1;
      } else {
        break;
      }
    }
  }

  /** The month loop of `gmtime_r`. */
  method SplitMonth(year: int, yday: int) returns (month: int, day: int)
    requires yday < DaysPerYear(year)
    ensures 0 <= month < 12 && DaysBeforeMonth(year, month) + day == yday
    ensures if yday >= 0 then 0 <= day < DaysInMonth(year, month) else month == 0
  {
    hide DaysPerMonthTable;
    month, day := 0, yday;
    MonthsFillYear(year);
    while true
      invariant 0 <= month < 12 && DaysBeforeMonth(year, month) + day == yday
      invariant if yday >= 0 then day >= 0 else month == 0 && day == yday
      decreases day
    {
      var n := DaysInMonth(year, month);
      if day >= n {
        day := day - n;
        month := month + 1;
      } else {
        break;
      }
    }
  }

  // ---------------------------------------------------------------------------------------------------
  // timegm

  /** Whole `base`s in a field that has run over; smaller and negative fields stay as they are. */
  function Carries(low: int, base: int): nat
    requires base > 0
  {
    if low < base then 0 else Quotient(low, base)
  }

  function Kept(low: int, base: int): int
    requires base > 0
  {
    if low < base then low else Remainder(low, base)
  }

  lemma CarryStep(low: int, base: int)
    requires 0 < base <= low
    ensures Kept(low, base) == Kept(low - base, base) && Carries(low, base) == 1 + Carries(low - base, base)
  {
    assert Quotient(low, base) == 1 + Quotient(low - base, base) && Remainder(low, base) == Remainder(low - base, base);
  }

  /** One of the carry loops of `timegm`; ok is false when the next field would pass INT_MAX (EOVERFLOW). */
  method Carry(low0: int, base: int, high0: int) returns (ok: bool, low: int, high: int)
    requires base > 0 && high0 <= INT_MAX
    ensures ok <==> high0 + Carries(low0, base) <= INT_MAX
    ensures ok ==> low == Kept(low0, base) && high == high0 + Carries(low0, base)
  {
    low, high := low0, high0;
    while low >= base
      invariant high <= INT_MAX && (low0 >= base ==> low >= 0)
      invariant Kept(low, base) == Kept(low0, base) && high + Carries(low, base) == high0 + Carries(low0, base)
    {
      CarryStep(low, base);
      low := low - base;
      if high == INT_MAX {
        return false, low, high;
      }
      high := high + 1;
    }
    return true, low, high;
  }

  /** The month loop of `timegm`: days that run past the month move the date on. */
  method Settle(d: Date) returns (r: Date)
    requires 0 <= d.month < 12
    ensures 0 <= r.month < 12 && r.day < DaysInMonth(r.year, r.month) && r.Number() == d.Number()
    ensures if d.day < 0 then r == d else r.Valid() && r.year >= d.year
  {
    hide DaysBeforeYear, DaysPerMonthTable;
    var year, mon, day := d.year, d.month, d.day;
    while true
      invariant 0 <= mon < 12 && Date(year, mon, day).Number() == d.Number()
      invariant if d.day < 0 then Date(year, mon, day) == d else day >= 0 && year >= d.year
      decreases day
    {
      if day < DaysInMonth(year, mon) {
        break;
      }
      day := day - DaysInMonth(year, mon);
      mon := mon + 1;
      if mon == 12 {
        MonthsFillYear(year);
        YearStep(year);
        mon := 0;
        year := year + 1;
      }
    }
    return Date(year, mon, day);
  }

  method YearDay(d: Date) returns (yday: int)
    requires 0 <= d.month < 12
    ensures yday == DaysBeforeMonth(d.year, d.month) + d.day
  {
    yday := d.day;
    for month := 0 to d.month
      invariant yday == DaysBeforeMonth(d.year, month) + d.day
    {
      yday := yday + DaysPerMonthTable(d.year)[month];
    }
  }

  /** The year loop of `timegm`: years before the epoch count nothing. */
  function CountedYears(year: int): int {
    if year >= EPOCH_YEAR then DaysBeforeYear(year) else 0
  }

  method SumYears(end: int) returns (days: int)
    ensures days == CountedYears(end)
  {
    hide DaysBeforeYear;
    EpochStart();
    days := 0;
    var year := EPOCH_YEAR;
    while year < end
      invariant year >= EPOCH_YEAR && days == DaysBeforeYear(year)
      invariant end >= EPOCH_YEAR ==> year <= end
      invariant end < EPOCH_YEAR ==> year == EPOCH_YEAR
    {
      YearStep(year);
      days := days + DaysPerYear(year);
      year := year + 1;
    }
  }

  /** The fields after the carry loops, before the day is settled; the year is a full year and the day counts from 0. */
  datatype Carried = Carried(sec: int, min: int, hour: int, date: Date)

  function CarryFields(f: Fields): (c: Carried)
    requires f.mon >= 0
    ensures 0 <= c.date.month < 12
  {
    var min := f.min + Carries(f.sec, 60);
    var hour := f.hour + Carries(min, 60);
    var day := f.mday - 1 + Carries(hour, 24);
    var year := f.year + 1900 + Carries(f.mon, 12);
    Carried(Kept(f.sec, 60), Kept(min, 60), Kept(hour, 24), Date(year, Kept(f.mon, 12), day))
  }

  /** A carry leaves the range of int: the call fails with EOVERFLOW and the struct is untouched. */
  predicate Overflows(f: Fields)
    requires f.mon >= 0
  {
    var min := f.min + Carries(f.sec, 60);
    var hour := f.hour + Carries(min, 60);
    var c := CarryFields(f);
    min > INT_MAX || hour > INT_MAX || c.date.day > INT_MAX || c.date.year > INT_MAX
  }

  /** What `timegm` makes of the fields f when no carry overflows: the struct g and the time t. */
  ghost predicate TimegmResult(f: Fields, g: Fields, t: int)
    requires f.mon >= 0
  {
    var c := CarryFields(f);
    var d := g.Calendar();
    && g.sec == c.sec && g.min == c.min && g.hour == c.hour
    && 0 <= g.mon < 12 && d.day < DaysInMonth(d.year, g.mon) && d.Number() == c.date.Number()
    && (if c.date.day < 0 then d == c.date else d.Valid() && d.year >= c.date.year)
    && g.yday == DaysBeforeMonth(d.year, g.mon) + d.day
    && var days := CountedYears(d.year) + g.yday;
       g.wday == (days + 4) % 7 && t == days * DAY + g.hour * 3600 + g.min * 60 + g.sec
  }

  /** `timegm` */
  method Timegm(arg: Tm) returns (r: Option<int>)
    requires arg.mon >= 0 && arg.year + 1900 <= INT_MAX
    requires arg.min <= INT_MAX && arg.hour <= INT_MAX && arg.mday <= INT_MAX
    modifies arg
    ensures r.None? <==> Overflows(old(arg.Contents()))
    ensures r.None? ==> arg.Contents() == old(arg.Contents())
    ensures r.Some? ==> TimegmResult(old(arg.Contents()), arg.Contents(), r.value)
  {
    hide DaysBeforeYear, Quotient, Remainder, DaysPerMonthTable, DaysBeforeMonth;
    var ok, sec, min, hour, day, mon, year;
    ok, sec, min := Carry(arg.sec, 60, arg.min);
    if !ok { return None; }
    ok, min, hour := Carry(min, 60, arg.hour);
    if !ok { return None; }
    ok, hour, day := Carry(hour, 24, arg.mday - 1);
    if !ok { return None; }
    ok, mon, year := Carry(arg.mon, 12, arg.year + 1900);
    if !ok { return None; }
    var date := Settle(Date(year, mon, day));
    arg.sec, arg.min, arg.hour := sec, min, hour;
    arg.mday, arg.mon, arg.year := date.day + 1, date.month, date.year - 1900;
    var days := YearDay(date);
    arg.yday := days;
    var before := SumYears(date.year);
    days := days + before;
    arg.wday := DayOfWeek(days);
    return Some(days * DAY + arg.hour * 3600 + arg.min * 60 + arg.sec);
  }

  // ---------------------------------------------------------------------------------------------------
  // The two are inverse

  /** Seconds, minutes and hours of a time recombine to it, with C's signs. */
  lemma Recombine(t: int)
    ensures Div(t, DAY) * DAY + Mod(Div(Div(t, 60), 60), 24) * 3600 + Mod(Div(t, 60), 60) * 60 + Mod(t, 60) == t
    ensures -60 < Mod(t, 60) < 60 && -60 < Mod(Div(t, 60), 60) < 60 && -24 < Mod(Div(Div(t, 60), 60), 24) < 24
  {
    var u := if t < 0 then -t else t;
    assert u / 60 / 60 == u / 3600 && u / 3600 / 24 == u / DAY;
  }

  /** timegm(gmtime_r(t)) == t for every time `gmtime_r` accepts, and the fields come back unchanged. */
  lemma RoundTrip(t: int, f: Fields, g: Fields, r: int)
    requires GmFields(t, f) && TimegmResult(f, g, r)
    ensures r == t && g == f
  {
    hide DaysBeforeYear, Quotient, Remainder;
    Recombine(t);
    EpochStart();
    if Div(t, DAY) >= 0 {
      DateUnique(g.Calendar(), f.Calendar());
      AfterEpoch(f.Calendar());
    }
  }

  /** A day number from the epoch on has a year from the epoch on. */
  lemma AfterEpoch(d: Date)
    requires d.Valid() && d.Number() >= 0
    ensures d.year >= EPOCH_YEAR
  {
    hide DaysBeforeYear;
    DateInYear(d);
    EpochStart();
    if d.year < EPOCH_YEAR {
      YearOrder(d.year, EPOCH_YEAR);
    }
  }

  lemma YearAtLeast(year: int)
    requires year >= EPOCH_YEAR
    ensures DaysBeforeYear(year) >= 365 * (year - EPOCH_YEAR)
  {}

  /** The fields `gmtime_r` stores for an accepted time never make `timegm` overflow. */
  lemma RoundTripAccepted(t: int, f: Fields)
    requires -LIMIT <= t < LIMIT && GmFields(t, f)
    ensures f.mon >= 0 && f.year + 1900 <= INT_MAX && f.min <= INT_MAX && f.hour <= INT_MAX && f.mday <= INT_MAX
    ensures !Overflows(f)
  {
    hide DaysBeforeYear, Quotient, Remainder;
    Recombine(t);
    EpochStart();
    if Div(t, DAY) >= 0 {
      DateInYear(f.Calendar());
      AfterEpoch(f.Calendar());
      YearAtLeast(f.year + 1900);
    }
  }

  /** The stored fields are all in range exactly for the times from the epoch on. */
  lemma NormalFromEpoch(t: int, f: Fields)
    requires GmFields(t, f)
    ensures f.Normal() <==> t >= 0
  {
    hide DaysBeforeYear;
    Recombine(t);
    EpochStart();
  }

  /** The date and the day of the year that `gmtime_r` stores, without the tables. */
  lemma GmtimeClosedForm(t: int, f: Fields)
    requires GmFields(t, f)
    ensures Div(t, DAY) == DayNumber(f.year + 1900, f.mon, f.mday - 1)
    ensures f.yday == MonthStart(f.year + 1900, f.mon) + f.mday - 1
    ensures t >= 0 ==> 1 <= f.mday <= MonthStart(f.year + 1900, f.mon + 1) - MonthStart(f.year + 1900, f.mon)
  {
    hide MonthStart, DaysBeforeYear;
    NumberIsDayNumber(f.Calendar());
    MonthsStart(f.year + 1900, f.mon);
    Recombine(t);
  }

  /** The limit of `gmtime_r` as a date. */
  lemma LimitIsDate()
    ensures LIMIT == DayNumber(2999, 10, 29) * 86400
  {}

  /** The seconds since the epoch of section 4.16 of POSIX.1-2017 Base Definitions. */
  function PosixSeconds(f: Fields): int {
    f.sec + f.min * 60 + f.hour * 3600 + f.yday * 86400 + (f.year - 70) * 31536000
      + ((f.year - 69) / 4) * 86400 - ((f.year - 1) / 100) * 86400 + ((f.year + 299) / 400) * 86400
  }

  lemma PosixMeaning(f: Fields)
    ensures PosixSeconds(f) == (DaysBeforeYear(f.year + 1900) + f.yday) * DAY + f.hour * 3600 + f.min * 60 + f.sec
  {
    var y := f.year;
    assert (y + 1899) / 4 == (y - 69) / 4 + 492;
    assert (y + 1899) / 100 == (y - 1) / 100 + 19;
    assert (y + 1899) / 400 == (y + 299) / 400 + 4;
  }

  /** A test on the given fields: after the carries they name a day from the epoch on; a day of the month below 1 is
      never settled, so there the year decides. */
  predicate FromEpoch(f: Fields)
    requires f.mon >= 0
  {
    var d := CarryFields(f).date;
    if d.day < 0 then d.year >= EPOCH_YEAR else d.Number() >= 0
  }

  /** It tells which year `timegm` will write back. */
  lemma WritesFromEpoch(f: Fields, g: Fields, t: int)
    requires f.mon >= 0 && TimegmResult(f, g, t)
    ensures g.year >= 70 <==> FromEpoch(f)
  {
    hide DaysBeforeYear, DaysBeforeMonth, DaysPerMonthTable, CarryFields;
    var d := g.Calendar();
    if CarryFields(f).date.day >= 0 {
      DateInYear(d);
      if d.year >= EPOCH_YEAR {
        YearAtLeast(d.year);
      } else if d.Number() >= 0 {
        AfterEpoch(d);
      }
    }
  }

  /** The time `timegm` returns is the closed form of POSIX on the fields it writes back, exactly for fields from the
      epoch on. */
  lemma PosixClosedForm(f: Fields, g: Fields, t: int)
    requires f.mon >= 0 && TimegmResult(f, g, t)
    ensures t == PosixSeconds(g) <==> FromEpoch(f)
  {
    hide DaysBeforeYear, DaysPerMonthTable, Quotient, Remainder, CarryFields;
    WritesFromEpoch(f, g, t);
    PosixMeaning(g);
    if g.year < 70 {
      YearOrder(g.year + 1900, EPOCH_YEAR);
      YearStep(g.year + 1900);
      EpochStart();
    }
  }

  lemma CarryConserves(low: int, base: int)
    requires base > 0
    ensures low == Carries(low, base) * base + Kept(low, base)
    ensures Kept(low, base) < base && (low >= 0 ==> Kept(low, base) >= 0)
  {
    if low >= base {
      DivisionTheorem(low, base);
    }
  }

  /** Sum of the fields as given, months counted through the calendar. */
  function GivenSeconds(f: Fields): int
    requires f.mon >= 0
  {
    f.sec + f.min * 60 + f.hour * 3600 + Date(f.year + 1900 + f.mon / 12, f.mon % 12, f.mday - 1).Number() * DAY
  }

  /** Normalising conserves the instant the given fields add up to, again exactly for fields from the epoch on. */
  lemma SecondsConserved(f: Fields, g: Fields, t: int)
    requires f.mon >= 0 && TimegmResult(f, g, t)
    ensures t == GivenSeconds(f) <==> FromEpoch(f)
  {
    hide DaysBeforeYear, DaysBeforeMonth, DaysPerMonthTable, Quotient, Remainder, Carries, Kept;
    PosixClosedForm(f, g, t);
    PosixMeaning(g);
    CarryConserves(f.sec, 60);
    var min := f.min + Carries(f.sec, 60);
    CarryConserves(min, 60);
    var hour := f.hour + Carries(min, 60);
    CarryConserves(hour, 24);
    CarryConserves(f.mon, 12);
  }

  /** What that instant is for a date of any year and month, without the tables: months over 12 move the year on. */
  lemma GivenClosedForm(f: Fields)
    requires f.mon >= 0
    ensures GivenSeconds(f) == f.sec + f.min * 60 + f.hour * 3600
                               + DayNumber(f.year + 1900 + f.mon / 12, f.mon % 12, f.mday - 1) * 86400
  {
    hide MonthStart;
    NumberIsDayNumber(Date(f.year + 1900 + f.mon / 12, f.mon % 12, f.mday - 1));
  }

  /** Where it fails: the first of January 1969 is taken for the epoch. */
  lemma BeforeEpoch(g: Fields, t: int)
    requires TimegmResult(Fields(0, 0, 0, 1, 0, 69, 0, 0), g, t)
    ensures t == 0 && PosixSeconds(g) == GivenSeconds(Fields(0, 0, 0, 1, 0, 69, 0, 0)) == -365 * DAY
  {
    hide TimegmResult, DaysBeforeYear;
    NewYear(69, g, t);
    YearsFromEpoch();
    PosixMeaning(g);
  }

  lemma YearsFromEpoch()
    ensures DaysBeforeYear(1969) == -365 && DaysBeforeYear(3000) == 376200
  {}

  /** Midnight of the first of January is left as it is. */
  lemma NewYear(year: int, g: Fields, t: int)
    requires TimegmResult(Fields(0, 0, 0, 1, 0, year, 0, 0), g, t)
    ensures g.Calendar() == Date(year + 1900, 0, 0) && g.yday == 0 && g.hour == 0 && g.min == 0 && g.sec == 0
    ensures t == CountedYears(year + 1900) * DAY
  {
    hide Quotient, Remainder, DaysBeforeYear, DaysPerMonthTable;
    DateUnique(g.Calendar(), Date(year + 1900, 0, 0));
  }

  predicate NonNegative(f: Fields) {
    f.sec >= 0 && f.min >= 0 && f.hour >= 0 && f.mday >= 0 && f.mon >= 0 && f.year >= 70
  }

  /** A caller's test: the day of the month is at least 1, the time of day runs over into it, or the fields spell
      midnight of day 0 of January 1970. */
  predicate Normalises(f: Fields) {
    || f.mday >= 1
    || f.hour * 3600 + f.min * 60 + f.sec >= DAY
    || (f.year == 70 && f.mon == 0 && f.hour == 0 && f.min == 0 && f.sec == 0)
  }

  lemma CarriedTime(f: Fields)
    requires NonNegative(f)
    ensures var c := CarryFields(f);
            && 0 <= c.sec < 60 && 0 <= c.min < 60 && 0 <= c.hour < 24
            && f.hour * 3600 + f.min * 60 + f.sec
               == (c.date.day - f.mday + 1) * DAY + c.hour * 3600 + c.min * 60 + c.sec
            && c.date.day >= f.mday - 1 && c.date.year >= f.year + 1900
            && (c.date.year == f.year + 1900 <==> f.mon < 12) && (f.mon < 12 ==> c.date.month == f.mon)
  {
    hide Quotient, Remainder, Carries, Kept;
    CarryConserves(f.sec, 60);
    var min := f.min + Carries(f.sec, 60);
    CarryConserves(min, 60);
    var hour := f.hour + Carries(min, 60);
    CarryConserves(hour, 24);
    CarryConserves(f.mon, 12);
  }

  lemma SplitTime(days: int, hour: int, min: int, sec: int, t: int)
    requires days >= 0 && 0 <= hour < 24 && 0 <= min < 60 && 0 <= sec < 60
    requires t == days * DAY + hour * 3600 + min * 60 + sec
    ensures t >= 0 && Div(t, DAY) == days
    ensures Mod(t, 60) == sec && Mod(Div(t, 60), 60) == min && Mod(Div(Div(t, 60), 60), 24) == hour
  {
    assert t / 60 == days * 1440 + hour * 60 + min;
    assert t / 60 / 60 == days * 24 + hour;
  }

  /** For non-negative fields from 1970 on, `gmtime_r` accepts the result of `timegm` and gives back the fields written
      exactly when Normalises holds and the instant lies below the limit: a day of the month 0 is otherwise left as it
      is, and later results are refused. */
  lemma NormalisedIff(f: Fields, g: Fields, t: int)
    requires NonNegative(f) && TimegmResult(f, g, t)
    ensures -LIMIT <= t < LIMIT && GmFields(t, g) <==> Normalises(f) && GivenSeconds(f) < LIMIT
  {
    hide GmFields, Normalises, GivenSeconds, CarryFields;
    FieldsNormalisedIff(f, g, t);
    NonNegativeFromEpoch(f);
    SecondsConserved(f, g, t);
    ResultFromDayZero(f, g, t);
  }

  lemma NonNegativeFromEpoch(f: Fields)
    requires NonNegative(f)
    ensures FromEpoch(f)
  {
    hide DaysBeforeYear, DaysPerMonthTable, Quotient, Remainder, CarryFields;
    CarriedTime(f);
    YearAtLeast(CarryFields(f).date.year);
  }

  lemma ResultFromDayZero(f: Fields, g: Fields, t: int)
    requires NonNegative(f) && TimegmResult(f, g, t)
    ensures t >= -DAY
  {
    hide DaysBeforeYear, DaysPerMonthTable, Quotient, Remainder, CarryFields;
    CarriedTime(f);
    YearAtLeast(g.year + 1900);
  }

  lemma FieldsNormalisedIff(f: Fields, g: Fields, t: int)
    requires NonNegative(f) && TimegmResult(f, g, t)
    ensures GmFields(t, g) <==> Normalises(f)
  {
    hide DaysBeforeYear, DaysBeforeMonth, DaysPerMonthTable, Quotient, Remainder, Carries, Kept, Div, Mod, CarryFields;
    CarriedTime(f);
    EpochStart();
    YearAtLeast(g.year + 1900);
    if CarryFields(f).date.day >= 0 {
      SplitTime(g.Calendar().Number(), g.hour, g.min, g.sec, t);
    } else {
      DayZero(f, g, t);
    }
  }

  lemma WholeDaysBefore(t: int)
    ensures Div(t, DAY) < 0 <==> t <= -DAY
    ensures t == -DAY ==> Div(t, DAY) == -1
    ensures t == -DAY ==> Mod(t, 60) == 0 && Mod(Div(t, 60), 60) == 0 && Mod(Div(Div(t, 60), 60), 24) == 0
  {}

  lemma DayZero(f: Fields, g: Fields, t: int)
    requires NonNegative(f) && TimegmResult(f, g, t) && CarryFields(f).date.day < 0
    ensures GmFields(t, g) <==> Normalises(f)
  {
    hide DaysBeforeYear, DaysPerMonthTable, Quotient, Remainder, Carries, Kept, CarryFields, Div, Mod;
    CarriedTime(f);
    EpochStart();
    YearAtLeast(g.year + 1900);
    if g.mon > 0 {
      MonthOrder(g.year + 1900, 0, g.mon);
    }
    var days := DaysBeforeYear(g.year + 1900) + g.yday;
    assert days >= -1 && (days == -1 <==> g.year == 70 && g.mon == 0);
    WholeDaysBefore(t);
    assert t <= -DAY <==> days == -1 && g.hour == 0 && g.min == 0 && g.sec == 0;
  }

  /** The day that is not normalised: 1970-02-00 00:00:00 is the last day of January, but mday stays 0. */
  lemma DayZeroStays(g: Fields, t: int)
    requires TimegmResult(Fields(0, 0, 0, 0, 1, 70, 0, 0), g, t)
    ensures t == 30 * DAY && g.mday == 0 && g.mon == 1 && !GmFields(t, g)
  {
    hide Quotient, Remainder;
    assert DaysBeforeMonth(1970, 0) == 0 && DaysBeforeMonth(1970, 1) == 31;
    FieldsNormalisedIff(Fields(0, 0, 0, 0, 1, 70, 0, 0), g, t);
  }

  /** The result that is refused: the first of January 3000 is an ordinary date, but past the limit. */
  lemma YearThreeThousand(g: Fields, t: int)
    requires TimegmResult(Fields(0, 0, 0, 1, 0, 1100, 0, 0), g, t)
    ensures t == 32503680000 && t >= LIMIT && GmFields(t, g)
  {
    hide TimegmResult, DaysBeforeYear, GmFields;
    NewYear(1100, g, t);
    YearsFromEpoch();
    FieldsNormalisedIff(Fields(0, 0, 0, 1, 0, 1100, 0, 0), g, t);
  }

  /** EOVERFLOW begins where a minute count leaves the range of a 32-bit int. */
  lemma OverflowEdge()
    ensures Overflows(Fields(60, 2147483647, 0, 1, 0, 70, 0, 0))
    ensures !Overflows(Fields(59, 2147483647, 0, 1, 0, 70, 0, 0))
  {
    hide Quotient, Remainder;
    QuotientIsDivision(60, 60);
    QuotientIsDivision(2147483647, 60);
    QuotientIsDivision(2147483647 / 60, 24);
  }
}
