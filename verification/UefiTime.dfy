/**
 * Conversion of a UEFI time record to seconds (from_uefi), against a calendar that is
 * counted one day at a time.
 *
 * The machine integers are newtypes, so verifying FromUefi also shows that no u32, u64
 * or i64 step of it leaves its range.
 */
module UefiTime {
  import opened Wrappers

  newtype u8 = x: int | 0 <= x < 0x100
  newtype u16 = x: int | 0 <= x < 0x1_0000
  newtype i16 = x: int | -0x8000 <= x < 0x8000
  newtype u32 = x: int | 0 <= x < 0x1_0000_0000
  newtype u64 = x: int | 0 <= x < 0x1_0000_0000_0000_0000
  newtype i64 = x: int | -0x8000_0000_0000_0000 <= x < 0x8000_0000_0000_0000

  const SECS_IN_MINUTE: u64 := 60
  const SECS_IN_HOUR: u64 := SECS_IN_MINUTE * 60
  const SECS_IN_DAY: u64 := SECS_IN_HOUR * 24
  const SYSTEMTIME_TIMEZONE: i64 := -1440 * SECS_IN_MINUTE as i64
  const UNSPECIFIED_TIMEZONE: i16 := 0x07FF
  const YEAR_BASE: u32 := 4800

  datatype Time = Time(year: u16, month: u8, day: u8, hour: u8, minute: u8, second: u8, nanosecond: u32, timezone: i16)

  /** `Panic` is the failing unwrap of the checked addition. */
  datatype Outcome = Rejected | Panic | Seconds(value: u64)

  // ------------------------------------------------------- the implementation

  function OverflowingSub(a: u32, b: u32): (u32, bool) {
    if a >= b then (a - b, false) else (((a as int - b as int) + 0x1_0000_0000) as u32, true)
  }

  function WrappingAdd(a: u32, b: u32): u32 {
    ((a as int + b as int) % 0x1_0000_0000) as u32
  }

  function CheckedAddSigned(a: u64, b: i64): Option<u64> {
    var sum := a as int + b as int;
    if 0 <= sum < 0x1_0000_0000_0000_0000 then Some(sum as u64) else None
  }

  predicate InRange(t: Time) {
    && t.month <= 12 && t.month != 0 && t.year >= 1900 && t.year <= 9999
    && t.day <= 31 && t.day != 0 && t.second < 60 && t.minute <= 60
    && t.hour < 24 && t.nanosecond < 1_000_000_000
    && ((t.timezone <= 1440 && t.timezone >= -1440) || t.timezone == UNSPECIFIED_TIMEZONE)
  }

  /** Month number counted from March, wrapped modulo 2^32 and unwrapped again. */
  function MonthFromMarch(month: u8): (r: (u32, u32))
    requires 1 <= month <= 12
    ensures r.0 as int == (month as int + 9) % 12
    ensures r.1 == if month <= 2 then 1 else 0
  {
    var (mAdj, overflow) := OverflowingSub(month as u32, 3);
    var carry: u32 := if overflow then 1 else 0;
    var adjust: u32 := if overflow then 12 else 0;
    (WrappingAdd(mAdj, adjust), carry)
  }

  function DaysOf(year: u16, month: u8, day: u8): u32
    requires 1900 <= year <= 9999 && 1 <= month <= 12 && 1 <= day <= 31
  {
    var (march, carry) := MonthFromMarch(month);
    var yAdj: u32 := year as u32 + YEAR_BASE - carry;
    var monthDays: u32 := (march * 62719 + 769) / 2048;
    var leapDays: u32 := yAdj / 4 - yAdj / 100 + yAdj / 400;
    yAdj * 365 + leapDays + monthDays + (day as u32 - 1) - 2447065
  }

  /** Whatever the fields, this stays within a u64. */
  function LocaltimeEpoch(days: u32, hour: u8, minute: u8, second: u8): u64 {
    days as u64 * SECS_IN_DAY + second as u64 + minute as u64 * SECS_IN_MINUTE + hour as u64 * SECS_IN_HOUR
  }

  function NormalizedTimezone(timezone: i16): i64 {
    timezone as i64 * SECS_IN_MINUTE as i64 - SYSTEMTIME_TIMEZONE
  }

  function FromUefi(t: Time): Outcome {
    if !InRange(t) then Rejected
    else
      var days := DaysOf(t.year, t.month, t.day);
      var localtimeEpoch := LocaltimeEpoch(days, t.hour, t.minute, t.second);
      match CheckedAddSigned(localtimeEpoch, NormalizedTimezone(t.timezone))
      case Some(v) => Seconds(v)
      case None => Panic
  }

  // ------------------------------------------------------------ the calendar

  datatype Date = Date(y: int, m: int, d: int)

  predicate IsLeap(y: int) {
    y % 4 == 0 && (y % 100 != 0 || y % 400 == 0)
  }

  function DaysIn(y: int, m: int): int {
    if m == 2 then (if IsLeap(y) then 29 else 28)
    else if m == 4 || m == 6 || m == 9 || m == 11 then 30
    else 31
  }

  predicate ValidDate(date: Date) {
    1 <= date.m <= 12 && 1 <= date.d <= DaysIn(date.y, date.m)
  }

  function NextDay(date: Date): Date {
    if date.d < DaysIn(date.y, date.m) then date.(d := date.d + 1)
    else if date.m < 12 then Date(date.y, date.m + 1, 1)
    else Date(date.y + 1, 1, 1)
  }

  /** The date n days after 1 January 1900, found by stepping. */
  function AfterDays(n: nat): Date {
    if n == 0 then Date(1900, 1, 1) else NextDay(AfterDays(n - 1))
  }

  ghost predicate DateBefore(a: Date, b: Date) {
    a.y < b.y || (a.y == b.y && (a.m < b.m || (a.m == b.m && a.d < b.d)))
  }

  // ------------------------------------------- the closed formula counts days

  /** The formula of DaysOf on unbounded integers, for any year. */
  function Formula(date: Date): int {
    var yAdj := date.y + 4800 - (if date.m <= 2 then 1 else 0);
    yAdj * 365 + LeapDays(yAdj) + MonthDays((date.m + 9) % 12) + (date.d - 1) - 2447065
  }

  function LeapDays(y: int): int {
    y / 4 - y / 100 + y / 400
  }

  function MonthDays(march: int): int {
    (march * 62719 + 769) / 2048
  }

  lemma DaysOfIsFormula(year: u16, month: u8, day: u8)
    requires 1900 <= year <= 9999 && 1 <= month <= 12 && 1 <= day <= 31
    ensures DaysOf(year, month, day) as int == Formula(Date(year as int, month as int, day as int))
  {
  }

  /** A year contributes a leap day exactly when it is a leap year. */
  lemma LeapStep(y: int)
    ensures LeapDays(y) - LeapDays(y - 1) == if IsLeap(y) then 1 else 0
  {
    DivStep(y, 4);
    DivStep(y, 100);
    DivStep(y, 400);
  }

  lemma DivStep(y: int, k: int)
    requires k == 4 || k == 100 || k == 400
    ensures y / k - (y - 1) / k == if y % k == 0 then 1 else 0
  {
  }

  lemma LeapShift(y: int)
    ensures IsLeap(y + 4800) == IsLeap(y)
  {
    ModShift(y, 4);
    ModShift(y, 100);
    ModShift(y, 400);
  }

  lemma ModShift(y: int, k: int)
    requires k == 4 || k == 100 || k == 400
    ensures (y + 4800) % k == y % k
  {
  }

  /** The magic constants give the lengths of the months, March first. */
  lemma MonthStep(y: int, m: int)
    requires 1 <= m <= 12 && m != 2
    ensures MonthDays((m + 10) % 12) - MonthDays((m + 9) % 12) == DaysIn(y, m)
    ensures DaysIn(y, m) == [31, 28, 31, 30, 31, 30, 31, 31, 30, 31, 30, 31][m - 1]
  {
  }

  /** Every 400th year is leap, and every fourth one that is not a hundredth. */
  lemma February(y: int)
    ensures DaysIn(y, 2) == if y % 400 == 0 || (y % 4 == 0 && y % 100 != 0) then 29 else 28
  {
    if y % 400 == 0 { Divides(y); }
  }

  lemma Divides(y: int)
    requires y % 400 == 0
    ensures y % 4 == 0
  {
  }

  lemma FebruaryStep(y: int)
    ensures Formula(Date(y, 3, 1)) == Formula(Date(y, 2, DaysIn(y, 2))) + 1
  {
    LeapStep(y + 4800);
    LeapShift(y);
    assert MonthDays((2 + 9) % 12) == 337 && MonthDays((3 + 9) % 12) == 0;
  }

  lemma FormulaSteps(date: Date)
    requires ValidDate(date)
    ensures ValidDate(NextDay(date)) && Formula(NextDay(date)) == Formula(date) + 1
  {
    hide Formula, IsLeap;
    if date.d < DaysIn(date.y, date.m) {
      FormulaInMonth(date.y, date.m, date.d, date.d + 1);
    } else if date.m == 2 {
      FebruaryStep(date.y);
    } else {
      MonthEnd(date.y, date.m);
    }
  }

  lemma MonthEnd(y: int, m: int)
    requires 1 <= m <= 12 && m != 2
    ensures Formula(if m < 12 then Date(y, m + 1, 1) else Date(y + 1, 1, 1)) == Formula(Date(y, m, DaysIn(y, m))) + 1
  {
    hide LeapDays, MonthDays, DaysIn;
    MonthStep(y, m);
    assert m < 12 ==> (m + 1 + 9) % 12 == (m + 10) % 12;
  }

  lemma FormulaAtStart()
    ensures Formula(Date(1900, 1, 1)) == 0
  {
  }

  lemma FormulaInMonth(y: int, m: int, d: int, e: int)
    ensures Formula(Date(y, m, e)) - Formula(Date(y, m, d)) == e - d
  {
  }

  lemma {:induction false} AfterDaysCounts(n: nat)
    ensures ValidDate(AfterDays(n)) && AfterDays(n).y >= 1900 && Formula(AfterDays(n)) == n
  {
    hide Formula;
    FormulaAtStart();
    if n == 0 {
    } else {
      AfterDaysCounts(n - 1);
      FormulaSteps(AfterDays(n - 1));
    }
  }

  lemma {:induction false} FormulaInYear(a: Date, b: Date)
    requires ValidDate(a) && ValidDate(b) && a.y == b.y && DateBefore(a, b)
    ensures Formula(a) < Formula(b)
    decreases b.m - a.m
  {
    hide Formula;
    if a.m == b.m {
      FormulaInMonth(a.y, a.m, a.d, b.d);
    } else {
      var last := Date(a.y, a.m, DaysIn(a.y, a.m));
      FormulaInMonth(a.y, a.m, a.d, last.d);
      FormulaSteps(last);
      var next := NextDay(last);
      if DateBefore(next, b) { FormulaInYear(next, b); }
    }
  }

  lemma {:induction false} FormulaNewYear(y: int, z: int)
    requires y <= z
    ensures Formula(Date(y, 1, 1)) <= Formula(Date(z, 1, 1))
    decreases z - y
  {
    hide Formula;
    if y == z {
    } else {
      FormulaNewYear(y, z - 1);
      var eve := Date(z - 1, 12, 31);
      FormulaInYear(Date(z - 1, 1, 1), eve);
      FormulaSteps(eve);
    }
  }

  /** The formula is strictly increasing over the whole proleptic calendar. */
  lemma FormulaIncreases(a: Date, b: Date)
    requires ValidDate(a) && ValidDate(b) && DateBefore(a, b)
    ensures Formula(a) < Formula(b)
  {
    hide Formula;
    if a.y < b.y {
      var eve := Date(a.y, 12, 31);
      if DateBefore(a, eve) { FormulaInYear(a, eve); }
      FormulaSteps(eve);
      FormulaNewYear(a.y + 1, b.y);
      if DateBefore(Date(b.y, 1, 1), b) { FormulaInYear(Date(b.y, 1, 1), b); }
    } else {
      FormulaInYear(a, b);
    }
  }

  lemma FormulaInjective(a: Date, b: Date)
    requires ValidDate(a) && ValidDate(b)
    ensures Formula(a) == Formula(b) <==> a == b
    ensures Formula(a) < Formula(b) <==> DateBefore(a, b)
  {
    hide Formula;
    if DateBefore(a, b) { FormulaIncreases(a, b); }
    if DateBefore(b, a) { FormulaIncreases(b, a); }
  }

  /** On valid dates from 1900 on, the formula is the number of next-day steps from 1 January 1900. */
  lemma FormulaCountsSteps(date: Date, n: nat)
    requires ValidDate(date) && date.y >= 1900
    ensures Formula(date) >= 0
    ensures Formula(date) == n <==> AfterDays(n) == date
  {
    hide Formula;
    FormulaInjective(Date(1900, 1, 1), date);
    FormulaAtStart();
    AfterDaysCounts(n);
    FormulaInjective(AfterDays(n), date);
  }

  // --------------------------------------------------- what a record denotes

  datatype Moment = Moment(date: Date, hour: int, minute: int, second: int)

  /** The moment that a record names if its fields are taken at face value. */
  function Face(t: Time): Moment {
    Moment(Date(t.year as int, t.month as int, t.day as int), t.hour as int, t.minute as int, t.second as int)
  }

  /** A moment that exists: its date is reached by stepping and its time of day is on the clock. */
  ghost predicate Exists(mo: Moment) {
    (exists n: nat :: AfterDays(n) == mo.date) && 0 <= mo.hour < 24 && 0 <= mo.minute < 60 && 0 <= mo.second < 60
  }

  ghost predicate Before(a: Moment, b: Moment) {
    DateBefore(a.date, b.date) || (a.date == b.date &&
      (a.hour < b.hour || (a.hour == b.hour && (a.minute < b.minute || (a.minute == b.minute && a.second < b.second)))))
  }

  /** A day past the end of its month rolls into the next month. */
  function RolledDate(date: Date): Date {
    var length := DaysIn(date.y, date.m);
    if date.d <= length then date else Date(date.y, date.m + 1, date.d - length)
  }

  /** Minute 60 rolls into the next hour, and past 23:59 into the next day. */
  function Rolled(mo: Moment): Moment {
    var Moment(face, hour, minute, second) := mo;
    var date := RolledDate(face);
    if minute < 60 then Moment(date, hour, minute, second)
    else if hour < 23 then Moment(date, hour + 1, 0, second)
    else Moment(NextDay(date), 0, 0, second)
  }

  ghost function SecondsOf(mo: Moment): int {
    Formula(mo.date) * 86400 + mo.hour * 3600 + mo.minute * 60 + mo.second
  }

  lemma RollDate(date: Date)
    requires 1 <= date.m <= 12 && 1 <= date.d <= 31
    ensures ValidDate(RolledDate(date)) && RolledDate(date).y == date.y
    ensures Formula(RolledDate(date)) == Formula(date)
  {
    hide Formula;
    var length := DaysIn(date.y, date.m);
    if date.d > length {
      FormulaInMonth(date.y, date.m, length, date.d);
      FormulaSteps(Date(date.y, date.m, length));
      FormulaInMonth(date.y, date.m + 1, 1, date.d - length);
    }
  }

  lemma RollMoment(mo: Moment)
    requires 1 <= mo.date.m <= 12 && 1 <= mo.date.d <= 31
    requires 0 <= mo.hour < 24 && 0 <= mo.minute <= 60 && 0 <= mo.second < 60
    ensures ValidDate(Rolled(mo).date) && Rolled(mo).date.y >= mo.date.y
    ensures 0 <= Rolled(mo).hour < 24 && 0 <= Rolled(mo).minute < 60 && 0 <= Rolled(mo).second < 60
    ensures SecondsOf(Rolled(mo)) == SecondsOf(mo)
  {
    hide Formula, RolledDate;
    RollDate(mo.date);
    FormulaSteps(RolledDate(mo.date));
  }

  lemma ExistsMeansValid(mo: Moment)
    ensures Exists(mo) <==>
            ValidDate(mo.date) && mo.date.y >= 1900 && 0 <= mo.hour < 24 && 0 <= mo.minute < 60 && 0 <= mo.second < 60
  {
    hide Formula;
    if exists n: nat :: AfterDays(n) == mo.date {
      var n: nat :| AfterDays(n) == mo.date;
      AfterDaysCounts(n);
    }
    if ValidDate(mo.date) && mo.date.y >= 1900 {
      FormulaCountsSteps(mo.date, 0);
      FormulaCountsSteps(mo.date, Formula(mo.date));
    }
  }

  // ------------------------------------------------------------ main results

  lemma EpochValue(t: Time)
    requires InRange(t)
    ensures FromUefi(t).Seconds?
    ensures FromUefi(t).value as int == SecondsOf(Rolled(Face(t))) + (t.timezone as int + 1440) * 60
    ensures Exists(Rolled(Face(t)))
  {
    hide Formula, DaysOf, Rolled, Exists;
    DaysOfIsFormula(t.year, t.month, t.day);
    RollMoment(Face(t));
    ExistsMeansValid(Rolled(Face(t)));
  }

  /** The final unwrap never fails, and None is returned exactly for records out of range. */
  lemma NeverPanics(t: Time)
    ensures FromUefi(t) != Panic
    ensures FromUefi(t).Seconds? <==>
            && 1900 <= t.year <= 9999 && 1 <= t.month <= 12 && 1 <= t.day <= 31
            && t.hour <= 23 && t.minute <= 60 && t.second <= 59 && t.nanosecond <= 999_999_999
            && (-1440 <= t.timezone <= 1440 || t.timezone == 2047)
  {
    if InRange(t) { EpochValue(t); }
  }

  /** Of the moments that exist, exactly those up to the year 9999 are accepted, in a timezone within a day or 2047. */
  lemma AcceptsRealExactly(t: Time)
    requires Exists(Face(t))
    ensures FromUefi(t).Seconds? <==>
            t.year <= 9999 && t.nanosecond <= 999_999_999 && (-1440 <= t.timezone <= 1440 || t.timezone == 2047)
  {
    ExistsMeansValid(Face(t));
    NeverPanics(t);
  }

  /**
   * The result counts seconds: n whole days of the stepping calendar, the time of day and the
   * offset. It does so for every accepted record, real or not, once that is rolled.
   */
  lemma ResultCountsSeconds(t: Time, n: nat)
    requires InRange(t)
    ensures FromUefi(t).Seconds?
    ensures var r := Rolled(Face(t));
            AfterDays(n) == r.date <==>
            FromUefi(t).value as int == n * 86400 + r.hour * 3600 + r.minute * 60 + r.second
                                        + (t.timezone as int + 1440) * 60
  {
    hide Formula, FromUefi, Rolled, AfterDays;
    EpochValue(t);
    var r := Rolled(Face(t));
    ExistsMeansValid(r);
    FormulaCountsSteps(r.date, n);
  }

  /** Real moments are left alone by rolling. */
  lemma RealIsNotRolled(mo: Moment)
    requires Exists(mo)
    ensures Rolled(mo) == mo
  {
    ExistsMeansValid(mo);
  }

  lemma SecondsOrder(a: Moment, b: Moment)
    requires Exists(a) && Exists(b)
    ensures SecondsOf(a) < SecondsOf(b) <==> Before(a, b)
    ensures SecondsOf(a) == SecondsOf(b) <==> a == b
  {
    hide Formula, Exists;
    ExistsMeansValid(a);
    ExistsMeansValid(b);
    FormulaInjective(a.date, b.date);
  }

  /** For a fixed timezone the results are ordered as the moments are, and only equal moments collide. */
  lemma ResultOrder(s: Time, t: Time)
    requires InRange(s) && InRange(t) && s.timezone == t.timezone
    ensures FromUefi(s).Seconds? && FromUefi(t).Seconds?
    ensures FromUefi(s).value < FromUefi(t).value <==> Before(Rolled(Face(s)), Rolled(Face(t)))
    ensures FromUefi(s) == FromUefi(t) <==> Rolled(Face(s)) == Rolled(Face(t))
  {
    hide Formula, FromUefi, Rolled, Exists, Before, SecondsOf;
    EpochValue(s);
    EpochValue(t);
    SecondsOrder(Rolled(Face(s)), Rolled(Face(t)));
  }

  /** Hence strictly increasing, and injective, over real dates and times. */
  lemma RealResultsIncrease(s: Time, t: Time)
    requires InRange(s) && InRange(t) && s.timezone == t.timezone
    requires Exists(Face(s)) && Exists(Face(t))
    ensures FromUefi(s).Seconds? && FromUefi(t).Seconds?
    ensures FromUefi(s).value < FromUefi(t).value <==> Before(Face(s), Face(t))
    ensures FromUefi(s) == FromUefi(t) <==> Face(s) == Face(t)
  {
    hide Formula, FromUefi, Rolled, Exists, Before;
    ResultOrder(s, t);
    RealIsNotRolled(Face(s));
    RealIsNotRolled(Face(t));
  }

  /**
   * A moment that does not exist gets through exactly when every field is in its range but
   * the day overruns its month or the minute is 60.
   */
  lemma AcceptsUnrealExactly(t: Time)
    ensures FromUefi(t).Seconds? && !Exists(Face(t)) <==>
            && 1900 <= t.year <= 9999 && 1 <= t.month <= 12 && 1 <= t.day <= 31
            && t.hour <= 23 && t.minute <= 60 && t.second <= 59 && t.nanosecond <= 999_999_999
            && (-1440 <= t.timezone <= 1440 || t.timezone == 2047)
            && (t.day as int > DaysIn(t.year as int, t.month as int) || t.minute == 60)
  {
    ExistsMeansValid(Face(t));
    NeverPanics(t);
  }

  /** An overrunning day counts into the next month, and minute 60 into the next hour. */
  lemma OverrunsRoll(t: Time)
    requires InRange(t)
    ensures t.day as int > DaysIn(t.year as int, t.month as int) ==>
              FromUefi(t) == FromUefi(t.(month := t.month + 1,
                                         day := (t.day as int - DaysIn(t.year as int, t.month as int)) as u8))
    ensures t.minute == 60 && t.hour < 23 ==> FromUefi(t) == FromUefi(t.(hour := t.hour + 1, minute := 0))
  {
    if t.day as int > DaysIn(t.year as int, t.month as int) {
      ResultOrder(t, t.(month := t.month + 1, day := (t.day as int - DaysIn(t.year as int, t.month as int)) as u8));
    }
    if t.minute == 60 && t.hour < 23 {
      ResultOrder(t, t.(hour := t.hour + 1, minute := 0));
    }
  }

  /** The record moved to midnight at the start of a date. */
  function Midnight(t: Time, date: Date): Time
    requires 0 <= date.y < 0x1_0000 && 0 <= date.m < 0x100 && 0 <= date.d < 0x100
  {
    t.(year := date.y as u16, month := date.m as u8, day := date.d as u8, hour := 0, minute := 0)
  }

  /**
   * At hour 23 minute 60 counts into the next day. It does so even on the last day of 9999,
   * whose next day is out of range: the result is always a minute after minute 59.
   */
  lemma MidnightRolls(t: Time)
    requires InRange(t) && t.minute == 60 && t.hour == 23
    ensures FromUefi(t).Seconds? && FromUefi(t.(minute := 59)).Seconds?
    ensures FromUefi(t).value as int == FromUefi(t.(minute := 59)).value as int + 60
    ensures var next := NextDay(RolledDate(Face(t).date));
            && 1900 <= next.y <= 10000 && 1 <= next.m <= 12 && 1 <= next.d <= 31
            && (next.y <= 9999 ==> FromUefi(t) == FromUefi(Midnight(t, next)))
  {
    hide Formula, FromUefi, Exists;
    EpochValue(t);
    EpochValue(t.(minute := 59));
    RollMoment(Face(t));
    RollMoment(Face(t.(minute := 59)));
    RollDate(Face(t).date);
    FormulaSteps(RolledDate(Face(t).date));
    var next := NextDay(RolledDate(Face(t).date));
    if next.y <= 9999 { ResultOrder(t, Midnight(t, next)); }
  }

  /**
   * The origin of the Unix clock, 1970, at the offset of zero is 2,208,988,800 seconds after
   * the origin of this one, as RFC 868 has it.
   */
  lemma UnixEpoch()
    ensures FromUefi(Time(1970, 1, 1, 0, 0, 0, 0, -1440)) == Seconds(2_208_988_800)
  {
  }

  /** 31 February 2025 is accepted and equals 3 March 2025. */
  lemma UnrealExample()
    ensures var bad := Time(2025, 2, 31, 0, 0, 0, 0, 0);
            && FromUefi(bad).Seconds? && !Exists(Face(bad))
            && FromUefi(bad) == FromUefi(bad.(month := 3, day := 3))
  {
    var bad := Time(2025, 2, 31, 0, 0, 0, 0, 0);
    AcceptsUnrealExactly(bad);
    ResultOrder(bad, bad.(month := 3, day := 3));
  }
}
