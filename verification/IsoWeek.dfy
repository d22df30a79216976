/** ISO week numbers over the proleptic Gregorian calendar. */
module IsoWeek {

  // ---- The functions of the source, with division that truncates toward zero

  function TruncDiv(a: int, b: int): int
    requires b > 0
  {
    if a >= 0 then a / b else -(-a / b)
  }

  function TruncMod(a: int, b: int): int
    requires b > 0
  {
    a - b * TruncDiv(a, b)
  }

  function YearShift(year: int): int {
    TruncMod(year + TruncDiv(year, 4) - TruncDiv(year, 100) + TruncDiv(year, 400), 7)
  }

  function IsoYearWeeks(year: int): int {
    52 + if YearShift(year) == 4 || YearShift(year - 1) == 3 then 1 else 0
  }

  function IsoWeekNum(yday: nat, wday: nat): int {
    TruncDiv(yday + 11 - (if wday == 0 then 7 else wday), 7)
  }

  function TmIsoWeekYear(year: int, yday: nat, wday: nat): int {
    var w := IsoWeekNum(yday, wday);
    if w < 1 then year - 1 else if w > IsoYearWeeks(year) then year + 1 else year
  }

  function TmIsoWeekOfYear(year: int, yday: nat, wday: nat): int {
    var w := IsoWeekNum(yday, wday);
    if w < 1 then IsoYearWeeks(year - 1) else if w > IsoYearWeeks(year) then 1 else w
  }

  // ---- The calendar

  /** The days before the first of January of a year, counted from year 1. */
  function DaysBefore(year: int): int {
    365 * (year - 1) + (year - 1) / 4 - (year - 1) / 100 + (year - 1) / 400
  }

  predicate IsLeap(year: int) {
    year % 4 == 0 && (year % 100 != 0 || year % 400 == 0)
  }

  lemma YearLength(year: int)
    ensures DaysBefore(year + 1) - DaysBefore(year) == if IsLeap(year) then 366 else 365
  {
    assert DaysBefore(year + 1) - DaysBefore(year) == 365 + Gain(year, 4) - Gain(year, 100) + Gain(year, 400);
    hide DaysBefore;
    GainIs(year, 4);
    GainIs(year, 100);
    GainIs(year, 400);
    Divides(year);
    hide Gain;
  }

  /** The leap days, or those left out, that a year adds. */
  function Gain(year: int, k: int): int
    requires k > 0
  {
    year / k - (year - 1) / k
  }

  lemma GainIs(year: int, k: int)
    requires k == 4 || k == 100 || k == 400
    ensures Gain(year, k) == if year % k == 0 then 1 else 0
  {
  }

  lemma Divides(year: int)
    ensures year % 400 == 0 ==> year % 100 == 0
    ensures year % 100 == 0 ==> year % 4 == 0
  {
  }

  /** The day of the week, 0 for Sunday; day 0 was a Monday. */
  function Weekday(day: int): nat {
    (day + 1) % 7
  }

  /** The fields of a date agree with each other. */
  predicate Consistent(year: int, yday: nat, wday: nat) {
    yday < DaysBefore(year + 1) - DaysBefore(year) && wday == Weekday(DaysBefore(year) + yday)
  }

  /** The Thursday of the week of a day; weeks begin on Monday. */
  function ThursdayOf(day: int): int {
    day + 4 - (if Weekday(day) == 0 then 7 else Weekday(day))
  }

  /** The rule of section 2.2.10 of ISO 8601:2004: a week belongs to the year of
      its Thursday, and is numbered by it. */
  predicate IsIsoWeek(day: int, year: int, week: int) {
    var t := ThursdayOf(day);
    DaysBefore(year) <= t < DaysBefore(year + 1) && week == (t - DaysBefore(year)) / 7 + 1
  }

  lemma {:induction false} YearsAscend(a: int, b: int)
    requires a < b
    ensures DaysBefore(a + 1) <= DaysBefore(b)
    decreases b - a
  {
    hide DaysBefore;
    if a + 1 < b {
      YearLength(b - 1);
      YearsAscend(a, b - 1);
    }
  }

  lemma IsoWeekIsUnique(day: int, y: int, w: int, z: int, v: int)
    requires IsIsoWeek(day, y, w) && IsIsoWeek(day, z, v)
    ensures y == z && w == v
  {
    hide DaysBefore, ThursdayOf;
    if y < z { YearsAscend(y, z); }
    if z < y { YearsAscend(z, y); }
  }

  // ---- Years with 53 weeks

  /** The weekday of the last of December. */
  lemma LastDay(year: int)
    ensures Weekday(DaysBefore(year + 1) - 1) == (year + year / 4 - year / 100 + year / 400) % 7
  {
    var sum := year + year / 4 - year / 100 + year / 400;
    assert DaysBefore(year + 1) == 364 * year + sum;
    hide DaysBefore;
    WholeWeeks(year, sum);
  }

  lemma WholeWeeks(n: int, sum: int)
    ensures (364 * n + sum) % 7 == sum % 7
  {
  }

  /** A year has 53 weeks when it ends on a Thursday or starts on one. */
  predicate HasWeek53(year: int) {
    Weekday(DaysBefore(year + 1) - 1) == 4 || Weekday(DaysBefore(year) - 1) == 3
  }

  lemma ShiftIs(year: int)
    ensures year >= 0 ==> YearShift(year) == Weekday(DaysBefore(year + 1) - 1)
    ensures year < 0 ==> YearShift(year) <= 0
  {
    LastDay(year);
    if year < 0 {
      NegativeShift(-year);
    }
  }

  lemma NegativeShift(n: int)
    requires n > 0
    ensures YearShift(-n) <= 0
  {
    var sum := n + n / 4 - n / 100 + n / 400;
    assert sum >= 0;
  }

  /** For years before 0 the truncating remainders miss every long year. */
  lemma WeeksAre(year: int)
    ensures IsoYearWeeks(year) == 52 + if year >= 0 && HasWeek53(year) then 1 else 0
  {
    hide YearShift, Weekday, DaysBefore;
    ShiftIs(year);
    ShiftIs(year - 1);
    if year == 0 {
      YearZero();
    }
  }

  lemma YearZero()
    ensures !HasWeek53(0)
  {
  }

  // ---- The rule

  /** Whether a year ending or starting on a Thursday puts the Thursday before
      its end into week 53. */
  lemma LongYear(year: int, k: int)
    requires 1 <= k <= 3 && Weekday(DaysBefore(year + 1) - k) == 4
    ensures (DaysBefore(year + 1) - k - DaysBefore(year)) / 7 + 1 == if HasWeek53(year) then 53 else 52
  {
    YearLength(year);
    hide DaysBefore, IsLeap;
  }

  lemma ThursdayIs(day: int)
    ensures Weekday(ThursdayOf(day)) == 4 && day - 3 <= ThursdayOf(day) <= day + 3
  {
  }

  lemma WeekNumIs(year: int, yday: nat, wday: nat)
    requires Consistent(year, yday, wday)
    ensures var t := ThursdayOf(DaysBefore(year) + yday);
      IsoWeekNum(yday, wday) == if t < DaysBefore(year) then 0 else (t - DaysBefore(year)) / 7 + 1
  {
    hide DaysBefore;
  }

  /** The year's last Thursday is in week 52 or 53 as it has 52 or 53. */
  lemma BeyondLastWeek(year: int, t: int)
    requires Weekday(t) == 4 && DaysBefore(year) <= t < DaysBefore(year + 1) + 3
    ensures (t - DaysBefore(year)) / 7 + 1 > 52 + (if HasWeek53(year) then 1 else 0) <==> t >= DaysBefore(year + 1)
  {
    YearLength(year);
    hide DaysBefore, IsLeap;
  }

  /** The ISO year and week of a date, by the place of its Thursday. */
  lemma TrueWeek(year: int, yday: nat, wday: nat) returns (isoYear: int, isoWeek: int)
    requires Consistent(year, yday, wday)
    ensures IsIsoWeek(DaysBefore(year) + yday, isoYear, isoWeek)
    ensures var (t, w) := (ThursdayOf(DaysBefore(year) + yday), IsoWeekNum(yday, wday));
      && (t < DaysBefore(year) ==> w == 0 && isoYear == year - 1 && isoWeek == if HasWeek53(year - 1) then 53 else 52)
      && (DaysBefore(year) <= t < DaysBefore(year + 1) ==>
            isoYear == year && 1 <= w == isoWeek <= if HasWeek53(year) then 53 else 52)
      && (t >= DaysBefore(year + 1) ==>
            w > (if HasWeek53(year) then 53 else 52) && isoYear == year + 1 && isoWeek == 1)
  {
    var day := DaysBefore(year) + yday;
    WeekNumIs(year, yday, wday);
    YearLength(year);
    ThursdayIs(day);
    hide DaysBefore, ThursdayOf, Weekday, HasWeek53, IsLeap, IsoWeekNum, IsIsoWeek;
    if ThursdayOf(day) < DaysBefore(year) {
      isoYear, isoWeek := year - 1, if HasWeek53(year - 1) then 53 else 52;
      ThursdayBefore(day, year);
    } else if ThursdayOf(day) < DaysBefore(year + 1) {
      isoYear, isoWeek := year, IsoWeekNum(yday, wday);
      ThursdayWithin(day, year, isoWeek);
    } else {
      isoYear, isoWeek := year + 1, 1;
      BeyondLastWeek(year, ThursdayOf(day));
      ThursdayAfter(day, year + 1);
    }
  }

  lemma ThursdayBefore(day: int, year: int)
    requires DaysBefore(year) - 3 <= ThursdayOf(day) < DaysBefore(year)
    ensures IsIsoWeek(day, year - 1, if HasWeek53(year - 1) then 53 else 52)
  {
    YearLength(year - 1);
    ThursdayIs(day);
    hide DaysBefore, ThursdayOf, Weekday, HasWeek53, IsLeap;
    LongYear(year - 1, DaysBefore(year) - ThursdayOf(day));
  }

  lemma ThursdayWithin(day: int, year: int, week: int)
    requires DaysBefore(year) <= ThursdayOf(day) < DaysBefore(year + 1)
    requires week == (ThursdayOf(day) - DaysBefore(year)) / 7 + 1
    ensures IsIsoWeek(day, year, week) && 1 <= week <= if HasWeek53(year) then 53 else 52
  {
    ThursdayIs(day);
    hide DaysBefore, ThursdayOf, Weekday, HasWeek53;
    BeyondLastWeek(year, ThursdayOf(day));
  }

  lemma ThursdayAfter(day: int, year: int)
    requires DaysBefore(year) <= ThursdayOf(day) <= DaysBefore(year) + 2
    ensures IsIsoWeek(day, year, 1)
  {
    YearLength(year);
    hide DaysBefore, ThursdayOf, IsLeap;
  }

  /** The two functions give the ISO year and week of a date exactly unless its
      week number is 53 in a long year before 0, or 0 after one. */
  lemma CorrectIff(year: int, yday: nat, wday: nat)
    requires Consistent(year, yday, wday)
    ensures IsIsoWeek(DaysBefore(year) + yday, TmIsoWeekYear(year, yday, wday), TmIsoWeekOfYear(year, yday, wday)) <==>
      && (IsoWeekNum(yday, wday) == 53 && HasWeek53(year) ==> year >= 0)
      && (IsoWeekNum(yday, wday) == 0 && HasWeek53(year - 1) ==> year >= 1)
  {
    hide DaysBefore, ThursdayOf, HasWeek53, IsoYearWeeks, IsoWeekNum, IsIsoWeek;
    var (day, codeYear, codeWeek) :=
      (DaysBefore(year) + yday, TmIsoWeekYear(year, yday, wday), TmIsoWeekOfYear(year, yday, wday));
    var y, w := TrueWeek(year, yday, wday);
    WeeksAre(year);
    WeeksAre(year - 1);
    if IsIsoWeek(day, codeYear, codeWeek) {
      IsoWeekIsUnique(day, y, w, codeYear, codeWeek);
    }
  }

  /** From year 1 on every date is right. */
  lemma CorrectFromYearOne(year: int, yday: nat, wday: nat)
    requires year >= 1 && Consistent(year, yday, wday)
    ensures IsIsoWeek(DaysBefore(year) + yday, TmIsoWeekYear(year, yday, wday), TmIsoWeekOfYear(year, yday, wday))
  {
    hide DaysBefore, IsIsoWeek, TmIsoWeekYear, TmIsoWeekOfYear, HasWeek53, IsoWeekNum;
    CorrectIff(year, yday, wday);
  }

  /** The last day of the year -2 is a Thursday, so in week 53 of that year; the
      functions put it into the first week of the year -1. */
  lemma LongYearMissed()
    ensures Consistent(-2, 364, 4) && IsIsoWeek(DaysBefore(-2) + 364, -2, 53)
    ensures TmIsoWeekYear(-2, 364, 4) == -1 && TmIsoWeekOfYear(-2, 364, 4) == 1
  {
    assert DaysBefore(-2) == -1096 && DaysBefore(-1) == -731;
    WeeksAre(-2);
  }
}
