/**
 * The proleptic Gregorian calendar by day numbers, day 0 being 1 January of
 * year 0, and the ISO 8601 week date.
 */
module Calendar {

  predicate Leap(y: int) {
    y % 4 == 0 && (y % 100 != 0 || y % 400 == 0)
  }

  /** The day number of 1 January. */
  function YearStart(y: int): int {
    365 * y + (y - 1) / 4 - (y - 1) / 100 + (y - 1) / 400 + 1
  }

  function YearLength(y: int): int {
    if Leap(y) then 366 else 365
  }

  lemma FoursPassed(y: int)
    ensures y / 4 - (y - 1) / 4 == if y % 4 == 0 then 1 else 0
  {
  }

  lemma HundredsPassed(y: int)
    ensures y / 100 - (y - 1) / 100 == if y % 100 == 0 then 1 else 0
  {
  }

  lemma FourHundredsPassed(y: int)
    ensures y / 400 - (y - 1) / 400 == if y % 400 == 0 then 1 else 0
  {
  }

  /** Each year starts where the one before ends. */
  lemma YearsAbut(y: int)
    ensures YearStart(y + 1) == YearStart(y) + YearLength(y)
  {
    LeapsPassed(y, y / 4, (y - 1) / 4, y / 100, (y - 1) / 100, y / 400, (y - 1) / 400);
  }

  lemma CenturiesAreFours(y: int)
    ensures y % 100 == 0 ==> y % 4 == 0
  {
  }

  lemma FourHundredsAreCenturies(y: int)
    ensures y % 400 == 0 ==> y % 100 == 0
  {
  }

  /** Between two years the count of leap days moves by one exactly when the first is a leap year. */
  lemma LeapsPassed(y: int, a: int, b: int, c: int, d: int, e: int, f: int)
    requires a == y / 4 && b == (y - 1) / 4 && c == y / 100 && d == (y - 1) / 100 && e == y / 400 && f == (y - 1) / 400
    ensures (a - b) - (c - d) + (e - f) == if Leap(y) then 1 else 0
  {
    FoursPassed(y);
    HundredsPassed(y);
    FourHundredsPassed(y);
    CenturiesAreFours(y);
    FourHundredsAreCenturies(y);
  }

  // ----- Months, counted from January of year 0 -----

  function LengthOf(y: int, m: nat): int
    requires m < 12
  {
    if m == 1 then (if Leap(y) then 29 else 28) else if m == 3 || m == 5 || m == 8 || m == 10 then 30 else 31
  }

  /** The days of the year before its month m, January being 0. */
  function DaysBefore(y: int, m: nat): int
    requires m <= 12
  {
    var leap := if Leap(y) then 1 else 0;
    match m
    case 0 => 0
    case 1 => 31
    case 2 => 59 + leap
    case 3 => 90 + leap
    case 4 => 120 + leap
    case 5 => 151 + leap
    case 6 => 181 + leap
    case 7 => 212 + leap
    case 8 => 243 + leap
    case 9 => 273 + leap
    case 10 => 304 + leap
    case 11 => 334 + leap
    case 12 => 365 + leap
  }

  /** The day number of the first of the month. */
  function MonthStart(i: int): int {
    YearStart(i / 12) + DaysBefore(i / 12, i % 12)
  }

  lemma MonthIndex(y: int, m: int)
    requires 0 <= m < 12
    ensures (12 * y + m) / 12 == y && (12 * y + m) % 12 == m
  {
  }

  /** Each month starts where the one before ends. */
  lemma MonthsAbut(i: int)
    ensures 28 <= LengthOf(i / 12, i % 12) <= 31
    ensures MonthStart(i + 1) == MonthStart(i) + LengthOf(i / 12, i % 12)
  {
    hide YearStart, Leap;
    var y, m := i / 12, i % 12;
    YearsAbut(y);
    NextMonth(i);
    if m < 11 {
      assert DaysBefore(y, m + 1) == DaysBefore(y, m) + LengthOf(y, m);
    }
  }

  lemma NextMonth(i: int)
    ensures if i % 12 < 11 then (i + 1) / 12 == i / 12 && (i + 1) % 12 == i % 12 + 1 else (i + 1) / 12 == i / 12 + 1 && (i + 1) % 12 == 0
  {
  }

  lemma {:induction false} MonthsIncrease(i: int, j: int)
    requires i <= j
    ensures MonthStart(j) - MonthStart(i) >= 28 * (j - i)
    decreases j - i
  {
    hide MonthStart, LengthOf;
    if i < j {
      MonthsIncrease(i, j - 1);
      MonthsAbut(j - 1);
    }
  }

  predicate InMonth(d: int, m: int) {
    MonthStart(m) <= d < MonthStart(m + 1)
  }

  lemma MonthSteps(i: int)
    ensures MonthStart(i - 1) < MonthStart(i) < MonthStart(i + 1) && MonthStart(i) - MonthStart(i - 1) <= 31
  {
    hide MonthStart, LengthOf;
    MonthsAbut(i);
    MonthsAbut(i - 1);
  }

  /** The month of a day, searched for from a guess. */
  function MonthFrom(i: int, d: int): (m: int)
    ensures InMonth(d, m)
    decreases if d < MonthStart(i) then MonthStart(i) - d + 31 else d - MonthStart(i)
  {
    hide MonthStart;
    MonthSteps(i);
    if d < MonthStart(i) then MonthFrom(i - 1, d)
    else if d >= MonthStart(i + 1) then MonthFrom(i + 1, d)
    else i
  }

  function MonthOf(d: int): (m: int)
    ensures InMonth(d, m)
  {
    MonthFrom(0, d)
  }

  lemma MonthIsUnique(d: int, i: int)
    requires InMonth(d, i)
    ensures MonthOf(d) == i
  {
    hide MonthStart, MonthOf;
    var m := MonthOf(d);
    if m < i { MonthsIncrease(m + 1, i); }
    if i < m { MonthsIncrease(i + 1, m); }
  }

  // ----- Civil dates -----

  function Year(d: int): int {
    MonthOf(d) / 12
  }

  /** 1 for January. */
  function MonthNumber(d: int): (m: int)
    ensures 1 <= m <= 12
  {
    hide MonthOf, InMonth;
    MonthOf(d) % 12 + 1
  }

  function Day(d: int): (day: int)
    ensures 1 <= day <= 31
  {
    hide MonthOf, MonthStart;
    MonthSteps(MonthOf(d) + 1);
    d - MonthStart(MonthOf(d)) + 1
  }

  /** The day number of a date. A month outside 1 to 12 carries into the year. */
  function DateOf(year: int, month: int, day: int): int {
    MonthStart(12 * year + month - 1) + day - 1
  }

  /** The date n months on, the same day of the month. */
  function AddMonths(d: int, n: int): int {
    hide *;
    DateOf(Year(d), MonthNumber(d) + n, Day(d))
  }

  /** A date's year, month and day say which day it is, and where its month lies. */
  lemma CivilRoundTrip(d: int)
    ensures DateOf(Year(d), MonthNumber(d), Day(d)) == d
    ensures 12 * Year(d) + MonthNumber(d) - 1 == MonthOf(d)
  {
    hide MonthOf, MonthStart, InMonth;
    assert MonthOf(d) == 12 * (MonthOf(d) / 12) + MonthOf(d) % 12;
  }

  // ----- ISO weeks -----

  /** 0 for Monday. */
  function Weekday(d: int): (w: int)
    ensures 0 <= w < 7
  {
    (d + 5) % 7
  }

  /** The Thursday of the day's week. */
  function Thursday(d: int): int {
    d - Weekday(d) + 3
  }

  /** A week belongs to the year its Thursday is in. */
  function IsoYear(d: int): int {
    Year(Thursday(d))
  }

  function IsoWeek(d: int): int {
    hide *;
    (Thursday(d) - YearStart(IsoYear(d))) / 7 + 1
  }

  /** 1 January 1970 was a Thursday. */
  lemma EpochIsThursday()
    ensures DateOf(1970, 1, 1) == 719528 && Weekday(719528) == 3
  {
    assert (12 * 1970) / 12 == 1970 && (12 * 1970) % 12 == 0;
    assert YearStart(1970) == 719528;
    hide YearStart;
  }

  lemma YearContains(d: int)
    ensures YearStart(Year(d)) <= d < YearStart(Year(d) + 1)
  {
    hide MonthStart, YearStart, MonthOf;
    var m, y := MonthOf(d), MonthOf(d) / 12;
    JanuaryStarts(y);
    JanuaryStarts(y + 1);
    MonthsIncrease(12 * y, m);
    MonthsIncrease(m + 1, 12 * (y + 1));
  }

  lemma JanuaryStarts(y: int)
    ensures MonthStart(12 * y) == YearStart(y)
  {
    hide YearStart;
    MonthIndex(y, 0);
  }

  lemma {:induction false} YearsIncrease(a: int, b: int)
    requires a <= b
    ensures YearStart(b) - YearStart(a) >= 365 * (b - a)
    decreases b - a
  {
    hide YearStart, Leap;
    if a < b {
      YearsIncrease(a, b - 1);
      YearsAbut(b - 1);
    }
  }

  /** Whole weeks apart, the later day has the later ISO week. */
  lemma IsoWeeksIncrease(d: int, k: int)
    requires k > 0
    ensures IsoYear(d) < IsoYear(d + 7 * k) || (IsoYear(d) == IsoYear(d + 7 * k) && IsoWeek(d) < IsoWeek(d + 7 * k))
  {
    SameWeekday(d, k);
    hide YearStart, Year, Weekday;
    var t, u := Thursday(d), Thursday(d + 7 * k);
    assert u == t + 7 * k;
    YearContains(t);
    YearContains(u);
    if Year(u) < Year(t) {
      YearsIncrease(Year(u) + 1, Year(t));
    }
    if Year(u) == Year(t) {
      WeeksApart(t - YearStart(Year(t)), k);
    }
  }

  lemma SameWeekday(d: int, k: int)
    ensures Weekday(d + 7 * k) == Weekday(d)
  {
  }

  lemma WeeksApart(x: int, k: int)
    ensures (x + 7 * k) / 7 == x / 7 + k
  {
  }

  lemma IsoWeekInRange(d: int)
    ensures 1 <= IsoWeek(d) <= 53
  {
    hide YearStart, Year, Weekday, Leap;
    YearContains(Thursday(d));
    YearsAbut(IsoYear(d));
  }

  /** Weekdays follow each other, Sunday to Monday included, from the Thursday of 1 January 1970. */
  lemma WeekdaysFollow(d: int)
    ensures Weekday(719528) == 3 && Weekday(d + 1) == if Weekday(d) == 6 then 0 else Weekday(d) + 1
  {
  }

  /** The Monday on or before the day. */
  function Monday(d: int): int {
    d - Weekday(d)
  }

  /** The Monday of the week that holds 4 January: the first of the ISO year. */
  function FirstMonday(y: int): int {
    Monday(YearStart(y) + 3)
  }

  /**
   * The ISO week date: the year runs from the week that holds 4 January to the
   * day before the next year's, and its weeks are counted from 1.
   */
  lemma IsoWeekIs(d: int)
    ensures FirstMonday(IsoYear(d)) <= d < FirstMonday(IsoYear(d) + 1)
    ensures Monday(d) == FirstMonday(IsoYear(d)) + 7 * (IsoWeek(d) - 1)
  {
    hide *;
    var y, t := IsoYear(d), Thursday(d);
    ThursdayIs(d);
    FirstThursday(y);
    FirstThursday(y + 1);
    WholeWeeks(t, FirstMonday(y) + 3);
    WholeWeeks(t, FirstMonday(y + 1) + 3);
    IsoYearContains(d);
    CountedFrom(t, YearStart(y), FirstMonday(y) + 3);
    AWeekApart(t, FirstMonday(y + 1) + 3);
  }

  lemma ThursdayIs(d: int)
    ensures Thursday(d) == Monday(d) + 3 && Weekday(Thursday(d)) == 3 && Monday(d) <= d < Monday(d) + 7
  {
  }

  lemma IsoYearContains(d: int)
    ensures YearStart(IsoYear(d)) <= Thursday(d) < YearStart(IsoYear(d) + 1)
    ensures IsoWeek(d) == (Thursday(d) - YearStart(IsoYear(d))) / 7 + 1
  {
    hide YearStart, Year, Thursday;
    YearContains(Thursday(d));
  }

  lemma AWeekApart(t: int, u: int)
    requires (t - u) % 7 == 0 && t < u
    ensures t + 7 <= u
  {
  }

  /** The Thursday of the week that holds 4 January is the first of the year. */
  lemma FirstThursday(y: int)
    ensures YearStart(y) <= FirstMonday(y) + 3 < YearStart(y) + 7
    ensures Weekday(FirstMonday(y) + 3) == 3
  {
    hide YearStart;
  }

  lemma WholeWeeks(t: int, u: int)
    requires Weekday(t) == 3 && Weekday(u) == 3
    ensures (t - u) % 7 == 0
  {
  }

  lemma CountedFrom(t: int, start: int, first: int)
    requires start <= first < start + 7 && start <= t && (t - first) % 7 == 0
    ensures t >= first && t == first + 7 * ((t - start) / 7)
  {
  }
}
