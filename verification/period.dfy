/**
 * Commission periods: which period a day falls in, stepping between periods,
 * and labels that sort as text in the order of time.
 *
 * A day is its day number; the time of day and the zone play no part.
 */
module Period {
  import opened Calendar

  datatype Length = Week | SemiMonth | Month | Quarter

  datatype Sequence = Sequence(length: Length, anchor: int)

  // ----- Division that truncates toward zero -----

  function Div(a: int, b: int): int
    requires b > 0
  {
    if a >= 0 then a / b else -((-a) / b)
  }

  function Rem(a: int, b: int): int
    requires b > 0
  {
    a - b * Div(a, b)
  }

  // ----- Days between two dates -----

  const DAY: int := 86_400_000_000_000
  const MAX_DURATION: int := 0x7FFF_FFFF_FFFF_FFFF
  const MIN_DURATION: int := -0x8000_0000_0000_0000

  /** The nanoseconds from one day to another, held at the ends of a 64-bit duration. */
  function Sub(d: int, e: int): int {
    var ns := (d - e) * DAY;
    if ns > MAX_DURATION then MAX_DURATION else if ns < MIN_DURATION then MIN_DURATION else ns
  }

  /** The whole days a duration can hold. */
  const MAX_DAYS: int := 106_751

  function Clamp(x: int, low: int, high: int): int {
    if x < low then low else if x > high then high else x
  }

  /** The whole days from e to d, counted through a duration. */
  function DaysBetween(d: int, e: int): int {
    Div(Sub(d, e), DAY)
  }

  /** The count is exact up to MAX_DAYS and stays there. */
  lemma DaysAreClamped(d: int, e: int)
    ensures DaysBetween(d, e) == Clamp(d - e, -MAX_DAYS, MAX_DAYS)
  {
    var n := d - e;
    if n > MAX_DAYS {
      assert n * DAY >= (MAX_DAYS + 1) * DAY;
    } else if n < -MAX_DAYS {
      assert n * DAY <= -(MAX_DAYS + 1) * DAY;
    } else if n >= 0 {
      assert n * DAY <= MAX_DAYS * DAY;
      DivExact(n);
    } else {
      assert n * DAY >= -MAX_DAYS * DAY;
      DivExact(-n);
    }
  }

  lemma DivExact(n: nat)
    ensures (n * DAY) / DAY == n
  {
  }

  // ----- Period starts -----

  /** The week of the day, counted from the anchor. */
  function WeekBucket(days: int): int {
    if days < 0 && Rem(days, 7) != 0 then Div(days, 7) - 1 else Div(days, 7)
  }

  /** The first day of the period containing d. */
  function PeriodStart(s: Sequence, d: int): int {
    hide *;
    match s.length
    case Month => DateOf(Year(d), MonthNumber(d), 1)
    case Quarter => DateOf(Year(d), (MonthNumber(d) - 1) / 3 * 3 + 1, 1)
    case SemiMonth => DateOf(Year(d), MonthNumber(d), if Day(d) <= 15 then 1 else 16)
    case Week => s.anchor + WeekBucket(DaysBetween(d, s.anchor)) * 7
  }

  function AdvanceHalf(start: int, n: int): int {
    hide *;
    var total := (if Day(start) == 16 then 1 else 0) + n;
    var rem := Rem(total, 2);
    var months := if rem < 0 then Div(total, 2) - 1 else Div(total, 2);
    var half := if rem < 0 then rem + 2 else rem;
    var base := AddMonths(DateOf(Year(start), MonthNumber(start), 1), months);
    if half == 1 then DateOf(Year(base), MonthNumber(base), 16) else base
  }

  /** The start of the period n steps on. start is a period start. */
  function Advance(s: Sequence, start: int, n: int): int {
    match s.length
    case Month => AddMonths(start, n)
    case Quarter => AddMonths(start, 3 * n)
    case SemiMonth => AdvanceHalf(start, n)
    case Week => start + 7 * n
  }

  predicate IsStart(s: Sequence, d: int) {
    PeriodStart(s, d) == d
  }

  // ----- Periods by number -----

  /** The start of period number i. */
  function StartOf(s: Sequence, i: int): int {
    hide *;
    match s.length
    case Month => MonthStart(i)
    case Quarter => MonthStart(3 * i)
    case SemiMonth => MonthStart(i / 2) + (if i % 2 == 1 then 15 else 0)
    case Week => s.anchor + 7 * i
  }

  /** The number of the period containing d. */
  function NumberOf(s: Sequence, d: int): int {
    hide *;
    match s.length
    case Month => MonthOf(d)
    case Quarter => MonthOf(d) / 3
    case SemiMonth => 2 * MonthOf(d) + (if Day(d) <= 15 then 0 else 1)
    case Week => (d - s.anchor) / 7
  }

  // The first and last week the day count reaches.
  const FIRST_WEEK: int := -15_251
  const LAST_WEEK: int := 15_250

  /** The day's period is one the day count reaches: always, but for weeks some 292 years from the anchor. */
  predicate InReach(s: Sequence, d: int) {
    s.length.Week? ==> 7 * FIRST_WEEK <= d - s.anchor < 7 * LAST_WEEK + 7
  }

  /** The period number the code settles on: weeks out of reach fold onto the last one in reach. */
  function Kept(s: Sequence, i: int): int {
    if s.length.Week? then Clamp(i, FIRST_WEEK, LAST_WEEK) else i
  }

  lemma BucketFloors(days: int)
    ensures WeekBucket(days) == days / 7
  {
  }

  lemma QuarterStart(i: int)
    ensures 12 * (i / 12) + (i % 12) / 3 * 3 == 3 * (i / 3)
  {
  }

  lemma StartsIncrease(s: Sequence, i: int)
    ensures StartOf(s, i) < StartOf(s, i + 1)
  {
    hide MonthStart;
    match s.length
    case Month => MonthsIncrease(i, i + 1);
    case Quarter => MonthsIncrease(3 * i, 3 * i + 3);
    case SemiMonth =>
      MonthsIncrease(i / 2, i / 2 + 1);
      HalfSteps(i);
    case Week =>
  }

  lemma HalfSteps(i: int)
    ensures if i % 2 == 1 then (i + 1) / 2 == i / 2 + 1 && (i + 1) % 2 == 0 else (i + 1) / 2 == i / 2 && (i + 1) % 2 == 1
  {
  }

  lemma {:induction false} StartsInOrder(s: Sequence, i: int, j: int)
    requires i < j
    ensures StartOf(s, i) < StartOf(s, j)
    decreases j - i
  {
    hide StartOf;
    StartsIncrease(s, j - 1);
    if i < j - 1 { StartsInOrder(s, i, j - 1); }
  }

  lemma SameStart(s: Sequence, i: int, j: int)
    ensures StartOf(s, i) == StartOf(s, j) <==> i == j
    ensures StartOf(s, i) < StartOf(s, j) <==> i < j
  {
    hide StartOf;
    if i < j { StartsInOrder(s, i, j); }
    if j < i { StartsInOrder(s, j, i); }
  }

  /** The day lies in the period its number names. */
  lemma DayIsNumbered(s: Sequence, d: int)
    ensures StartOf(s, NumberOf(s, d)) <= d < StartOf(s, NumberOf(s, d) + 1)
  {
    hide MonthOf, MonthStart;
    var m := MonthOf(d);
    assert MonthStart(m) <= d < MonthStart(m + 1);
    match s.length
    case Month =>
    case Quarter =>
      hide *;
      InQuarter(d, m);
    case SemiMonth =>
      HalfNumber(m);
    case Week =>
  }

  /** The code gives a day the period of its number, but for weeks out of reach. */
  lemma StartIsNumbered(s: Sequence, d: int)
    ensures PeriodStart(s, d) == StartOf(s, Kept(s, NumberOf(s, d)))
    ensures Kept(s, NumberOf(s, d)) == NumberOf(s, d) <==> InReach(s, d)
  {
    CivilRoundTrip(d);
    hide MonthOf, MonthStart, DaysBetween, WeekBucket;
    match s.length
    case Month =>
    case Quarter => QuarterStart(MonthOf(d));
    case SemiMonth => HalfNumber(MonthOf(d));
    case Week =>
      hide *;
      WeekIsNumbered(s, d);
  }

  lemma WeekIsNumbered(s: Sequence, d: int)
    requires s.length.Week?
    ensures PeriodStart(s, d) == StartOf(s, Kept(s, NumberOf(s, d)))
    ensures Kept(s, NumberOf(s, d)) == NumberOf(s, d) <==> InReach(s, d)
  {
    hide MonthOf, Day, DaysBetween, WeekBucket;
    DaysAreClamped(d, s.anchor);
    BucketFloors(Clamp(d - s.anchor, -MAX_DAYS, MAX_DAYS));
  }

  lemma InQuarter(d: int, m: int)
    requires MonthStart(m) <= d < MonthStart(m + 1)
    ensures MonthStart(3 * (m / 3)) <= d < MonthStart(3 * (m / 3 + 1))
  {
    hide MonthStart;
    MonthsIncrease(3 * (m / 3), m);
    MonthsIncrease(m + 1, 3 * (m / 3 + 1));
  }

  lemma HalfNumber(m: int)
    ensures (2 * m) / 2 == m && (2 * m) % 2 == 0 && (2 * m + 1) / 2 == m && (2 * m + 1) % 2 == 1
    ensures (2 * m + 2) / 2 == m + 1 && (2 * m + 2) % 2 == 0
  {
  }

  // ----- Stepping -----

  lemma FirstAndMiddle(m: int)
    ensures MonthOf(MonthStart(m)) == m && Day(MonthStart(m)) == 1
    ensures MonthOf(MonthStart(m) + 15) == m && Day(MonthStart(m) + 15) == 16
  {
    hide MonthStart, MonthOf;
    MonthsIncrease(m, m + 1);
    MonthIsUnique(MonthStart(m), m);
    MonthIsUnique(MonthStart(m) + 15, m);
  }

  lemma MonthsOn(m: int, n: int)
    ensures AddMonths(MonthStart(m), n) == MonthStart(m + n)
  {
    FirstAndMiddle(m);
    CivilRoundTrip(MonthStart(m));
    hide MonthStart, MonthOf, Year, MonthNumber, Day;
  }

  lemma HalvesOn(m: int, h: int, n: int)
    requires 0 <= h <= 1
    ensures AdvanceHalf(MonthStart(m) + 15 * h, n) == MonthStart(m + (h + n) / 2) + 15 * ((h + n) % 2)
  {
    hide MonthStart, MonthOf, Year, MonthNumber, Day, AddMonths, Div, Rem;
    var start, q, r := MonthStart(m) + 15 * h, (h + n) / 2, (h + n) % 2;
    FloorHalf(h + n);
    FirstAndMiddle(m);
    CivilRoundTrip(start);
    assert DateOf(Year(start), MonthNumber(start), 1) == MonthStart(m);
    MonthsOn(m, q);
    FirstAndMiddle(m + q);
    CivilRoundTrip(MonthStart(m + q));
  }

  lemma FloorHalf(x: int)
    ensures if Rem(x, 2) < 0 then Div(x, 2) - 1 == x / 2 && Rem(x, 2) + 2 == x % 2 else Div(x, 2) == x / 2 && Rem(x, 2) == x % 2
  {
  }

  lemma HalvesAdd(i: int, n: int)
    ensures (i + n) / 2 == i / 2 + (i % 2 + n) / 2 && (i + n) % 2 == (i % 2 + n) % 2
  {
  }

  /** Stepping from a period's start adds to its number. */
  lemma AdvanceCounts(s: Sequence, i: int, n: int)
    ensures Advance(s, StartOf(s, i), n) == StartOf(s, i + n)
  {
    hide MonthStart, AddMonths, AdvanceHalf;
    match s.length
    case Month => MonthsOn(i, n);
    case Quarter => MonthsOn(3 * i, 3 * n);
    case SemiMonth =>
      HalvesOn(i / 2, i % 2, n);
      HalvesAdd(i, n);
    case Week =>
  }

  /** Every number is that of its own start, which the code returns for itself when in reach. */
  lemma NumberOfStart(s: Sequence, i: int)
    ensures NumberOf(s, StartOf(s, i)) == i
    ensures IsStart(s, StartOf(s, i)) <==> Kept(s, i) == i
    ensures InReach(s, StartOf(s, i)) <==> Kept(s, i) == i
  {
    hide StartOf, NumberOf, PeriodStart, InReach, Kept;
    var d := StartOf(s, i);
    DayIsNumbered(s, d);
    SameStart(s, NumberOf(s, d), i);
    SameStart(s, i, NumberOf(s, d) + 1);
    StartIsNumbered(s, d);
    SameStart(s, Kept(s, i), i);
  }

  // ----- Laws -----

  /** Stepping acts on period starts as addition does on the integers. */
  lemma AdvanceIsAddition(s: Sequence, start: int, a: int, b: int)
    requires IsStart(s, start)
    ensures IsStart(s, Advance(s, start, a)) <==> InReach(s, Advance(s, start, a))
    ensures Advance(s, start, 0) == start
    ensures Advance(s, Advance(s, start, a), b) == Advance(s, start, a + b)
    ensures a < b ==> Advance(s, start, a) < Advance(s, start, b)
  {
    hide StartOf, NumberOf, Advance, PeriodStart, InReach, Kept;
    StartIsNumbered(s, start);
    var i := Kept(s, NumberOf(s, start));
    AdvanceCounts(s, i, 0);
    AdvanceCounts(s, i, a);
    AdvanceCounts(s, i, b);
    AdvanceCounts(s, i, a + b);
    AdvanceCounts(s, i + a, b);
    NumberOfStart(s, i + a);
    SameStart(s, i + a, i + b);
  }

  /** A day lies in its own period exactly when that is in reach, and never in another. */
  lemma PeriodsTile(s: Sequence, d: int, start: int)
    ensures IsStart(s, PeriodStart(s, d))
    ensures PeriodStart(s, d) <= d < Advance(s, PeriodStart(s, d), 1) <==> InReach(s, d)
    ensures IsStart(s, start) && start <= d < Advance(s, start, 1) ==> start == PeriodStart(s, d)
  {
    hide StartOf, NumberOf, Advance, PeriodStart, InReach;
    DayIsNumbered(s, d);
    StartIsNumbered(s, d);
    var i, k := NumberOf(s, d), Kept(s, NumberOf(s, d));
    NumberOfStart(s, k);
    AdvanceCounts(s, k, 1);
    InOnePeriod(s, d, i, k);
    if IsStart(s, start) && start <= d < Advance(s, start, 1) {
      StartIsNumbered(s, start);
      var j := Kept(s, NumberOf(s, start));
      AdvanceCounts(s, j, 1);
      InOnePeriod(s, d, i, j);
    }
  }

  lemma InOnePeriod(s: Sequence, d: int, i: int, j: int)
    requires StartOf(s, i) <= d < StartOf(s, i + 1)
    ensures StartOf(s, j) <= d < StartOf(s, j + 1) <==> i == j
  {
    hide StartOf;
    SameStart(s, i, j + 1);
    SameStart(s, j, i + 1);
  }

  /** A weekly plan that starts on 1 January 1700 files a day of 2025 under a week of 1992. */
  lemma FarWeekIsMisfiled()
    ensures var s, d := Sequence(Week, DateOf(1700, 1, 1)), DateOf(2025, 1, 1);
            Year(PeriodStart(s, d)) == 1992 && !InReach(s, d)
  {
    hide *;
    January(1700);
    January(2025);
    FarYears();
    FarWeek(Sequence(Week, 620913), 739617);
    YearIs(727663, 1992);
  }

  lemma FarYears()
    ensures YearStart(1700) == 620913 && YearStart(1992) == 727563 && YearStart(1993) == 727929 && YearStart(2025) == 739617
  {
  }

  lemma FarWeek(s: Sequence, d: int)
    requires s.length.Week? && d == s.anchor + 118704
    ensures PeriodStart(s, d) == s.anchor + 106750 && !InReach(s, d)
  {
    hide MonthOf, Day, DaysBetween;
    DaysAreClamped(d, s.anchor);
  }

  lemma YearIs(d: int, y: int)
    requires YearStart(y) <= d < YearStart(y + 1)
    ensures Year(d) == y
  {
    hide YearStart, Year;
    YearContains(d);
    if Year(d) < y { YearsIncrease(Year(d) + 1, y); }
    if Year(d) > y { YearsIncrease(y + 1, Year(d)); }
  }

  lemma January(y: int)
    ensures DateOf(y, 1, 1) == YearStart(y)
  {
    hide MonthStart;
    JanuaryStarts(y);
  }

  lemma AnchorIsFirst(s: Sequence)
    requires s.length.Week?
    ensures NumberOf(s, s.anchor) == 0
  {
    hide MonthOf, Day;
  }

  /** A day is before the plan's start exactly when it is before the first day of the plan's first period. */
  lemma BeforeStart(s: Sequence, d: int)
    ensures PeriodStart(s, d) < PeriodStart(s, s.anchor) <==> d < PeriodStart(s, s.anchor)
  {
    hide StartOf, NumberOf, PeriodStart;
    var i, j := NumberOf(s, d), NumberOf(s, s.anchor);
    if s.length.Week? { AnchorIsFirst(s); }
    DayIsNumbered(s, d);
    StartIsNumbered(s, d);
    StartIsNumbered(s, s.anchor);
    SameStart(s, Kept(s, i), j);
    SameStart(s, i + 1, j);
    SameStart(s, i, j);
  }

  /** The starts of the periods from the one containing from to the one containing until. */
  method PeriodStartsInRange(s: Sequence, from: int, until: int) returns (starts: seq<int>)
    ensures starts == [] <==> from > until
    ensures from <= until ==> Lists(s, starts, from, until)
  {
    hide StartOf, NumberOf, Advance, PeriodStart, Kept;
    starts := [];
    if from > until {
      return;
    }
    StartIsNumbered(s, from);
    StartIsNumbered(s, until);
    ghost var i, j := Kept(s, NumberOf(s, from)), Kept(s, NumberOf(s, until));
    KeptInOrder(s, from, until);
    var cur, end := PeriodStart(s, from), PeriodStart(s, until);
    while cur <= end
      invariant cur == StartOf(s, i + |starts|) && i + |starts| <= j + 1
      invariant forall k :: 0 <= k < |starts| ==> starts[k] == StartOf(s, i + k)
      invariant forall k :: 0 <= k < |starts| - 1 ==> starts[k + 1] == Advance(s, starts[k], 1)
      decreases j - i - |starts| + 1
    {
      SameStart(s, i + |starts|, j);
      AdvanceCounts(s, i + |starts|, 1);
      if starts != [] { AdvanceCounts(s, i + |starts| - 1, 1); }
      starts := starts + [cur];
      cur := Advance(s, cur, 1);
    }
    SameStart(s, i + |starts|, j);
    assert i + |starts| == j + 1;
  }

  /** The starts step one period at a time from the period of from to that of until. */
  predicate Lists(s: Sequence, starts: seq<int>, from: int, until: int) {
    && starts != [] && starts[0] == PeriodStart(s, from) && starts[|starts| - 1] == PeriodStart(s, until)
    && forall k :: 0 <= k < |starts| - 1 ==> starts[k + 1] == Advance(s, starts[k], 1)
  }

  /** A later day never has an earlier period. */
  lemma KeptInOrder(s: Sequence, d: int, e: int)
    requires d <= e
    ensures Kept(s, NumberOf(s, d)) <= Kept(s, NumberOf(s, e))
  {
    hide StartOf, NumberOf;
    DayIsNumbered(s, d);
    DayIsNumbered(s, e);
    SameStart(s, NumberOf(s, d), NumberOf(s, e) + 1);
  }

  /**
   * Each start listed is a period start, in order. Each day of the range has
   * its period listed, and lies in a listed period exactly when in reach.
   */
  lemma RangeIsTiled(s: Sequence, starts: seq<int>, from: int, until: int, d: int)
    requires Lists(s, starts, from, until) && from <= d <= until
    ensures forall k :: 0 <= k < |starts| ==> IsStart(s, starts[k])
    ensures forall j, k :: 0 <= j < k < |starts| ==> starts[j] < starts[k]
    ensures PeriodStart(s, d) in starts
    ensures (exists k :: 0 <= k < |starts| && starts[k] <= d < Advance(s, starts[k], 1)) <==> InReach(s, d)
  {
    hide StartOf, NumberOf, Advance, PeriodStart, Kept, InReach;
    var i, k, j := Kept(s, NumberOf(s, from)), Kept(s, NumberOf(s, d)), Kept(s, NumberOf(s, until));
    StartIsNumbered(s, from);
    StartIsNumbered(s, d);
    StartIsNumbered(s, until);
    KeptInOrder(s, from, d);
    KeptInOrder(s, d, until);
    forall a | 0 <= a < |starts| ensures starts[a] == StartOf(s, i + a) { ListedByNumber(s, starts, i, a); }
    SameStart(s, i + |starts| - 1, j);
    forall a, b | 0 <= a < b < |starts| ensures starts[a] < starts[b] { SameStart(s, i + a, i + b); }
    assert starts[k - i] == PeriodStart(s, d);
    forall a | 0 <= a < |starts|
      ensures IsStart(s, starts[a])
      ensures starts[a] <= d < Advance(s, starts[a], 1) ==> InReach(s, d)
    {
      StartIsKept(s, NumberOf(s, from), NumberOf(s, until), i + a);
      PeriodsTile(s, d, starts[a]);
    }
    PeriodsTile(s, d, d);
  }

  lemma {:induction false} ListedByNumber(s: Sequence, starts: seq<int>, i: int, a: nat)
    requires a < |starts| && starts[0] == StartOf(s, i)
    requires forall k :: 0 <= k < |starts| - 1 ==> starts[k + 1] == Advance(s, starts[k], 1)
    ensures starts[a] == StartOf(s, i + a)
  {
    hide StartOf, Advance;
    if a > 0 {
      ListedByNumber(s, starts, i, a - 1);
      AdvanceCounts(s, i + a - 1, 1);
      assert starts[a - 1 + 1] == Advance(s, starts[a - 1], 1);
    }
  }

  /** Between two numbers the code settles on lie only such numbers. */
  lemma StartIsKept(s: Sequence, i: int, j: int, k: int)
    requires Kept(s, i) <= k <= Kept(s, j)
    ensures IsStart(s, StartOf(s, k))
  {
    hide StartOf, NumberOf, PeriodStart;
    NumberOfStart(s, k);
  }
}
