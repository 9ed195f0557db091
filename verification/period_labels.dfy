/**
 * Period labels, and why they sort as text in the order of time.
 */
module PeriodLabels {
  import opened Calendar
  import opened Period

  // ----- Text order -----

  predicate Less(a: string, b: string) {
    if b == "" then false
    else if a == "" then true
    else a[0] < b[0] || (a[0] == b[0] && Less(a[1..], b[1..]))
  }

  /** Text of one length decides first; what follows it decides only when it is the same. */
  lemma {:induction false} LessConcat(x: string, u: string, y: string, v: string)
    requires |x| == |y|
    ensures Less(x + u, y + v) <==> Less(x, y) || (x == y && Less(u, v))
  {
    if x == "" {
      assert x + u == u && y + v == v;
    } else {
      LessConcat(x[1..], u, y[1..], v);
      assert (x + u)[1..] == x[1..] + u && (y + v)[1..] == y[1..] + v;
      assert x == [x[0]] + x[1..] && y == [y[0]] + y[1..];
    }
  }

  lemma {:induction false} NotLessThanItself(x: string)
    ensures !Less(x, x)
  {
    if x != "" { NotLessThanItself(x[1..]); }
  }

  // ----- Numbers with leading zeros -----

  function Digit(n: int): char
    requires 0 <= n < 10
  {
    (('0' as int) + n) as char
  }

  function Pad(n: nat, width: nat): (r: string)
    ensures |r| == width
  {
    if width == 0 then "" else Pad(n / 10, width - 1) + [Digit(n % 10)]
  }

  function Ten(width: nat): (r: nat)
    ensures r >= 1
  {
    if width == 0 then 1 else 10 * Ten(width - 1)
  }

  /** Numbers that fit the width sort as text the way they sort as numbers. */
  lemma {:induction false} PadOrder(a: nat, b: nat, width: nat)
    requires a < Ten(width) && b < Ten(width)
    ensures Less(Pad(a, width), Pad(b, width)) <==> a < b
    ensures Pad(a, width) == Pad(b, width) <==> a == b
  {
    if width > 0 {
      PadOrder(a / 10, b / 10, width - 1);
      var x, y := Pad(a / 10, width - 1), Pad(b / 10, width - 1);
      LessConcat(x, [Digit(a % 10)], y, [Digit(b % 10)]);
      assert Less([Digit(a % 10)], [Digit(b % 10)]) <==> a % 10 < b % 10;
      if Pad(a, width) == Pad(b, width) {
        assert x == Pad(a, width)[..width - 1] && y == Pad(b, width)[..width - 1];
        assert Pad(a, width)[width - 1] == Pad(b, width)[width - 1];
      }
    }
  }

  lemma PartsOrder(x: string, y: string, sep: string, a: nat, b: nat, width: nat)
    requires |x| == |y| && a < Ten(width) && b < Ten(width)
    ensures Less(x + sep + Pad(a, width), y + sep + Pad(b, width)) <==> Less(x, y) || (x == y && a < b)
    ensures x + sep + Pad(a, width) == y + sep + Pad(b, width) <==> x == y && a == b
  {
    LessConcat(x + sep, Pad(a, width), y + sep, Pad(b, width));
    LessConcat(x, sep, y, sep);
    NotLessThanItself(sep);
    PadOrder(a, b, width);
    if x + sep + Pad(a, width) == y + sep + Pad(b, width) {
      var l, r := x + sep + Pad(a, width), y + sep + Pad(b, width);
      assert l[..|x|] == x && r[..|y|] == y;
      assert l[|x + sep|..] == Pad(a, width) && r[|y + sep|..] == Pad(b, width);
    }
    assert x + sep == y + sep ==> (x + sep)[..|x|] == (y + sep)[..|y|];
    assert (x + sep)[..|x|] == x && (y + sep)[..|y|] == y;
  }

  // ----- Labels -----

  /** The year a period's label carries. */
  function LabelYear(s: Sequence, d: int): int {
    if s.length.Week? then IsoYear(PeriodStart(s, d)) else Year(PeriodStart(s, d))
  }

  predicate FourDigits(y: int) {
    0 <= y < 10000
  }

  function Decimal(n: nat): string {
    if n < 10 then [Digit(n)] else Decimal(n / 10) + [Digit(n % 10)]
  }

  /** The year, padded to four digits. A longer or negative year takes the room it needs. */
  function YearText(y: int): string {
    if FourDigits(y) then Pad(y, 4) else if y < 0 then "-" + Decimal(-y) else Decimal(y)
  }

  /** The label of the period containing d. */
  function Label(s: Sequence, d: int): string {
    hide *;
    var start := PeriodStart(s, d);
    var year := YearText(LabelYear(s, d));
    match s.length
    case Month => year + "-" + Pad(MonthNumber(start), 2)
    case Quarter => year + "-Q" + Pad((MonthNumber(start) - 1) / 3 + 1, 1)
    case SemiMonth => year + "-" + Pad(MonthNumber(start), 2) + "-H" + Pad(if Day(start) == 16 then 2 else 1, 1)
    case Week =>
      IsoWeekInRange(start);
      year + "-W" + Pad(IsoWeek(start), 2)
  }

  // ----- Reading a label back -----

  /** The number the digits write. */
  function Read(text: string): int {
    if text == "" then 0 else 10 * Read(text[..|text| - 1]) + (text[|text| - 1] as int - '0' as int)
  }

  lemma ReadNext(text: string, digit: int)
    requires 0 <= digit < 10
    ensures Read(text + [Digit(digit)]) == 10 * Read(text) + digit
  {
    assert (text + [Digit(digit)])[..|text|] == text;
  }

  lemma {:induction false} PadReads(n: nat, width: nat)
    requires n < Ten(width)
    ensures Read(Pad(n, width)) == n
  {
    if width > 0 {
      PadReads(n / 10, width - 1);
      ReadNext(Pad(n / 10, width - 1), n % 10);
    }
  }

  /** A label spells out its period's first day: the ISO year and week, or the year and the month, quarter or half. */
  lemma LabelSays(s: Sequence, d: int)
    requires FourDigits(if s.length.Week? then IsoYear(PeriodStart(s, d)) else Year(PeriodStart(s, d)))
    ensures var text, start := Label(s, d), PeriodStart(s, d);
            match s.length
            case Month => |text| == 7 && Read(text[..4]) == Year(start) && text[4..5] == "-" && Read(text[5..]) == MonthNumber(start)
            case Quarter =>
              |text| == 7 && Read(text[..4]) == Year(start) && text[4..6] == "-Q" && Read(text[6..]) == (MonthNumber(start) + 2) / 3
            case SemiMonth =>
              && |text| == 10 && Read(text[..4]) == Year(start) && text[4..5] == "-" && Read(text[5..7]) == MonthNumber(start)
              && text[7..9] == "-H" && Read(text[9..]) == if Day(start) <= 15 then 1 else 2
            case Week => |text| == 8 && Read(text[..4]) == IsoYear(start) && text[4..6] == "-W" && Read(text[6..]) == IsoWeek(start)
  {
    hide Year, MonthNumber, Day, IsoYear, IsoWeek, PeriodStart, Pad, Read, Ten;
    Tens();
    var start := PeriodStart(s, d);
    var year := LabelYear(s, d);
    PadReads(year, 4);
    match s.length
    case Month =>
      PadReads(MonthNumber(start), 2);
      Cut3(Pad(year, 4), "-", Pad(MonthNumber(start), 2));
    case Quarter =>
      PadReads((MonthNumber(start) - 1) / 3 + 1, 1);
      Cut3(Pad(year, 4), "-Q", Pad((MonthNumber(start) - 1) / 3 + 1, 1));
    case SemiMonth =>
      HalfStart(s, d);
      var half := if Day(start) == 16 then 2 else 1;
      PadReads(MonthNumber(start), 2);
      PadReads(half, 1);
      var month := Pad(year, 4) + "-" + Pad(MonthNumber(start), 2);
      Cut3(Pad(year, 4), "-", Pad(MonthNumber(start), 2));
      Cut3(month, "-H", Pad(half, 1));
      assert Label(s, d) == month + "-H" + Pad(half, 1);
      assert Label(s, d)[..7] == month;
      assert Label(s, d)[..4] == month[..4] && Label(s, d)[4..5] == month[4..5] && Label(s, d)[5..7] == month[5..];
    case Week =>
      IsoWeekInRange(start);
      PadReads(IsoWeek(start), 2);
      Cut3(Pad(year, 4), "-W", Pad(IsoWeek(start), 2));
  }

  lemma Cut3(a: string, b: string, c: string)
    ensures var all := a + b + c;
            |all| == |a| + |b| + |c| && all[..|a|] == a && all[|a|..|a| + |b|] == b && all[|a| + |b|..] == c
  {
  }

  /** A half starts on the 1st or the 16th. */
  lemma HalfStart(s: Sequence, d: int)
    requires s.length.SemiMonth?
    ensures Day(PeriodStart(s, d)) == 1 || Day(PeriodStart(s, d)) == 16
  {
    hide PeriodStart, StartOf, NumberOf, MonthStart, MonthOf, Day;
    StartIsNumbered(s, d);
    FieldsOf(s, Kept(s, NumberOf(s, d)));
  }

  lemma MonthParts(i: int, j: int)
    ensures i < j <==> i / 12 < j / 12 || (i / 12 == j / 12 && i % 12 < j % 12)
  {
  }

  lemma QuarterParts(i: int, j: int)
    ensures i < j <==> (3 * i) / 12 < (3 * j) / 12 || ((3 * i) / 12 == (3 * j) / 12 && ((3 * i) % 12) / 3 < ((3 * j) % 12) / 3)
  {
    QuarterOfYear(i);
    QuarterOfYear(j);
  }

  lemma QuarterOfYear(i: int)
    ensures (3 * i) / 12 == i / 4 && ((3 * i) % 12) / 3 == i % 4
  {
  }

  lemma HalfParts(i: int, j: int)
    ensures i < j <==> i / 2 < j / 2 || (i / 2 == j / 2 && i % 2 < j % 2)
  {
  }

  lemma Tens()
    ensures Ten(1) == 10 && Ten(2) == 100 && Ten(4) == 10000
  {
    assert Ten(0) == 1;
    assert Ten(3) == 1000;
  }

  /** The calendar fields of a numbered period's start. */
  lemma FieldsOf(s: Sequence, i: int)
    requires !s.length.Week?
    ensures var d := StartOf(s, i);
            var m := if s.length.Month? then i else if s.length.Quarter? then 3 * i else i / 2;
            Year(d) == m / 12 && MonthNumber(d) == m % 12 + 1 && Day(d) == if s.length.SemiMonth? && i % 2 == 1 then 16 else 1
  {
    hide MonthStart, MonthOf, Day;
    FirstAndMiddle(if s.length.Month? then i else if s.length.Quarter? then 3 * i else i / 2);
  }

  // Two numbered periods' labels sort as their numbers do, cadence by cadence.

  lemma MonthLabels(s: Sequence, a: int, b: int, i: int, j: int)
    requires s.length.Month? && FourDigits(LabelYear(s, a)) && FourDigits(LabelYear(s, b))
    requires PeriodStart(s, a) == StartOf(s, i) && PeriodStart(s, b) == StartOf(s, j)
    ensures Less(Label(s, a), Label(s, b)) <==> i < j
    ensures Label(s, a) == Label(s, b) <==> i == j
  {
    hide MonthStart, MonthOf, Year, MonthNumber, Day, Pad, Less, Ten, IsoYear, IsoWeek, PeriodStart, StartOf;
    Tens();
    var x, y, d, e := LabelYear(s, a), LabelYear(s, b), StartOf(s, i), StartOf(s, j);
    PadOrder(x, y, 4);
    FieldsOf(s, i);
    FieldsOf(s, j);
    MonthParts(i, j);
    PartsOrder(Pad(x, 4), Pad(y, 4), "-", MonthNumber(d), MonthNumber(e), 2);
  }

  lemma QuarterLabels(s: Sequence, a: int, b: int, i: int, j: int)
    requires s.length.Quarter? && FourDigits(LabelYear(s, a)) && FourDigits(LabelYear(s, b))
    requires PeriodStart(s, a) == StartOf(s, i) && PeriodStart(s, b) == StartOf(s, j)
    ensures Less(Label(s, a), Label(s, b)) <==> i < j
    ensures Label(s, a) == Label(s, b) <==> i == j
  {
    hide MonthStart, MonthOf, Year, MonthNumber, Day, Pad, Less, Ten, IsoYear, IsoWeek, PeriodStart, StartOf;
    Tens();
    var x, y, d, e := LabelYear(s, a), LabelYear(s, b), StartOf(s, i), StartOf(s, j);
    PadOrder(x, y, 4);
    FieldsOf(s, i);
    FieldsOf(s, j);
    QuarterParts(i, j);
    QuarterParts(j, i);
    PartsOrder(Pad(x, 4), Pad(y, 4), "-Q", (MonthNumber(d) - 1) / 3 + 1, (MonthNumber(e) - 1) / 3 + 1, 1);
  }

  lemma HalfLabels(s: Sequence, a: int, b: int, i: int, j: int)
    requires s.length.SemiMonth? && FourDigits(LabelYear(s, a)) && FourDigits(LabelYear(s, b))
    requires PeriodStart(s, a) == StartOf(s, i) && PeriodStart(s, b) == StartOf(s, j)
    ensures Less(Label(s, a), Label(s, b)) <==> i < j
    ensures Label(s, a) == Label(s, b) <==> i == j
  {
    hide MonthStart, MonthOf, Year, MonthNumber, Day, Pad, Less, Ten, IsoYear, IsoWeek, PeriodStart, StartOf;
    Tens();
    var x, y, d, e := LabelYear(s, a), LabelYear(s, b), StartOf(s, i), StartOf(s, j);
    PadOrder(x, y, 4);
    FieldsOf(s, i);
    FieldsOf(s, j);
    MonthParts(i / 2, j / 2);
    HalfParts(i, j);
    HalfParts(j, i);
    PartsOrder(Pad(x, 4), Pad(y, 4), "-", MonthNumber(d), MonthNumber(e), 2);
    PartsOrder(Pad(x, 4) + "-" + Pad(MonthNumber(d), 2), Pad(y, 4) + "-" + Pad(MonthNumber(e), 2), "-H",
               if Day(d) == 16 then 2 else 1, if Day(e) == 16 then 2 else 1, 1);
  }

  lemma WeekLabels(s: Sequence, a: int, b: int, i: int, j: int)
    requires s.length.Week? && FourDigits(LabelYear(s, a)) && FourDigits(LabelYear(s, b))
    requires PeriodStart(s, a) == StartOf(s, i) && PeriodStart(s, b) == StartOf(s, j)
    ensures Less(Label(s, a), Label(s, b)) <==> i < j
    ensures Label(s, a) == Label(s, b) <==> i == j
  {
    hide MonthStart, MonthOf, Year, MonthNumber, Day, Pad, Less, Ten, IsoYear, IsoWeek, PeriodStart, StartOf;
    Tens();
    var x, y, d, e := LabelYear(s, a), LabelYear(s, b), StartOf(s, i), StartOf(s, j);
    PadOrder(x, y, 4);
    IsoWeekInRange(d);
    IsoWeekInRange(e);
    WeekParts(s, i, j);
    PartsOrder(Pad(x, 4), Pad(y, 4), "-W", IsoWeek(d), IsoWeek(e), 2);
  }

  lemma WeekParts(s: Sequence, i: int, j: int)
    requires s.length.Week?
    ensures var d, e := StartOf(s, i), StartOf(s, j);
            && (i < j <==> IsoYear(d) < IsoYear(e) || (IsoYear(d) == IsoYear(e) && IsoWeek(d) < IsoWeek(e)))
            && (i == j <==> IsoYear(d) == IsoYear(e) && IsoWeek(d) == IsoWeek(e))
  {
    hide IsoYear, IsoWeek;
    var d, e := StartOf(s, i), StartOf(s, j);
    if i < j { IsoWeeksIncrease(d, j - i); }
    if j < i { IsoWeeksIncrease(e, i - j); }
  }

  /** Weekly days so far past the same end of the day count that they fold onto one week. */
  predicate Folded(s: Sequence, a: int, b: int) {
    s.length.Week? && ((a - s.anchor >= 7 * LAST_WEEK && b - s.anchor >= 7 * LAST_WEEK)
                       || (a - s.anchor < 7 * FIRST_WEEK + 7 && b - s.anchor < 7 * FIRST_WEEK + 7))
  }

  /** Labels follow the period starts the code settles on. */
  lemma LabelsFollowStarts(s: Sequence, a: int, b: int)
    requires FourDigits(LabelYear(s, a)) && FourDigits(LabelYear(s, b))
    ensures Less(Label(s, a), Label(s, b)) <==> Kept(s, NumberOf(s, a)) < Kept(s, NumberOf(s, b))
    ensures Label(s, a) == Label(s, b) <==> Kept(s, NumberOf(s, a)) == Kept(s, NumberOf(s, b))
  {
    hide PeriodStart, StartOf, NumberOf, Label, LabelYear, Kept;
    StartIsNumbered(s, a);
    StartIsNumbered(s, b);
    var i, j := Kept(s, NumberOf(s, a)), Kept(s, NumberOf(s, b));
    match s.length
    case Month => MonthLabels(s, a, b, i, j);
    case Quarter => QuarterLabels(s, a, b, i, j);
    case SemiMonth => HalfLabels(s, a, b, i, j);
    case Week => WeekLabels(s, a, b, i, j);
  }

  lemma FoldedIsKept(s: Sequence, a: int, b: int)
    ensures Kept(s, NumberOf(s, a)) < Kept(s, NumberOf(s, b)) <==> NumberOf(s, a) < NumberOf(s, b) && !Folded(s, a, b)
    ensures Kept(s, NumberOf(s, a)) == Kept(s, NumberOf(s, b)) <==> NumberOf(s, a) == NumberOf(s, b) || Folded(s, a, b)
  {
    hide MonthOf, Day;
  }

  /**
   * Labels sort in the order of time, and two days share a label exactly when
   * they share a period, but for weeks folded onto one.
   */
  lemma LabelsSortInTime(s: Sequence, a: int, b: int)
    requires FourDigits(LabelYear(s, a)) && FourDigits(LabelYear(s, b))
    ensures Less(Label(s, a), Label(s, b)) <==> NumberOf(s, a) < NumberOf(s, b) && !Folded(s, a, b)
    ensures Label(s, a) == Label(s, b) <==> NumberOf(s, a) == NumberOf(s, b) || Folded(s, a, b)
  {
    hide *;
    LabelsFollowStarts(s, a, b);
    FoldedIsKept(s, a, b);
  }

  /** The start of the i-th period before the one containing d. */
  function Prior(s: Sequence, d: int, i: int): int {
    Advance(s, PeriodStart(s, d), -i)
  }

  /** The labels of the n periods before the one containing d, the most recent first. */
  method PriorLabels(s: Sequence, d: int, n: int) returns (labels: seq<string>)
    ensures |labels| == if n <= 0 then 0 else n
    ensures forall i :: 0 <= i < |labels| ==> labels[i] == Label(s, Prior(s, d, i + 1))
    ensures forall i, j :: 0 <= i < j < |labels| ==>
              FourDigits(LabelYear(s, Prior(s, d, i + 1))) && FourDigits(LabelYear(s, Prior(s, d, j + 1))) ==>
                if Folded(s, Prior(s, d, i + 1), Prior(s, d, j + 1)) then labels[j] == labels[i] else Less(labels[j], labels[i])
  {
    hide PeriodStart, Advance, Label, LabelYear, FourDigits, Less, Folded;
    labels := [];
    if n <= 0 {
      return;
    }
    for i := 1 to n + 1
      invariant |labels| == i - 1
      invariant forall k :: 0 <= k < |labels| ==> labels[k] == Label(s, Prior(s, d, k + 1))
    {
      labels := labels + [Label(s, Advance(s, PeriodStart(s, d), -i))];
    }
    forall i, j | 0 <= i < j < |labels| && FourDigits(LabelYear(s, Prior(s, d, i + 1))) && FourDigits(LabelYear(s, Prior(s, d, j + 1)))
      ensures if Folded(s, Prior(s, d, i + 1), Prior(s, d, j + 1)) then labels[j] == labels[i] else Less(labels[j], labels[i])
    {
      PriorOrder(s, d, i + 1, j + 1);
    }
  }

  lemma PriorOrder(s: Sequence, d: int, i: int, j: int)
    requires i < j && FourDigits(LabelYear(s, Prior(s, d, i))) && FourDigits(LabelYear(s, Prior(s, d, j)))
    ensures var near, far := Label(s, Prior(s, d, i)), Label(s, Prior(s, d, j));
            if Folded(s, Prior(s, d, i), Prior(s, d, j)) then far == near else Less(far, near)
  {
    hide PeriodStart, StartOf, NumberOf, Advance, Label, LabelYear, FourDigits, Less, Kept;
    StartIsNumbered(s, d);
    var k := Kept(s, NumberOf(s, d));
    AdvanceCounts(s, k, -i);
    AdvanceCounts(s, k, -j);
    NumberOfStart(s, k - i);
    NumberOfStart(s, k - j);
    LabelsSortInTime(s, Prior(s, d, j), Prior(s, d, i));
  }
}
