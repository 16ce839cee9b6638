/** The month grid of web/src/lib/calendar.ts, in a local time zone that may change its offset once. */
module Calendar {
  import opened Civil

  const DAY := 86_400_000

  /** Local time is UTC plus `before` until the instant `change`, plus `after` from then on. */
  datatype Zone = Zone(before: int, after: int, change: int)

  function Local(z: Zone, t: int): int {
    t + if t < z.change then z.before else z.after
  }

  function LocalDay(z: Zone, t: int): int {
    Local(z, t) / DAY
  }

  /** The instant of a local time; one that is skipped or repeated is read with the offset before the change. */
  function Instant(z: Zone, local: int): int {
    if local - z.before >= z.change && local - z.after >= z.change then local - z.after else local - z.before
  }

  /** new Date(y, m, d) for the day with this number. */
  function Midnight(z: Zone, n: int): int {
    Instant(z, n * DAY)
  }

  function FirstDay(z: Zone, month: int): int {
    var d := DateOf(LocalDay(z, month));
    DayNumber(d.year, d.month, 1)
  }

  function LastDay(z: Zone, month: int): int {
    var d := DateOf(LocalDay(z, month));
    DayNumber(d.year, d.month + 1, 0)
  }

  /** setDate on the midnight of t's day: the local time of day stays. */
  function WeekStart(z: Zone, t: int): int {
    var midnight := Midnight(z, LocalDay(z, t));
    Instant(z, Local(z, midnight) - (Weekday(LocalDay(z, midnight)) + 6) % 7 * DAY)
  }

  function GridStart(z: Zone, month: int): int {
    WeekStart(z, Midnight(z, FirstDay(z, month)))
  }

  function GridEnd(z: Zone, month: int): int {
    var last := Midnight(z, LastDay(z, month));
    last + (6 - (Weekday(LocalDay(z, last)) + 6) % 7) * DAY
  }

  // ---------------------------------------------------------------- day keys

  function Digit(n: nat): char
    requires n < 10
  {
    "0123456789"[n]
  }

  function Decimal(n: nat): (s: string)
    ensures |s| >= 1
  {
    if n < 10 then [Digit(n)] else Decimal(n / 10) + [Digit(n % 10)]
  }

  function Pad2(n: nat): string {
    if n < 10 then "0" + Decimal(n) else Decimal(n)
  }

  /** "YYYY-MM-DD"; the year is not padded. */
  function DayKey(d: Date): string
    requires ValidDate(d)
  {
    YearText(d.year) + "-" + Pad2(d.month) + "-" + Pad2(d.day)
  }

  function YearText(y: int): string {
    if y < 0 then "-" + Decimal(-y) else Decimal(y)
  }

  lemma YearTextInjective(x: int, y: int)
    requires YearText(x) == YearText(y)
    ensures x == y
  {
    NoLeadingDash(if x < 0 then -x else x);
    NoLeadingDash(if y < 0 then -y else y);
    assert YearText(x)[0] == YearText(y)[0];
    if x < 0 && y < 0 {
      assert YearText(x)[1..] == Decimal(-x) && YearText(y)[1..] == Decimal(-y);
      DecimalInjective(-x, -y);
    } else if x >= 0 && y >= 0 {
      DecimalInjective(x, y);
    }
  }

  lemma {:induction false} NoLeadingDash(n: nat)
    ensures Decimal(n)[0] != '-'
  {
    if n >= 10 { NoLeadingDash(n / 10); } else { assert Digit(n) in "0123456789"; }
  }

  lemma DigitInjective(a: nat, b: nat)
    requires a < 10 && b < 10 && Digit(a) == Digit(b)
    ensures a == b
  {
    var digits := "0123456789";
    assert forall i, k :: 0 <= i < k < 10 ==> digits[i] != digits[k];
  }

  lemma {:induction false} DecimalInjective(a: nat, b: nat)
    requires Decimal(a) == Decimal(b)
    ensures a == b
  {
    var x, y := Decimal(a), Decimal(b);
    assert x[|x| - 1] == Digit(a % 10) && y[|y| - 1] == Digit(b % 10);
    DigitInjective(a % 10, b % 10);
    if a >= 10 {
      assert x[..|x| - 1] == Decimal(a / 10) && |Decimal(a / 10)| >= 1;
      assert b >= 10;
      assert y[..|y| - 1] == Decimal(b / 10);
      DecimalInjective(a / 10, b / 10);
    }
  }

  lemma Pad2TwoChars(n: nat)
    requires n < 100
    ensures |Pad2(n)| == 2
  {
    if n >= 10 { assert |Decimal(n / 10)| == 1; }
  }

  lemma Pad2Injective(a: nat, b: nat)
    requires a < 100 && b < 100 && Pad2(a) == Pad2(b)
    ensures a == b
  {
    if a < 10 && b < 10 {
      assert Pad2(a)[1..] == Decimal(a) && Pad2(b)[1..] == Decimal(b);
      DecimalInjective(a, b);
    } else if a >= 10 && b >= 10 {
      DecimalInjective(a, b);
    } else {
      var big := if a >= 10 then a else b;
      assert Decimal(big) == [Digit(big / 10)] + [Digit(big % 10)];
      assert Pad2(big)[0] == Digit(big / 10) && Pad2(a)[0] == Pad2(b)[0];
      DigitInjective(big / 10, 0);
    }
  }

  /** The two-digit month and day end the key. */
  lemma KeyParts(y: string, m: string, d: string)
    requires |m| == 2 && |d| == 2
    ensures var s := y + "-" + m + "-" + d;
            |s| == |y| + 6 && s[..|y|] == y && s[|y| + 1..|y| + 3] == m && s[|y| + 4..] == d
  {
  }

  lemma DayKeyInjective(d: Date, e: Date)
    requires ValidDate(d) && ValidDate(e) && DayKey(d) == DayKey(e)
    ensures d == e
  {
    hide YearText, Pad2, MonthLength;
    Pad2TwoChars(d.month);
    Pad2TwoChars(e.month);
    Pad2TwoChars(d.day);
    Pad2TwoChars(e.day);
    KeyParts(YearText(d.year), Pad2(d.month), Pad2(d.day));
    KeyParts(YearText(e.year), Pad2(e.month), Pad2(e.day));
    assert |YearText(d.year)| == |YearText(e.year)|;
    hide DayKey;
    YearTextInjective(d.year, e.year);
    Pad2Injective(d.month, e.month);
    Pad2Injective(d.day, e.day);
  }

  // ---------------------------------------------------------------- what a key says

  /** The number that a text of decimal digits writes. */
  function NumberOf(s: string): int {
    if s == [] then 0 else 10 * NumberOf(s[..|s| - 1]) + (s[|s| - 1] as int - '0' as int)
  }

  lemma DigitValue(n: nat)
    requires n < 10
    ensures Digit(n) as int - '0' as int == n
  {
    assert forall i :: 0 <= i < 10 ==> "0123456789"[i] as int - '0' as int == i;
  }

  lemma {:induction false} DecimalReads(n: nat)
    ensures NumberOf(Decimal(n)) == n
  {
    var s := Decimal(n);
    DigitValue(n % 10);
    if n < 10 {
      assert s[..0] == [];
    } else {
      DecimalReads(n / 10);
      assert s[..|s| - 1] == Decimal(n / 10);
    }
  }

  lemma Pad2Reads(n: nat)
    requires n < 100
    ensures NumberOf(Pad2(n)) == n
  {
    DecimalReads(n);
    if n < 10 {
      var s := Pad2(n);
      DigitValue(0);
      DigitValue(n);
      assert s[..1] == "0" && "0"[..0] == [] && s[1] == Digit(n);
      assert NumberOf("0") == 0;
    }
  }

  lemma FourDigits(n: nat)
    requires 1000 <= n <= 9999
    ensures |Decimal(n)| == 4
  {
    assert |Decimal(n / 1000)| == 1 && |Decimal(n / 100)| == 2 && |Decimal(n / 10)| == 3;
  }

  /** A key reads as year, month and day, in this order and with dashes between them: "YYYY-MM-DD" for the years that
      have four digits. */
  lemma DayKeyReads(d: Date)
    requires ValidDate(d)
    ensures var k := DayKey(d);
            && |k| >= 7 && k[|k| - 3] == '-' && k[|k| - 6] == '-'
            && NumberOf(k[|k| - 2..]) == d.day && NumberOf(k[|k| - 5..|k| - 3]) == d.month
            && (d.year >= 0 ==> NumberOf(k[..|k| - 6]) == d.year)
            && (1000 <= d.year <= 9999 ==> |k| == 10)
  {
    hide Pad2, MonthLength, NumberOf;
    var y, m, n := YearText(d.year), Pad2(d.month), Pad2(d.day);
    Pad2TwoChars(d.month);
    Pad2TwoChars(d.day);
    Pad2Reads(d.month);
    Pad2Reads(d.day);
    if d.year >= 0 { DecimalReads(d.year); }
    if 1000 <= d.year <= 9999 { FourDigits(d.year); }
    hide Decimal;
    assert |y| >= 1;
    var k := DayKey(d);
    assert k == y + "-" + m + "-" + n;
    assert k[|k| - 2..] == n && k[|k| - 5..|k| - 3] == m && k[..|k| - 6] == y;
  }

  // ---------------------------------------------------------------- cells

  datatype Cell<T> = Cell(day: int, key: string, items: seq<T>, inMonth: bool)

  function KeyOf(n: int): string {
    DayKey(DateOf(n))
  }

  /** The cell of local day n. */
  function CellOf<T>(month: int, n: int, byDay: map<string, seq<T>>): Cell<T> {
    var d := DateOf(n);
    Cell(d.day, KeyOf(n), if KeyOf(n) in byDay then byDay[KeyOf(n)] else [], d.month == DateOf(month).month)
  }

  /** A cell for day n: its number, its key, the items grouped under that key, and whether its month is the grid's. */
  ghost predicate ShowsDay<T>(month: int, n: int, byDay: map<string, seq<T>>, cell: Cell<T>) {
    var d := DateOf(n);
    && cell.day == d.day && cell.key == DayKey(d)
    && cell.items == (if DayKey(d) in byDay then byDay[DayKey(d)] else [])
    && (cell.inMonth <==> d.month == DateOf(month).month)
  }

  lemma CellShowsDay<T>(month: int, n: int, byDay: map<string, seq<T>>)
    ensures ShowsDay(month, n, byDay, CellOf(month, n, byDay))
  {
    hide DayKey, DateOf;
  }

  function CellCount(z: Zone, month: int): nat {
    if GridStart(z, month) > GridEnd(z, month) then 0 else (GridEnd(z, month) - GridStart(z, month)) / DAY + 1
  }

  /** The local day the i-th step of 24 hours falls on. */
  function StepDay(z: Zone, month: int, i: nat): int {
    LocalDay(z, GridStart(z, month) + i * DAY)
  }

  method MonthCells<T>(z: Zone, month: int, byDay: map<string, seq<T>>) returns (out: seq<Cell<T>>)
    ensures |out| == CellCount(z, month)
    ensures forall i :: 0 <= i < |out| ==> out[i] == CellOf(LocalDay(z, month), StepDay(z, month, i), byDay)
    ensures forall i :: 0 <= i < |out| ==> ShowsDay(LocalDay(z, month), StepDay(z, month, i), byDay, out[i])
  {
    hide GridStart, GridEnd, LocalDay, CellOf, ShowsDay;
    var start, end := GridStart(z, month), GridEnd(z, month);
    out := [];
    var t := start;
    while t <= end
      invariant t == start + |out| * DAY
      invariant |out| <= CellCount(z, month)
      invariant t <= end <==> |out| < CellCount(z, month)
      invariant forall i :: 0 <= i < |out| ==> out[i] == CellOf(LocalDay(z, month), StepDay(z, month, i), byDay)
      decreases end - t
    {
      out := out + [CellOf(LocalDay(z, month), LocalDay(z, t), byDay)];
      t := t + DAY;
    }
    CellsShowDays(z, month, byDay, out);
  }

  lemma CellsShowDays<T>(z: Zone, month: int, byDay: map<string, seq<T>>, out: seq<Cell<T>>)
    requires forall i :: 0 <= i < |out| ==> out[i] == CellOf(LocalDay(z, month), StepDay(z, month, i), byDay)
    ensures forall i :: 0 <= i < |out| ==> ShowsDay(LocalDay(z, month), StepDay(z, month, i), byDay, out[i])
  {
    hide LocalDay, StepDay, CellOf, ShowsDay;
    forall i: nat | i < |out| ensures ShowsDay(LocalDay(z, month), StepDay(z, month, i), byDay, out[i]) {
      CellShowsDay(LocalDay(z, month), StepDay(z, month, i), byDay);
    }
  }

  // ---------------------------------------------------------------- what the grid should be

  /** Monday of the week of day 1, and Sunday of the week of the last day. */
  function Top(z: Zone, month: int): int { Monday(FirstDay(z, month)) }
  function Bottom(z: Zone, month: int): int { Monday(LastDay(z, month)) + 6 }

  /** The cells are the consecutive days from Top to Bottom. */
  ghost predicate GridRight(z: Zone, month: int) {
    && CellCount(z, month) == Bottom(z, month) - Top(z, month) + 1
    && forall i: nat :: i < CellCount(z, month) ==> StepDay(z, month, i) == Top(z, month) + i
  }

  lemma MonthDays(z: Zone, month: int)
    ensures var d := DateOf(LocalDay(z, month));
            LastDay(z, month) == FirstDay(z, month) + MonthLength(d.year, d.month) - 1
  {
    hide DayNumber, MonthLength;
    var d := DateOf(LocalDay(z, month));
    MonthSpan(d.year, d.month);
    LastIsBeforeNext(d.year, d.month);
  }

  lemma LastIsBeforeNext(y: int, m: int)
    ensures DayNumber(y, m + 1, 0) == DayNumber(y, m + 1, 1) - 1
  {
  }

  lemma WholeWeeks(first: int, last: int)
    requires 27 <= last - first <= 30
    ensures Monday(first) <= first <= last <= Monday(last) + 6
    ensures var n := Monday(last) + 6 - Monday(first) + 1; n % 7 == 0 && 28 <= n <= 42
  {
  }

  /** Whole weeks, four to six of them, that cover the month. */
  lemma GridShape(z: Zone, month: int)
    ensures Top(z, month) <= FirstDay(z, month) <= LastDay(z, month) <= Bottom(z, month)
    ensures var n := Bottom(z, month) - Top(z, month) + 1; n % 7 == 0 && 28 <= n <= 42
  {
    hide FirstDay, LastDay, MonthLength, DateOf, LocalDay, DayNumber;
    MonthDays(z, month);
    WholeWeeks(FirstDay(z, month), LastDay(z, month));
  }

  /** The change spares the grid: clocks set forward outside (Monday of day 1, midnight of the last day], or set
      back outside (Monday of day 1, Sunday of the last day], each read on the clock that still or already counts. */
  predicate ChangeHarmless(z: Zone, month: int) {
    || z.before == z.after
    || (z.before < z.after && (z.change <= Top(z, month) * DAY - z.after
        || LastDay(z, month) * DAY - z.after < z.change))
    || (z.after < z.before && (z.change <= Top(z, month) * DAY - z.before
        || Bottom(z, month) * DAY - z.before < z.change))
  }

  /** Zones on either side of a change differ by less than half a day. */
  predicate SmallChange(z: Zone) {
    -DAY / 2 < z.after - z.before < DAY / 2
  }

  /** The offset with which the midnight of day n is read. */
  function OffsetAt(z: Zone, n: int): int {
    if z.change <= n * DAY - z.before && z.change <= n * DAY - z.after then z.after else z.before
  }

  lemma EndWhen(z: Zone, month: int)
    requires SmallChange(z)
    ensures GridEnd(z, month) == Bottom(z, month) * DAY - OffsetAt(z, LastDay(z, month))
  {
    hide FirstDay, LastDay;
  }

  /** Midnight is shown as such, unless clocks set forward skip it. */
  lemma MidnightShows(z: Zone, n: int)
    requires SmallChange(z)
    ensures LocalDay(z, Midnight(z, n)) == n
    ensures Local(z, Midnight(z, n)) ==
            n * DAY + (if n * DAY - z.after < z.change <= n * DAY - z.before then z.after - z.before else 0)
  {
  }

  lemma StartIs(z: Zone, month: int)
    requires SmallChange(z)
    ensures var first := FirstDay(z, month);
            GridStart(z, month) == Instant(z, Local(z, Midnight(z, first)) - (first - Top(z, month)) * DAY)
  {
    MidnightShows(z, FirstDay(z, month));
    hide FirstDay, Midnight, LocalDay, Local, Instant;
  }

  lemma StartWhen(z: Zone, month: int)
    requires SmallChange(z)
    ensures ChangeHarmless(z, month) ==>
              GridStart(z, month) == Top(z, month) * DAY - OffsetAt(z, Top(z, month))
    ensures !ChangeHarmless(z, month) ==>
              0 <= GridStart(z, month) - (Top(z, month) * DAY - z.before)
                <= (if z.after <= z.before then 0 else z.after - z.before)
  {
    GridShape(z, month);
    FarApart(z, month);
    StartIs(z, month);
    MidnightShows(z, FirstDay(z, month));
    hide FirstDay, LastDay, Top, Bottom, GridStart, Midnight, LocalDay, Local;
  }

  lemma FarApart(z: Zone, month: int)
    ensures FirstDay(z, month) + 27 <= LastDay(z, month)
  {
    hide FirstDay, LastDay, MonthLength, DateOf, LocalDay;
    MonthDays(z, month);
  }

  /** The grid is right exactly when the change spares it; otherwise its last Sunday, which may be the last day of
      the month, has no cell at all: clocks set forward end the grid early, clocks set back show some day twice. */
  lemma GridRightExactly(z: Zone, month: int)
    requires SmallChange(z)
    ensures GridRight(z, month) <==> ChangeHarmless(z, month)
    ensures !ChangeHarmless(z, month) ==>
              forall i: nat :: i < CellCount(z, month) ==> StepDay(z, month, i) != Bottom(z, month)
  {
    EndWhen(z, month);
    StartWhen(z, month);
    GridShape(z, month);
    StepsFollowTheClock(z, month, Top(z, month), Bottom(z, month), LastDay(z, month));
  }

  lemma RightGridEndsAtBottom(z: Zone, month: int)
    ensures GridRight(z, month) && Top(z, month) <= Bottom(z, month) ==>
              Bottom(z, month) - Top(z, month) < CellCount(z, month)
              && StepDay(z, month, Bottom(z, month) - Top(z, month)) == Bottom(z, month)
  {
    hide Top, Bottom, CellCount, StepDay;
  }

  lemma StepsFollowTheClock(z: Zone, month: int, top: int, bottom: int, last: int)
    requires SmallChange(z) && top == Top(z, month) && bottom == Bottom(z, month) && last == LastDay(z, month)
    requires top <= last <= bottom
    requires GridEnd(z, month) == bottom * DAY - OffsetAt(z, last)
    requires ChangeHarmless(z, month) ==>
               GridStart(z, month) == top * DAY - OffsetAt(z, top)
    requires !ChangeHarmless(z, month) ==>
               0 <= GridStart(z, month) - (top * DAY - z.before)
                 <= (if z.after <= z.before then 0 else z.after - z.before)
    ensures GridRight(z, month) <==> ChangeHarmless(z, month)
    ensures !ChangeHarmless(z, month) ==> forall i: nat :: i < CellCount(z, month) ==> StepDay(z, month, i) != bottom
  {
    RightGridEndsAtBottom(z, month);
    hide FirstDay, LastDay, GridStart, GridEnd, Top, Bottom;
    if ChangeHarmless(z, month) {
      assert CellCount(z, month) == bottom - top + 1;
    } else {
      forall i: nat | i < CellCount(z, month) ensures StepDay(z, month, i) != bottom {
        assert GridStart(z, month) + i * DAY <= GridEnd(z, month);
      }
    }
  }

  /** In a right grid a cell is inMonth exactly when its day belongs to the month. */
  lemma InMonthExactly<T>(z: Zone, month: int, n: int, byDay: map<string, seq<T>>)
    requires Top(z, month) <= n <= Bottom(z, month)
    ensures CellOf(LocalDay(z, month), n, byDay).inMonth <==> FirstDay(z, month) <= n <= LastDay(z, month)
    ensures FirstDay(z, month) <= n <= LastDay(z, month) ==>
              CellOf(LocalDay(z, month), n, byDay).day == n - FirstDay(z, month) + 1
  {
    var d, e := DateOf(LocalDay(z, month)), DateOf(n);
    hide DayNumber, DateOf, LocalDay;
    GridShape(z, month);
    MonthDays(z, month);
    MonthSpan(d.year, d.month);
    SameMonth(d, n);
    if e.month == d.month { NearMonth(d, n); }
    DayOfYear(d.year, d.month, 1);
    DayOfYear(e.year, e.month, e.day);
  }

  lemma KeyOfInjective(n: int, m: int)
    ensures KeyOf(n) == KeyOf(m) ==> n == m
  {
    hide DayKey, DayNumber;
    if KeyOf(n) == KeyOf(m) { DayKeyInjective(DateOf(n), DateOf(m)); }
  }

  /** In a right grid each day of the month has one cell, inMonth, with its number and its items; no other cell has
      its key. */
  lemma EachDayOnce<T>(z: Zone, month: int, byDay: map<string, seq<T>>, out: seq<Cell<T>>, n: int)
    requires GridRight(z, month) && |out| == CellCount(z, month)
    requires forall i :: 0 <= i < |out| ==> out[i] == CellOf(LocalDay(z, month), StepDay(z, month, i), byDay)
    requires FirstDay(z, month) <= n <= LastDay(z, month)
    ensures var i := n - Top(z, month);
            && 0 <= i < |out| && out[i].inMonth && out[i].day == n - FirstDay(z, month) + 1 && out[i].key == KeyOf(n)
            && out[i].items == (if KeyOf(n) in byDay then byDay[KeyOf(n)] else [])
            && forall k :: 0 <= k < |out| && out[k].key == KeyOf(n) ==> k == i
  {
    hide FirstDay, LastDay, KeyOf, LocalDay, CellCount, Top, Bottom, StepDay, DateOf, GridStart;
    GridShape(z, month);
    InMonthExactly(z, month, n, byDay);
    var i := n - Top(z, month);
    assert StepDay(z, month, i) == n;
    forall k | 0 <= k < |out| && out[k].key == KeyOf(n) ensures k == i {
      KeyOfInjective(StepDay(z, month, k), n);
    }
  }

  lemma InMonthCells<T>(z: Zone, month: int, byDay: map<string, seq<T>>, out: seq<Cell<T>>, k: nat)
    requires GridRight(z, month) && k < |out| == CellCount(z, month)
    requires forall i :: 0 <= i < |out| ==> out[i] == CellOf(LocalDay(z, month), StepDay(z, month, i), byDay)
    ensures out[k].inMonth <==> FirstDay(z, month) <= Top(z, month) + k <= LastDay(z, month)
  {
    hide FirstDay, LastDay, LocalDay, CellCount, Top, Bottom, StepDay, DateOf, CellOf;
    InMonthExactly(z, month, StepDay(z, month, k), byDay);
  }

  lemma April2026()
    ensures DayNumber(2026, 4, 1) == 20544 && DayNumber(2026, 4, 5) == 20548
    ensures DayNumber(2026, 5, 0) == 20573 && DayNumber(2026, 5, 3) == 20576
    ensures DateOf(20544) == Date(2026, 4, 1)
  {
    hide DateOf;
    DateOfDayNumber(Date(2026, 4, 1));
  }

  /** April 2026 in Chile, where the clocks go back on Saturday the 4th at midnight (03:00 UTC of the 5th): the grid is
      wrong, and Sunday 3 May has no cell. */
  lemma AprilInChile()
    ensures var hour, day := 3_600_000, DayNumber(2026, 4, 5);
            var z := Zone(-3 * hour, -4 * hour, day * DAY + 3 * hour);
            var month := DayNumber(2026, 4, 1) * DAY + 3 * hour;
            && Weekday(DayNumber(2026, 5, 3)) == 0 && Bottom(z, month) == DayNumber(2026, 5, 3) && !GridRight(z, month)
  {
    var hour, day := 3_600_000, DayNumber(2026, 4, 5);
    var z := Zone(-3 * hour, -4 * hour, day * DAY + 3 * hour);
    var month := DayNumber(2026, 4, 1) * DAY + 3 * hour;
    April2026();
    hide DayNumber, DateOf;
    assert LocalDay(z, month) == 20544;
    assert FirstDay(z, month) == 20544 && LastDay(z, month) == 20573;
    hide FirstDay, LastDay;
    assert Top(z, month) == 20542 && Bottom(z, month) == 20576;
    assert !ChangeHarmless(z, month);
    GridRightExactly(z, month);
  }

  /** In milliseconds: a local day has 24 hours of the local clock, and the cells step by 24 hours of absolute time. */
  lemma StepsInMilliseconds(z: Zone, month: int, t: int, i: nat)
    ensures LocalDay(z, t) * 86_400_000 <= t + (if t < z.change then z.before else z.after)
              < (LocalDay(z, t) + 1) * 86_400_000
    ensures StepDay(z, month, i) == LocalDay(z, GridStart(z, month) + i * 86_400_000)
  {
    hide GridStart;
  }
}
