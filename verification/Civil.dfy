/**
  The proleptic Gregorian calendar behind JavaScript's Date: days counted from 1 January
  1970, and back. Months are 1 to 12; a day or month outside its range carries over, as
  in Date.UTC.
*/
module Civil {
  datatype Date = Date(year: int, month: int, day: int)

  predicate Leap(y: int) {
    y % 4 == 0 && (y % 100 != 0 || y % 400 == 0)
  }

  /** 29 Februaries before year y, up to a constant. */
  function Leaps(y: int): int {
    (y - 1) / 4 - (y - 1) / 100 + (y - 1) / 400
  }

  function YearStart(y: int): int {
    365 * (y - 1970) + Leaps(y) - Leaps(1970)
  }

  const COMMON := [0, 31, 59, 90, 120, 151, 181, 212, 243, 273, 304, 334, 365]

  /** Days of year y before month m; m == 13 gives the whole year. */
  function MonthStart(y: int, m: int): int
    requires 1 <= m <= 13
  {
    COMMON[m - 1] + if Leap(y) && m > 2 then 1 else 0
  }

  function MonthLength(y: int, m: int): (n: int)
    requires 1 <= m <= 12
    ensures 28 <= n <= 31
  {
    MonthStart(y, m + 1) - MonthStart(y, m)
  }

  /** Date.UTC in days. */
  function DayNumber(y: int, m: int, d: int): int {
    var y', m' := y + (m - 1) / 12, (m - 1) % 12 + 1;
    YearStart(y') + MonthStart(y', m') + d - 1
  }

  predicate ValidDate(d: Date) {
    1 <= d.month <= 12 && 1 <= d.day <= MonthLength(d.year, d.month)
  }

  lemma Quarter(y: int)
    ensures y / 4 - (y - 1) / 4 == if y % 4 == 0 then 1 else 0
  {
  }

  lemma Century(y: int)
    ensures y / 100 - (y - 1) / 100 == if y % 100 == 0 then 1 else 0
  {
    var q, r := y / 100, y % 100;
    assert y == 100 * q + r;
    assert (y - 1) / 100 == if r == 0 then q - 1 else q;
  }

  lemma FourCenturies(y: int)
    ensures y / 400 - (y - 1) / 400 == if y % 400 == 0 then 1 else 0
  {
    var q, r := y / 400, y % 400;
    assert y == 400 * q + r;
    assert (y - 1) / 400 == if r == 0 then q - 1 else q;
  }

  lemma MultipleOf(y: int, q: int)
    ensures y == 100 * q ==> y % 4 == 0
    ensures y == 400 * q ==> y % 100 == 0
  {
    if y == 100 * q { assert y == 4 * (25 * q); }
    if y == 400 * q { assert y == 100 * (4 * q); }
  }

  lemma LeapsStep(y: int)
    ensures Leaps(y + 1) == Leaps(y) + if Leap(y) then 1 else 0
  {
    Quarter(y);
    Century(y);
    FourCenturies(y);
    MultipleOf(y, y / 100);
    MultipleOf(y, y / 400);
  }

  lemma YearLength(y: int)
    ensures YearStart(y + 1) == YearStart(y) + MonthStart(y, 13)
  {
    LeapsStep(y);
  }

  lemma {:induction false} YearsApart(x: int, y: int)
    requires x < y
    ensures YearStart(x) + 365 <= YearStart(y)
    decreases y - x
  {
    YearLength(y - 1);
    if x < y - 1 { YearsApart(x, y - 1); }
  }

  /** The year of day n, searched from year y. */
  function YearFrom(n: int, y: int): (r: int)
    ensures YearStart(r) <= n < YearStart(r + 1)
    decreases if n < YearStart(y) then YearStart(y) - n
              else if n >= YearStart(y + 1) then n - YearStart(y + 1) + 1
              else 0
  {
    if n < YearStart(y) then
      YearsApart(y - 1, y);
      YearFrom(n, y - 1)
    else if n >= YearStart(y + 1) then
      YearsApart(y, y + 1);
      YearsApart(y + 1, y + 2);
      YearFrom(n, y + 1)
    else y
  }

  /** The month of the k-th day of year y, searched down from month m. */
  function MonthFrom(y: int, k: int, m: int): (r: int)
    requires 1 <= m <= 12 && 0 <= k < MonthStart(y, m + 1)
    ensures 1 <= r <= 12 && MonthStart(y, r) <= k < MonthStart(y, r + 1)
  {
    if k < MonthStart(y, m) then MonthFrom(y, k, m - 1) else m
  }

  function DateOf(n: int): (d: Date)
    ensures ValidDate(d) && DayNumber(d.year, d.month, d.day) == n
  {
    var y := YearFrom(n, 1970);
    YearLength(y);
    var k := n - YearStart(y);
    var m := MonthFrom(y, k, 12);
    var d := k - MonthStart(y, m) + 1;
    DayOfYear(y, m, d);
    Date(y, m, d)
  }

  lemma YearUnique(n: int, x: int, y: int)
    requires YearStart(x) <= n < YearStart(x + 1) && YearStart(y) <= n < YearStart(y + 1)
    ensures x == y
  {
    if x < y {
      if x + 1 < y { YearsApart(x + 1, y); }
    } else if y < x {
      if y + 1 < x { YearsApart(y + 1, x); }
    }
  }

  lemma MonthUnique(y: int, k: int, m: int, m': int)
    requires 1 <= m <= 12 && MonthStart(y, m) <= k < MonthStart(y, m + 1)
    requires 1 <= m' <= 12 && MonthStart(y, m') <= k < MonthStart(y, m' + 1)
    ensures m == m'
  {
  }

  lemma DayOfYear(y: int, m: int, d: int)
    requires 1 <= m <= 12
    ensures DayNumber(y, m, d) == YearStart(y) + (MonthStart(y, m) + d - 1)
  {
  }

  lemma WithinYear(y: int, m: int, d: int)
    requires 1 <= m <= 12 && 1 <= d <= MonthLength(y, m)
    ensures YearStart(y) <= DayNumber(y, m, d) < YearStart(y + 1)
  {
    DayOfYear(y, m, d);
    YearLength(y);
    assert MonthStart(y, m + 1) <= MonthStart(y, 13);
  }

  /** DateOf and DayNumber are inverse on the dates of the calendar. */
  lemma DateOfDayNumber(d: Date)
    requires ValidDate(d)
    ensures DateOf(DayNumber(d.year, d.month, d.day)) == d
  {
    var n := DayNumber(d.year, d.month, d.day);
    var e := DateOf(n);
    WithinYear(d.year, d.month, d.day);
    WithinYear(e.year, e.month, e.day);
    YearUnique(n, d.year, e.year);
    DayOfYear(d.year, d.month, d.day);
    DayOfYear(e.year, e.month, e.day);
    MonthUnique(d.year, n - YearStart(d.year), d.month, e.month);
  }

  /** Day of the week, 0 for Sunday: 1 January 1970 was a Thursday. */
  function Weekday(n: int): int {
    (n + 4) % 7
  }

  /** Monday of the week of day n. */
  function Monday(n: int): (r: int)
    ensures r <= n < r + 7 && Weekday(r) == 1
  {
    n - (Weekday(n) + 6) % 7
  }

  lemma MondayIsConstant(n: int, m: int)
    requires Weekday(m) == 1
    ensures Monday(n) == m <==> m <= n < m + 7
  {
  }

  // ---------------------------------------------------------------- months

  /** First day of the month after that of d. */
  function NextMonth(d: Date): int {
    DayNumber(d.year, d.month + 1, 1)
  }

  lemma SameMonth(d: Date, n: int)
    requires ValidDate(d)
    ensures DateOf(n).year == d.year && DateOf(n).month == d.month <==>
        DayNumber(d.year, d.month, 1) <= n < NextMonth(d)
  {
    hide DayNumber, YearStart, DateOf, MonthStart;
    MonthSpan(d.year, d.month);
    var e := DateOf(n);
    if e.year == d.year && e.month == d.month {
      DayOfYear(e.year, e.month, e.day);
      DayOfYear(d.year, d.month, 1);
    }
    if DayNumber(d.year, d.month, 1) <= n < NextMonth(d) {
      var f := Date(d.year, d.month, n - DayNumber(d.year, d.month, 1) + 1);
      DayOfYear(f.year, f.month, f.day);
      DayOfYear(d.year, d.month, 1);
      DateOfDayNumber(f);
    }
  }

  lemma MonthSpan(y: int, m: int)
    requires 1 <= m <= 12
    ensures DayNumber(y, m + 1, 1) == DayNumber(y, m, 1) + MonthLength(y, m)
  {
    DayOfYear(y, m, 1);
    if m < 12 {
      DayOfYear(y, m + 1, 1);
    } else {
      YearLength(y);
      assert DayNumber(y, 13, 1) == YearStart(y + 1);
    }
  }

  lemma FirstOfMonthDetermines(e: Date, d: Date)
    requires ValidDate(e) && ValidDate(d)
    ensures DayNumber(e.year, e.month, 1) == DayNumber(d.year, d.month, 1) <==> e.year == d.year && e.month == d.month
  {
    hide DayNumber, DateOf;
    DateOfDayNumber(Date(e.year, e.month, 1));
    DateOfDayNumber(Date(d.year, d.month, 1));
  }

  /** Within two months of d, the month alone tells the year. */
  lemma NearMonth(d: Date, n: int)
    requires ValidDate(d) && -60 <= n - DayNumber(d.year, d.month, 1) <= 60 && DateOf(n).month == d.month
    ensures DateOf(n).year == d.year
  {
    var e := DateOf(n);
    hide DayNumber, YearStart, DateOf;
    DayOfYear(d.year, d.month, 1);
    DayOfYear(e.year, e.month, e.day);
    if e.year < d.year { YearsApart(e.year, d.year); }
    if d.year < e.year { YearsApart(d.year, e.year); }
  }

  // ---------------------------------------------------------------- the Gregorian calendar

  lemma NextDay(y: int, m: int, d: int)
    requires 1 <= m <= 12
    ensures DayNumber(y, m, d + 1) == DayNumber(y, m, d) + 1
  {
    DayOfYear(y, m, d);
    DayOfYear(y, m, d + 1);
    hide DayNumber;
  }

  lemma NewYear(y: int)
    ensures DayNumber(y, 13, 1) == DayNumber(y + 1, 1, 1)
  {
    assert (13 - 1) / 12 == 1 && (13 - 1) % 12 + 1 == 1;
    hide YearStart, MonthStart;
  }

  lemma MonthLengths(y: int, m: int)
    requires 1 <= m <= 12
    ensures MonthLength(y, m) == (if m == 2 then (if Leap(y) then 29 else 28)
                                  else if m == 4 || m == 6 || m == 9 || m == 11 then 30 else 31)
  {
  }

  lemma Epoch()
    ensures DayNumber(1970, 1, 1) == 0 && Weekday(0) == 4
  {
  }

  /** The calendar itself: leap years, the lengths of the months, consecutive days, and 1 January 1970, a Thursday, as
      day 0. With DateOfDayNumber this leaves no other numbering of the days. */
  lemma GregorianExactly(y: int, m: int, d: int, n: int)
    requires 1 <= m <= 12
    ensures Leap(y) <==> y % 4 == 0 && (y % 100 != 0 || y % 400 == 0)
    ensures MonthLength(y, m) == (if m == 2 then (if Leap(y) then 29 else 28)
                                  else if m == 4 || m == 6 || m == 9 || m == 11 then 30 else 31)
    ensures DayNumber(y, m, d + 1) == DayNumber(y, m, d) + 1
    ensures DayNumber(y, m, 1) + MonthLength(y, m) == DayNumber(y, m + 1, 1)
    ensures DayNumber(y, 13, 1) == DayNumber(y + 1, 1, 1)
    ensures DayNumber(1970, 1, 1) == 0 && Weekday(0) == 4 && Weekday(n + 1) == (Weekday(n) + 1) % 7
  {
    hide DayNumber, MonthLength, YearStart, MonthStart;
    MonthSpan(y, m);
    MonthLengths(y, m);
    NextDay(y, m, d);
    NewYear(y);
    Epoch();
  }
}
