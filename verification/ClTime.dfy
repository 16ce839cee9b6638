/**
  Chilean week and month starts, common/cl-time.ts, over an offset function that gives the
  clock's distance from UTC at every instant (milliseconds); the process itself runs in UTC.
*/
module ClTime {
  import opened Civil

  const HOUR := 3_600_000
  const DAY := 24 * HOUR

  type Offset = int -> int

  /** UTC-3 in summer, UTC-4 in winter. */
  ghost predicate ChileOffsets(off: Offset) {
    forall t :: off(t) == -3 * HOUR || off(t) == -4 * HOUR
  }

  function Wall(off: Offset, t: int): int {
    t + off(t)
  }

  /** The calendar day the clock in Chile shows at instant t. */
  function WallDay(off: Offset, t: int): int {
    Wall(off, t) / DAY
  }

  /** Midnight of a calendar day, with the offset read off at a probe some hours into the UTC day. */
  function DayStartBy(off: Offset, probe: int, year: int, month: int, day: int): int {
    var guess := DayNumber(year, month, day) * DAY + probe;
    var clWall := Wall(off, guess);
    DayNumber(year, month, day) * DAY - (clWall - guess)
  }

  function ClDayStart(off: Offset, year: int, month: int, day: int): int {
    DayStartBy(off, 8 * HOUR, year, month, day)
  }

  function ClMonthStart(off: Offset, now: int): int {
    var parts := DateOf(WallDay(off, now));
    DayStartBy(off, 4 * HOUR, parts.year, parts.month, 1)
  }

  function ClWeekStart(off: Offset, now: int): int {
    var parts := DateOf(WallDay(off, now));
    var back := (Weekday(WallDay(off, now)) + 6) % 7;
    var monday := DateOf(DayNumber(parts.year, parts.month, parts.day) - back);
    ClDayStart(off, monday.year, monday.month, monday.day)
  }

  // ---------------------------------------------------------------- one midnight

  /** The instant the code takes for midnight of day n. */
  function Start(off: Offset, n: int, probe: int): int {
    n * DAY - off(n * DAY + probe)
  }

  /** From 03:00 to 04:00 UTC, the hour in which midnight falls, the offset is already the probe's. */
  ghost predicate Settled(off: Offset, n: int, probe: int) {
    forall u :: n * DAY + 3 * HOUR <= u < n * DAY + 4 * HOUR ==> off(u) == off(n * DAY + probe)
  }

  /** The clock shows day n or later exactly from that instant on. */
  ghost predicate SplitsTheDays(off: Offset, n: int, probe: int) {
    forall t :: Wall(off, t) >= n * DAY <==> t >= Start(off, n, probe)
  }

  lemma StartIsExact(off: Offset, n: int, probe: int)
    requires ChileOffsets(off)
    ensures SplitsTheDays(off, n, probe) <==> Settled(off, n, probe)
  {
    if Settled(off, n, probe) {
      forall t ensures Wall(off, t) >= n * DAY <==> t >= Start(off, n, probe) {
        assert off(t) == -3 * HOUR || off(t) == -4 * HOUR;
        assert off(n * DAY + probe) == -3 * HOUR || off(n * DAY + probe) == -4 * HOUR;
      }
    }
    if SplitsTheDays(off, n, probe) {
      forall u | n * DAY + 3 * HOUR <= u < n * DAY + 4 * HOUR ensures off(u) == off(n * DAY + probe) {
        assert Wall(off, u) >= n * DAY <==> u >= Start(off, n, probe);
      }
    }
  }

  /** It shows midnight itself exactly when the probe's offset is in force there. */
  lemma StartIsMidnight(off: Offset, n: int, probe: int)
    ensures Wall(off, Start(off, n, probe)) == n * DAY <==> off(Start(off, n, probe)) == off(n * DAY + probe)
  {
  }

  lemma WallDayAtLeast(off: Offset, t: int, n: int)
    ensures WallDay(off, t) >= n <==> Wall(off, t) >= n * DAY
  {
  }

  lemma StartsDiffer(off: Offset, n: int, m: int, probe: int)
    requires ChileOffsets(off)
    ensures Start(off, n, probe) == Start(off, m, probe) <==> n == m
  {
    assert off(n * DAY + probe) == -3 * HOUR || off(n * DAY + probe) == -4 * HOUR;
    assert off(m * DAY + probe) == -3 * HOUR || off(m * DAY + probe) == -4 * HOUR;
    if n < m { assert n * DAY + DAY <= m * DAY; }
    if m < n { assert m * DAY + DAY <= n * DAY; }
  }

  /** An unsettled midnight leaves an instant on the wrong side of it. */
  lemma WrongSide(off: Offset, n: int, probe: int) returns (u: int)
    requires ChileOffsets(off) && !Settled(off, n, probe)
    ensures n * DAY + 3 * HOUR <= u < n * DAY + 4 * HOUR
    ensures if u < Start(off, n, probe) then WallDay(off, u) == n else WallDay(off, u) == n - 1
  {
    u :| n * DAY + 3 * HOUR <= u < n * DAY + 4 * HOUR && off(u) != off(n * DAY + probe);
    assert off(u) == -3 * HOUR || off(u) == -4 * HOUR;
    assert off(n * DAY + probe) == -3 * HOUR || off(n * DAY + probe) == -4 * HOUR;
  }

  /** The clock shows one of the days from `first` until before `next`. */
  predicate ShowsDay(off: Offset, first: int, next: int, now: int) {
    first <= WallDay(off, now) < next
  }

  /** Two starts delimit exactly the instants at which the clock shows the days between them, if and only if both
      midnights are settled. */
  lemma StartsDelimitExactly(off: Offset, first: int, next: int, probe: int)
    requires ChileOffsets(off) && first < next
    ensures (forall now :: ShowsDay(off, first, next, now) <==>
        Start(off, first, probe) <= now < Start(off, next, probe))
            <==> Settled(off, first, probe) && Settled(off, next, probe)
  {
    assert off(first * DAY + probe) == -3 * HOUR || off(first * DAY + probe) == -4 * HOUR;
    assert off(next * DAY + probe) == -3 * HOUR || off(next * DAY + probe) == -4 * HOUR;
    assert first * DAY + DAY <= next * DAY;
    if Settled(off, first, probe) && Settled(off, next, probe) {
      StartIsExact(off, first, probe);
      StartIsExact(off, next, probe);
      forall now ensures ShowsDay(off, first, next, now) <==>
          Start(off, first, probe) <= now < Start(off, next, probe) {
        WallDayAtLeast(off, now, first);
        WallDayAtLeast(off, now, next);
        assert Wall(off, now) >= first * DAY <==> now >= Start(off, first, probe);
        assert Wall(off, now) >= next * DAY <==> now >= Start(off, next, probe);
      }
    } else {
      var u := WrongSide(off, if Settled(off, first, probe) then next else first, probe);
      assert !(ShowsDay(off, first, next, u) <==> Start(off, first, probe) <= u < Start(off, next, probe));
    }
  }

  // ---------------------------------------------------------------- weeks

  lemma WeekStartIsMondays(off: Offset, now: int)
    ensures ClWeekStart(off, now) == Start(off, Monday(WallDay(off, now)), 8 * HOUR)
  {
    hide DayNumber;
  }

  /** The clock shows Monday 00:00 of that week at the week start, if and only if the offset in force at that midnight
      is the one read off at 08:00 UTC: the offset at 03:00 UTC if that is UTC-3, and at 04:00 UTC if it is UTC-4. */
  lemma WeekStartShowsMonday(off: Offset, now: int)
    requires ChileOffsets(off)
    ensures var monday := Monday(WallDay(off, now));
            && Weekday(monday) == 1 && monday <= WallDay(off, now) < monday + 7
            && (Wall(off, ClWeekStart(off, now)) == monday * DAY <==>
                if off(monday * DAY + 8 * HOUR) == -3 * HOUR then off(monday * DAY + 3 * HOUR) == -3 * HOUR
                else off(monday * DAY + 4 * HOUR) == -4 * HOUR)
  {
    hide ClWeekStart;
    WeekStartIsMondays(off, now);
    var monday := Monday(WallDay(off, now));
    assert off(monday * DAY + 8 * HOUR) == -3 * HOUR || off(monday * DAY + 8 * HOUR) == -4 * HOUR;
    StartIsMidnight(off, monday, 8 * HOUR);
  }

  /** Two instants have the same week start if and only if the clock shows days of the same week at both. */
  lemma SameWeekExactly(off: Offset, a: int, b: int)
    requires ChileOffsets(off)
    ensures ClWeekStart(off, a) == ClWeekStart(off, b) <==> Monday(WallDay(off, a)) == Monday(WallDay(off, b))
  {
    hide ClWeekStart, Start, WallDay;
    WeekStartIsMondays(off, a);
    WeekStartIsMondays(off, b);
    StartsDiffer(off, Monday(WallDay(off, a)), Monday(WallDay(off, b)), 8 * HOUR);
  }

  /** A week start lies after the instant it was asked for exactly in one hour: from 03:00 to 04:00 UTC of a Monday
      that begins in UTC-3 and is in UTC-4 by 08:00 UTC. */
  lemma WeekStartNotAfterNow(off: Offset, now: int)
    requires ChileOffsets(off)
    ensures var monday := Monday(WallDay(off, now));
            ClWeekStart(off, now) <= now <==>
            !(off(now) == -3 * HOUR && off(monday * DAY + 8 * HOUR) == -4 * HOUR && now < monday * DAY + 4 * HOUR)
  {
    hide ClWeekStart;
    var monday := Monday(WallDay(off, now));
    WeekStartIsMondays(off, now);
    WallDayAtLeast(off, now, monday);
    assert off(now) == -3 * HOUR || off(now) == -4 * HOUR;
    assert off(monday * DAY + 8 * HOUR) == -3 * HOUR || off(monday * DAY + 8 * HOUR) == -4 * HOUR;
  }

  /** So a week start is never in the future, for any instant of the week of Monday m, if and only if the probe finds
      UTC-3 or that midnight is settled. */
  lemma WeekNeverAheadExactly(off: Offset, m: int)
    requires ChileOffsets(off) && Weekday(m) == 1
    ensures (forall now :: Monday(WallDay(off, now)) == m ==> ClWeekStart(off, now) <= now) <==>
            off(m * DAY + 8 * HOUR) == -3 * HOUR || Settled(off, m, 8 * HOUR)
  {
    hide ClWeekStart;
    if off(m * DAY + 8 * HOUR) == -3 * HOUR || Settled(off, m, 8 * HOUR) {
      forall now | Monday(WallDay(off, now)) == m ensures ClWeekStart(off, now) <= now {
        WallDayAtLeast(off, now, m);
        WeekStartNotAfterNow(off, now);
      }
    } else {
      var u := WrongSide(off, m, 8 * HOUR);
      assert off(m * DAY + 8 * HOUR) == -4 * HOUR;
      MondayIsConstant(m, m);
      WeekStartIsMondays(off, u);
      assert Monday(WallDay(off, u)) == m && ClWeekStart(off, u) > u;
    }
  }

  lemma WeekStartByDay(off: Offset, m: int, now: int)
    requires ChileOffsets(off) && Weekday(m) == 1
    ensures ClWeekStart(off, now) == Start(off, m, 8 * HOUR) <==> ShowsDay(off, m, m + 7, now)
  {
    hide ClWeekStart, Start, WallDay;
    WeekStartIsMondays(off, now);
    MondayIsConstant(WallDay(off, now), m);
    StartsDiffer(off, Monday(WallDay(off, now)), m, 8 * HOUR);
  }

  /** The instants that get the start of the week of Monday m are exactly those from it up to the start of the next
      week, if and only if both midnights are settled. */
  lemma WeekStartPartitionsTime(off: Offset, m: int)
    requires ChileOffsets(off) && Weekday(m) == 1
    ensures (forall now :: ClWeekStart(off, now) == Start(off, m, 8 * HOUR) <==>
                           Start(off, m, 8 * HOUR) <= now < Start(off, m + 7, 8 * HOUR))
            <==> Settled(off, m, 8 * HOUR) && Settled(off, m + 7, 8 * HOUR)
  {
    var next := m + 7;
    hide ClWeekStart, Start, Settled, ShowsDay, ChileOffsets;
    forall now ensures ClWeekStart(off, now) == Start(off, m, 8 * HOUR) <==> ShowsDay(off, m, next, now) {
      WeekStartByDay(off, m, now);
    }
    StartsDelimitExactly(off, m, next, 8 * HOUR);
    if forall now :: ClWeekStart(off, now) == Start(off, m, 8 * HOUR) <==>
                     Start(off, m, 8 * HOUR) <= now < Start(off, next, 8 * HOUR) {
      forall now ensures ShowsDay(off, m, next, now) <==> Start(off, m, 8 * HOUR) <= now < Start(off, next, 8 * HOUR) {
        assert ClWeekStart(off, now) == Start(off, m, 8 * HOUR) <==> ShowsDay(off, m, next, now);
      }
    }
  }

  // ---------------------------------------------------------------- months

  lemma MonthStartByDay(off: Offset, d: Date, now: int)
    requires ChileOffsets(off) && ValidDate(d)
    ensures ClMonthStart(off, now) == Start(off, DayNumber(d.year, d.month, 1), 4 * HOUR) <==>
            ShowsDay(off, DayNumber(d.year, d.month, 1), NextMonth(d), now)
  {
    hide DayNumber, DateOf, NextMonth;
    var first, e := DayNumber(d.year, d.month, 1), DateOf(WallDay(off, now));
    SameMonth(d, WallDay(off, now));
    StartsDiffer(off, DayNumber(e.year, e.month, 1), first, 4 * HOUR);
    FirstOfMonthDetermines(e, d);
  }

  /** The instants that get the start of a month are exactly those from it up to the start of the next, if and only if
      both midnights are settled. */
  lemma MonthStartPartitionsTime(off: Offset, d: Date)
    requires ChileOffsets(off) && ValidDate(d)
    ensures var first, next := DayNumber(d.year, d.month, 1), NextMonth(d);
            (forall now :: ClMonthStart(off, now) == Start(off, first, 4 * HOUR) <==>
                           Start(off, first, 4 * HOUR) <= now < Start(off, next, 4 * HOUR))
            <==> Settled(off, first, 4 * HOUR) && Settled(off, next, 4 * HOUR)
  {
    var first, next := DayNumber(d.year, d.month, 1), NextMonth(d);
    hide DayNumber, ClMonthStart, Start, Settled, ShowsDay, ChileOffsets, MonthLength;
    MonthSpan(d.year, d.month);
    forall now ensures ClMonthStart(off, now) == Start(off, first, 4 * HOUR) <==> ShowsDay(off, first, next, now) {
      MonthStartByDay(off, d, now);
    }
    StartsDelimitExactly(off, first, next, 4 * HOUR);
    if forall now :: ClMonthStart(off, now) == Start(off, first, 4 * HOUR) <==>
                     Start(off, first, 4 * HOUR) <= now < Start(off, next, 4 * HOUR) {
      forall now ensures ShowsDay(off, first, next, now) <==>
          Start(off, first, 4 * HOUR) <= now < Start(off, next, 4 * HOUR) {
        assert ClMonthStart(off, now) == Start(off, first, 4 * HOUR) <==> ShowsDay(off, first, next, now);
      }
    }
  }

  // ---------------------------------------------------------------- in milliseconds

  /** Midnight of a calendar day is read off at 08:00 UTC, that of a month's first day at 04:00 UTC, in milliseconds;
      and the day the clock shows changes every 24 hours of its own time. */
  lemma StartsInMilliseconds(off: Offset, d: Date, now: int)
    requires ValidDate(d)
    ensures var n := DayNumber(d.year, d.month, d.day);
            ClDayStart(off, d.year, d.month, d.day) == n * 86_400_000 - off(n * 86_400_000 + 8 * 3_600_000)
    ensures WallDay(off, now) * 86_400_000 <= now + off(now) < (WallDay(off, now) + 1) * 86_400_000
    ensures WallDay(off, now) == DayNumber(d.year, d.month, d.day) ==>
              var first := DayNumber(d.year, d.month, 1);
              ClMonthStart(off, now) == first * 86_400_000 - off(first * 86_400_000 + 4 * 3_600_000)
    ensures var monday := Monday(WallDay(off, now));
            ClWeekStart(off, now) == monday * 86_400_000 - off(monday * 86_400_000 + 8 * 3_600_000)
  {
    hide DayNumber, ClWeekStart, DateOf;
    DateOfDayNumber(d);
    WeekStartIsMondays(off, now);
  }

  // ---------------------------------------------------------------- why the hour of midnight must be settled

  /** Clocks set back from 01:00 to 00:00 on a Monday: for an hour of that Monday its week has not started yet. */
  lemma SetBackOnMonday(m: int) returns (off: Offset)
    requires Weekday(m) == 1
    ensures ChileOffsets(off)
    ensures ClWeekStart(off, m * DAY + 3 * HOUR) == m * DAY + 4 * HOUR
  {
    hide DayNumber, ClWeekStart;
    off := t => if t < m * DAY + 4 * HOUR then -3 * HOUR else -4 * HOUR;
    WeekStartIsMondays(off, m * DAY + 3 * HOUR);
    assert WallDay(off, m * DAY + 3 * HOUR) == m;
    MondayIsConstant(m, m);
  }

  /** Clocks set forward over Monday's midnight: the week starts at 23:00 of Sunday. */
  lemma SetForwardOnMonday(m: int) returns (off: Offset)
    requires Weekday(m) == 1
    ensures ChileOffsets(off)
    ensures ClWeekStart(off, m * DAY + 12 * HOUR) == m * DAY + 3 * HOUR
        && Wall(off, m * DAY + 3 * HOUR) == m * DAY - HOUR
  {
    hide DayNumber, ClWeekStart;
    off := t => if t < m * DAY + 4 * HOUR then -4 * HOUR else -3 * HOUR;
    WeekStartIsMondays(off, m * DAY + 12 * HOUR);
    assert WallDay(off, m * DAY + 12 * HOUR) == m;
    MondayIsConstant(m, m);
  }
}
