/** Upcoming birthdays, academies/domain/academy.service.ts; instants are whole UTC days. */
module Birthdays {
  import opened Wrappers
  import opened Civil

  datatype Person = Person(id: string, name: string, birthDay: Option<int>)

  datatype Upcoming = Upcoming(personId: string, name: string, date: int, daysUntil: int)

  /** Date.UTC(y, month, day): 29 February becomes 1 March in a common year. */
  function Anniversary(birth: Date, y: int): int {
    DayNumber(y, birth.month, birth.day)
  }

  function NextBirthday(birthDay: int, today: int): int {
    var birth, year := DateOf(birthDay), DateOf(today).year;
    if Anniversary(birth, year) < today then Anniversary(birth, year + 1) else Anniversary(birth, year)
  }

  predicate Shown(p: Person, today: int, windowDays: int) {
    p.birthDay.Some? && NextBirthday(p.birthDay.value, today) - today <= windowDays
  }

  function EntryFor(p: Person, today: int): Upcoming
    requires p.birthDay.Some?
  {
    var b := NextBirthday(p.birthDay.value, today);
    Upcoming(p.id, p.name, b, b - today)
  }

  function Entries(persons: seq<Person>, today: int, windowDays: int): seq<Upcoming> {
    if persons == [] then []
    else
      var last := persons[|persons| - 1];
      Entries(persons[..|persons| - 1], today, windowDays)
      + (if Shown(last, today, windowDays) then [EntryFor(last, today)] else [])
  }

  /** What localeCompare gives the sort: a total preorder on names. */
  ghost predicate TotalPreorder(leq: (string, string) -> bool) {
    && (forall a, b :: leq(a, b) || leq(b, a))
    && (forall a, b, c :: leq(a, b) && leq(b, c) ==> leq(a, c))
  }

  predicate Before(leq: (string, string) -> bool, a: Upcoming, b: Upcoming) {
    a.daysUntil < b.daysUntil || (a.daysUntil == b.daysUntil && leq(a.name, b.name))
  }

  ghost predicate Sorted(leq: (string, string) -> bool, s: seq<Upcoming>) {
    forall i, k :: 0 <= i < k < |s| ==> Before(leq, s[i], s[k])
  }

  lemma BeforeIsPreorder(leq: (string, string) -> bool, a: Upcoming, b: Upcoming, c: Upcoming)
    requires TotalPreorder(leq)
    ensures Before(leq, a, b) || Before(leq, b, a)
    ensures Before(leq, a, b) && Before(leq, b, c) ==> Before(leq, a, c)
  {
  }

  method Insert(leq: (string, string) -> bool, s: seq<Upcoming>, x: Upcoming) returns (r: seq<Upcoming>)
    requires TotalPreorder(leq) && Sorted(leq, s)
    ensures Sorted(leq, r) && multiset(r) == multiset(s) + multiset{x}
  {
    hide TotalPreorder, Before;
    var i := |s|;
    while i > 0 && !Before(leq, s[i - 1], x)
      invariant 0 <= i <= |s|
      invariant forall k :: i <= k < |s| ==> Before(leq, x, s[k])
    {
      BeforeIsPreorder(leq, s[i - 1], x, x);
      i := i - 1;
    }
    assert s == s[..i] + s[i..];
    r := s[..i] + [x] + s[i..];
    forall k | 0 <= k < i ensures Before(leq, s[k], x) {
      BeforeIsPreorder(leq, s[k], s[i - 1], x);
    }
  }

  method ComputeUpcomingBirthdays(persons: seq<Person>, today: int, windowDays: int, leq: (string, string) -> bool)
    returns (out: seq<Upcoming>)
    requires TotalPreorder(leq)
    ensures Sorted(leq, out)
    ensures forall i, k :: 0 <= i < k < |out| ==>
              && out[i].daysUntil <= out[k].daysUntil
              && (out[i].daysUntil == out[k].daysUntil ==> leq(out[i].name, out[k].name))
    ensures multiset(out) == multiset(Entries(persons, today, windowDays))
  {
    hide NextBirthday, TotalPreorder, Before;
    out := [];
    for i := 0 to |persons|
      invariant Sorted(leq, out)
      invariant multiset(out) == multiset(Entries(persons[..i], today, windowDays))
    {
      assert persons[..i + 1][..i] == persons[..i];
      var p := persons[i];
      if p.birthDay.Some? && NextBirthday(p.birthDay.value, today) - today <= windowDays {
        out := Insert(leq, out, EntryFor(p, today));
      }
    }
    assert persons[..|persons|] == persons;
    SortedExactly(leq, out);
  }

  lemma SortedExactly(leq: (string, string) -> bool, s: seq<Upcoming>)
    ensures Sorted(leq, s) <==>
            forall i, k :: 0 <= i < k < |s| ==>
              && s[i].daysUntil <= s[k].daysUntil
              && (s[i].daysUntil == s[k].daysUntil ==> leq(s[i].name, s[k].name))
  {
  }

  // ---------------------------------------------------------------- the date

  lemma AnniversaryStep(birth: Date, y: int)
    requires ValidDate(birth)
    ensures 365 <= Anniversary(birth, y + 1) - Anniversary(birth, y) <= 366
    ensures YearStart(y) <= Anniversary(birth, y) < YearStart(y + 1)
  {
    DayOfYear(y, birth.month, birth.day);
    DayOfYear(y + 1, birth.month, birth.day);
    YearLength(y);
    hide DayNumber, YearStart;
  }

  lemma {:induction false} AnniversariesRise(birth: Date, x: int, y: int)
    requires ValidDate(birth) && x < y
    ensures Anniversary(birth, x) < Anniversary(birth, y)
    decreases y - x
  {
    hide Anniversary;
    AnniversaryStep(birth, y - 1);
    if x < y - 1 { AnniversariesRise(birth, x, y - 1); }
  }

  /** The date shown is the least anniversary not before today, at most a year away. */
  lemma NextBirthdayIsLeast(birthDay: int, today: int, y: int)
    ensures var b, birth := NextBirthday(birthDay, today), DateOf(birthDay);
            && today <= b <= today + 365
            && (b == Anniversary(birth, DateOf(today).year) || b == Anniversary(birth, DateOf(today).year + 1))
            && (Anniversary(birth, y) >= today ==> b <= Anniversary(birth, y))
  {
    hide Anniversary, DayNumber, YearStart, DateOf;
    var birth, t := DateOf(birthDay), DateOf(today);
    WithinYear(t.year, t.month, t.day);
    AnniversaryStep(birth, t.year - 1);
    AnniversaryStep(birth, t.year);
    AnniversaryStep(birth, t.year + 1);
    if y < t.year - 1 { AnniversariesRise(birth, y, t.year - 1); }
    if y > t.year + 1 { AnniversariesRise(birth, t.year + 1, y); }
  }

  /** The date is the person's day and month, but for 29 February in a common year. */
  lemma AnniversaryIsBirthday(birth: Date, y: int)
    requires ValidDate(birth)
    ensures DateOf(Anniversary(birth, y)) ==
            if birth.month == 2 && birth.day == 29 && !Leap(y) then Date(y, 3, 1) else Date(y, birth.month, birth.day)
  {
    hide DayNumber, DateOf, YearStart, MonthStart, MonthLength;
    MonthLengths(y, birth.month);
    MonthLengths(birth.year, birth.month);
    if birth.month == 2 && birth.day == 29 && !Leap(y) {
      LeapDayInCommonYear(y);
    } else {
      DateOfDayNumber(Date(y, birth.month, birth.day));
    }
  }

  lemma LeapDayInCommonYear(y: int)
    requires !Leap(y)
    ensures DateOf(DayNumber(y, 2, 29)) == Date(y, 3, 1)
  {
    hide DayNumber, DateOf, YearStart, MonthStart, MonthLength;
    MonthLengths(y, 2);
    MonthLengths(y, 3);
    MonthSpan(y, 2);
    DayOfYear(y, 2, 1);
    DayOfYear(y, 2, 29);
    DateOfDayNumber(Date(y, 3, 1));
  }

  /** Born on 29 February: the date is 29 February in a leap year and 1 March in a common one. */
  lemma LeapDayRolls(y: int)
    ensures Anniversary(Date(2000, 2, 29), y) == if Leap(y) then DayNumber(y, 2, 29) else DayNumber(y, 3, 1)
  {
    DayOfYear(y, 2, 29);
    DayOfYear(y, 3, 1);
    hide DayNumber, YearStart;
  }

  // ---------------------------------------------------------------- who is shown

  /** Some anniversary of the person falls in the window. */
  ghost predicate InWindow(p: Person, today: int, windowDays: int) {
    p.birthDay.Some? && exists y :: today <= Anniversary(DateOf(p.birthDay.value), y) <= today + windowDays
  }

  lemma ShownExactly(p: Person, today: int, windowDays: int)
    ensures Shown(p, today, windowDays) <==> InWindow(p, today, windowDays)
  {
    hide Anniversary, DateOf, NextBirthday;
    if p.birthDay.Some? {
      NextBirthdayIsLeast(p.birthDay.value, today, 0);
      if InWindow(p, today, windowDays) {
        var y :| today <= Anniversary(DateOf(p.birthDay.value), y) <= today + windowDays;
        NextBirthdayIsLeast(p.birthDay.value, today, y);
      }
    }
  }

  /** e tells of p: the id, the name, the day of the next birthday and how far away it is. */
  ghost predicate Tells(e: Upcoming, p: Person, today: int) {
    && e.personId == p.id && e.name == p.name && p.birthDay.Some?
    && e.date == NextBirthday(p.birthDay.value, today) && e.daysUntil == e.date - today
  }

  lemma EntryTells(p: Person, today: int, e: Upcoming)
    requires p.birthDay.Some?
    ensures EntryFor(p, today) == e <==> Tells(e, p, today)
  {
    hide NextBirthday;
  }

  /** How many of the persons have e as their entry and a birthday in the window. */
  ghost function Times(persons: seq<Person>, today: int, windowDays: int, e: Upcoming): nat {
    if persons == [] then 0
    else
      var last := persons[|persons| - 1];
      Times(persons[..|persons| - 1], today, windowDays, e)
      + (if InWindow(last, today, windowDays) && Tells(e, last, today) then 1 else 0)
  }

  lemma OnlyBorn(p: Person, today: int, windowDays: int)
    ensures InWindow(p, today, windowDays) ==> p.birthDay.Some?
  {
  }

  /** Each person with a birthday in the window contributes exactly one entry, and nobody else contributes any. */
  lemma {:induction false} EachInWindowOnce(persons: seq<Person>, today: int, windowDays: int, e: Upcoming)
    ensures multiset(Entries(persons, today, windowDays))[e] == Times(persons, today, windowDays, e)
    decreases |persons|
  {
    hide NextBirthday, InWindow, Shown;
    if persons != [] {
      EachInWindowOnce(persons[..|persons| - 1], today, windowDays, e);
      var last := persons[|persons| - 1];
      ShownExactly(last, today, windowDays);
      if last.birthDay.Some? { EntryTells(last, today, e); }
      hide EntryFor, Tells;
      assert InWindow(last, today, windowDays) ==> last.birthDay.Some? by { OnlyBorn(last, today, windowDays); }
    }
  }

  lemma {:induction false} EntriesInWindow(persons: seq<Person>, today: int, windowDays: int)
    ensures forall e :: e in Entries(persons, today, windowDays) ==>
              0 <= e.daysUntil <= windowDays && e.daysUntil <= 365 && e.date == today + e.daysUntil
    decreases |persons|
  {
    hide NextBirthday;
    if persons != [] {
      EntriesInWindow(persons[..|persons| - 1], today, windowDays);
      var last := persons[|persons| - 1];
      if last.birthDay.Some? { NextBirthdayIsLeast(last.birthDay.value, today, 0); }
    }
  }
}
