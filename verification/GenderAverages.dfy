/** Average attendance of a slot and its split by gender, academies.controller.ts, levelInsights. */
module GenderAverages {
  import opened Wrappers

  /** Declared gender of an attendee; anything but M and F is Other. */
  datatype Gender = M | F | Other

  datatype Split = Split(n: nat, m: nat, f: nat)

  /** Math.round(s / k) for a whole numerator: half up. */
  function RoundedMean(s: nat, k: nat): int
    requires k > 0
  {
    (2 * s + k) / (2 * k)
  }

  function CountOf(attendees: seq<Gender>, g: Gender): nat {
    if attendees == [] then 0
    else CountOf(attendees[..|attendees| - 1], g) + if attendees[|attendees| - 1] == g then 1 else 0
  }

  function SplitOf(attendees: seq<Gender>): Split {
    Split(|attendees|, CountOf(attendees, M), CountOf(attendees, F))
  }

  const RECENT := 8

  /** The splits of the last eight classes; the query lists the latest first. */
  function Recent(classes: seq<seq<Gender>>): seq<Split> {
    seq(if |classes| <= RECENT then |classes| else RECENT, i requires 0 <= i < |classes| => SplitOf(classes[i]))
  }

  function Total(recent: seq<Split>, value: Split -> nat): nat {
    if recent == [] then 0 else value(recent[0]) + Total(recent[1..], value)
  }

  datatype Averages = Averages(attendance: int, male: int, female: int)

  /** The three means, each rounded on its own. */
  function Raw(recent: seq<Split>): Averages
    requires recent != []
  {
    Averages(RoundedMean(Total(recent, (s: Split) => s.n), |recent|),
             RoundedMean(Total(recent, (s: Split) => s.m), |recent|),
             RoundedMean(Total(recent, (s: Split) => s.f), |recent|))
  }

  /** The larger side takes up the difference. */
  function Corrected(a: Averages): Averages {
    var diff := a.attendance - a.male - a.female;
    if diff == 0 then a
    else if a.male >= a.female then
      var male := if a.male + diff >= 0 then a.male + diff else 0;
      a.(male := male, female := a.attendance - male)
    else
      var female := if a.female + diff >= 0 then a.female + diff else 0;
      a.(female := female, male := a.attendance - female)
  }

  /** None: the slot has no class on record. */
  method SlotAverages(classes: seq<seq<Gender>>) returns (res: Option<Averages>)
    ensures res == if classes == [] then None else Some(Corrected(Raw(Recent(classes))))
  {
    var arr: seq<Split> := [];
    for c := 0 to |classes|
      invariant arr == Recent(classes[..c])
    {
      if |arr| < RECENT {
        var m, f := 0, 0;
        for i := 0 to |classes[c]|
          invariant m == CountOf(classes[c][..i], M) && f == CountOf(classes[c][..i], F)
        {
          assert classes[c][..i + 1][..i] == classes[c][..i];
          if classes[c][i] == M {
            m := m + 1;
          } else if classes[c][i] == F {
            f := f + 1;
          }
        }
        assert classes[c][..|classes[c]|] == classes[c];
        arr := arr + [Split(|classes[c]|, m, f)];
      }
    }
    assert classes[..|classes|] == classes;
    if arr == [] {
      return None;
    }
    var raw := Raw(arr);
    var avgMale, avgFemale := raw.male, raw.female;
    if avgMale + avgFemale != raw.attendance {
      var diff := raw.attendance - avgMale - avgFemale;
      if avgMale >= avgFemale {
        avgMale := if avgMale + diff >= 0 then avgMale + diff else 0;
        avgFemale := raw.attendance - avgMale;
      } else {
        avgFemale := if avgFemale + diff >= 0 then avgFemale + diff else 0;
        avgMale := raw.attendance - avgFemale;
      }
    }
    return Some(Averages(raw.attendance, avgMale, avgFemale));
  }

  // ---------------------------------------------------------------- what the correction keeps

  lemma {:induction false} CountsWithin(attendees: seq<Gender>)
    ensures CountOf(attendees, M) + CountOf(attendees, F) <= |attendees|
    ensures Other !in attendees ==> CountOf(attendees, M) + CountOf(attendees, F) == |attendees|
    decreases |attendees|
  {
    if attendees != [] { CountsWithin(attendees[..|attendees| - 1]); }
  }

  lemma {:induction false} TotalsWithin(recent: seq<Split>)
    requires forall i :: 0 <= i < |recent| ==> recent[i].m + recent[i].f <= recent[i].n
    ensures Total(recent, (s: Split) => s.m) + Total(recent, (s: Split) => s.f) <= Total(recent, (s: Split) => s.n)
    ensures (forall i :: 0 <= i < |recent| ==> recent[i].m + recent[i].f == recent[i].n) ==>
              Total(recent, (s: Split) => s.m) + Total(recent, (s: Split) => s.f) == Total(recent, (s: Split) => s.n)
    decreases |recent|
  {
    if recent != [] { TotalsWithin(recent[1..]); }
  }

  lemma MeanBounds(s: nat, k: nat)
    requires k > 0
    ensures 2 * k * RoundedMean(s, k) <= 2 * s + k < 2 * k * RoundedMean(s, k) + 2 * k
    ensures RoundedMean(s, k) >= 0
  {
  }

  lemma Below(k: nat, x: int, y: int)
    requires k > 0 && k * x < k * y
    ensures x < y
  {
  }

  /** Rounded means of parts that make up at most (exactly) the whole. */
  lemma MeansOfParts(n: nat, m: nat, f: nat, k: nat)
    requires k > 0 && m + f <= n
    ensures RoundedMean(m, k) <= RoundedMean(n, k) && RoundedMean(f, k) <= RoundedMean(n, k)
    ensures m + f == n ==> -1 <= RoundedMean(n, k) - RoundedMean(m, k) - RoundedMean(f, k) <= 1
  {
    var x, y, z := RoundedMean(n, k), RoundedMean(m, k), RoundedMean(f, k);
    MeanBounds(n, k);
    MeanBounds(m, k);
    MeanBounds(f, k);
    Below(2 * k, y, x + 1) by { assert 2 * k * (x + 1) == 2 * k * x + 2 * k; }
    Below(2 * k, z, x + 1) by { assert 2 * k * (x + 1) == 2 * k * x + 2 * k; }
    if m + f == n {
      assert 2 * k * (x - y - z) == 2 * k * x - 2 * k * y - 2 * k * z;
      Below(2 * k, x - y - z, 2);
      Below(2 * k, -2, x - y - z);
    }
  }

  lemma RecentWithin(classes: seq<seq<Gender>>, i: nat)
    requires i < |Recent(classes)|
    ensures Recent(classes)[i].m + Recent(classes)[i].f <= Recent(classes)[i].n
    ensures Other !in classes[i] ==> Recent(classes)[i].m + Recent(classes)[i].f == Recent(classes)[i].n
  {
    CountsWithin(classes[i]);
  }

  /** Male and female add up to the attendance, neither is negative, the smaller side is as it was rounded;
      and when every attendee declared M or F the larger moved by at most one. */
  lemma CorrectionKeepsTheSmaller(classes: seq<seq<Gender>>)
    requires classes != []
    ensures var raw, c := Raw(Recent(classes)), Corrected(Raw(Recent(classes)));
            && c.attendance == raw.attendance && c.male + c.female == c.attendance && c.male >= 0 && c.female >= 0
            && (if raw.male >= raw.female then c.female == raw.female else c.male == raw.male)
            && ((forall i :: 0 <= i < |classes| ==> Other !in classes[i]) ==>
                  -1 <= c.male - raw.male <= 1 && -1 <= c.female - raw.female <= 1)
  {
    var recent := Recent(classes);
    forall i | 0 <= i < |recent| ensures recent[i].m + recent[i].f <= recent[i].n
                                 && (Other !in classes[i] ==> recent[i].m + recent[i].f == recent[i].n) {
      RecentWithin(classes, i);
    }
    TotalsWithin(recent);
    var n, m, f := Total(recent, (s: Split) => s.n), Total(recent, (s: Split) => s.m), Total(recent, (s: Split) => s.f);
    MeansOfParts(n, m, f, |recent|);
    MeanBounds(m, |recent|);
    MeanBounds(f, |recent|);
  }

  /** Three undeclared attendees and one man show as four men. */
  lemma UndeclaredShowAsMen()
    ensures Corrected(Raw(Recent([[M, Other, Other, Other]]))) == Averages(4, 4, 0)
  {
    var a := [M, Other, Other, Other];
    assert a[..3] == [M, Other, Other] && a[..3][..2] == [M, Other] && [M, Other][..1] == [M] && [M][..0] == [];
    assert CountOf([M], M) == 1 && CountOf([M, Other], M) == 1 && CountOf([M, Other, Other], M) == 1;
    assert CountOf([M], F) == 0 && CountOf([M, Other], F) == 0 && CountOf([M, Other, Other], F) == 0;
    assert Recent([a]) == [Split(4, 1, 0)];
  }

  /** Attendees of no declared gender in the classes counted. */
  function Undeclared(recent: seq<Split>): int {
    if recent == [] then 0 else recent[0].n - recent[0].m - recent[0].f + Undeclared(recent[1..])
  }

  lemma {:induction false} UndeclaredIsTheRest(recent: seq<Split>)
    ensures Undeclared(recent) ==
            Total(recent, (s: Split) => s.n) - Total(recent, (s: Split) => s.m) - Total(recent, (s: Split) => s.f)
    decreases |recent|
  {
    if recent != [] { UndeclaredIsTheRest(recent[1..]); }
  }

  /** Three separately rounded parts miss the rounded whole by at most 1. */
  lemma MeansOfThree(n: nat, m: nat, f: nat, u: nat, k: nat)
    requires k > 0 && m + f + u == n
    ensures -1 <= RoundedMean(n, k) - RoundedMean(m, k) - RoundedMean(f, k) - RoundedMean(u, k) <= 1
  {
    var w, x, y, z := RoundedMean(n, k), RoundedMean(m, k), RoundedMean(f, k), RoundedMean(u, k);
    MeanBounds(n, k);
    MeanBounds(m, k);
    MeanBounds(f, k);
    MeanBounds(u, k);
    assert 2 * k * (w - x - y - z) == 2 * k * w - 2 * k * x - 2 * k * y - 2 * k * z;
    Below(2 * k, w - x - y - z, 2) by { assert 2 * k * 2 == 4 * k; }
    Below(2 * k, -2, w - x - y - z) by { assert 2 * k * -2 == -(4 * k); }
  }

  /** The larger side takes up exactly what the two rounded sides leave of the attendance, which is the rounded mean
      number of attendees of no declared gender, give or take one. */
  lemma UndeclaredGoToTheLarger(classes: seq<seq<Gender>>)
    requires classes != []
    ensures var recent := Recent(classes);
            var raw, c, undeclared := Raw(recent), Corrected(Raw(recent)), Undeclared(recent);
            var moved := raw.attendance - raw.male - raw.female;
            && (if raw.male >= raw.female then c.male == raw.male + moved else c.female == raw.female + moved)
            && undeclared >= 0 && -1 <= moved - RoundedMean(undeclared, |recent|) <= 1
  {
    var recent := Recent(classes);
    CorrectionKeepsTheSmaller(classes);
    forall i | 0 <= i < |recent| ensures recent[i].m + recent[i].f <= recent[i].n { RecentWithin(classes, i); }
    TotalsWithin(recent);
    UndeclaredIsTheRest(recent);
    MeansOfThree(Total(recent, (s: Split) => s.n), Total(recent, (s: Split) => s.m), Total(recent, (s: Split) => s.f),
                 Undeclared(recent), |recent|);
  }

  // ---------------------------------------------------------------- what the averages are of

  /** How many classes count: the latest eight, or all there are. */
  function Counted(classes: seq<seq<Gender>>): nat {
    if |classes| <= 8 then |classes| else 8
  }

  /** Attendees of the first k classes listed. */
  function Attendees(classes: seq<seq<Gender>>, k: nat): nat
    requires k <= |classes|
  {
    if k == 0 then 0 else Attendees(classes, k - 1) + |classes[k - 1]|
  }

  /** Those of them who declared g. */
  function Declared(classes: seq<seq<Gender>>, k: nat, g: Gender): nat
    requires k <= |classes|
  {
    if k == 0 then 0 else Declared(classes, k - 1, g) + multiset(classes[k - 1])[g]
  }

  lemma {:induction false} CountIsMultiplicity(attendees: seq<Gender>, g: Gender)
    ensures CountOf(attendees, g) == multiset(attendees)[g]
    decreases |attendees|
  {
    if attendees != [] {
      CountIsMultiplicity(attendees[..|attendees| - 1], g);
      assert attendees == attendees[..|attendees| - 1] + [attendees[|attendees| - 1]];
    }
  }

  lemma {:induction false} TotalLast(recent: seq<Split>, last: Split, value: Split -> nat)
    ensures Total(recent + [last], value) == Total(recent, value) + value(last)
    decreases |recent|
  {
    if recent == [] {
      assert recent + [last] == [last];
    } else {
      assert (recent + [last])[1..] == recent[1..] + [last];
      TotalLast(recent[1..], last, value);
    }
  }

  lemma {:induction false} TotalsOfClasses(classes: seq<seq<Gender>>, k: nat)
    requires k <= |Recent(classes)|
    ensures k <= |classes| && Total(Recent(classes)[..k], (s: Split) => s.n) == Attendees(classes, k)
    ensures Total(Recent(classes)[..k], (s: Split) => s.m) == Declared(classes, k, M)
    ensures Total(Recent(classes)[..k], (s: Split) => s.f) == Declared(classes, k, F)
  {
    if k > 0 {
      var recent := Recent(classes);
      TotalsOfClasses(classes, k - 1);
      assert recent[..k] == recent[..k - 1] + [recent[k - 1]] && recent[k - 1] == SplitOf(classes[k - 1]);
      TotalLast(recent[..k - 1], recent[k - 1], (s: Split) => s.n);
      TotalLast(recent[..k - 1], recent[k - 1], (s: Split) => s.m);
      TotalLast(recent[..k - 1], recent[k - 1], (s: Split) => s.f);
      CountIsMultiplicity(classes[k - 1], M);
      CountIsMultiplicity(classes[k - 1], F);
    }
  }

  /** x is s / k rounded half up. */
  ghost predicate IsMean(x: int, s: nat, k: nat) {
    2 * k * x <= 2 * s + k < 2 * k * x + 2 * k
  }

  /** The averages shown: the rounded mean attendance of the latest eight classes, of which the side with the smaller
      rounded mean has just that, and the other side the rest. */
  lemma AveragesExactly(classes: seq<seq<Gender>>, male: int, female: int)
    requires classes != []
    requires IsMean(male, Declared(classes, Counted(classes), M), Counted(classes))
    requires IsMean(female, Declared(classes, Counted(classes), F), Counted(classes))
    ensures var c, k := Corrected(Raw(Recent(classes))), Counted(classes);
            && IsMean(c.attendance, Attendees(classes, k), k) && c.male + c.female == c.attendance
            && (if male >= female then c.female == female else c.male == male)
  {
    var recent, k := Recent(classes), Counted(classes);
    assert |recent| == k && recent[..k] == recent;
    TotalsOfClasses(classes, k);
    var raw := Raw(recent);
    MeanBounds(Attendees(classes, k), k);
    MeanBounds(Declared(classes, k, M), k);
    MeanBounds(Declared(classes, k, F), k);
    OneMean(male, raw.male, Declared(classes, k, M), k);
    OneMean(female, raw.female, Declared(classes, k, F), k);
    CorrectionKeepsTheSmaller(classes);
  }

  lemma OneMean(x: int, y: int, s: nat, k: nat)
    requires k > 0 && IsMean(x, s, k) && IsMean(y, s, k)
    ensures x == y
  {
    Below(2 * k, x, y + 1) by { assert 2 * k * (y + 1) == 2 * k * y + 2 * k; }
    Below(2 * k, y, x + 1) by { assert 2 * k * (x + 1) == 2 * k * x + 2 * k; }
  }
}
