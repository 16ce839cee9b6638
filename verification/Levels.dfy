/** Enrolment levels of academies.controller.ts: who writes them, and the "levels and quotas" counts. */
module Levels {
  import opened Wrappers

  /** A row of EnrollmentLevel; the three columns are its primary key. */
  datatype Row = Row(enrollment: string, classType: string, level: string)

  datatype Enrollment = Enrollment(academy: string, active: bool)

  /** A level of the catalogue; None is the default line. */
  datatype Level = Level(academy: Option<string>, order: int)

  /** One entry of the setLevels body. */
  datatype TypeLevels = TypeLevels(classType: string, levelIds: seq<string>)

  datatype Failure = RepeatedType | SeveralLevels | UnknownType | UnknownLevel

  ghost predicate OneLevelPerType(rows: set<Row>) {
    forall r, q :: r in rows && q in rows && r.enrollment == q.enrollment && r.classType == q.classType ==> r == q
  }

  ghost predicate Distinct<T>(s: seq<T>) {
    forall i, k :: 0 <= i < k < |s| ==> s[i] != s[k]
  }

  function RowsFor(enrollment: string, dto: seq<TypeLevels>): set<Row> {
    set i, k | 0 <= i < |dto| && 0 <= k < |dto[i].levelIds| :: Row(enrollment, dto[i].classType, dto[i].levelIds[k])
  }

  lemma RowsForExactly(id: string, dto: seq<TypeLevels>, t: string, l: string)
    ensures Row(id, t, l) in RowsFor(id, dto) <==>
            exists i :: 0 <= i < |dto| && dto[i].classType == t && l in dto[i].levelIds
    ensures forall r :: r in RowsFor(id, dto) ==> r.enrollment == id
  {
    if i :| 0 <= i < |dto| && dto[i].classType == t && l in dto[i].levelIds {
      var k :| 0 <= k < |dto[i].levelIds| && dto[i].levelIds[k] == l;
      assert Row(id, dto[i].classType, dto[i].levelIds[k]) in RowsFor(id, dto);
    }
  }

  /** Some class type comes in two entries. */
  ghost predicate Repeats(dto: seq<TypeLevels>) {
    exists i, k :: 0 <= i < k < |dto| && dto[i].classType == dto[k].classType
  }

  /** Some entry names two different levels. */
  ghost predicate Doubles(dto: seq<TypeLevels>) {
    exists i, l, m :: 0 <= i < |dto| && l in dto[i].levelIds && m in dto[i].levelIds && l != m
  }

  ghost predicate KnownTypes(types: set<string>, dto: seq<TypeLevels>) {
    forall i :: 0 <= i < |dto| ==> dto[i].classType in types
  }

  ghost predicate KnownLevels(levels: map<string, Level>, dto: seq<TypeLevels>) {
    forall i, l :: 0 <= i < |dto| && l in dto[i].levelIds ==> l in levels
  }

  /** A lowest level of the whole catalogue, none only if it is empty. */
  ghost predicate IsBase(levels: map<string, Level>, base: Option<string>) {
    && (base.None? <==> levels == map[])
    && (base.Some? ==> base.value in levels && forall l :: l in levels ==> levels[base.value].order <= levels[l].order)
  }

  /** The rows once an enrolment has started at its base level in every class type. */
  function WithBase(rows: set<Row>, types: set<string>, id: string, base: Option<string>): set<Row> {
    rows + if base.Some? then set t | t in types :: Row(id, t, base.value) else {}
  }

  /** The two statements of the setLevels transaction, on the rows they find. */
  function Deleted(rows: set<Row>, id: string): set<Row> {
    set r | r in rows && r.enrollment != id
  }

  function Created(rows: set<Row>, id: string, dto: seq<TypeLevels>): set<Row> {
    rows + RowsFor(id, dto)
  }

  class AcademyTables {
    var enrollments: map<string, Enrollment>
    var levels: map<string, Level>
    var types: set<string>
    var rows: set<Row>

    constructor (levels: map<string, Level>, types: set<string>)
      ensures this.levels == levels && this.types == types && enrollments == map[] && rows == {} && Valid()
    {
      this.levels, this.types, enrollments, rows := levels, types, map[], {};
    }

    /** Rows reference enrolments, and no enrolment has two levels of one type. */
    ghost predicate Valid()
      reads this
    {
      OneLevelPerType(rows) && forall r :: r in rows ==> r.enrollment in enrollments
    }

    /** The new student starts at a lowest level of the whole catalogue, in every class type. */
    method CreateEnrollment(id: string, academy: string, active: bool) returns (base: Option<string>)
      requires Valid() && id !in enrollments
      modifies `enrollments, `rows
      ensures Valid() && enrollments == old(enrollments)[id := Enrollment(academy, active)]
      ensures IsBase(levels, base) && rows == WithBase(old(rows), types, id, base)
      ensures forall e, t, l :: Row(e, t, l) in rows <==>
                Row(e, t, l) in old(rows) || (e == id && t in types && base == Some(l))
    {
      base := None;
      var left := levels.Keys;
      while left != {}
        invariant left <= levels.Keys
        invariant base.Some? ==> base.value in levels && forall l :: l in levels.Keys - left ==>
            levels[base.value].order <= levels[l].order
        invariant base.None? ==> left == levels.Keys
        decreases left
      {
        var l :| l in left;
        if base.None? || levels[l].order < levels[base.value].order {
          base := Some(l);
        }
        left := left - {l};
      }
      enrollments := enrollments[id := Enrollment(academy, active)];
      if base.Some? {
        rows := rows + set t | t in types :: Row(id, t, base.value);
      }
    }

    /** Replaces every level of the enrolment, or fails and changes nothing. */
    method SetLevels(id: string, dto: seq<TypeLevels>) returns (res: Result<set<Row>, Failure>)
      requires Valid() && id in enrollments
      modifies `rows
      ensures Valid()
      ensures res.Failure? ==> rows == old(rows)
      ensures res.Success? ==> res.value == RowsFor(id, dto) && rows == Created(Deleted(old(rows), id), id, dto)
      ensures res.Success? ==> forall e, t, l :: Row(e, t, l) in rows <==>
                if e != id then Row(e, t, l) in old(rows)
                else exists i :: 0 <= i < |dto| && dto[i].classType == t && l in dto[i].levelIds
      ensures res == Failure(RepeatedType) <==> Repeats(dto)
      ensures res == Failure(SeveralLevels) <==> !Repeats(dto) && Doubles(dto)
      ensures res == Failure(UnknownType) <==> !Repeats(dto) && !Doubles(dto) && !KnownTypes(types, dto)
      ensures res == Failure(UnknownLevel) <==>
            !Repeats(dto) && !Doubles(dto) && KnownTypes(types, dto)
            && !KnownLevels(levels, dto)
    {
      if exists i, k :: 0 <= i < k < |dto| && dto[i].classType == dto[k].classType {
        return Failure(RepeatedType);
      }
      if exists i, k, l :: 0 <= i < |dto| && 0 <= k < l < |dto[i].levelIds|
          && dto[i].levelIds[k] != dto[i].levelIds[l] {
        ghost var i, k, l :| 0 <= i < |dto| && 0 <= k < l < |dto[i].levelIds|
            && dto[i].levelIds[k] != dto[i].levelIds[l];
        assert dto[i].levelIds[k] in dto[i].levelIds && dto[i].levelIds[l] in dto[i].levelIds;
        return Failure(SeveralLevels);
      }
      if exists i :: 0 <= i < |dto| && dto[i].classType !in types {
        return Failure(UnknownType);
      }
      if exists i, k :: 0 <= i < |dto| && 0 <= k < |dto[i].levelIds| && dto[i].levelIds[k] !in levels {
        return Failure(UnknownLevel);
      }
      rows := Deleted(rows, id);
      rows := Created(rows, id, dto);
      forall t, l ensures Row(id, t, l) in RowsFor(id, dto) <==>
                            exists i :: 0 <= i < |dto| && dto[i].classType == t && l in dto[i].levelIds {
        RowsForExactly(id, dto, t, l);
      }
      return Success(RowsFor(id, dto));
    }
  }

  // ---------------------------------------------------------------- overlapping calls

  /** What SetLevels accepts of the body alone. */
  ghost predicate WellFormed(dto: seq<TypeLevels>) {
    !Repeats(dto) && !Doubles(dto)
  }

  ghost predicate Agree(a: seq<TypeLevels>, b: seq<TypeLevels>) {
    forall i, k :: 0 <= i < |a| && 0 <= k < |b| && a[i].classType == b[k].classType ==>
      forall l, m :: l in a[i].levelIds && m in b[k].levelIds ==> l == m
  }

  lemma RowsForOne(id: string, dto: seq<TypeLevels>)
    requires WellFormed(dto)
    ensures OneLevelPerType(RowsFor(id, dto))
  {
    forall r, q | r in RowsFor(id, dto) && q in RowsFor(id, dto) && r.classType == q.classType ensures r == q {
      var i, k :| 0 <= i < |dto| && 0 <= k < |dto[i].levelIds| && r == Row(id, dto[i].classType, dto[i].levelIds[k]);
      var j, l :| 0 <= j < |dto| && 0 <= l < |dto[j].levelIds| && q == Row(id, dto[j].classType, dto[j].levelIds[l]);
      assert i == j;
      assert dto[i].levelIds[k] in dto[i].levelIds && dto[i].levelIds[l] in dto[i].levelIds;
    }
  }

  /** One call after the other, the second leaves one level per type, and nothing of the first. */
  lemma SerialSetLevels(rows: set<Row>, id: string, a: seq<TypeLevels>, b: seq<TypeLevels>)
    requires OneLevelPerType(rows) && WellFormed(b)
    ensures var after := Created(Deleted(Created(Deleted(rows, id), id, a), id), id, b);
            OneLevelPerType(after) && after == Created(Deleted(rows, id), id, b)
  {
    RowsForOne(id, b);
    var after := Created(Deleted(Created(Deleted(rows, id), id, a), id), id, b);
    assert after == Created(Deleted(rows, id), id, b);
  }

  lemma RowOf(id: string, dto: seq<TypeLevels>, i: nat, l: string)
    requires i < |dto| && l in dto[i].levelIds
    ensures Row(id, dto[i].classType, l) in RowsFor(id, dto)
  {
    var k :| 0 <= k < |dto[i].levelIds| && dto[i].levelIds[k] == l;
    assert Row(id, dto[i].classType, dto[i].levelIds[k]) in RowsFor(id, dto);
  }

  /** Two overlapping calls, both deleting before either creates, leave one level per type if and only if they name no
      two levels of one type. */
  lemma OverlappingSetLevelsExactly(rows: set<Row>, id: string, a: seq<TypeLevels>, b: seq<TypeLevels>)
    requires OneLevelPerType(rows) && WellFormed(a) && WellFormed(b)
    ensures OneLevelPerType(Created(Created(Deleted(Deleted(rows, id), id), id, a), id, b)) <==> Agree(a, b)
  {
    var after := Created(Created(Deleted(Deleted(rows, id), id), id, a), id, b);
    RowsForOne(id, a);
    RowsForOne(id, b);
    if Agree(a, b) {
      forall r, q | r in RowsFor(id, a) && q in RowsFor(id, b) && r.classType == q.classType ensures r == q {
        var i, k :| 0 <= i < |a| && 0 <= k < |a[i].levelIds| && r == Row(id, a[i].classType, a[i].levelIds[k]);
        var j, l :| 0 <= j < |b| && 0 <= l < |b[j].levelIds| && q == Row(id, b[j].classType, b[j].levelIds[l]);
        assert a[i].levelIds[k] in a[i].levelIds && b[j].levelIds[l] in b[j].levelIds;
      }
    }
    if OneLevelPerType(after) {
      forall i, k, l, m | 0 <= i < |a| && 0 <= k < |b| && a[i].classType == b[k].classType
                          && l in a[i].levelIds && m in b[k].levelIds
        ensures l == m
      {
        RowOf(id, a, i, l);
        RowOf(id, b, k, m);
        assert Row(id, a[i].classType, l) in after && Row(id, b[k].classType, m) in after;
      }
    }
  }

  /** Two staff members move a student to different levels at once: the student ends up with both. */
  lemma TwoLevelsAtOnce()
    ensures var a, b := [TypeLevels("t", ["low"])], [TypeLevels("t", ["high"])];
            && WellFormed(a) && WellFormed(b)
            && !OneLevelPerType(Created(Created(Deleted(Deleted({}, "e"), "e"), "e", a), "e", b))
  {
    var a, b := [TypeLevels("t", ["low"])], [TypeLevels("t", ["high"])];
    assert "low" in a[0].levelIds && "high" in b[0].levelIds;
    OverlappingSetLevelsExactly({}, "e", a, b);
  }

  // ---------------------------------------------------------------- the counts

  function Cell(rows: set<Row>, t: string, l: string): set<Row> {
    set r | r in rows && r.classType == t && r.level == l
  }

  function OfType(rows: set<Row>, t: string): set<Row> {
    set r | r in rows && r.classType == t
  }

  function EnrollmentsOf(rows: set<Row>): set<string> {
    set r | r in rows :: r.enrollment
  }

  function RowSet(list: seq<Row>): set<Row> {
    set r | r in list
  }

  /** A missing key counts nothing. */
  function CountAt(count: map<(string, string), nat>, t: string, l: string): nat {
    if (t, l) in count then count[(t, l)] else 0
  }

  function TypeAt(byType: map<string, set<string>>, t: string): set<string> {
    if t in byType then byType[t] else {}
  }

  ghost predicate Counts(count: map<(string, string), nat>, rows: set<Row>) {
    forall t, l :: CountAt(count, t, l) == |Cell(rows, t, l)|
  }

  ghost predicate Collects(byType: map<string, set<string>>, rows: set<Row>) {
    forall t :: TypeAt(byType, t) == EnrollmentsOf(OfType(rows, t))
  }

  /** One pass over the rows of the active enrolments, as the query returns them. */
  method CountLevels(list: seq<Row>) returns (count: map<(string, string), nat>, byType: map<string, set<string>>)
    requires Distinct(list)
    ensures Counts(count, RowSet(list)) && Collects(byType, RowSet(list))
    ensures forall t, l :: (if (t, l) in count then count[(t, l)] else 0)
                           == |set r | r in list && r.classType == t && r.level == l|
    ensures forall t :: (if t in byType then byType[t] else {}) == set r | r in list && r.classType == t :: r.enrollment
  {
    count, byType := map[], map[];
    for i := 0 to |list|
      invariant Counts(count, RowSet(list[..i])) && Collects(byType, RowSet(list[..i]))
    {
      hide Counts, Collects;
      var r := list[i];
      assert RowSet(list[..i + 1]) == RowSet(list[..i]) + {r} && r !in RowSet(list[..i]);
      CountsStep(count, RowSet(list[..i]), r);
      CollectsStep(byType, RowSet(list[..i]), r);
      count := count[(r.classType, r.level) := CountAt(count, r.classType, r.level) + 1];
      byType := byType[r.classType := TypeAt(byType, r.classType) + {r.enrollment}];
    }
    assert list[..|list|] == list;
    CountsExactly(list, count, byType);
  }

  lemma CountsExactly(list: seq<Row>, count: map<(string, string), nat>, byType: map<string, set<string>>)
    requires Counts(count, RowSet(list)) && Collects(byType, RowSet(list))
    ensures forall t, l :: (if (t, l) in count then count[(t, l)] else 0)
                           == |set r | r in list && r.classType == t && r.level == l|
    ensures forall t :: (if t in byType then byType[t] else {}) == set r | r in list && r.classType == t :: r.enrollment
  {
    forall t, l ensures (if (t, l) in count then count[(t, l)] else 0)
                        == |set r | r in list && r.classType == t && r.level == l| {
      assert CountAt(count, t, l) == |Cell(RowSet(list), t, l)|;
      assert Cell(RowSet(list), t, l) == set r | r in list && r.classType == t && r.level == l;
    }
    forall t ensures (if t in byType then byType[t] else {}) == set r | r in list && r.classType == t :: r.enrollment {
      assert TypeAt(byType, t) == EnrollmentsOf(OfType(RowSet(list), t));
    }
  }

  lemma CountsStep(count: map<(string, string), nat>, seen: set<Row>, r: Row)
    requires Counts(count, seen) && r !in seen
    ensures Counts(count[(r.classType, r.level) := CountAt(count, r.classType, r.level) + 1], seen + {r})
  {
    var after := count[(r.classType, r.level) := CountAt(count, r.classType, r.level) + 1];
    forall t, l ensures CountAt(after, t, l) == |Cell(seen + {r}, t, l)| {
      assert CountAt(count, t, l) == |Cell(seen, t, l)|;
      CellGrows(seen, r, t, l);
    }
  }

  lemma CellGrows(seen: set<Row>, r: Row, t: string, l: string)
    requires r !in seen
    ensures |Cell(seen + {r}, t, l)| == |Cell(seen, t, l)| + if t == r.classType && l == r.level then 1 else 0
  {
    var added := if t == r.classType && l == r.level then {r} else {};
    assert Cell(seen + {r}, t, l) == Cell(seen, t, l) + added && Cell(seen, t, l) !! added;
  }

  lemma CollectsStep(byType: map<string, set<string>>, seen: set<Row>, r: Row)
    requires Collects(byType, seen)
    ensures Collects(byType[r.classType := TypeAt(byType, r.classType) + {r.enrollment}], seen + {r})
  {
    var after := byType[r.classType := TypeAt(byType, r.classType) + {r.enrollment}];
    forall t ensures TypeAt(after, t) == EnrollmentsOf(OfType(seen + {r}, t)) {
      assert TypeAt(byType, t) == EnrollmentsOf(OfType(seen, t));
      EnrollmentsGrow(seen, r, t);
    }
  }

  lemma EnrollmentsGrow(seen: set<Row>, r: Row, t: string)
    ensures EnrollmentsOf(OfType(seen + {r}, t)) ==
            EnrollmentsOf(OfType(seen, t)) + (if t == r.classType then {r.enrollment} else {})
  {
    assert OfType(seen + {r}, t) == OfType(seen, t) + (if t == r.classType then {r} else {});
  }

  /** The counts shown for one type, over the academy's line of levels. */
  function Shown(rows: set<Row>, t: string, line: seq<string>): nat {
    if line == [] then 0 else |Cell(rows, t, line[0])| + Shown(rows, t, line[1..])
  }

  function Unassigned(rows: set<Row>, t: string, activeCount: nat): int {
    activeCount - |EnrollmentsOf(OfType(rows, t))|
  }

  function InLine(rows: set<Row>, t: string, line: seq<string>): set<Row> {
    set r | r in rows && r.classType == t && r.level in line
  }

  lemma {:induction false} ShownCountsRows(rows: set<Row>, t: string, line: seq<string>)
    requires Distinct(line)
    ensures Shown(rows, t, line) == |InLine(rows, t, line)|
    decreases |line|
  {
    if line != [] {
      ShownCountsRows(rows, t, line[1..]);
      assert InLine(rows, t, line) == Cell(rows, t, line[0]) + InLine(rows, t, line[1..]);
      assert line[0] !in line[1..];
      assert Cell(rows, t, line[0]) !! InLine(rows, t, line[1..]);
    }
  }

  lemma {:induction false} OneRowPerEnrollment(rows: set<Row>)
    requires forall r, q :: r in rows && q in rows && r.enrollment == q.enrollment ==> r == q
    ensures |EnrollmentsOf(rows)| == |rows|
    decreases |rows|
  {
    if rows != {} {
      var r :| r in rows;
      OneRowPerEnrollment(rows - {r});
      assert EnrollmentsOf(rows) == EnrollmentsOf(rows - {r}) + {r.enrollment};
    }
  }

  /** The active enrolments with no level of the type. */
  ghost function Without(rows: set<Row>, active: set<string>, t: string): set<string> {
    set e | e in active && !exists r :: r in rows && r.enrollment == e && r.classType == t
  }

  /** For each type the counts shown plus "unassigned" never exceed the active enrolments,
      and equal them exactly when every level assigned in that type is in the academy's line. */
  lemma CountsAddUp(rows: set<Row>, active: set<string>, t: string, line: seq<string>)
    requires OneLevelPerType(rows) && Distinct(line) && forall r :: r in rows ==> r.enrollment in active
    ensures Shown(rows, t, line) + Unassigned(rows, t, |active|) <= |active|
    ensures 0 <= Unassigned(rows, t, |active|)
    ensures Unassigned(rows, t, |active|) == |Without(rows, active, t)|
    ensures Shown(rows, t, line) + Unassigned(rows, t, |active|) == |active| <==>
            forall r :: r in rows && r.classType == t ==> r.level in line
  {
    ShownCountsRows(rows, t, line);
    OneRowPerEnrollment(OfType(rows, t));
    Subset(InLine(rows, t, line), OfType(rows, t));
    Subset(EnrollmentsOf(OfType(rows, t)), active);
    assert Without(rows, active, t) == active - EnrollmentsOf(OfType(rows, t));
    if InLine(rows, t, line) == OfType(rows, t) {
      forall r | r in rows && r.classType == t ensures r.level in line { assert r in OfType(rows, t); }
    }
    if forall r :: r in rows && r.classType == t ==> r.level in line {
      assert InLine(rows, t, line) == OfType(rows, t);
    }
  }

  lemma {:induction false} Subset<T>(a: set<T>, b: set<T>)
    requires a <= b
    ensures |a| <= |b| && (|a| == |b| <==> a == b)
    decreases |a|
  {
    if a != {} {
      var x :| x in a;
      Subset(a - {x}, b - {x});
      assert a == (a - {x}) + {x} && b == (b - {x}) + {x};
    } else if b != {} {
      var x :| x in b;
      assert b == (b - {x}) + {x};
    }
  }

  /** The academy's effective line: its own levels if it has any, else the default ones. */
  ghost predicate IsLine(levels: map<string, Level>, academy: string, line: seq<string>) {
    var owner := if exists l :: l in levels && levels[l].academy == Some(academy) then Some(academy) else None;
    Distinct(line) && forall l :: l in line <==> l in levels && levels[l].academy == owner
  }

  /** A new active enrolment adds one to the counts shown for a type if its base level is in the academy's line, and
      nothing otherwise; "unassigned" stays in both cases. */
  lemma NewEnrollmentCounts(levels: map<string, Level>, types: set<string>, rows: set<Row>, id: string,
      base: Option<string>,
                            t: string, line: seq<string>, active: nat)
    requires IsBase(levels, base) && levels != map[] && t in types && Distinct(line)
    requires forall r :: r in rows ==> r.enrollment != id
    ensures var rows' := WithBase(rows, types, id, base);
            && Shown(rows', t, line) == Shown(rows, t, line) + (if base.value in line then 1 else 0)
            && Unassigned(rows', t, active + 1) == Unassigned(rows, t, active)
  {
    var rows', r := WithBase(rows, types, id, base), Row(id, t, base.value);
    ShownCountsRows(rows, t, line);
    ShownCountsRows(rows', t, line);
    OneRowMore(rows, types, id, base.value, t, line);
    EnrollmentsGrow(OfType(rows, t), r, t);
    assert OfType(OfType(rows, t), t) == OfType(rows, t) && OfType(OfType(rows, t) + {r}, t) == OfType(rows, t) + {r};
    hide WithBase, OfType, InLine, IsBase;
    assert id !in EnrollmentsOf(OfType(rows, t)) by { NotEnrolled(rows, t, id); }
  }

  lemma NotEnrolled(rows: set<Row>, t: string, id: string)
    requires forall r :: r in rows ==> r.enrollment != id
    ensures id !in EnrollmentsOf(OfType(rows, t))
  {
  }

  lemma OneRowMore(rows: set<Row>, types: set<string>, id: string, level: string, t: string, line: seq<string>)
    requires t in types && forall r :: r in rows ==> r.enrollment != id
    ensures var rows', r := WithBase(rows, types, id, Some(level)), Row(id, t, level);
            && OfType(rows', t) == OfType(rows, t) + {r}
            && |InLine(rows', t, line)| == |InLine(rows, t, line)| + if level in line then 1 else 0
  {
    var rows', r := WithBase(rows, types, id, Some(level)), Row(id, t, level);
    var added := if level in line then {r} else {};
    assert InLine(rows', t, line) == InLine(rows, t, line) + added && InLine(rows, t, line) !! added;
  }

  /** A catalogue whose lowest level belongs to another academy: the new student of academy "a" is neither among the
      counts shown nor unassigned. */
  lemma BaseLevelOutsideLine(base: Option<string>)
    ensures var levels := map["theirs" := Level(Some("b"), 0), "own" := Level(Some("a"), 1)];
            IsLine(levels, "a", ["own"]) &&
            (IsBase(levels, base) ==>
              var rows := WithBase({}, {"t"}, "e", base);
              OneLevelPerType(rows) && Shown(rows, "t", ["own"]) + Unassigned(rows, "t", 1) == 0)
  {
    var levels := map["theirs" := Level(Some("b"), 0), "own" := Level(Some("a"), 1)];
    assert levels["own"].academy == Some("a");
    if IsBase(levels, base) {
      assert levels["theirs"].order < levels["own"].order;
      NewEnrollmentCounts(levels, {"t"}, {}, "e", base, "t", ["own"], 0);
      ShownCountsRows({}, "t", ["own"]);
      assert OfType({}, "t") == {} && EnrollmentsOf({}) == {};
    }
  }
}
