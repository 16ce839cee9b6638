/** Attribution of payments to academies by refId: the KPI's prefix match and the detail view's decode. */
module Payments {
  import opened Wrappers

  type Id = string

  datatype OrderType = MEMBERSHIP | PRIVATE | OtherOrder

  datatype Payment = Payment(orderType: OrderType, refId: string, paid: bool)

  /** Which academy each subscription, plan, class and claim belongs to. */
  datatype Tables = Tables(subscriptions: map<Id, Id>, plans: map<Id, Id>, classes: map<Id, Id>, claims: map<Id, Id>)

  predicate StartsWith(s: string, prefix: string) {
    |prefix| <= |s| && s[..|prefix|] == prefix
  }

  function UpTo(s: string, c: char): string {
    if s == [] || s[0] == c then [] else [s[0]] + UpTo(s[1..], c)
  }

  /** s.split("_")[1]; None (undefined) when there is no underscore. */
  function SecondPart(s: string): Option<string> {
    var head := UpTo(s, '_');
    if |head| < |s| && head == s[..|head|] then Some(UpTo(s[|head| + 1..], '_')) else None
  }

  predicate Mine(owner: map<Id, Id>, key: Id, academy: Id) {
    key in owner && owner[key] == academy
  }

  ghost predicate MembershipOf(tables: Tables, academy: Id, refId: string, plan: Id) {
    Mine(tables.plans, plan, academy) && StartsWith(refId, "mem_" + plan + "_")
  }

  /** gatewayWhere of cobrosKpis. */
  ghost predicate Counted(tables: Tables, academy: Id, p: Payment) {
    p.paid &&
    ((p.orderType.MEMBERSHIP? && exists plan :: MembershipOf(tables, academy, p.refId, plan))
     || (p.orderType.PRIVATE? && StartsWith(p.refId, "pvt_" + academy + "_")))
  }

  /** The branches of academyPaymentDetail; false is its 404. */
  predicate Accepted(tables: Tables, academy: Id, ref: string) {
    var second := SecondPart(ref).GetOr("");
    if StartsWith(ref, "platsub_") then Mine(tables.subscriptions, second, academy)
    else if StartsWith(ref, "mem_") then Mine(tables.plans, second, academy)
    else if StartsWith(ref, "wks_") then Mine(tables.classes, second, academy)
    else if StartsWith(ref, "pvt_" + academy + "_") then true
    else if StartsWith(ref, "claim-") then Mine(tables.claims, ref[|"claim-"|..], academy)
    else false
  }

  predicate NoUnderscore(id: Id) {
    '_' !in id
  }

  ghost predicate PlansPlain(tables: Tables) {
    forall plan :: plan in tables.plans ==> NoUnderscore(plan)
  }

  // ---------------------------------------------------------------- decoding

  lemma {:induction false} UpToPlain(id: string, rest: string)
    requires NoUnderscore(id) && (rest == [] || rest[0] == '_')
    ensures UpTo(id + rest, '_') == id
    decreases |id|
  {
    if id == [] {
      assert id + rest == rest;
    } else {
      assert (id + rest)[1..] == id[1..] + rest;
      assert id[0] in id && forall c :: c in id[1..] ==> c in id;
      UpToPlain(id[1..], rest);
    }
  }

  lemma {:induction false} UpToPrefix(s: string)
    ensures |UpTo(s, '_')| <= |s| && UpTo(s, '_') == s[..|UpTo(s, '_')|] && NoUnderscore(UpTo(s, '_'))
    ensures |UpTo(s, '_')| < |s| ==> s[|UpTo(s, '_')|] == '_'
    decreases |s|
  {
    if s != [] && s[0] != '_' { UpToPrefix(s[1..]); }
  }

  /** The id between the first two underscores of a reference with a three-letter kind. */
  lemma SecondPartOf(kind: string, ref: string)
    requires |kind| == 3 && NoUnderscore(kind) && StartsWith(ref, kind + "_")
    ensures SecondPart(ref) == Some(UpTo(ref[4..], '_'))
  {
    assert ref == kind + ref[3..] && ref[3..][0] == '_';
    UpToPlain(kind, ref[3..]);
    assert ref[3 + 1..] == ref[4..];
  }

  lemma PrefixMeansSecond(kind: string, ref: string, id: Id)
    requires |kind| == 3 && NoUnderscore(kind) && NoUnderscore(id)
    ensures StartsWith(ref, kind + "_" + id + "_") <==>
            StartsWith(ref, kind + "_") && UpTo(ref[4..], '_') == id && |ref| > 4 + |id|
  {
    var whole := kind + "_" + id + "_";
    if StartsWith(ref, whole) {
      assert ref[..4] == whole[..4] == kind + "_";
      assert ref[4..] == id + ref[4 + |id|..] by {
        assert ref[4..4 + |id|] == whole[4..4 + |id|] == id;
      }
      assert ref[4 + |id|] == whole[4 + |id|] == '_';
      UpToPlain(id, ref[4 + |id|..]);
    }
    if StartsWith(ref, kind + "_") && UpTo(ref[4..], '_') == id && |ref| > 4 + |id| {
      UpToPrefix(ref[4..]);
      assert ref[4 + |id|] == '_' && ref[4..][..|id|] == id;
      assert ref[..|whole|] == ref[..4] + ref[4..][..|id|] + [ref[4 + |id|]];
    }
  }

  lemma KindsDiffer(ref: string, rest: string)
    ensures StartsWith(ref, "mem_" + rest) ==>
          StartsWith(ref, "mem_") && !StartsWith(ref, "platsub_")
          && !StartsWith(ref, "claim-") && !StartsWith(ref, "pvt_")
    ensures StartsWith(ref, "pvt_" + rest) ==>
              StartsWith(ref, "pvt_") && !StartsWith(ref, "platsub_") && !StartsWith(ref, "mem_")
                  && !StartsWith(ref, "wks_") && !StartsWith(ref, "claim-")
  {
    if StartsWith(ref, "mem_" + rest) { assert ref[..4] == ("mem_" + rest)[..4] == "mem_" && ref[0] == 'm'; }
    if StartsWith(ref, "pvt_" + rest) {
      assert ref[..4] == ("pvt_" + rest)[..4] == "pvt_" && ref[0] == 'p' && ref[1] == 'v';
    }
  }

  // ---------------------------------------------------------------- attribution

  /** What the detail view decodes from a plan's references is a plan of the same academy. */
  ghost predicate PlansDecode(tables: Tables) {
    forall plan :: plan in tables.plans ==> Mine(tables.plans, UpTo(plan, '_'), tables.plans[plan])
  }

  lemma PlainPlansDecode(tables: Tables)
    requires PlansPlain(tables)
    ensures PlansDecode(tables)
  {
    forall plan | plan in tables.plans ensures UpTo(plan, '_') == plan {
      UpToPlain(plan, []);
      assert plan + [] == plan;
    }
  }

  lemma {:induction false} UpToFirst(id: string, rest: string)
    ensures UpTo(id + "_" + rest, '_') == UpTo(id, '_')
    decreases |id|
  {
    if id == [] {
      assert id + "_" + rest == "_" + rest;
    } else {
      assert (id + "_" + rest)[1..] == id[1..] + "_" + rest;
      UpToFirst(id[1..], rest);
    }
  }

  /** The detail view reads a membership of `plan` as one of the plan its id begins with, up to an underscore. */
  lemma MembershipDecodes(ref: string, plan: Id)
    requires StartsWith(ref, "mem_" + plan + "_")
    ensures StartsWith(ref, "mem_") && !StartsWith(ref, "platsub_") && !StartsWith(ref, "claim-")
    ensures SecondPart(ref) == Some(UpTo(plan, '_')) && '_' in ref[4..]
  {
    assert "mem_" + plan + "_" == "mem_" + (plan + "_") && "mem" + "_" == "mem_";
    KindsDiffer(ref, plan + "_");
    SecondPartOf("mem", ref);
    var n := |"mem_" + plan + "_"|;
    assert ref[4..n] == plan + "_" by { assert ref[..n][4..] == plan + "_"; }
    assert ref[4..] == plan + "_" + ref[n..];
    UpToFirst(plan, ref[n..]);
  }

  /** A payment the KPI counts for an academy is one its detail view accepts, if its plans decode; a private lesson in
      any case. It is never an approved claim's. */
  lemma CountedIsAccepted(tables: Tables, academy: Id, p: Payment)
    requires p.orderType.MEMBERSHIP? ==> PlansDecode(tables)
    requires Counted(tables, academy, p)
    ensures Accepted(tables, academy, p.refId) && !StartsWith(p.refId, "claim-")
  {
    if p.orderType.MEMBERSHIP? {
      var plan :| MembershipOf(tables, academy, p.refId, plan);
      MembershipDecodes(p.refId, plan);
    } else {
      assert "pvt_" + academy + "_" == "pvt_" + (academy + "_");
      KindsDiffer(p.refId, academy + "_");
    }
  }

  /** With plan ids without underscores it is so for every payment. */
  lemma PlainIdsAccepted(tables: Tables, academy: Id, p: Payment)
    requires PlansPlain(tables) && Counted(tables, academy, p)
    ensures Accepted(tables, academy, p.refId) && !StartsWith(p.refId, "claim-")
  {
    PlainPlansDecode(tables);
    CountedIsAccepted(tables, academy, p);
  }

  /** Every counted membership is accepted, for all academies. */
  ghost predicate CountedAccepted(tables: Tables) {
    forall academy: Id, ref: string :: Counted(tables, academy, Payment(MEMBERSHIP, ref, true)) ==>
      Accepted(tables, academy, ref)
  }

  /** And that is so if and only if the plans decode. */
  lemma CountedIsAcceptedExactly(tables: Tables)
    ensures CountedAccepted(tables) <==> PlansDecode(tables)
  {
    if PlansDecode(tables) {
      forall academy: Id, ref: string | Counted(tables, academy, Payment(MEMBERSHIP, ref, true))
        ensures Accepted(tables, academy, ref)
      {
        CountedIsAccepted(tables, academy, Payment(MEMBERSHIP, ref, true));
      }
    }
    if CountedAccepted(tables) {
      forall plan | plan in tables.plans ensures Mine(tables.plans, UpTo(plan, '_'), tables.plans[plan]) {
        var ref, academy := "mem_" + plan + "_", tables.plans[plan];
        assert MembershipOf(tables, academy, ref, plan);
        assert Counted(tables, academy, Payment(MEMBERSHIP, ref, true));
        MembershipDecodes(ref, plan);
      }
    }
  }

  lemma {:induction false} PrefixesNest(s: string, p: string, q: string)
    requires StartsWith(s, p) && StartsWith(s, q) && |p| <= |q|
    ensures StartsWith(q, p)
  {
    assert q[..|p|] == s[..|q|][..|p|] == s[..|p|];
  }

  lemma SamePrefix(kind: string, p: string, q: string)
    ensures StartsWith(kind + q, kind + p) <==> StartsWith(q, p)
  {
    if |p| <= |q| { assert (kind + q)[..|kind + p|] == kind + q[..|p|]; }
    if StartsWith(kind + q, kind + p) {
      assert q[..|p|] == (kind + q)[|kind|..|kind| + |p|] == (kind + p)[|kind|..] == p;
    }
  }

  /** Two references of one kind are nested exactly when the ids are, each followed by an underscore. */
  lemma NestedRefs(kind: string, ref: string, x: Id, y: Id)
    requires StartsWith(ref, kind + x + "_") && StartsWith(ref, kind + y + "_")
    ensures StartsWith(x + "_", y + "_") || StartsWith(y + "_", x + "_")
  {
    assert kind + x + "_" == kind + (x + "_") && kind + y + "_" == kind + (y + "_");
    if |x| <= |y| {
      PrefixesNest(ref, kind + x + "_", kind + y + "_");
      SamePrefix(kind, x + "_", y + "_");
    } else {
      PrefixesNest(ref, kind + y + "_", kind + x + "_");
      SamePrefix(kind, y + "_", x + "_");
    }
  }

  /** No plan id, followed by an underscore, begins the same of another academy's plan. */
  ghost predicate PlansClear(tables: Tables) {
    forall x, y :: x in tables.plans && y in tables.plans && StartsWith(y + "_", x + "_") ==>
        tables.plans[x] == tables.plans[y]
  }

  ghost predicate CountsForOne(tables: Tables, p: Payment) {
    forall a, b :: Counted(tables, a, p) && Counted(tables, b, p) ==> a == b
  }

  lemma MembershipForOne(tables: Tables, a: Id, b: Id, p: Payment)
    requires PlansClear(tables) && p.orderType.MEMBERSHIP? && Counted(tables, a, p) && Counted(tables, b, p)
    ensures a == b
  {
    var x :| MembershipOf(tables, a, p.refId, x);
    var y :| MembershipOf(tables, b, p.refId, y);
    NestedRefs("mem_", p.refId, x, y);
  }

  /** A membership of plan y whose reference plan x also claims. */
  lemma NestedPlansCountTwice(tables: Tables, x: Id, y: Id)
    requires x in tables.plans && y in tables.plans && StartsWith(y + "_", x + "_")
        && tables.plans[x] != tables.plans[y]
    ensures !CountsForOne(tables, Payment(MEMBERSHIP, "mem_" + y + "_", true))
  {
    var p := Payment(MEMBERSHIP, "mem_" + y + "_", true);
    assert "mem_" + y + "_" == "mem_" + (y + "_") && "mem_" + x + "_" == "mem_" + (x + "_");
    SamePrefix("mem_", x + "_", y + "_");
    assert MembershipOf(tables, tables.plans[x], p.refId, x) && MembershipOf(tables, tables.plans[y], p.refId, y);
    assert Counted(tables, tables.plans[x], p) && Counted(tables, tables.plans[y], p);
  }

  /** Every membership payment counts for at most one academy if and only if the plan ids are clear of each other. */
  lemma MembershipCountedOnceExactly(tables: Tables)
    ensures (forall p: Payment :: p.orderType.MEMBERSHIP? ==> CountsForOne(tables, p)) <==> PlansClear(tables)
  {
    if PlansClear(tables) {
      forall p: Payment | p.orderType.MEMBERSHIP? ensures CountsForOne(tables, p) {
        forall a, b | Counted(tables, a, p) && Counted(tables, b, p)
            ensures a == b { MembershipForOne(tables, a, b, p); }
      }
    } else {
      var x, y :| x in tables.plans && y in tables.plans && StartsWith(y + "_", x + "_")
          && tables.plans[x] != tables.plans[y];
      NestedPlansCountTwice(tables, x, y);
      assert !CountsForOne(tables, Payment(MEMBERSHIP, "mem_" + y + "_", true));
    }
  }

  /** Some payment of a private lesson counts for both academies if and only if one id, followed by an underscore,
      begins the other. */
  lemma PrivateCountedOnceExactly(tables: Tables, a: Id, b: Id)
    ensures (exists p: Payment :: p.orderType.PRIVATE? && Counted(tables, a, p) && Counted(tables, b, p)) <==>
            StartsWith(a + "_", b + "_") || StartsWith(b + "_", a + "_")
  {
    assert "pvt_" + a + "_" == "pvt_" + (a + "_") && "pvt_" + b + "_" == "pvt_" + (b + "_");
    if p: Payment :| p.orderType.PRIVATE? && Counted(tables, a, p) && Counted(tables, b, p) {
      NestedRefs("pvt_", p.refId, a, b);
    }
    if StartsWith(a + "_", b + "_") || StartsWith(b + "_", a + "_") {
      var p := Payment(PRIVATE, "pvt_" + (if StartsWith(a + "_", b + "_") then a else b) + "_", true);
      SamePrefix("pvt_", b + "_", a + "_");
      SamePrefix("pvt_", a + "_", b + "_");
      assert Counted(tables, a, p) && Counted(tables, b, p);
    }
  }

  lemma {:induction false} PlainPrefix(x: Id, y: Id)
    requires NoUnderscore(x) && NoUnderscore(y) && StartsWith(y + "_", x + "_")
    ensures x == y
  {
    assert (y + "_")[|x|] == (x + "_")[|x|] == '_';
    assert |y| <= |x|;
    assert x == (x + "_")[..|x|] == (y + "_")[..|x|] == y[..|x|];
  }

  /** So with ids without underscores a payment counts for one academy only. */
  lemma CountedOnce(tables: Tables, a: Id, b: Id, p: Payment)
    requires PlansPlain(tables) && NoUnderscore(a) && NoUnderscore(b)
    requires Counted(tables, a, p) && Counted(tables, b, p)
    ensures a == b
  {
    if p.orderType.MEMBERSHIP? {
      forall x, y | x in tables.plans && y in tables.plans && StartsWith(y + "_", x + "_")
          ensures x == y { PlainPrefix(x, y); }
      MembershipForOne(tables, a, b, p);
    } else {
      NestedRefs("pvt_", p.refId, a, b);
      if StartsWith(a + "_", b + "_") { PlainPrefix(b, a); } else { PlainPrefix(a, b); }
    }
  }

  /** A paid membership the detail view accepts is counted, if its reference goes on after the plan id. */
  lemma AcceptedIsCounted(tables: Tables, academy: Id, p: Payment)
    requires p.paid && p.orderType.MEMBERSHIP? && StartsWith(p.refId, "mem_")
    requires Accepted(tables, academy, p.refId) && '_' in p.refId[4..]
    ensures Counted(tables, academy, p)
  {
    var ref, plan := p.refId, UpTo(p.refId[4..], '_');
    assert "mem" + "_" == "mem_" && "mem_" + [] == "mem_";
    KindsDiffer(ref, []);
    SecondPartOf("mem", ref);
    UpToPrefix(ref[4..]);
    PrefixMeansSecond("mem", ref, plan);
    assert ref[4..][..|ref[4..]|] == ref[4..];
    assert MembershipOf(tables, academy, ref, plan);
  }

  /** If the plans decode, the two readings of a paid membership differ only on references that end with the plan id. */
  lemma MembershipCountedExactly(tables: Tables, academy: Id, p: Payment)
    requires PlansDecode(tables) && p.paid && p.orderType.MEMBERSHIP? && StartsWith(p.refId, "mem_")
    ensures Counted(tables, academy, p) <==>
            Accepted(tables, academy, p.refId) && '_' in p.refId[4..]
  {
    hide PlansDecode, Accepted;
    if Counted(tables, academy, p) {
      var counted :| MembershipOf(tables, academy, p.refId, counted);
      CountedIsAccepted(tables, academy, p);
      MembershipDecodes(p.refId, counted);
    }
    if Accepted(tables, academy, p.refId) && '_' in p.refId[4..] {
      AcceptedIsCounted(tables, academy, p);
    }
  }

  lemma UnderscoreRef()
    ensures StartsWith("mem_x_y_1", "mem_" + "x" + "_") && StartsWith("mem_x_y_1", "mem_" + "x_y" + "_")
    ensures UpTo("x_y", '_') == "x"
  {
    assert "mem_" + "x" + "_" == "mem_x_" && "mem_x_y_1"[..6] == "mem_x_";
    assert "mem_" + "x_y" + "_" == "mem_x_y_" && "mem_x_y_1"[..8] == "mem_x_y_";
    assert "x" + "_y" == "x_y";
    UpToPlain("x", "_y");
  }

  /** A reference that two plans claim, of which the second begins with the first: both academies count the payment, and
      the second's cannot open it. */
  lemma NestedPlansCountTwiceOpenOnce(tables: Tables, ref: string, x: Id, y: Id)
    requires x in tables.plans && y in tables.plans && tables.plans[x] != tables.plans[y] && UpTo(y, '_') == x
    requires StartsWith(ref, "mem_" + x + "_") && StartsWith(ref, "mem_" + y + "_")
    ensures var p := Payment(MEMBERSHIP, ref, true);
            Counted(tables, tables.plans[x], p) && Counted(tables, tables.plans[y], p)
            && !Accepted(tables, tables.plans[y], ref)
  {
    MembershipDecodes(ref, y);
    hide StartsWith, UpTo, SecondPart;
    assert MembershipOf(tables, tables.plans[x], ref, x) && MembershipOf(tables, tables.plans[y], ref, y);
  }

  /** With an underscore in a plan id two academies count the same payment, and one of them cannot open it. */
  lemma UnderscoreCountsTwice()
    ensures var tables := Tables(map[], map["x" := "a", "x_y" := "b"], map[], map[]);
            var p := Payment(MEMBERSHIP, "mem_x_y_1", true);
            Counted(tables, "a", p) && Counted(tables, "b", p) && !Accepted(tables, "b", p.refId)
  {
    UnderscoreRef();
    hide StartsWith, UpTo, SecondPart, Counted, Accepted;
    var tables := Tables(map[], map["x" := "a", "x_y" := "b"], map[], map[]);
    NestedPlansCountTwiceOpenOnce(tables, "mem_x_y_1", "x", "x_y");
  }

  // ---------------------------------------------------------------- reference by reference

  lemma StartsExactly(prefix: string, rest: string, s: string)
    ensures StartsWith(prefix + rest, prefix)
    ensures StartsWith(s, prefix) ==> s == prefix + s[|prefix|..]
  {
  }

  /** The part after the first underscore, up to the next one. */
  lemma SecondPartExactly(head: string, id: Id, rest: string)
    requires NoUnderscore(head) && NoUnderscore(id) && (rest == [] || rest[0] == '_')
    ensures SecondPart(head + "_" + id + rest) == Some(id) && SecondPart(head) == None
  {
    var s := head + "_" + id + rest;
    assert s == head + ("_" + id + rest) && head + [] == head;
    UpToPlain(head, "_" + id + rest);
    UpToPlain(head, []);
    assert s[..|head|] == head && s[|head| + 1..] == id + rest;
    UpToPlain(id, rest);
  }

  /** The detail view of an academy opens a platform invoice of its own subscription, a membership of its own plan, a
      workshop of its own class, a private lesson of its own and a claim of its own, and nothing else. */
  lemma AcceptedExactly(tables: Tables, academy: Id, id: Id, rest: string)
    requires NoUnderscore(id) && (rest == [] || rest[0] == '_')
    ensures Accepted(tables, academy, "platsub_" + id + rest) <==>
            id in tables.subscriptions && tables.subscriptions[id] == academy
    ensures Accepted(tables, academy, "mem_" + id + rest) <==> id in tables.plans && tables.plans[id] == academy
    ensures Accepted(tables, academy, "wks_" + id + rest) <==> id in tables.classes && tables.classes[id] == academy
  {
    AcceptedPlatform(tables, academy, id, rest);
    ReferenceExactly("mem", id, rest);
    ReferenceExactly("wks", id, rest);
    assert "mem" + "_" == "mem_" && "wks" + "_" == "wks_";
    NotPlatform("mem_" + id + rest);
    NotPlatform("wks_" + id + rest);
    NotMembership("wks_" + id + rest);
    hide StartsWith, SecondPart;
  }

  lemma SameUnit(s: string, prefix: string, i: nat)
    requires i < |prefix|
    ensures StartsWith(s, prefix) ==> i < |s| && s[i] == prefix[i]
  {
    if StartsWith(s, prefix) { assert s[..|prefix|][i] == s[i]; }
  }

  lemma NotPlatform(ref: string)
    requires |ref| > 0 && ref[0] != 'p'
    ensures !StartsWith(ref, "platsub_") && !StartsWith(ref, "pvt_")
  {
    SameUnit(ref, "platsub_", 0);
    SameUnit(ref, "pvt_", 0);
    hide StartsWith;
  }

  lemma NotMembership(ref: string)
    requires |ref| > 0 && ref[0] != 'm'
    ensures !StartsWith(ref, "mem_")
  {
    SameUnit(ref, "mem_", 0);
    hide StartsWith;
  }

  lemma NotWorkshop(ref: string)
    requires |ref| > 0 && ref[0] != 'w'
    ensures !StartsWith(ref, "wks_")
  {
    SameUnit(ref, "wks_", 0);
    hide StartsWith;
  }

  lemma ReferenceExactly(kind: string, id: Id, rest: string)
    requires kind != "" && NoUnderscore(kind) && NoUnderscore(id) && (rest == [] || rest[0] == '_')
    ensures StartsWith(kind + "_" + id + rest, kind + "_") && SecondPart(kind + "_" + id + rest) == Some(id)
    ensures (kind + "_" + id + rest)[0] == kind[0]
  {
    SecondPartExactly(kind, id, rest);
    assert kind + "_" + id + rest == (kind + "_") + (id + rest);
  }

  lemma AcceptedPlatform(tables: Tables, academy: Id, id: Id, rest: string)
    requires NoUnderscore(id) && (rest == [] || rest[0] == '_')
    ensures Accepted(tables, academy, "platsub_" + id + rest) <==>
            id in tables.subscriptions && tables.subscriptions[id] == academy
  {
    hide StartsWith, SecondPart;
    PlatformRef(id, rest);
  }

  lemma PlatformRef(id: Id, rest: string)
    requires NoUnderscore(id) && (rest == [] || rest[0] == '_')
    ensures StartsWith("platsub_" + id + rest, "platsub_") && SecondPart("platsub_" + id + rest) == Some(id)
  {
    hide StartsWith, SecondPart;
    ReferenceExactly("platsub", id, rest);
    assert "platsub" + "_" == "platsub_";
  }

  /** A private lesson opens for the academy it names; a claim for the academy that has it, whatever its id; any other
      reference for none. */
  lemma AcceptedOthersExactly(tables: Tables, academy: Id, ref: string)
    ensures StartsWith(ref, "pvt_") ==> (Accepted(tables, academy, ref) <==> StartsWith(ref, "pvt_" + academy + "_"))
    ensures StartsWith(ref, "claim-") ==>
              (Accepted(tables, academy, ref) <==> ref[6..] in tables.claims && tables.claims[ref[6..]] == academy)
    ensures Accepted(tables, academy, ref) ==>
              StartsWith(ref, "platsub_") || StartsWith(ref, "mem_") || StartsWith(ref, "wks_")
              || StartsWith(ref, "pvt_") || StartsWith(ref, "claim-")
  {
    assert "pvt_" + academy + "_" == "pvt_" + (academy + "_");
    PrivateStarts(ref, academy + "_");
    if StartsWith(ref, "pvt_") { PrivateOnly(ref); }
    if StartsWith(ref, "claim-") { ClaimOnly(ref, academy + "_"); }
    hide StartsWith;
  }

  lemma PrivateStarts(ref: string, rest: string)
    ensures StartsWith(ref, "pvt_" + rest) ==> StartsWith(ref, "pvt_")
  {
    if StartsWith(ref, "pvt_" + rest) { assert ref[..4] == ("pvt_" + rest)[..4] == "pvt_"; }
  }

  lemma PrivateOnly(ref: string)
    requires StartsWith(ref, "pvt_")
    ensures !StartsWith(ref, "platsub_") && !StartsWith(ref, "mem_")
    ensures !StartsWith(ref, "wks_") && !StartsWith(ref, "claim-")
  {
    SameUnit(ref, "pvt_", 0);
    SameUnit(ref, "pvt_", 1);
    SameUnit(ref, "platsub_", 1);
    SameUnit(ref, "claim-", 0);
    hide StartsWith;
    NotMembership(ref);
    NotWorkshop(ref);
  }

  lemma ClaimOnly(ref: string, rest: string)
    requires StartsWith(ref, "claim-")
    ensures !StartsWith(ref, "platsub_") && !StartsWith(ref, "mem_") && !StartsWith(ref, "wks_")
    ensures !StartsWith(ref, "pvt_" + rest)
  {
    SameUnit(ref, "claim-", 0);
    hide StartsWith;
    NotPlatform(ref);
    NotMembership(ref);
    NotWorkshop(ref);
    PrivateStarts(ref, rest);
  }

  /** The KPI counts paid payments only: memberships by the prefix of a plan of the academy's, private lessons by that
      of the academy, and nothing else. */
  lemma CountedExactly(tables: Tables, academy: Id, p: Payment)
    ensures Counted(tables, academy, p) <==>
            && p.paid && !p.orderType.OtherOrder?
            && (p.orderType.PRIVATE? ==>
                  exists rest: string :: p.refId == "pvt_" + academy + "_" + rest)
            && (p.orderType.MEMBERSHIP? ==>
                  exists plan :: plan in tables.plans && tables.plans[plan] == academy
                                 && exists rest: string :: p.refId == "mem_" + plan + "_" + rest)
  {
    var ref := p.refId;
    PrefixIsRest(ref, "pvt_" + academy + "_");
    forall plan ensures MembershipOf(tables, academy, ref, plan) <==>
                          && plan in tables.plans && tables.plans[plan] == academy
                          && exists rest: string :: ref == "mem_" + plan + "_" + rest {
      PrefixIsRest(ref, "mem_" + plan + "_");
    }
    hide StartsWith;
  }

  lemma PrefixIsRest(s: string, prefix: string)
    ensures StartsWith(s, prefix) <==> exists rest: string :: s == prefix + rest
  {
    if StartsWith(s, prefix) { assert s == prefix + s[|prefix|..]; }
  }

  // ---------------------------------------------------------------- totals by label

  datatype Charge = Charge(medium: string, amount: int)

  function Billed(rows: seq<Charge>): int {
    if rows == [] then 0 else Billed(rows[..|rows| - 1]) + rows[|rows| - 1].amount
  }

  ghost function SumOf(m: map<string, int>): int
    decreases |m|
  {
    if m == map[] then 0
    else
      var k :| k in m;
      m[k] + SumOf(m - {k})
  }

  /** SumOf does not depend on the order: any key can come off first. */
  lemma {:induction false} TakeAny(m: map<string, int>, k: string)
    requires k in m
    ensures SumOf(m) == m[k] + SumOf(m - {k})
    decreases |m|
  {
    var x :| x in m && SumOf(m) == m[x] + SumOf(m - {x});
    if x != k {
      TakeAny(m - {x}, k);
      TakeAny(m - {k}, x);
      assert m - {x} - {k} == m - {k} - {x};
    }
  }

  /** Adding to one entry, a missing one counting as 0, adds to the sum. */
  lemma AddTo(m: map<string, int>, k: string, amount: int)
    ensures SumOf(m[k := (if k in m then m[k] else 0) + amount]) == SumOf(m) + amount
  {
    var after := m[k := (if k in m then m[k] else 0) + amount];
    assert after - {k} == m - {k};
    TakeAny(after, k);
    if k in m { TakeAny(m, k); } else { assert m - {k} == m; }
  }

  /** What one payment method took in. */
  function Taking(rows: seq<Charge>, medium: string): int {
    if rows == [] then 0
    else
      var last := rows[|rows| - 1];
      Taking(rows[..|rows| - 1], medium) + if last.medium == medium then last.amount else 0
  }

  /** Sums are taken charge by charge: the whole amount of each, once, and a method's own charges only. */
  lemma SumsExactly(rows: seq<Charge>, r: Charge, medium: string)
    ensures Billed([]) == 0 && Billed(rows + [r]) == Billed(rows) + r.amount
    ensures Taking([], medium) == 0
    ensures Taking(rows + [r], medium) == Taking(rows, medium) + (if r.medium == medium then r.amount else 0)
  {
    assert (rows + [r])[..|rows|] == rows;
  }

  /** An entry for every method used, holding what that method took in. */
  ghost predicate Books(byLabel: map<string, int>, rows: seq<Charge>) {
    forall l :: (l in byLabel <==> exists i :: 0 <= i < |rows| && rows[i].medium == l) &&
                Taking(rows, l) == if l in byLabel then byLabel[l] else 0
  }

  lemma NoBooks()
    ensures SumOf(map[]) == 0 && Books(map[], [])
  {
  }

  lemma BooksStep(byLabel: map<string, int>, rows: seq<Charge>, r: Charge)
    requires Books(byLabel, rows)
    ensures Books(byLabel[r.medium := (if r.medium in byLabel then byLabel[r.medium] else 0) + r.amount], rows + [r])
  {
    var after := byLabel[r.medium := (if r.medium in byLabel then byLabel[r.medium] else 0) + r.amount];
    var more := rows + [r];
    forall l
      ensures l in after <==> exists i :: 0 <= i < |more| && more[i].medium == l
      ensures Taking(more, l) == if l in after then after[l] else 0
    {
      assert more[..|more| - 1] == rows;
      if l == r.medium { assert more[|rows|].medium == l; }
      if l in byLabel {
        var i :| 0 <= i < |rows| && rows[i].medium == l;
        assert more[i].medium == l;
      }
    }
  }

  /** billedMonth and byLabel of the claims and the gateway's payments: each method's own total, and together the
      billed amount. */
  method Totals(claims: seq<Charge>, gateway: seq<Charge>) returns (billed: int, byLabel: map<string, int>)
    ensures billed == Billed(claims + gateway) == SumOf(byLabel)
    ensures Books(byLabel, claims + gateway)
  {
    hide SumOf, Books;
    var rows := claims + gateway;
    billed, byLabel := 0, map[];
    NoBooks();
    for i := 0 to |rows|
      invariant billed == Billed(rows[..i]) == SumOf(byLabel)
      invariant Books(byLabel, rows[..i])
    {
      assert rows[..i + 1] == rows[..i] + [rows[i]];
      assert rows[..i + 1][..i] == rows[..i];
      var r := rows[i];
      AddTo(byLabel, r.medium, r.amount);
      BooksStep(byLabel, rows[..i], r);
      billed := billed + r.amount;
      byLabel := byLabel[r.medium := (if r.medium in byLabel then byLabel[r.medium] else 0) + r.amount];
    }
    assert rows[..|rows|] == rows;
  }
}
