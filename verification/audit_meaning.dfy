/** What an audit is about, said over the fields of rules and attempts alone: letters in their order,
    what an attempt counts as, and what it is to fulfil a rule. The definitions that the searches share
    are shown to come to this. */
module AuditMeaning {
  import opened AuditRules
  import opened Selections
  import opened AuditPlans

  // ---------------------------------------------------------------- letters

  /** The letter grades from best to worst; letters of one step are worth the same. */
  const STEPS: seq<set<string>> :=
    [{"A+", "A"}, {"A-"}, {"B+"}, {"B"}, {"B-"}, {"C+"}, {"C"}, {"C-"}, {"D+"}, {"D"}, {"F"}]

  const POINTS: seq<real> := [4.0, 3.7, 3.3, 3.0, 2.7, 2.3, 2.0, 1.7, 1.3, 1.0, 0.0]

  ghost predicate OnStep(grade: string, i: int) { 0 <= i < |STEPS| && grade in STEPS[i] }

  ghost predicate Letter(grade: string) { exists i :: OnStep(grade, i) }

  /** A letter at or above another. */
  ghost predicate AtLeast(grade: string, floor: string) {
    exists i, j :: OnStep(grade, i) && OnStep(floor, j) && i <= j
  }

  lemma StepPoints(grade: string, i: int)
    requires OnStep(grade, i)
    ensures GradePoints(grade) == Some(POINTS[i])
  {
  }

  lemma PointsFall(i: int, j: int)
    requires 0 <= i < j < |POINTS|
    ensures POINTS[i] > POINTS[j]
  {
  }

  lemma StepOf(grade: string) returns (i: int)
    requires GradePoints(grade).Some?
    ensures OnStep(grade, i)
  {
    i := if grade == "A+" || grade == "A" then 0 else if grade == "A-" then 1 else if grade == "B+" then 2
         else if grade == "B" then 3 else if grade == "B-" then 4 else if grade == "C+" then 5
         else if grade == "C" then 6 else if grade == "C-" then 7 else if grade == "D+" then 8
         else if grade == "D" then 9 else 10;
  }

  lemma LetterHasPoints(grade: string)
    ensures Letter(grade) <==> GradePoints(grade).Some?
  {
    if GradePoints(grade).Some? { var i := StepOf(grade); }
    if i :| OnStep(grade, i) { StepPoints(grade, i); }
  }

  lemma AtLeastByPoints(grade: string, floor: string)
    ensures AtLeast(grade, floor)
            <==> GradePoints(grade).Some? && GradePoints(floor).Some?
                 && GradePoints(grade).value >= GradePoints(floor).value
  {
    if i, j :| OnStep(grade, i) && OnStep(floor, j) && i <= j {
      StepPoints(grade, i);
      StepPoints(floor, j);
      if i < j { PointsFall(i, j); }
    }
    if GradePoints(grade).Some? && GradePoints(floor).Some?
       && GradePoints(grade).value >= GradePoints(floor).value {
      var i := StepOf(grade);
      var j := StepOf(floor);
      StepPoints(grade, i);
      StepPoints(floor, j);
      if i > j { PointsFall(j, i); }
      assert OnStep(grade, i) && OnStep(floor, j) && i <= j;
    }
  }

  // ---------------------------------------------------------------- what an attempt counts as

  ghost predicate Finished(a: Attempt) { a.state == Completed || a.state == Transfer || a.state == TestCredit }

  /** A finished attempt with a letter below the minimum. */
  ghost predicate BelowFloor(a: Attempt, floor: string) {
    Finished(a) && floor != "" && Letter(a.grade) && Letter(floor) && !AtLeast(a.grade, floor)
  }

  /** A finished attempt that certainly passes: a letter at or above the minimum where there is one,
      no grade of an unknown kind unless it comes from elsewhere, and credit to show for it. */
  ghost predicate Passes(a: Attempt, floor: string) {
    && Finished(a)
    && (floor != "" ==> AtLeast(a.grade, floor))
    && (a.state == Completed ==> a.grade == "" || Letter(a.grade) || a.grade in {"S", "P", "PASS", "CR"})
    && (a.earned == 0.0 ==> a.attempted <= 0.0 && a.grade != "")
  }

  /** An attempt that the record leaves undecided. */
  ghost predicate NeedsReview(a: Attempt, floor: string) {
    a.state == Repeated || (Finished(a) && !BelowFloor(a, floor) && !Passes(a, floor))
  }

  /** Each status of an attempt, in terms of its fields. */
  lemma StatusMeaning(a: Attempt, floor: string)
    ensures AttemptStatus(a, floor) == Satisfied <==> Passes(a, floor) && a.verified
    ensures AttemptStatus(a, floor) == InProgressSatisfied <==> a.state == InProgress
    ensures AttemptStatus(a, floor) == Conditional <==> a.state == Planned || (Passes(a, floor) && !a.verified)
    ensures AttemptStatus(a, floor) == Unresolved <==> NeedsReview(a, floor)
    ensures AttemptStatus(a, floor) == Outstanding <==> BelowFloor(a, floor)
    ensures AttemptStatus(a, floor) != NotSelected
  {
    LetterHasPoints(a.grade);
    LetterHasPoints(floor);
    AtLeastByPoints(a.grade, floor);
    hide Letter, AtLeast, GradePoints;
  }

  /** The attempt counts towards a rule at this rank or better. */
  ghost predicate CountsAt(a: Attempt, floor: string, rank: nat) {
    if rank > 5 then false
    else if rank == 5 then Passes(a, floor) && a.verified
    else if rank == 4 then a.state == InProgress || (Passes(a, floor) && a.verified)
    else if rank == 3 then a.state == InProgress || a.state == Planned || Passes(a, floor)
    else if rank == 2 then !BelowFloor(a, floor)
    else true
  }

  lemma CountsAtMeaning(a: Attempt, floor: string, rank: nat)
    ensures Rank(AttemptStatus(a, floor)) >= rank <==> CountsAt(a, floor, rank)
  {
    StatusMeaning(a, floor);
    hide AttemptStatus, BelowFloor, Passes;
  }

  // ---------------------------------------------------------------- fulfilling a rule

  /** The rule's own minimum grade, or else the one of the rule around it. */
  function Floor(rule: Rule, around: string): string { if rule.minGrade == "" then around else rule.minGrade }

  ghost predicate Undecidable(rule: Rule, floor: string) {
    || rule.kind == UnresolvedRule || rule.disposition == UnresolvedCoverage
    || (floor != "" && !Letter(floor))
  }

  /** The children that state a requirement. */
  function Stating(rule: Rule): set<nat> {
    set i: nat | i < |rule.children| && rule.children[i].disposition != Informational
  }

  /** How many courses or children the rule asks for. */
  function Wanted(rule: Rule): nat {
    if rule.kind == AllOf then (if rule.children == [] then |rule.codes| else |Stating(rule)|)
    else if rule.count.Some? && rule.count.value > 0 then rule.count.value
    else 1
  }

  predicate Listed(rule: Rule, code: Code) { rule.codes == [] || code in rule.codes }

  /** What an attempt is worth: credits earned, or attempted while it is not finished. */
  function Worth(a: Attempt): real {
    if a.state == InProgress || a.state == Planned then a.attempted else a.earned
  }

  /** What the attempts of the record that are in the set are worth together. */
  ghost function WorthOf(record: seq<Attempt>, chosen: set<Attempt>): real {
    if record == [] then 0.0
    else (if record[0] in chosen then Worth(record[0]) else 0.0) + WorthOf(record[1..], chosen)
  }

  /** An assignment hands this attempt out. */
  ghost predicate Takes(plan: Plan, a: Attempt)
    decreases plan
  {
    match plan
    case Take(chosen) => a in chosen
    case Split(parts) => exists i :: 0 <= i < |parts| && parts[i].Some? && Takes(parts[i].value, a)
  }

  ghost predicate NoCourseShared(p: Plan, q: Plan) {
    forall a, b :: Takes(p, a) && Takes(q, b) ==> a.code != b.code
  }

  /** The assignment fulfils the rule with every contribution at this rank or better. */
  ghost predicate Fulfils(rule: Rule, around: string, record: seq<Attempt>, plan: Plan, rank: nat)
    decreases rule
  {
    var floor := Floor(rule, around);
    if rule.disposition == Informational then false
    else if Undecidable(rule, floor) then plan == Take({}) && rank <= 2
    else if rule.children != [] then
      && plan.Split? && |plan.parts| == |rule.children|
      && (forall i :: 0 <= i < |plan.parts| && plan.parts[i].Some? ==>
            Fulfils(rule.children[i], floor, record, plan.parts[i].value, rank))
      && (forall i, j :: 0 <= i < j < |plan.parts| && plan.parts[i].Some? && plan.parts[j].Some? ==>
            NoCourseShared(plan.parts[i].value, plan.parts[j].value))
      && if Stating(rule) == {} then rank <= 2
         else |set i: nat | i < |plan.parts| && plan.parts[i].Some?| >= Wanted(rule)
    else
      && plan.Take?
      && (forall a <- plan.chosen :: a in record && Listed(rule, a.code) && CountsAt(a, floor, rank))
      && (forall a <- plan.chosen, b <- plan.chosen :: a.code == b.code ==> a == b)
      && if rule.kind == CreditThreshold
         then WorthOf(record, plan.chosen) >= if rule.minCredits.Some? then rule.minCredits.value else 0.0
         else |plan.chosen| >= Wanted(rule)
  }

  lemma {:induction false} TakesCodes(plan: Plan, c: Code)
    ensures c in PlanCodes(plan) <==> exists a :: Takes(plan, a) && a.code == c
    decreases plan
  {
    match plan
    case Take(chosen) =>
      if c in PlanCodes(plan) {
        var a :| a in chosen && a.code == c;
        assert Takes(plan, a);
      }
    case Split(parts) =>
      forall i | 0 <= i < |parts| && parts[i].Some?
        ensures c in PlanCodes(parts[i].value) <==> exists a :: Takes(parts[i].value, a) && a.code == c
      {
        TakesCodes(parts[i].value, c);
      }
      PartsTake(parts, c);
  }

  lemma PartsTake(parts: seq<Option<Plan>>, c: Code)
    requires forall i :: 0 <= i < |parts| && parts[i].Some? ==>
               (c in PlanCodes(parts[i].value) <==> exists a :: Takes(parts[i].value, a) && a.code == c)
    ensures c in PartsCodes(parts) <==> exists a :: Takes(Split(parts), a) && a.code == c
  {
    PartsCodesMembers(parts);
    if c in PartsCodes(parts) {
      var i :| 0 <= i < |parts| && parts[i].Some? && c in PlanCodes(parts[i].value);
      var a :| Takes(parts[i].value, a) && a.code == c;
      assert Takes(Split(parts), a);
    }
    if a :| Takes(Split(parts), a) && a.code == c {
      var i :| 0 <= i < |parts| && parts[i].Some? && Takes(parts[i].value, a);
      assert c in PlanCodes(parts[i].value);
    }
  }

  lemma DisjointMeaning(p: Plan, q: Plan)
    ensures PlanCodes(p) !! PlanCodes(q) <==> NoCourseShared(p, q)
  {
    forall c ensures c in PlanCodes(p) <==> exists a :: Takes(p, a) && a.code == c { TakesCodes(p, c); }
    forall c ensures c in PlanCodes(q) <==> exists a :: Takes(q, a) && a.code == c { TakesCodes(q, c); }
    hide PlanCodes, Takes;
    if PlanCodes(p) !! PlanCodes(q) {
      forall a, b | Takes(p, a) && Takes(q, b) ensures a.code != b.code {
        assert a.code in PlanCodes(p) && b.code in PlanCodes(q);
      }
    } else {
      var c :| c in PlanCodes(p) && c in PlanCodes(q);
      var a :| Takes(p, a) && a.code == c;
      var b :| Takes(q, b) && b.code == c;
    }
  }

  lemma {:induction false} ActiveIsStating(rule: Rule)
    ensures Elements(ActiveIndices(rule, 0)) == Stating(rule)
    ensures |ActiveIndices(rule, 0)| == |Stating(rule)|
  {
    var active := ActiveIndices(rule, 0);
    forall i: nat ensures i in Elements(active) <==> i in Stating(rule) {}
    ElementCount(active);
  }

  lemma {:induction false} WorthIsTotal(record: seq<Attempt>, chosen: set<Attempt>)
    ensures WorthOf(record, chosen) == TotalCredits(Restrict(record, chosen))
  {
    if record != [] {
      WorthIsTotal(record[1..], chosen);
      var rest := Restrict(record[1..], chosen);
      if record[0] in chosen {
        assert Restrict(record, chosen) == [record[0]] + rest;
        TotalCreditsAppend([record[0]], rest);
      } else {
        assert Restrict(record, chosen) == rest;
      }
    }
  }

  lemma GivenFloor(rule: Rule, around: string)
    ensures EffectiveGrade(rule, around) == Floor(rule, around)
    ensures IsOpaque(rule, Floor(rule, around)) <==> Undecidable(rule, Floor(rule, around))
    ensures rule.IsInformational() <==> rule.disposition == Informational
  {
    LetterHasPoints(Floor(rule, around));
    hide Letter, GradePoints;
  }

  lemma WantedMeaning(rule: Rule)
    ensures rule.children == [] ==> rule.LeafNeed() == Wanted(rule)
    ensures rule.children != [] ==> ContainerNeed(rule) == Wanted(rule)
    ensures ActiveIndices(rule, 0) == [] <==> Stating(rule) == {}
  {
    ActiveIsStating(rule);
  }

  /** The assignments that the searches are measured against are those that fulfil the rule. */
  lemma {:induction false} SecuresIsFulfils(rule: Rule, around: string, record: seq<Attempt>, plan: Plan, rank: nat)
    ensures Secures(rule, around, record, plan, rank) <==> Fulfils(rule, around, record, plan, rank)
    decreases rule
  {
    var floor := Floor(rule, around);
    GivenFloor(rule, around);
    WantedMeaning(rule);
    hide EffectiveGrade, IsOpaque, Undecidable, Floor, Wanted, Stating, ActiveIndices, ContainerNeed;
    if rule.IsInformational() || IsOpaque(rule, floor) {
    } else if rule.children != [] {
      if plan.Split? && |plan.parts| == |rule.children| {
        ContainerIsFulfilled(rule, floor, record, plan, rank);
      }
    } else if plan.Take? {
      LeafIsFulfilled(rule, floor, record, plan.chosen, rank);
    }
  }

  lemma {:induction false} ContainerIsFulfilled(rule: Rule, floor: string, record: seq<Attempt>, plan: Plan, rank: nat)
    requires plan.Split? && |plan.parts| == |rule.children|
    ensures forall i :: 0 <= i < |plan.parts| && plan.parts[i].Some? ==>
              (Secures(rule.children[i], floor, record, plan.parts[i].value, rank)
               <==> Fulfils(rule.children[i], floor, record, plan.parts[i].value, rank))
    ensures PairwiseDisjoint(plan.parts)
            <==> forall i, j :: 0 <= i < j < |plan.parts| && plan.parts[i].Some? && plan.parts[j].Some? ==>
                   NoCourseShared(plan.parts[i].value, plan.parts[j].value)
    ensures PresentParts(plan.parts) == set i: nat | i < |plan.parts| && plan.parts[i].Some?
    decreases rule, 0
  {
    forall i | 0 <= i < |plan.parts| && plan.parts[i].Some?
      ensures Secures(rule.children[i], floor, record, plan.parts[i].value, rank)
              <==> Fulfils(rule.children[i], floor, record, plan.parts[i].value, rank)
    {
      SecuresIsFulfils(rule.children[i], floor, record, plan.parts[i].value, rank);
    }
    forall i, j | 0 <= i < j < |plan.parts| && plan.parts[i].Some? && plan.parts[j].Some?
      ensures PlanCodes(plan.parts[i].value) !! PlanCodes(plan.parts[j].value)
              <==> NoCourseShared(plan.parts[i].value, plan.parts[j].value)
    {
      DisjointMeaning(plan.parts[i].value, plan.parts[j].value);
    }
  }

  lemma LeafIsFulfilled(rule: Rule, floor: string, record: seq<Attempt>, chosen: set<Attempt>, rank: nat)
    ensures SecuresLeaf(rule, floor, record, chosen, rank)
            <==> && (forall a <- chosen :: a in record && Listed(rule, a.code) && CountsAt(a, floor, rank))
                 && (forall a <- chosen, b <- chosen :: a.code == b.code ==> a == b)
                 && if rule.kind == CreditThreshold
                    then WorthOf(record, chosen) >= if rule.minCredits.Some? then rule.minCredits.value else 0.0
                    else |chosen| >= rule.LeafNeed()
  {
    WorthIsTotal(record, chosen);
    forall a | a in chosen ensures Rank(AttemptStatus(a, floor)) >= rank <==> CountsAt(a, floor, rank) {
      CountsAtMeaning(a, floor, rank);
    }
    hide CountsAt, AttemptStatus, Rank, WorthOf, TotalCredits;
  }

  /** A finished attempt that counts towards a completion under a minimum grade has a letter at or
      above it. */
  lemma MinimumGradeHolds(rule: Rule, around: string, record: seq<Attempt>, chosen: set<Attempt>, rank: nat, a: Attempt)
    requires Secures(rule, around, record, Take(chosen), rank) && rank >= 3 && a in chosen
    requires Finished(a) && Floor(rule, around) != ""
    ensures AtLeast(a.grade, Floor(rule, around))
  {
    SecuresIsFulfils(rule, around, record, Take(chosen), rank);
  }
}
