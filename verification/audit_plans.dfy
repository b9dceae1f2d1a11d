/** The reference meaning of an audit: course-disjoint assignments of attempts to rules.
    Nothing here knows how the engine searches. */
module AuditPlans {
  import opened AuditRules
  import opened Selections

  /** An assignment of attempts to one rule: a leaf takes attempts, a container hands each
      child an assignment of its own or leaves the child out. */
  datatype Plan = Take(chosen: set<Attempt>) | Split(parts: seq<Option<Plan>>)

  function PlanCodes(plan: Plan): set<Code> {
    match plan
    case Take(chosen) => set a <- chosen :: a.code
    case Split(parts) => PartsCodes(parts)
  }

  function PartsCodes(parts: seq<Option<Plan>>): set<Code> {
    if parts == [] then {}
    else PartCodes(parts[0]) + PartsCodes(parts[1..])
  }

  function PartCodes(part: Option<Plan>): set<Code> {
    match part
    case None => {}
    case Some(plan) => PlanCodes(plan)
  }

  /** Positions of the children that state a requirement. */
  function ActiveIndices(rule: Rule, from: nat): (r: seq<nat>)
    requires from <= |rule.children|
    ensures forall i <- r :: from <= i < |rule.children| && !rule.children[i].IsInformational()
    ensures forall i :: from <= i < |rule.children| && !rule.children[i].IsInformational() ==> i in r
    ensures NoDuplicates(r)
    decreases |rule.children| - from
  {
    if from == |rule.children| then []
    else if rule.children[from].IsInformational() then ActiveIndices(rule, from + 1)
    else
      var rest := ActiveIndices(rule, from + 1);
      NoDuplicatesTail([from] + rest);
      assert ([from] + rest)[1..] == rest;
      [from] + rest
  }

  /** How many children a container must have satisfied. */
  function ContainerNeed(rule: Rule): nat {
    if rule.kind == AllOf then |ActiveIndices(rule, 0)| else rule.CountOrOne()
  }

  ghost predicate PairwiseDisjoint(parts: seq<Option<Plan>>) {
    forall i, j :: 0 <= i < j < |parts| && parts[i].Some? && parts[j].Some?
      ==> PlanCodes(parts[i].value) !! PlanCodes(parts[j].value)
  }

  function PresentParts(parts: seq<Option<Plan>>): set<nat> {
    set i: nat | i < |parts| && parts[i].Some?
  }

  /** The attempts of a leaf: listed, on the record, good enough, no course twice, and enough. */
  ghost predicate SecuresLeaf(rule: Rule, grade: string, record: seq<Attempt>, chosen: set<Attempt>, rank: nat)
  {
    && (forall a <- chosen :: a in record && rule.Lists(a.code) && Rank(AttemptStatus(a, grade)) >= rank)
    && (forall a <- chosen, b <- chosen :: a.code == b.code ==> a == b)
    && if rule.kind == CreditThreshold
       then TotalCredits(Restrict(record, chosen)) >= rule.CreditFloor()
       else |chosen| >= rule.LeafNeed()
  }

  /** `plan` fulfils the rule with every contribution at `rank` or better. At least as many
      parts as required may be filled; a rule nobody can evaluate counts as unresolved. */
  ghost predicate Secures(rule: Rule, inherited: string, record: seq<Attempt>, plan: Plan, rank: nat)
    decreases rule
  {
    var grade := EffectiveGrade(rule, inherited);
    if rule.IsInformational() then false
    else if IsOpaque(rule, grade) then plan == Take({}) && rank <= 2
    else if rule.children != [] then
      && plan.Split? && |plan.parts| == |rule.children|
      && (forall i :: 0 <= i < |plan.parts| && plan.parts[i].Some? ==>
            Secures(rule.children[i], grade, record, plan.parts[i].value, rank))
      && PairwiseDisjoint(plan.parts)
      && (if ActiveIndices(rule, 0) == [] then rank <= 2
          else |PresentParts(plan.parts)| >= ContainerNeed(rule))
    else plan.Take? && SecuresLeaf(rule, grade, record, plan.chosen, rank)
  }

  /** Some course-disjoint assignment reaches this rank. */
  ghost predicate Attainable(rule: Rule, inherited: string, record: seq<Attempt>, rank: nat) {
    exists plan :: Secures(rule, inherited, record, plan, rank)
  }

  lemma {:induction false} PartsCodesMembers(parts: seq<Option<Plan>>)
    ensures forall i :: 0 <= i < |parts| && parts[i].Some? ==> PlanCodes(parts[i].value) <= PartsCodes(parts)
    ensures forall c :: c in PartsCodes(parts)
                        <==> exists i :: 0 <= i < |parts| && parts[i].Some? && c in PlanCodes(parts[i].value)
  {
    if parts != [] {
      PartsCodesMembers(parts[1..]);
      forall i | 0 <= i < |parts| && parts[i].Some?
        ensures PlanCodes(parts[i].value) <= PartsCodes(parts)
      {
        if i > 0 { assert parts[1..][i - 1] == parts[i]; }
      }
      forall c | c in PartsCodes(parts)
        ensures exists i :: 0 <= i < |parts| && parts[i].Some? && c in PlanCodes(parts[i].value)
      {
        if c !in PartCodes(parts[0]) {
          assert c in PartsCodes(parts[1..]);
          var i :| 0 <= i < |parts[1..]| && parts[1..][i].Some? && c in PlanCodes(parts[1..][i].value);
          assert parts[i + 1] == parts[1..][i];
        }
      }
    }
  }

  /** A better rank is harder to reach. */
  lemma {:induction false} SecuresAntitone(rule: Rule, inherited: string, record: seq<Attempt>, plan: Plan,
                                           rank: nat, lower: nat)
    requires lower <= rank
    requires Secures(rule, inherited, record, plan, rank)
    ensures Secures(rule, inherited, record, plan, lower)
    decreases rule
  {
    var grade := EffectiveGrade(rule, inherited);
    if !IsOpaque(rule, grade) && rule.children != [] {
      forall i | 0 <= i < |plan.parts| && plan.parts[i].Some?
        ensures Secures(rule.children[i], grade, record, plan.parts[i].value, lower)
      {
        SecuresAntitone(rule.children[i], grade, record, plan.parts[i].value, rank, lower);
      }
    }
  }

  /** More attempts on the record never take an assignment away. */
  lemma {:induction false} SecuresMonotone(rule: Rule, inherited: string, record: seq<Attempt>, more: seq<Attempt>,
                                           plan: Plan, rank: nat)
    requires IsSelection(record, more) && NoDuplicates(more)
    requires Secures(rule, inherited, record, plan, rank)
    ensures Secures(rule, inherited, more, plan, rank)
    decreases rule
  {
    var grade := EffectiveGrade(rule, inherited);
    SelectionMembers(record, more);
    if IsOpaque(rule, grade) {
    } else if rule.children != [] {
      forall i | 0 <= i < |plan.parts| && plan.parts[i].Some?
        ensures Secures(rule.children[i], grade, more, plan.parts[i].value, rank)
      {
        SecuresMonotone(rule.children[i], grade, record, more, plan.parts[i].value, rank);
      }
    } else {
      RestrictThroughSelection(record, more, plan.chosen);
    }
  }
}
