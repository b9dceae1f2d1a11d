/** Program rules, academic attempts and result rows of the degree audit, with the status
    arithmetic that both searches share. */
module AuditRules {

  datatype Option<+T> = None | Some(value: T)

  type Code = string

  datatype AttemptState = Completed | Transfer | TestCredit | Repeated | InProgress | Planned

  /** One normalized attempt. An absent grade is the empty string. */
  datatype Attempt = Attempt(id: string, code: Code, grade: string, attempted: real, earned: real,
                             state: AttemptState, verified: bool)
  {
    predicate IsCompleted() { state.Completed? || state.Transfer? || state.TestCredit? || state.Repeated? }

    predicate IsInProgressOrPlanned() { state.InProgress? || state.Planned? }

    function Credits(): real { if IsCompleted() then earned else attempted }
  }

  datatype Status = NotSelected | Outstanding | Unresolved | Conditional | InProgressSatisfied | Satisfied

  function Rank(s: Status): nat {
    match s
    case NotSelected => 0
    case Outstanding => 1
    case Unresolved => 2
    case Conditional => 3
    case InProgressSatisfied => 4
    case Satisfied => 5
  }

  datatype RuleKind = ExactCourse | AllOf | AnyOf | ChooseCount | CreditThreshold | UnresolvedRule

  datatype Disposition = Supported | UnresolvedCoverage | Informational | Waived

  /** A reviewed rule. An absent minimum grade is the empty string. */
  datatype Rule = Rule(id: string, kind: RuleKind, disposition: Disposition, codes: seq<Code>,
                       count: Option<nat>, minCredits: Option<real>, minGrade: string,
                       children: seq<Rule>)
  {
    predicate IsInformational() { disposition == Informational }

    predicate IsUnresolved() { kind == UnresolvedRule || disposition == UnresolvedCoverage }

    function CountOrOne(): nat { if count.Some? && count.value != 0 then count.value else 1 }

    function CreditFloor(): real { if minCredits.Some? then minCredits.value else 0.0 }

    /** What a leaf needs: every listed course, or a count that defaults to one. */
    function LeafNeed(): nat { if kind == AllOf then |codes| else CountOrOne() }

    predicate Lists(code: Code) { codes == [] || code in codes }
  }

  /** The executable-language checks of the rule validator that concern one node. */
  predicate WellFormedNode(rule: Rule) {
    && (rule.children == [] || rule.codes == [])
    && (forall i, j :: 0 <= i < j < |rule.codes| ==> rule.codes[i] != rule.codes[j])
    && rule.disposition != Waived
    && (rule.IsInformational() || rule.IsUnresolved() || ExecutableShape(rule))
  }

  predicate ExecutableShape(rule: Rule) {
    && (rule.count.Some? ==> rule.kind == ChooseCount)
    && (rule.minCredits.Some? ==> rule.kind == CreditThreshold)
    && match rule.kind
       case ExactCourse => |rule.codes| == 1 && rule.children == []
       case AllOf => rule.codes != [] || rule.children != []
       case AnyOf => rule.codes != [] || rule.children != []
       case ChooseCount => rule.count.Some? && 1 <= rule.count.value <= |rule.codes| + |rule.children|
       case CreditThreshold => rule.minCredits.Some? && rule.minCredits.value > 0.0 && rule.children == []
       case UnresolvedRule => true
  }

  predicate WellFormed(rule: Rule) {
    && WellFormedNode(rule)
    && forall child <- rule.children :: WellFormed(child)
  }

  /** Letter grades with a known point value. */
  function GradePoints(grade: string): Option<real> {
    if grade == "A+" || grade == "A" then Some(4.0)
    else if grade == "A-" then Some(3.7)
    else if grade == "B+" then Some(3.3)
    else if grade == "B" then Some(3.0)
    else if grade == "B-" then Some(2.7)
    else if grade == "C+" then Some(2.3)
    else if grade == "C" then Some(2.0)
    else if grade == "C-" then Some(1.7)
    else if grade == "D+" then Some(1.3)
    else if grade == "D" then Some(1.0)
    else if grade == "F" then Some(0.0)
    else None
  }

  predicate IsPassMark(grade: string) { grade in ["S", "P", "PASS", "CR"] }

  predicate GradeSupported(grade: string) { grade == "" || GradePoints(grade).Some? }

  function EffectiveGrade(rule: Rule, inherited: string): string {
    if rule.minGrade != "" then rule.minGrade else inherited
  }

  /** A rule that can only be reported as unresolved. */
  predicate IsOpaque(rule: Rule, grade: string) { rule.IsUnresolved() || !GradeSupported(grade) }

  /** What one attempt contributes to a rule with this minimum grade. */
  function AttemptStatus(a: Attempt, minGrade: string): (s: Status)
    ensures s != NotSelected
    ensures s == Satisfied ==> a.verified && a.IsCompleted() && a.state != Repeated
    ensures s == Outstanding ==> a.IsCompleted() && GradePoints(a.grade).Some? && GradePoints(minGrade).Some?
  {
    if a.state == Repeated then Unresolved
    else if a.state == Planned then Conditional
    else if a.state == InProgress then InProgressSatisfied
    else if minGrade != "" && (GradePoints(a.grade).None? || GradePoints(minGrade).None?) then Unresolved
    else if minGrade != "" && GradePoints(a.grade).value < GradePoints(minGrade).value then Outstanding
    else if a.grade != "" && GradePoints(a.grade).None? && !IsPassMark(a.grade)
         && !a.state.Transfer? && !a.state.TestCredit? then Unresolved
    else if a.attempted > 0.0 && a.earned == 0.0 then Unresolved
    else if a.grade == "" && a.earned == 0.0 then Unresolved
    else if a.verified then Satisfied else Conditional
  }

  /** The status of a rule from the statuses of its parts. */
  function Aggregate(statuses: seq<Status>, missing: bool): Status {
    if Unresolved in statuses then Unresolved
    else if missing || Outstanding in statuses then Outstanding
    else if statuses == [] then Unresolved
    else if Conditional in statuses then Conditional
    else if InProgressSatisfied in statuses then InProgressSatisfied
    else Satisfied
  }

  /** Nothing missing and nothing outstanding: the aggregate is the least of its parts. */
  lemma AggregateIsLeast(statuses: seq<Status>)
    requires statuses != []
    requires NotSelected !in statuses && Outstanding !in statuses
    ensures Aggregate(statuses, false) in statuses
    ensures forall s <- statuses :: Rank(Aggregate(statuses, false)) <= Rank(s)
  {
    var first := statuses[0];
    assert first in statuses;
    assert Aggregate(statuses, false).Satisfied? ==> first.Satisfied?;
  }

  /** A completion has nothing missing and at least one part, and every part reaches its rank. */
  lemma AggregateCompletion(statuses: seq<Status>, missing: bool, rank: nat)
    requires 3 <= rank <= 5
    requires NotSelected !in statuses
    ensures Rank(Aggregate(statuses, missing)) >= rank
            <==> !missing && statuses != [] && forall s <- statuses :: Rank(s) >= rank
  {
    if statuses != [] && Outstanding !in statuses && Unresolved !in statuses {
      AggregateIsLeast(statuses);
    }
  }

  /** A result row. `attempts` holds the allocated attempts themselves: their identities are unique. */
  datatype Row = Row(ruleId: string, status: Status, attempts: seq<Attempt>, credits: real,
                     required: Option<nat>, satisfiedCount: Option<nat>, children: seq<Row>)

  datatype Candidate = Candidate(row: Row, used: set<Code>)

  function BareRow(rule: Rule, status: Status): Row {
    Row(rule.id, status, [], 0.0, None, None, [])
  }

  function NotSelectedRow(rule: Rule): Row {
    Row(rule.id, NotSelected, [], 0.0, None, None,
        seq(|rule.children|, i requires 0 <= i < |rule.children| => NotSelectedRow(rule.children[i])))
  }

  function TotalCredits(attempts: seq<Attempt>): real {
    if attempts == [] then 0.0 else attempts[0].Credits() + TotalCredits(attempts[1..])
  }

  function RowCredits(rows: seq<Row>): real {
    if rows == [] then 0.0 else rows[0].credits + RowCredits(rows[1..])
  }

  function RowAttempts(rows: seq<Row>): seq<Attempt> {
    if rows == [] then [] else rows[0].attempts + RowAttempts(rows[1..])
  }

  function Statuses(attempts: seq<Attempt>, grade: string): seq<Status> {
    seq(|attempts|, i requires 0 <= i < |attempts| => AttemptStatus(attempts[i], grade))
  }

  function CountSatisfied(statuses: seq<Status>): nat {
    if statuses == [] then 0
    else (if statuses[0] == Satisfied then 1 else 0) + CountSatisfied(statuses[1..])
  }

  function Codes(attempts: seq<Attempt>): set<Code> {
    set a <- attempts :: a.code
  }

  ghost predicate DistinctCourses(attempts: seq<Attempt>) {
    forall i, j :: 0 <= i < j < |attempts| ==> attempts[i].code != attempts[j].code
  }

  /** The record handed to the engine: identities are unique and credits are not negative. */
  ghost predicate ValidRecord(attempts: seq<Attempt>) {
    && (forall i, j :: 0 <= i < j < |attempts| ==> attempts[i].id != attempts[j].id)
    && (forall a <- attempts :: a.attempted >= 0.0 && a.earned >= 0.0)
  }

  lemma DistinctCoursesTail(attempts: seq<Attempt>)
    requires attempts != []
    ensures DistinctCourses(attempts)
            <==> DistinctCourses(attempts[1..]) && attempts[0].code !in Codes(attempts[1..])
  {
    var rest := attempts[1..];
    if DistinctCourses(attempts) {
      forall i, j | 0 <= i < j < |rest| ensures rest[i].code != rest[j].code {
        assert attempts[i + 1].code != attempts[j + 1].code;
      }
      forall a | a in rest ensures a.code != attempts[0].code {
        var k :| 0 <= k < |rest| && rest[k] == a;
        assert attempts[0].code != attempts[k + 1].code;
      }
    } else {
      var i, j :| 0 <= i < j < |attempts| && attempts[i].code == attempts[j].code;
      assert attempts[j] == rest[j - 1];
      if i > 0 {
        assert attempts[i] == rest[i - 1];
      } else {
        assert rest[j - 1] in rest;
      }
    }
  }

  lemma {:induction false} CodesCount(attempts: seq<Attempt>)
    ensures |Codes(attempts)| <= |attempts|
    ensures |Codes(attempts)| == |attempts| <==> DistinctCourses(attempts)
  {
    if attempts == [] {
      assert Codes(attempts) == {};
    } else {
      CodesCount(attempts[1..]);
      DistinctCoursesTail(attempts);
      CodesTail(attempts);
    }
  }

  lemma CodesTail(attempts: seq<Attempt>)
    requires attempts != []
    ensures Codes(attempts) == {attempts[0].code} + Codes(attempts[1..])
  {
    assert attempts == [attempts[0]] + attempts[1..];
  }

  lemma {:induction false} TotalCreditsAppend(a: seq<Attempt>, b: seq<Attempt>)
    ensures TotalCredits(a + b) == TotalCredits(a) + TotalCredits(b)
  {
    if a == [] {
      assert a + b == b;
    } else {
      assert a + b == [a[0]] + (a[1..] + b);
      TotalCreditsAppend(a[1..], b);
    }
  }
}
