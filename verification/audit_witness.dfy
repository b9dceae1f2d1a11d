/** The lazy witness generator, as the trace of what a full run of it does: one event per
    unit of search budget it spends and one per candidate it yields. */
module WitnessTraces {
  import opened AuditRules
  import opened Selections
  import opened AuditPlans

  datatype Event = Tick | Yield(candidate: Candidate)

  type Trace = seq<Event>

  /** A container whose chosen children are being worked through. */
  datatype Search = Search(rule: Rule, used: set<Code>, rank: nat, grade: string, indices: seq<nat>)
  {
    predicate Valid() {
      && NoDuplicateIndices()
      && forall j :: 0 <= j < |indices| ==>
           indices[j] < |rule.children| && !rule.children[indices[j]].IsInformational()
    }

    predicate NoDuplicateIndices() { forall i, j :: 0 <= i < j < |indices| ==> indices[i] != indices[j] }

    function Child(position: nat): Rule
      requires Valid() && position < |indices|
    {
      rule.children[indices[position]]
    }
  }

  /** Attempts a leaf may use: not consumed, listed, and of the rank asked for. */
  function EligibleAttempts(record: seq<Attempt>, rule: Rule, used: set<Code>, grade: string,
                            rank: nat): (r: seq<Attempt>)
    ensures IsSelection(r, record)
    ensures forall a <- r :: IsEligible(a, rule, used, grade, rank)
    ensures forall a <- record :: IsEligible(a, rule, used, grade, rank) ==> a in r
  {
    if record == [] then []
    else
      var rest := EligibleAttempts(record[1..], rule, used, grade, rank);
      assert ([record[0]] + rest)[1..] == rest;
      HeadAndTail(record);
      if IsEligible(record[0], rule, used, grade, rank) then [record[0]] + rest else rest
  }

  predicate IsEligible(a: Attempt, rule: Rule, used: set<Code>, grade: string, rank: nat) {
    a.code !in used && rule.Lists(a.code) && Rank(AttemptStatus(a, grade)) >= rank
  }

  /** The most credits each course could contribute. */
  function BestByCode(attempts: seq<Attempt>): map<Code, real> {
    if attempts == [] then map[]
    else
      var best := BestByCode(attempts[..|attempts| - 1]);
      var last := attempts[|attempts| - 1];
      var previous := if last.code in best then best[last.code] else 0.0;
      best[last.code := if last.Credits() > previous then last.Credits() else previous]
  }

  ghost function MapTotal(best: map<Code, real>): real {
    if best == map[] then 0.0
    else
      var code :| code in best;
      best[code] + MapTotal(best - {code})
  }

  /** The cheap test that ends a hopeless leaf before its combinations are tried. */
  ghost predicate Hopeless(rule: Rule, eligible: seq<Attempt>) {
    if rule.kind == CreditThreshold then MapTotal(BestByCode(eligible)) < rule.CreditFloor()
    else |Codes(eligible)| < rule.LeafNeed()
  }

  predicate AcceptsSelection(rule: Rule, selected: seq<Attempt>) {
    && |Codes(selected)| == |selected|
    && (rule.kind == CreditThreshold ==> TotalCredits(selected) >= rule.CreditFloor())
  }

  function LeafRow(rule: Rule, grade: string, selected: seq<Attempt>): Row {
    var statuses := Statuses(selected, grade);
    Row(rule.id, Aggregate(statuses, false), selected, TotalCredits(selected),
        if rule.kind == CreditThreshold then None else Some(rule.LeafNeed()),
        Some(CountSatisfied(statuses)), [])
  }

  function LeafCandidate(rule: Rule, grade: string, selected: seq<Attempt>): Candidate {
    Candidate(LeafRow(rule, grade, selected), Codes(selected))
  }

  function EachSelection(rule: Rule, grade: string, selections: seq<seq<Attempt>>): Trace {
    if selections == [] then []
    else
      var yielded := if AcceptsSelection(rule, selections[0]) then [Yield(LeafCandidate(rule, grade, selections[0]))]
                     else [];
      [Tick] + yielded + EachSelection(rule, grade, selections[1..])
  }

  /** A credit threshold tries every size, smallest first; other leaves know their size. */
  function LeafSelections(rule: Rule, eligible: seq<Attempt>): seq<seq<Attempt>> {
    if rule.kind == CreditThreshold then CombinationsBetween(eligible, 1, |eligible|)
    else Combinations(eligible, rule.LeafNeed())
  }

  ghost function LeafWitnesses(rule: Rule, used: set<Code>, rank: nat, grade: string, record: seq<Attempt>): Trace {
    var eligible := EligibleAttempts(record, rule, used, grade, rank);
    if Hopeless(rule, eligible) then []
    else EachSelection(rule, grade, LeafSelections(rule, eligible))
  }

  function RowAt(rule: Rule, rows: map<nat, Row>, i: nat): Row
    requires i < |rule.children|
  {
    if i in rows then rows[i] else NotSelectedRow(rule.children[i])
  }

  function ChildRows(rule: Rule, rows: map<nat, Row>): seq<Row> {
    seq(|rule.children|, i requires 0 <= i < |rule.children| => RowAt(rule, rows, i))
  }

  function ContainerRow(s: Search, rows: map<nat, Row>): Row
    requires s.Valid()
  {
    var children := ChildRows(s.rule, rows);
    var statuses := seq(|s.indices|, j requires 0 <= j < |s.indices| => RowAt(s.rule, rows, s.indices[j]).status);
    Row(s.rule.id, Aggregate(statuses, false), RowAttempts(children), RowCredits(children),
        Some(|s.indices|), Some(CountSatisfied(statuses)), children)
  }

  ghost function Witnesses(rule: Rule, used: set<Code>, rank: nat, inherited: string, record: seq<Attempt>): Trace
    decreases rule, 4, 0, 0, 0
  {
    var grade := EffectiveGrade(rule, inherited);
    var active := ActiveIndices(rule, 0);
    [Tick] +
    if rule.IsInformational() then [Yield(Candidate(NotSelectedRow(rule), {}))]
    else if IsOpaque(rule, grade) || (rule.children != [] && active == []) then
      if rank <= Rank(Unresolved) then [Yield(Candidate(BareRow(rule, Unresolved), {}))] else []
    else if rule.children != [] then
      CombinationsAreChoices(rule);
      EachChoice(rule, used, rank, grade, record, Combinations(active, ContainerNeed(rule)))
    else LeafWitnesses(rule, used, rank, grade, record)
  }

  ghost predicate ChoicesOf(rule: Rule, choices: seq<seq<nat>>) {
    forall indices <- choices :: IsSelection(indices, ActiveIndices(rule, 0))
  }

  ghost function EachChoice(rule: Rule, used: set<Code>, rank: nat, grade: string, record: seq<Attempt>,
                            choices: seq<seq<nat>>): Trace
    requires ChoicesOf(rule, choices)
    decreases rule, 3, |choices|, 0, 0
  {
    if choices == [] then []
    else
      ChoiceIsValid(rule, used, rank, grade, choices[0]);
      [Tick] + Combine(Search(rule, used, rank, grade, choices[0]), record, 0, map[], {})
      + EachChoice(rule, used, rank, grade, record, choices[1..])
  }

  ghost function Combine(s: Search, record: seq<Attempt>, position: nat, rows: map<nat, Row>,
                         consumed: set<Code>): Trace
    requires s.Valid() && position <= |s.indices|
    decreases s.rule, 2, |s.indices| - position, 1, 0
  {
    [Tick] +
    if position == |s.indices| then [Yield(Candidate(ContainerRow(s, rows), consumed))]
    else
      ForEach(s, record, position, rows, consumed,
              Witnesses(s.Child(position), s.used + consumed, s.rank, s.grade, record))
  }

  /** Consume a child's events, running the rest of the container on each candidate. */
  ghost function ForEach(s: Search, record: seq<Attempt>, position: nat, rows: map<nat, Row>,
                         consumed: set<Code>, events: Trace): Trace
    requires s.Valid() && position < |s.indices|
    decreases s.rule, 2, |s.indices| - position, 0, |events|
  {
    if events == [] then []
    else
      (match events[0]
       case Tick => [Tick]
       case Yield(c) =>
         Combine(s, record, position + 1, rows[s.indices[position] := c.row], consumed + c.used))
      + ForEach(s, record, position, rows, consumed, events[1..])
  }

  lemma CombinationsAreChoices(rule: Rule)
    ensures ChoicesOf(rule, Combinations(ActiveIndices(rule, 0), ContainerNeed(rule)))
  {
    var active := ActiveIndices(rule, 0);
    forall indices | indices in Combinations(active, ContainerNeed(rule)) ensures IsSelection(indices, active) {
      CombinationsMembers(active, ContainerNeed(rule), indices);
    }
  }

  lemma ChoiceIsValid(rule: Rule, used: set<Code>, rank: nat, grade: string, indices: seq<nat>)
    requires IsSelection(indices, ActiveIndices(rule, 0))
    ensures Search(rule, used, rank, grade, indices).Valid()
  {
    SelectionMembers(indices, ActiveIndices(rule, 0));
    SelectionNoDuplicates(indices, ActiveIndices(rule, 0));
    forall j | 0 <= j < |indices|
      ensures indices[j] < |rule.children| && !rule.children[indices[j]].IsInformational()
    {
      assert indices[j] in indices;
    }
  }
}
