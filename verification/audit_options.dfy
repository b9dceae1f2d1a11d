/** The exhaustive enumeration of partial allocations, with the dominance merge switchable:
    with `merge` the lists are the engine's, without it nothing is ever merged away. */
module OptionSearch {
  import opened AuditRules
  import opened Selections
  import opened AuditPlans
  import opened WitnessTraces

  // ---------------------------------------------------------------- the allocation score

  datatype Score = Score(rank: nat, satisfied: nat, count: nat, credits: real, spare: int)

  predicate ScoreLess(a: Score, b: Score) {
    a.rank < b.rank || (a.rank == b.rank &&
      (a.satisfied < b.satisfied || (a.satisfied == b.satisfied &&
        (a.count < b.count || (a.count == b.count &&
          (a.credits < b.credits || (a.credits == b.credits && a.spare < b.spare)))))))
  }

  /** Every row of a result, a container before its children. */
  function Flatten(row: Row): seq<Row>
    decreases row
  {
    [row] + FlattenAll(row.children)
  }

  function FlattenAll(rows: seq<Row>): seq<Row>
    decreases rows
  {
    if rows == [] then [] else Flatten(rows[0]) + FlattenAll(rows[1..])
  }

  function ScoredLeaves(rows: seq<Row>): seq<Row> {
    if rows == [] then []
    else
      var rest := ScoredLeaves(rows[1..]);
      if rows[0].children == [] && rows[0].status != NotSelected then [rows[0]] + rest else rest
  }

  function SatisfiedLeaves(leaves: seq<Row>): nat {
    if leaves == [] then 0 else (if leaves[0].status == Satisfied then 1 else 0) + SatisfiedLeaves(leaves[1..])
  }

  function SatisfiedCounts(leaves: seq<Row>): nat {
    if leaves == [] then 0
    else (if leaves[0].satisfiedCount.Some? then leaves[0].satisfiedCount.value else 0) + SatisfiedCounts(leaves[1..])
  }

  function ScoreOf(c: Candidate): Score {
    var leaves := ScoredLeaves(Flatten(c.row));
    Score(Rank(c.row.status), SatisfiedLeaves(leaves), SatisfiedCounts(leaves), RowCredits(leaves), -|c.used|)
  }

  // ---------------------------------------------------------------- the dominance merge

  predicate SameKey(a: Candidate, b: Candidate) { a.used == b.used && a.row.status == b.row.status }

  /** Keep the better of two candidates with one key, in the place of the first. */
  function Merge(best: seq<Candidate>, c: Candidate): seq<Candidate> {
    if best == [] then [c]
    else if SameKey(best[0], c) then
      (if ScoreLess(ScoreOf(best[0]), ScoreOf(c)) then [c] else [best[0]]) + best[1..]
    else [best[0]] + Merge(best[1..], c)
  }

  function Deduplicate(candidates: seq<Candidate>): seq<Candidate> {
    if candidates == [] then []
    else Merge(Deduplicate(candidates[..|candidates| - 1]), candidates[|candidates| - 1])
  }

  // ---------------------------------------------------------------- leaves

  predicate MeetsLeaf(rule: Rule, selected: seq<Attempt>) {
    if rule.kind == CreditThreshold then TotalCredits(selected) >= rule.CreditFloor()
    else |selected| >= rule.LeafNeed()
  }

  /** A credit selection that would still suffice without one of its attempts. */
  predicate Superfluous(rule: Rule, selected: seq<Attempt>) {
    && rule.kind == CreditThreshold && MeetsLeaf(rule, selected)
    && exists a <- selected :: TotalCredits(selected) - a.Credits() >= rule.CreditFloor()
  }

  predicate KeepsOption(rule: Rule, selected: seq<Attempt>) {
    |Codes(selected)| == |selected| && !Superfluous(rule, selected)
  }

  function LeafOption(rule: Rule, grade: string, selected: seq<Attempt>): Candidate {
    var statuses := Statuses(selected, grade);
    Candidate(Row(rule.id, Aggregate(statuses, !MeetsLeaf(rule, selected)), selected, TotalCredits(selected),
                  if rule.kind == CreditThreshold then None else Some(rule.LeafNeed()),
                  Some(CountSatisfied(statuses)), []),
              Codes(selected))
  }

  function EachOption(rule: Rule, grade: string, selections: seq<seq<Attempt>>): seq<Candidate> {
    if selections == [] then []
    else
      var kept := if KeepsOption(rule, selections[0]) then [LeafOption(rule, grade, selections[0])] else [];
      kept + EachOption(rule, grade, selections[1..])
  }

  /** Attempts that count for something: everything listed except a grade below the threshold. */
  function Countable(record: seq<Attempt>, rule: Rule, grade: string): seq<Attempt> {
    EligibleAttempts(record, rule, {}, grade, Rank(Unresolved))
  }

  function OptionSelections(rule: Rule, eligible: seq<Attempt>): seq<seq<Attempt>> {
    var limit := if rule.kind == CreditThreshold || rule.LeafNeed() > |eligible| then |eligible| else rule.LeafNeed();
    CombinationsBetween(eligible, 0, limit)
  }

  // ---------------------------------------------------------------- containers

  function ActiveStatuses(rows: seq<Row>): seq<Status> {
    if rows == [] then []
    else if rows[0].status == NotSelected then ActiveStatuses(rows[1..])
    else [rows[0].status] + ActiveStatuses(rows[1..])
  }

  function OptionContainer(rule: Rule, selected: seq<Row>, used: set<Code>, chosen: nat): Candidate {
    var active := ActiveStatuses(selected);
    Candidate(Row(rule.id, Aggregate(active, chosen < ContainerNeed(rule)), RowAttempts(selected),
                  RowCredits(selected), Some(ContainerNeed(rule)), Some(CountSatisfied(active)), selected),
              used)
  }

  function CombineOptions(rule: Rule, options: seq<seq<Candidate>>, selected: seq<Row>, used: set<Code>,
                          chosen: nat): seq<Candidate>
    requires |options| == |rule.children| && |selected| <= |options|
    decreases |options| - |selected|, 1, 0
  {
    var index := |selected|;
    if index == |options| then [OptionContainer(rule, selected, used, chosen)]
    else if rule.kind == AllOf then TryEach(rule, options, selected, used, chosen, options[index])
    else
      CombineOptions(rule, options, selected + [NotSelectedRow(rule.children[index])], used, chosen)
      + (if chosen >= ContainerNeed(rule) then []
         else TryEach(rule, options, selected, used, chosen, options[index]))
  }

  function TryEach(rule: Rule, options: seq<seq<Candidate>>, selected: seq<Row>, used: set<Code>,
                   chosen: nat, candidates: seq<Candidate>): seq<Candidate>
    requires |options| == |rule.children| && |selected| < |options|
    decreases |options| - |selected|, 0, |candidates|
  {
    if candidates == [] then []
    else
      (if candidates[0].used !! used
       then CombineOptions(rule, options, selected + [candidates[0].row], used + candidates[0].used,
                           chosen + Counts(candidates[0]))
       else [])
      + TryEach(rule, options, selected, used, chosen, candidates[1..])
  }

  function Counts(c: Candidate): nat { if c.row.status != NotSelected then 1 else 0 }

  function MergeIf(candidates: seq<Candidate>, merge: bool): seq<Candidate> {
    if merge then Deduplicate(candidates) else candidates
  }

  function ChildOptions(rule: Rule, grade: string, record: seq<Attempt>, merge: bool): seq<seq<Candidate>>
    decreases rule, 0
  {
    seq(|rule.children|, i requires 0 <= i < |rule.children| => Options(rule.children[i], grade, record, merge))
  }

  function Options(rule: Rule, inherited: string, record: seq<Attempt>, merge: bool): seq<Candidate>
    decreases rule, 1
  {
    var grade := EffectiveGrade(rule, inherited);
    if rule.IsInformational() then [Candidate(NotSelectedRow(rule), {})]
    else if IsOpaque(rule, grade) then [Candidate(BareRow(rule, Unresolved), {})]
    else if rule.children != [] then
      MergeIf(CombineOptions(rule, ChildOptions(rule, grade, record, merge), [], {}, 0), merge)
    else
      MergeIf(EachOption(rule, grade, OptionSelections(rule, Countable(record, rule, grade))), merge)
  }

  // ---------------------------------------------------------------- what the enumeration costs

  function CombineCost(rule: Rule, options: seq<seq<Candidate>>, depth: nat, used: set<Code>, chosen: nat): nat
    requires |options| == |rule.children| && depth <= |options|
    decreases |options| - depth, 1, 0
  {
    if depth == |options| then 1
    else if rule.kind == AllOf then 1 + TryCost(rule, options, depth, used, chosen, options[depth])
    else
      1 + CombineCost(rule, options, depth + 1, used, chosen)
      + (if chosen >= ContainerNeed(rule) then 0 else TryCost(rule, options, depth, used, chosen, options[depth]))
  }

  function TryCost(rule: Rule, options: seq<seq<Candidate>>, depth: nat, used: set<Code>, chosen: nat,
                   candidates: seq<Candidate>): nat
    requires |options| == |rule.children| && depth < |options|
    decreases |options| - depth, 0, |candidates|
  {
    if candidates == [] then 0
    else
      (if candidates[0].used !! used
       then CombineCost(rule, options, depth + 1, used + candidates[0].used, chosen + Counts(candidates[0]))
       else 0)
      + TryCost(rule, options, depth, used, chosen, candidates[1..])
  }

  function ChildCost(rule: Rule, grade: string, record: seq<Attempt>, upTo: nat): nat
    requires upTo <= |rule.children|
    decreases rule, 0, upTo
  {
    if upTo == 0 then 0
    else ChildCost(rule, grade, record, upTo - 1) + OptionCost(rule.children[upTo - 1], grade, record)
  }

  function OptionCost(rule: Rule, inherited: string, record: seq<Attempt>): nat
    decreases rule, 1, 0
  {
    var grade := EffectiveGrade(rule, inherited);
    if rule.IsInformational() || IsOpaque(rule, grade) then 1
    else if rule.children != [] then
      1 + ChildCost(rule, grade, record, |rule.children|)
      + CombineCost(rule, ChildOptions(rule, grade, record, true), 0, {}, 0)
    else
      1 + |OptionSelections(rule, Countable(record, rule, grade))|
  }
}
