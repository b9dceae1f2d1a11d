/** What a whole audit reports, said without the searches: its status by assignments, its rows and
    credit totals by the attempts they hold, and the choice it falls back on by what else there is. */
module AuditResults {
  import opened AuditRules
  import opened Selections
  import opened AuditPlans
  import opened AuditMeaning
  import opened AuditRows
  import opened AuditFillings
  import opened AuditOrder
  import opened WitnessTraces
  import opened WitnessProofs
  import opened OptionSearch
  import opened OptionProofs
  import opened OptionMeaning
  import opened AuditRun

  // ---------------------------------------------------------------- the reported rows

  /** A row is another one, or lies within it. */
  ghost predicate Within(r: Row, row: Row)
    decreases row
  {
    r == row || exists i :: 0 <= i < |row.children| && Within(r, row.children[i])
  }

  lemma {:induction false} FlattenMembers(row: Row, r: Row)
    ensures r in Flatten(row) <==> Within(r, row)
    decreases row, 1
  {
    FlattenAllMembers(row.children, r);
    assert r in Flatten(row) <==> r == row || r in FlattenAll(row.children);
  }

  lemma {:induction false} FlattenAllMembers(rows: seq<Row>, r: Row)
    ensures r in FlattenAll(rows) <==> exists i :: 0 <= i < |rows| && Within(r, rows[i])
    decreases rows, 0
  {
    if rows != [] {
      FlattenMembers(rows[0], r);
      FlattenAllMembers(rows[1..], r);
      if r in FlattenAll(rows[1..]) {
        var i :| 0 <= i < |rows[1..]| && Within(r, rows[1..][i]);
        assert Within(r, rows[i + 1]);
      }
      if i :| 0 <= i < |rows| && Within(r, rows[i]) {
        if i > 0 { assert rows[1..][i - 1] == rows[i]; }
      }
    }
  }

  /** How many rows a result has. */
  function Rows(row: Row): nat
    decreases row, 1
  {
    1 + RowsIn(row.children)
  }

  function RowsIn(rows: seq<Row>): nat
    decreases rows, 0
  {
    if rows == [] then 0 else Rows(rows[0]) + RowsIn(rows[1..])
  }

  lemma {:induction false} FlattenCount(row: Row)
    ensures |Flatten(row)| == Rows(row)
    decreases row, 1
  {
    FlattenAllCount(row.children);
  }

  lemma {:induction false} FlattenAllCount(rows: seq<Row>)
    ensures |FlattenAll(rows)| == RowsIn(rows)
    decreases rows, 0
  {
    if rows != [] {
      FlattenCount(rows[0]);
      FlattenAllCount(rows[1..]);
    }
  }

  /** The reported row tells what it holds; with nothing to report it is bare. */
  ghost predicate ReportedRow(root: Rule, record: seq<Attempt>, limited: bool, row: Row) {
    if limited || root.disposition == Informational then Bare(root, row) else Told(root, "", record, row)
  }

  lemma ChoiceTells(root: Rule, record: seq<Attempt>, budget: nat)
    requires WellFormed(root) && ValidRecord(record) && Choose(root, record, budget).0.Found?
    requires !root.IsInformational()
    ensures Told(root, "", record, Choose(root, record, budget).0.candidate.row)
  {
    var traces := RankTraces(root, record);
    hide Told, Witnesses, Options, ValidRecord, WellFormed, Best, SearchTraces;
    if SearchTraces(traces, 0, budget).0.Found? {
      var i := SearchFinds(traces, 0, budget);
      var c := SearchTraces(traces, 0, budget).0.candidate;
      WitnessFilled(root, {}, 5 - i, "", record, c);
      FilledIsTold(root, "", record, 5 - i, c.row);
    } else {
      OptionsNotEmpty(root, "", record, true);
      var options := Options(root, "", record, true);
      BestIsMaximal(options);
      MergedIsEnumerated(root, "", record, Best(options));
      OptionTold(root, "", record, Best(options));
      FrugalIsTold(root, "", record, Best(options).row);
    }
  }

  lemma ToldIsSelected(root: Rule, record: seq<Attempt>, row: Row)
    requires Told(root, "", record, row) && root.disposition != Informational
    ensures row.status != NotSelected
  {
  }

  lemma InformationalFinds(root: Rule, record: seq<Attempt>, budget: nat)
    requires root.IsInformational()
    ensures Choose(root, record, budget).0.Found? ==> Choose(root, record, budget).0.candidate.row.status == NotSelected
  {
    if budget >= 1 {
      InformationalChoice(root, record, budget);
    } else {
      var events := Witnesses(root, {}, 5, "", record);
      assert events == [Tick] + [Yield(Candidate(NotSelectedRow(root), {}))];
      assert RankTraces(root, record)[0] == events;
    }
  }

  /** Every row of every report is what its own attempts and its children's rows make it, each row of
      the tree is listed and no others, and the totals reported are those of the root. */
  lemma RunIsTold(root: Rule, record: seq<Attempt>, budget: nat) returns (row: Row)
    requires WellFormed(root) && ValidRecord(record)
    ensures var r := Run(root, record, budget);
            && ReportedRow(root, record, r.limited, row)
            && r.status == row.status && r.attempts == row.attempts && r.credits == row.credits
            && |r.rows| == Rows(row) && r.rows[0] == row && forall x :: x in r.rows <==> Within(x, row)
  {
    var chosen := Choose(root, record, budget);
    var found := if chosen.0.Found? then chosen.0.candidate.row else BareRow(root, Unresolved);
    row := if found.status == NotSelected then BareRow(root, Unresolved) else found;
    FlattenCount(row);
    forall x ensures x in Flatten(row) <==> Within(x, row) { FlattenMembers(row, x); }
    if root.IsInformational() {
      InformationalFinds(root, record, budget);
    } else if chosen.0.Found? {
      ChoiceTells(root, record, budget);
      ToldIsSelected(root, record, found);
    }
  }

  // ---------------------------------------------------------------- the credit totals

  function CompletedCredit(a: Attempt): real {
    if a.state == InProgress || a.state == Planned then 0.0 else a.earned
  }

  function PendingCredit(a: Attempt): real {
    if a.state == InProgress || a.state == Planned then a.attempted else 0.0
  }

  function UnverifiedCredit(a: Attempt): real {
    if a.state == InProgress || a.state == Planned || a.verified then 0.0 else a.earned
  }

  lemma {:induction false} TotalsAreSums(attempts: seq<Attempt>)
    ensures EarnedCompleted(attempts) == Sum(attempts, CompletedCredit)
    ensures AttemptedInProgress(attempts) == Sum(attempts, PendingCredit)
    ensures EarnedUnverified(attempts) == Sum(attempts, UnverifiedCredit)
  {
    if attempts != [] { TotalsAreSums(attempts[1..]); }
  }

  /** The three totals of a report are the sums over the attempts it allocates. */
  lemma RunTotals(root: Rule, record: seq<Attempt>, budget: nat)
    requires WellFormed(root) && ValidRecord(record)
    ensures var r := Run(root, record, budget);
            && r.completed == Sum(r.attempts, CompletedCredit)
            && r.inProgress == Sum(r.attempts, PendingCredit)
            && r.unverified == Sum(r.attempts, UnverifiedCredit)
  {
    RunConserves(root, record, budget);
    var r := Run(root, record, budget);
    TotalsAreSums(Restrict(record, Elements(r.attempts)));
    RecordHasNoDuplicates(record);
    assert NoDuplicates(r.attempts);
    RecordOrderSums(record, r.attempts, CompletedCredit);
    RecordOrderSums(record, r.attempts, PendingCredit);
    RecordOrderSums(record, r.attempts, UnverifiedCredit);
  }

  // ---------------------------------------------------------------- the reported status

  /** Some allocation within the rule runs into something that the rules and the record leave undecided. */
  ghost predicate Doubtful(rule: Rule, around: string, record: seq<Attempt>)
    decreases rule
  {
    var floor := Floor(rule, around);
    if rule.disposition == Informational then false
    else if Undecidable(rule, floor) then true
    else if rule.children == [] then exists a <- record :: Listed(rule, a.code) && NeedsReview(a, floor)
    else
      || (rule.kind == AllOf && Stating(rule) == {})
      || exists i :: 0 <= i < |rule.children| && Doubtful(rule.children[i], floor, record)
  }

  lemma {:induction false} DoubtfulMeaning(rule: Rule, around: string, record: seq<Attempt>)
    ensures CanBeUnresolved(rule, around, record) <==> Doubtful(rule, around, record)
    decreases rule
  {
    var floor := Floor(rule, around);
    GivenFloor(rule, around);
    WantedMeaning(rule);
    if rule.children != [] {
      forall i | 0 <= i < |rule.children|
        ensures CanBeUnresolved(rule.children[i], floor, record) <==> Doubtful(rule.children[i], floor, record)
      {
        DoubtfulMeaning(rule.children[i], floor, record);
      }
    } else {
      forall a ensures AttemptStatus(a, floor) == Unresolved <==> NeedsReview(a, floor) { StatusMeaning(a, floor); }
      hide AttemptStatus, NeedsReview;
    }
  }

  /** Some assignment fulfils the whole tree at this rank. */
  ghost predicate Fulfillable(root: Rule, record: seq<Attempt>, rank: nat) {
    exists plan :: Fulfils(root, "", record, plan, rank)
  }

  lemma FulfillableMeaning(root: Rule, record: seq<Attempt>, rank: nat)
    ensures Attainable(root, "", record, rank) <==> Fulfillable(root, record, rank)
  {
    if plan :| Secures(root, "", record, plan, rank) { SecuresIsFulfils(root, "", record, plan, rank); }
    if plan :| Fulfils(root, "", record, plan, rank) { SecuresIsFulfils(root, "", record, plan, rank); }
  }

  /** The reported status, over the fields of rules and attempts: the best that any assignment gives;
      without one, unresolved when something is open to review, and outstanding otherwise. */
  lemma StatusIsBest(root: Rule, record: seq<Attempt>, budget: nat)
    requires WellFormed(root) && ValidRecord(record) && budget >= 1 && !Run(root, record, budget).limited
    ensures Run(root, record, budget).status
            == if Fulfillable(root, record, 5) then Satisfied
               else if Fulfillable(root, record, 4) then InProgressSatisfied
               else if Fulfillable(root, record, 3) then Conditional
               else if root.disposition == Informational || Fulfillable(root, record, 2) || Doubtful(root, "", record)
                    then Unresolved
               else Outstanding
  {
    hide Run, Fulfillable, Attainable, Doubtful, CanBeUnresolved;
    RunIsExact(root, record, budget);
    FulfillableMeaning(root, record, 5);
    FulfillableMeaning(root, record, 4);
    FulfillableMeaning(root, record, 3);
    FulfillableMeaning(root, record, 2);
    DoubtfulMeaning(root, "", record);
  }

  // ---------------------------------------------------------------- which completion is reported

  /** The first result among the events. */
  ghost predicate FirstYield(events: Trace, k: int) {
    0 <= k < |events| && events[k].Yield? && forall j :: 0 <= j < k ==> events[j].Tick?
  }

  lemma {:induction false} ConsumeFirst(events: Trace, spent: nat, budget: nat) returns (k: int)
    requires Consume(events, spent, budget).0.Found?
    ensures FirstYield(events, k) && events[k] == Yield(Consume(events, spent, budget).0.candidate)
  {
    if events[0].Yield? {
      k := 0;
    } else {
      var rest := ConsumeFirst(events[1..], spent + 1, budget);
      k := rest + 1;
    }
  }

  ghost predicate NoYield(events: Trace) { forall e <- events :: e.Tick? }

  /** What is found is the first result of the first generator that has one. */
  lemma {:induction false} SearchFirst(traces: seq<Trace>, spent: nat, budget: nat) returns (i: nat, k: int)
    requires SearchTraces(traces, spent, budget).0.Found?
    ensures i < |traces| && forall j: nat | j < i :: NoYield(traces[j])
    ensures FirstYield(traces[i], k) && traces[i][k] == Yield(SearchTraces(traces, spent, budget).0.candidate)
  {
    var first := Consume(traces[0], spent, budget);
    ConsumeMeaning(traces[0], spent, budget);
    if first.0.Exhausted? {
      var m;
      m, k := SearchFirst(traces[1..], first.1, budget);
      i := m + 1;
      forall j: nat | j < i ensures NoYield(traces[j]) {
        if j > 0 { assert traces[j] == traces[1..][j - 1]; }
      }
    } else {
      i := 0;
      k := ConsumeFirst(traces[0], spent, budget);
    }
  }

  /** A row that fills the whole tree at this rank, and is earlier than every other that does. */
  ghost predicate Earliest(root: Rule, record: seq<Attempt>, rank: nat, row: Row) {
    && Filled(root, "", record, rank, row)
    && forall other | Filled(root, "", record, rank, other) :: other == row || Earlier(root, record, row, other)
  }

  lemma FirstIsEarliest(root: Rule, record: seq<Attempt>, rank: nat, k: int)
    requires WellFormed(root) && ValidRecord(record) && !root.IsInformational() && 2 <= rank <= 5
    requires FirstYield(Witnesses(root, {}, rank, "", record), k)
    ensures Earliest(root, record, rank, Witnesses(root, {}, rank, "", record)[k].candidate.row)
  {
    var events := Witnesses(root, {}, rank, "", record);
    var row := events[k].candidate.row;
    WitnessFilled(root, {}, rank, "", record, events[k].candidate);
    WitnessesInOrder(root, {}, rank, "", record);
    hide Filled, Earlier, Witnesses, WellFormed;
    forall other | Filled(root, "", record, rank, other) ensures other == row || Earlier(root, record, row, other) {
      FilledIsFound(root, {}, rank, "", record, other);
      var m :| 0 <= m < |events| && events[m] == Yield(Candidate(other, Codes(other.attempts)));
      if m > k { assert Before(root, record, events[k], events[m]); }
    }
  }

  lemma NoneFilled(root: Rule, record: seq<Attempt>, rank: nat, row: Row)
    requires WellFormed(root) && ValidRecord(record) && 2 <= rank <= 5
    requires NoYield(Witnesses(root, {}, rank, "", record))
    ensures !Filled(root, "", record, rank, row)
  {
    if Filled(root, "", record, rank, row) { FilledIsFound(root, {}, rank, "", record, row); }
  }

  /** When an assignment gives a completion or an unresolved result, the report is the earliest of all
      rows that fill the tree at the best rank any assignment attains. */
  lemma RunIsEarliest(root: Rule, record: seq<Attempt>, budget: nat) returns (row: Row, rank: nat)
    requires WellFormed(root) && ValidRecord(record) && !Run(root, record, budget).limited
    requires Fulfillable(root, record, 2)
    ensures Run(root, record, budget).rows == Flatten(row) && Earliest(root, record, rank, row) && 2 <= rank <= 5
    ensures forall better, other | rank < better <= 5 :: !Filled(root, "", record, better, other)
  {
    FulfillableMeaning(root, record, 2);
    SearchSucceeds(root, record, budget);
    row, rank := FoundIsEarliest(root, record, budget);
    EarliestIsSelected(root, record, rank, row);
    ReportsFound(root, record, budget, row);
  }

  lemma EarliestIsSelected(root: Rule, record: seq<Attempt>, rank: nat, row: Row)
    requires Earliest(root, record, rank, row)
    ensures row.status != NotSelected
  {
    FilledIsTold(root, "", record, rank, row);
  }

  lemma ReportsFound(root: Rule, record: seq<Attempt>, budget: nat, row: Row)
    requires Choose(root, record, budget).0.Found? && Choose(root, record, budget).0.candidate.row == row
    requires row.status != NotSelected
    ensures Run(root, record, budget).rows == Flatten(row)
  {
    hide Choose;
  }

  lemma FoundIsEarliest(root: Rule, record: seq<Attempt>, budget: nat) returns (row: Row, rank: nat)
    requires WellFormed(root) && ValidRecord(record) && !root.IsInformational()
    requires SearchTraces(RankTraces(root, record), 0, budget).0.Found?
    ensures row == SearchTraces(RankTraces(root, record), 0, budget).0.candidate.row
    ensures Earliest(root, record, rank, row) && 2 <= rank <= 5
    ensures forall better, other | rank < better <= 5 :: !Filled(root, "", record, better, other)
  {
    hide SearchTraces, Witnesses, Filled, Earliest, WellFormed, ValidRecord, NoYield, FirstYield;
    var i, k := SearchFirst(RankTraces(root, record), 0, budget);
    rank := 5 - i;
    row := SearchTraces(RankTraces(root, record), 0, budget).0.candidate.row;
    FirstIsEarliest(root, record, rank, k);
    NoneBetter(root, record, rank);
  }

  lemma NoneBetter(root: Rule, record: seq<Attempt>, rank: nat)
    requires WellFormed(root) && ValidRecord(record) && 2 <= rank <= 5
    requires forall j: nat | j < 5 - rank :: NoYield(RankTraces(root, record)[j])
    ensures forall better, other | rank < better <= 5 :: !Filled(root, "", record, better, other)
  {
    hide Witnesses, Filled, WellFormed, ValidRecord, NoYield;
    forall better: nat, other | rank < better <= 5 ensures !Filled(root, "", record, better, other) {
      assert NoYield(RankTraces(root, record)[5 - better]);
      NoneFilled(root, record, better, other);
    }
  }

  lemma SearchSucceeds(root: Rule, record: seq<Attempt>, budget: nat)
    requires WellFormed(root) && ValidRecord(record) && !Run(root, record, budget).limited
    requires Attainable(root, "", record, 2)
    ensures !root.IsInformational() && SearchTraces(RankTraces(root, record), 0, budget).0.Found?
    ensures Choose(root, record, budget) == SearchTraces(RankTraces(root, record), 0, budget)
  {
    var traces := RankTraces(root, record);
    var plan :| Secures(root, "", record, plan, 2);
    WitnessesDecideRank(root, "", record, 2);
    var c :| Yield(c) in traces[3];
    if SearchTraces(traces, 0, budget).0.Exhausted? { SearchExhausts(traces, 0, budget); }
  }

  lemma {:induction false} SearchExhausts(traces: seq<Trace>, spent: nat, budget: nat)
    requires SearchTraces(traces, spent, budget).0.Exhausted?
    ensures forall j: nat | j < |traces| :: NoYield(traces[j])
  {
    if traces != [] {
      ConsumeMeaning(traces[0], spent, budget);
      SearchExhausts(traces[1..], Consume(traces[0], spent, budget).1, budget);
      forall j: nat | j < |traces| ensures NoYield(traces[j]) {
        if j > 0 { assert traces[j] == traces[1..][j - 1]; }
      }
    }
  }

  // ---------------------------------------------------------------- the fallback's choice

  /** The better of two allocations with one status: more satisfied leaves, then more attempts that
      satisfy, then more credits, then fewer courses. */
  ghost predicate AtLeastAsGood(row: Row, other: Row) {
    && TotalsAtMost(TotalsOf(other), TotalsOf(row))
    && (TotalsOf(other) == TotalsOf(row) ==> |Codes(row.attempts)| <= |Codes(other.attempts)|)
  }

  lemma BestBeatsMerged(candidates: seq<Candidate>, c: Candidate)
    requires c in candidates
    ensures var best := Best(candidates);
            && Rank(c.row.status) <= Rank(best.row.status)
            && (c.row.status == best.row.status ==>
                  && TotalsAtMost(TotalsOf(c.row), TotalsOf(best.row))
                  && (TotalsOf(c.row) == TotalsOf(best.row) ==> |best.used| <= |c.used|))
  {
    BestIsMaximal(candidates);
    var best := Best(candidates);
    hide Best;
    TotalsMatch(best.row);
    TotalsMatch(c.row);
  }

  /** The fallback's choice against every allocation, whatever courses it takes. */
  lemma BestBeatsAll(root: Rule, record: seq<Attempt>, c: Candidate)
    requires c in Options(root, "", record, false)
    requires Options(root, "", record, true) != []
    ensures var best := Best(Options(root, "", record, true));
            && Rank(c.row.status) <= Rank(best.row.status)
            && (c.row.status == best.row.status ==>
                  && TotalsAtMost(TotalsOf(c.row), TotalsOf(best.row))
                  && (TotalsOf(c.row) == TotalsOf(best.row) ==> |best.used| <= |c.used|))
  {
    Exchange(root, "", record, c);
    var kept :| kept in Options(root, "", record, true) && Dominates(kept, c);
    BestBeatsMerged(Options(root, "", record, true), kept);
  }

  /** With nothing to fulfil or to leave open, the report is an allocation of the exhaustive search that
      no other of its status beats. */
  lemma OutstandingIsBest(root: Rule, record: seq<Attempt>, budget: nat) returns (row: Row)
    requires WellFormed(root) && ValidRecord(record) && !Run(root, record, budget).limited
    requires root.disposition != Informational && !Fulfillable(root, record, 2)
    ensures Run(root, record, budget).rows == Flatten(row) && Frugal(root, "", record, row)
    ensures forall other | Frugal(root, "", record, other) ::
              Rank(other.status) <= Rank(row.status) && (other.status == row.status ==> AtLeastAsGood(row, other))
  {
    FulfillableMeaning(root, record, 2);
    var best := FallbackChosen(root, record, budget);
    row := best.row;
    MergedIsEnumerated(root, "", record, best);
    OptionTold(root, "", record, best);
    FrugalIsTold(root, "", record, row);
    ToldIsSelected(root, record, row);
    forall other | Frugal(root, "", record, other)
      ensures Rank(other.status) <= Rank(row.status) && (other.status == row.status ==> AtLeastAsGood(row, other))
    {
      ToldIsOption(root, "", record, other);
      BestBeatsAll(root, record, Candidate(other, Codes(other.attempts)));
    }
  }

  lemma SecuredIsAttainable(root: Rule, record: seq<Attempt>, plan: Plan, rank: nat)
    requires Secures(root, "", record, plan, rank) && rank >= 2
    ensures Attainable(root, "", record, 2)
  {
    SecuresAntitone(root, "", record, plan, rank, 2);
  }

  lemma FallbackChosen(root: Rule, record: seq<Attempt>, budget: nat) returns (best: Candidate)
    requires WellFormed(root) && ValidRecord(record) && !Run(root, record, budget).limited
    requires !root.IsInformational() && !Attainable(root, "", record, 2)
    ensures best in Options(root, "", record, true) && best == Best(Options(root, "", record, true))
    ensures Choose(root, record, budget).0 == Found(best)
  {
    var traces := RankTraces(root, record);
    hide Options, Witnesses, Best, WellFormed, ValidRecord, SearchTraces, Attainable;
    if SearchTraces(traces, 0, budget).0.Found? {
      var i := SearchFinds(traces, 0, budget);
      var c := SearchTraces(traces, 0, budget).0.candidate;
      var plan := WitnessSound(root, {}, 5 - i, "", record, c);
      SecuredIsAttainable(root, record, plan, Rank(c.row.status));
    }
    OptionsNotEmpty(root, "", record, true);
    best := Best(Options(root, "", record, true));
    BestIsMaximal(Options(root, "", record, true));
  }

  // ---------------------------------------------------------------- the budget

  lemma {:induction false} ConsumeFits(events: Trace, spent: nat, budget: nat)
    requires spent + |events| <= budget
    ensures !Consume(events, spent, budget).0.Limited? && Consume(events, spent, budget).1 <= spent + |events|
  {
    if events != [] && events[0].Tick? { ConsumeFits(events[1..], spent + 1, budget); }
  }

  ghost function EventsIn(traces: seq<Trace>): nat {
    if traces == [] then 0 else |traces[0]| + EventsIn(traces[1..])
  }

  lemma {:induction false} SearchFits(traces: seq<Trace>, spent: nat, budget: nat)
    requires spent + EventsIn(traces) <= budget
    ensures !SearchTraces(traces, spent, budget).0.Limited?
    ensures SearchTraces(traces, spent, budget).1 <= spent + EventsIn(traces)
  {
    if traces != [] {
      ConsumeFits(traces[0], spent, budget);
      var first := Consume(traces[0], spent, budget);
      if first.0.Exhausted? { SearchFits(traces[1..], first.1, budget); }
    }
  }

  /** Every audit ends within some budget, and within every larger one. */
  lemma EnoughBudget(root: Rule, record: seq<Attempt>) returns (enough: nat)
    ensures forall budget: nat | budget >= enough :: !Run(root, record, budget).limited
  {
    enough := EventsIn(RankTraces(root, record)) + OptionCost(root, "", record);
    forall budget: nat | budget >= enough ensures !Run(root, record, budget).limited {
      SearchFits(RankTraces(root, record), 0, budget);
    }
  }

  lemma {:induction false} SearchStates(traces: seq<Trace>, spent: nat, budget: nat)
    requires spent <= budget
    ensures var r := SearchTraces(traces, spent, budget); if r.0.Limited? then r.1 == budget + 1 else r.1 <= budget
  {
    if traces != [] {
      ConsumeMeaning(traces[0], spent, budget);
      var first := Consume(traces[0], spent, budget);
      if first.0.Exhausted? { SearchStates(traces[1..], first.1, budget); }
    }
  }

  /** A run is cut off exactly when it goes one state beyond its budget. */
  lemma CutOffBeyondBudget(root: Rule, record: seq<Attempt>, budget: nat)
    ensures Run(root, record, budget).limited <==> Run(root, record, budget).states == budget + 1
    ensures Run(root, record, budget).states <= budget + 1
  {
    SearchStates(RankTraces(root, record), 0, budget);
  }
}
