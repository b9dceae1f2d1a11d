/** A whole audit run as a function of the rule tree, the record and the search budget, and
    the theorems about its result. */
module AuditRun {
  import opened AuditRules
  import opened Selections
  import opened AuditPlans
  import opened WitnessTraces
  import opened WitnessProofs
  import opened OptionSearch
  import opened OptionMeaning

  // ---------------------------------------------------------------- consuming a generator

  datatype Outcome = Found(candidate: Candidate) | Exhausted | Limited

  /** What asking a generator for its first candidate does, and the budget spent afterwards. */
  function Consume(events: Trace, spent: nat, budget: nat): (Outcome, nat) {
    if events == [] then (Exhausted, spent)
    else match events[0]
      case Yield(c) => (Found(c), spent)
      case Tick =>
        if spent + 1 > budget then (Limited, spent + 1) else Consume(events[1..], spent + 1, budget)
  }

  lemma {:induction false} ConsumeAppend(a: Trace, b: Trace, spent: nat, budget: nat)
    ensures Consume(a + b, spent, budget)
            == var first := Consume(a, spent, budget);
               if first.0.Exhausted? then Consume(b, first.1, budget) else first
  {
    if a == [] {
      assert a + b == b;
    } else {
      assert (a + b)[1..] == a[1..] + b;
      if a[0].Tick? && spent + 1 <= budget { ConsumeAppend(a[1..], b, spent + 1, budget); }
    }
  }

  lemma {:induction false} ConsumeMeaning(events: Trace, spent: nat, budget: nat)
    ensures var r := Consume(events, spent, budget);
            && (r.0.Found? ==> Yield(r.0.candidate) in events)
            && (r.0.Exhausted? ==> forall e <- events :: e.Tick?)
            && (r.0.Limited? && spent <= budget ==> r.1 == budget + 1)
            && r.1 >= spent && (spent <= budget && !r.0.Limited? ==> r.1 <= budget)
  {
    if events != [] && events[0].Tick? && spent + 1 <= budget {
      ConsumeMeaning(events[1..], spent + 1, budget);
      HeadAndTail(events);
    }
  }

  /** A search that ends within its budget does not depend on the budget. */
  lemma {:induction false} ConsumeIgnoresBudget(events: Trace, spent: nat, budget: nat, more: nat)
    requires budget <= more && !Consume(events, spent, budget).0.Limited?
    ensures Consume(events, spent, more) == Consume(events, spent, budget)
  {
    if events != [] && events[0].Tick? { ConsumeIgnoresBudget(events[1..], spent + 1, budget, more); }
  }

  // ---------------------------------------------------------------- the run

  /** The witness generators of the run, for the ranks 5, 4, 3 and 2 in this order. */
  ghost function RankTraces(root: Rule, record: seq<Attempt>): seq<Trace> {
    seq(4, i requires 0 <= i < 4 => Witnesses(root, {}, 5 - i, "", record))
  }

  /** The first candidate of the first generator that has one. */
  function SearchTraces(traces: seq<Trace>, spent: nat, budget: nat): (Outcome, nat) {
    if traces == [] then (Exhausted, spent)
    else
      var first := Consume(traces[0], spent, budget);
      if first.0.Exhausted? then SearchTraces(traces[1..], first.1, budget) else first
  }

  /** The first of the candidates no other beats. */
  function Best(candidates: seq<Candidate>): Candidate
    requires candidates != []
  {
    if |candidates| == 1 then candidates[0]
    else
      var front := Best(candidates[..|candidates| - 1]);
      var last := candidates[|candidates| - 1];
      if ScoreLess(ScoreOf(front), ScoreOf(last)) then last else front
  }

  lemma {:induction false} BestIsMaximal(candidates: seq<Candidate>)
    requires candidates != []
    ensures Best(candidates) in candidates
    ensures forall c <- candidates :: !ScoreLess(ScoreOf(Best(candidates)), ScoreOf(c))
  {
    if |candidates| > 1 {
      var front, last := candidates[..|candidates| - 1], candidates[|candidates| - 1];
      assert candidates == front + [last];
      BestIsMaximal(front);
    }
  }

  /** Witnesses first, the exhaustive fallback when no rank has one. */
  ghost function Choose(root: Rule, record: seq<Attempt>, budget: nat): (Outcome, nat) {
    var searched := SearchTraces(RankTraces(root, record), 0, budget);
    if !searched.0.Exhausted? then searched
    else
      OptionsNotEmpty(root, "", record, true);
      var spent := searched.1 + OptionCost(root, "", record);
      if spent > budget then (Limited, budget + 1)
      else (Found(Best(Options(root, "", record, true))), spent)
  }

  lemma OptionsNotEmpty(rule: Rule, inherited: string, record: seq<Attempt>, merge: bool)
    ensures Options(rule, inherited, record, merge) != []
  {
    var c := ZeroOption(rule, inherited, record, merge);
  }

  datatype AuditResult = AuditResult(status: Status, attempts: seq<Attempt>, credits: real, completed: real,
                                     inProgress: real, unverified: real, rows: seq<Row>, limited: bool,
                                     states: nat)

  /** The attempts of the record that the chosen allocation uses, in record order. */
  function Allocated(record: seq<Attempt>, row: Row): seq<Attempt> {
    Restrict(record, Elements(row.attempts))
  }

  function EarnedCompleted(attempts: seq<Attempt>): real {
    if attempts == [] then 0.0
    else (if attempts[0].IsCompleted() then attempts[0].earned else 0.0) + EarnedCompleted(attempts[1..])
  }

  function AttemptedInProgress(attempts: seq<Attempt>): real {
    if attempts == [] then 0.0
    else
      AttemptedInProgress(attempts[1..])
      + if attempts[0].IsInProgressOrPlanned() then attempts[0].attempted else 0.0
  }

  function EarnedUnverified(attempts: seq<Attempt>): real {
    if attempts == [] then 0.0
    else
      var own := if attempts[0].IsCompleted() && !attempts[0].verified then attempts[0].earned else 0.0;
      own + EarnedUnverified(attempts[1..])
  }

  /** The reported result for a chosen row; a result with nothing selected becomes unresolved. */
  function Report(root: Rule, record: seq<Attempt>, chosen: Row, limited: bool, states: nat): AuditResult {
    var row := if chosen.status == NotSelected then BareRow(root, Unresolved) else chosen;
    var used := Allocated(record, row);
    AuditResult(row.status, row.attempts, row.credits, EarnedCompleted(used), AttemptedInProgress(used),
                EarnedUnverified(used), Flatten(row), limited, states)
  }

  ghost function Run(root: Rule, record: seq<Attempt>, budget: nat): AuditResult {
    var chosen := Choose(root, record, budget);
    match chosen.0
    case Found(c) => Report(root, record, c.row, false, chosen.1)
    case _ => Report(root, record, BareRow(root, Unresolved), true, chosen.1)
  }

  // ---------------------------------------------------------------- the verdict, without any search

  /** What the audit should report, said only in terms of assignments. */
  ghost function Verdict(root: Rule, record: seq<Attempt>): Status {
    if Attainable(root, "", record, 5) then Satisfied
    else if Attainable(root, "", record, 4) then InProgressSatisfied
    else if Attainable(root, "", record, 3) then Conditional
    else if root.IsInformational() || Attainable(root, "", record, 2) || CanBeUnresolved(root, "", record)
        then Unresolved
    else Outstanding
  }

  /** A rank of witnesses is empty exactly when no assignment reaches the rank. */
  lemma WitnessesDecideRank(rule: Rule, inherited: string, record: seq<Attempt>, rank: nat)
    requires WellFormed(rule) && !rule.IsInformational() && ValidRecord(record) && 2 <= rank <= 5
    ensures (exists c :: Yield(c) in Witnesses(rule, {}, rank, inherited, record))
            <==> Attainable(rule, inherited, record, rank)
  {
    if c :| Yield(c) in Witnesses(rule, {}, rank, inherited, record) {
      var plan := WitnessSound(rule, {}, rank, inherited, record, c);
      SecuresAntitone(rule, inherited, record, plan, Rank(c.row.status), rank);
    }
    if plan :| Secures(rule, inherited, record, plan, rank) {
      var c := WitnessComplete(rule, {}, rank, inherited, record, plan);
    }
  }

  /** The two searches agree on every completion rank. */
  lemma SearchesAgree(rule: Rule, inherited: string, record: seq<Attempt>, rank: nat)
    requires WellFormed(rule) && !rule.IsInformational() && ValidRecord(record) && 3 <= rank <= 5
    ensures (exists c :: c in Options(rule, inherited, record, true) && Rank(c.row.status) >= rank)
            <==> (exists c :: Yield(c) in Witnesses(rule, {}, rank, inherited, record))
  {
    WitnessesDecideRank(rule, inherited, record, rank);
    if c :| c in Options(rule, inherited, record, true) && Rank(c.row.status) >= rank {
      var plan := OptionSound(rule, inherited, record, true, c, rank);
    }
    if plan :| Secures(rule, inherited, record, plan, rank) {
      var c := OptionComplete(rule, inherited, record, true, plan, rank);
    }
  }

  /** When the witnesses are exhausted the fallback never reports a completion, and it reports
      unresolved exactly when something unresolved is within reach. */
  lemma FallbackVerdict(root: Rule, record: seq<Attempt>)
    requires WellFormed(root) && !root.IsInformational() && ValidRecord(record)
    requires !Attainable(root, "", record, 3)
    requires Options(root, "", record, true) != []
    ensures Best(Options(root, "", record, true)).row.status
            == if CanBeUnresolved(root, "", record) then Unresolved else Outstanding
  {
    var options := Options(root, "", record, true);
    var best := Best(options);
    BestIsMaximal(options);
    OptionStatus(root, "", record, true, best);
    if Rank(best.row.status) >= 3 {
      var plan := OptionSound(root, "", record, true, best, 3);
    }
    if CanBeUnresolved(root, "", record) {
      var c := UnresolvedComplete(root, "", record, true);
    } else if best.row.status == Unresolved {
      UnresolvedSound(root, "", record, true, best);
    }
  }

  // ---------------------------------------------------------------- exact optimality

  lemma AttainableDown(rule: Rule, inherited: string, record: seq<Attempt>, rank: nat, lower: nat)
    requires lower <= rank && Attainable(rule, inherited, record, rank)
    ensures Attainable(rule, inherited, record, lower)
  {
    var plan :| Secures(rule, inherited, record, plan, rank);
    SecuresAntitone(rule, inherited, record, plan, rank, lower);
  }

  ghost predicate NoneAbove(root: Rule, record: seq<Attempt>, rank: nat) {
    rank < 5 ==> !Attainable(root, "", record, rank + 1)
  }

  /** A generator whose candidates have attainable ranks from `rank` up, and that has a candidate
      exactly when `rank` is attainable. */
  ghost predicate Decides(events: Trace, root: Rule, record: seq<Attempt>, rank: nat) {
    && (forall e <- events | e.Yield? ::
          Rank(e.candidate.row.status) >= rank && Attainable(root, "", record, Rank(e.candidate.row.status)))
    && (Attainable(root, "", record, rank) ==> exists e :: e in events && e.Yield?)
  }

  lemma WitnessesDecide(root: Rule, record: seq<Attempt>, rank: nat, events: Trace)
    requires WellFormed(root) && !root.IsInformational() && ValidRecord(record) && 2 <= rank <= 5
    requires events == Witnesses(root, {}, rank, "", record)
    ensures Decides(events, root, record, rank)
  {
    forall e | e in events && e.Yield?
      ensures Rank(e.candidate.row.status) >= rank && Attainable(root, "", record, Rank(e.candidate.row.status))
    {
      var plan := WitnessSound(root, {}, rank, "", record, e.candidate);
    }
    if plan :| Secures(root, "", record, plan, rank) {
      var c := WitnessComplete(root, {}, rank, "", record, plan);
    }
  }

  /** The ranks are tried from the top, so the first witness found is a best one. */
  lemma {:induction false} SearchIsExact(root: Rule, record: seq<Attempt>, top: nat, traces: seq<Trace>, spent: nat,
                                         budget: nat)
    requires 1 <= top <= 5 && |traces| == top - 1 && NoneAbove(root, record, top)
    requires forall i :: 0 <= i < |traces| ==> Decides(traces[i], root, record, top - i)
    ensures var r := SearchTraces(traces, spent, budget).0;
            && (r.Found? ==> 2 <= Rank(r.candidate.row.status) <= top
                             && Attainable(root, "", record, Rank(r.candidate.row.status))
                             && NoneAbove(root, record, Rank(r.candidate.row.status)))
            && (r.Exhausted? ==> NoneAbove(root, record, 1))
  {
    if traces != [] {
      var first := Consume(traces[0], spent, budget);
      ConsumeMeaning(traces[0], spent, budget);
      assert Decides(traces[0], root, record, top);
      if first.0.Exhausted? {
        forall i | 0 <= i < |traces[1..]| ensures Decides(traces[1..][i], root, record, top - 1 - i) {
          assert traces[1..][i] == traces[i + 1];
        }
        SearchIsExact(root, record, top - 1, traces[1..], first.1, budget);
      } else if first.0.Found? {
        RankIsTop(root, record, top, Rank(first.0.candidate.row.status));
      }
    }
  }

  lemma RankIsTop(root: Rule, record: seq<Attempt>, top: nat, rank: nat)
    requires top <= rank <= 5 && Attainable(root, "", record, rank) && NoneAbove(root, record, top)
    ensures rank == top
  {
    if rank > top { AttainableDown(root, "", record, rank, top + 1); }
  }

  lemma InformationalChoice(root: Rule, record: seq<Attempt>, budget: nat)
    requires root.IsInformational() && budget >= 1
    ensures Choose(root, record, budget).0 == Found(Candidate(NotSelectedRow(root), {}))
  {
    var events := Witnesses(root, {}, 5, "", record);
    var c := Candidate(NotSelectedRow(root), {});
    assert events == [Tick] + [Yield(c)];
    assert events[1..] == [Yield(c)];
    assert Consume(events[1..], 1, budget) == (Found(c), 1);
  }

  lemma SearchDecides(root: Rule, record: seq<Attempt>, traces: seq<Trace>, budget: nat)
    requires |traces| == 4 && forall i :: 0 <= i < |traces| ==> Decides(traces[i], root, record, 5 - i)
    ensures var r := SearchTraces(traces, 0, budget).0;
            && (r.Found? ==> r.candidate.row.status == Verdict(root, record))
            && (r.Exhausted? ==> !Attainable(root, "", record, 2))
  {
    SearchIsExact(root, record, 5, traces, 0, budget);
    var r := SearchTraces(traces, 0, budget).0;
    if r.Found? {
      ExactVerdict(root, record, r.candidate.row.status);
    }
  }

  lemma ChoiceIsExact(root: Rule, record: seq<Attempt>, budget: nat)
    requires WellFormed(root) && !root.IsInformational() && ValidRecord(record)
    ensures var r := Choose(root, record, budget).0;
            !r.Exhausted? && (r.Found? ==> r.candidate.row.status == Verdict(root, record))
  {
    hide Options, Witnesses, Attainable, WellFormed, ValidRecord, Best, SearchTraces;
    forall i: nat | i < 4 ensures Decides(RankTraces(root, record)[i], root, record, 5 - i) {
      WitnessesDecide(root, record, 5 - i, RankTraces(root, record)[i]);
    }
    SearchDecides(root, record, RankTraces(root, record), budget);
    if SearchTraces(RankTraces(root, record), 0, budget).0.Exhausted? {
      FallbackIsExact(root, record);
    }
  }

  lemma FallbackIsExact(root: Rule, record: seq<Attempt>)
    requires WellFormed(root) && !root.IsInformational() && ValidRecord(record)
    requires !Attainable(root, "", record, 2)
    ensures Options(root, "", record, true) != []
    ensures Best(Options(root, "", record, true)).row.status == Verdict(root, record)
  {
    OptionsNotEmpty(root, "", record, true);
    NothingAbove(root, record);
    FallbackVerdict(root, record);
  }

  lemma NothingAbove(root: Rule, record: seq<Attempt>)
    requires !Attainable(root, "", record, 2)
    ensures forall rank :: 2 <= rank ==> !Attainable(root, "", record, rank)
  {
    forall rank | 2 <= rank ensures !Attainable(root, "", record, rank) {
      if Attainable(root, "", record, rank) { AttainableDown(root, "", record, rank, 2); }
    }
  }

  /** Exact optimality. Unless the search budget runs out, the status reported is the best that
      any course-disjoint assignment attains; when it does run out, nothing is concluded. */
  lemma RunIsExact(root: Rule, record: seq<Attempt>, budget: nat)
    requires WellFormed(root) && ValidRecord(record) && budget >= 1
    ensures !Run(root, record, budget).limited ==> Run(root, record, budget).status == Verdict(root, record)
    ensures Run(root, record, budget).limited ==>
              && Run(root, record, budget).status == Unresolved
              && Run(root, record, budget).attempts == [] && Run(root, record, budget).credits == 0.0
  {
    if root.IsInformational() {
      InformationalChoice(root, record, budget);
      if plan, rank :| Secures(root, "", record, plan, rank) { assert false; }
    } else {
      ChoiceIsExact(root, record, budget);
    }
  }

  lemma ExactVerdict(root: Rule, record: seq<Attempt>, status: Status)
    requires Rank(status) >= 2 && Attainable(root, "", record, Rank(status))
    requires NoneAbove(root, record, Rank(status))
    ensures Verdict(root, record) == status
  {
    forall rank | Rank(status) < rank <= 5 ensures !Attainable(root, "", record, rank) {
      if Attainable(root, "", record, rank) { AttainableDown(root, "", record, rank, Rank(status) + 1); }
    }
  }

  // ---------------------------------------------------------------- the budget only cuts off

  lemma {:induction false} SearchIgnoresBudget(traces: seq<Trace>, spent: nat, budget: nat, more: nat)
    requires budget <= more && !SearchTraces(traces, spent, budget).0.Limited?
    ensures SearchTraces(traces, spent, more) == SearchTraces(traces, spent, budget)
  {
    if traces != [] {
      var first := Consume(traces[0], spent, budget);
      ConsumeIgnoresBudget(traces[0], spent, budget, more);
      if first.0.Exhausted? { SearchIgnoresBudget(traces[1..], first.1, budget, more); }
    }
  }

  /** A run that ends within its budget is the run under every larger budget, cost included. */
  lemma BudgetIrrelevant(root: Rule, record: seq<Attempt>, budget: nat, more: nat)
    requires budget <= more && !Run(root, record, budget).limited
    ensures Run(root, record, more) == Run(root, record, budget)
  {
    SearchIgnoresBudget(RankTraces(root, record), 0, budget, more);
  }

  // ---------------------------------------------------------------- more attempts never hurt

  lemma AttainableMonotone(rule: Rule, inherited: string, record: seq<Attempt>, more: seq<Attempt>, rank: nat)
    requires IsSelection(record, more) && NoDuplicates(more) && Attainable(rule, inherited, record, rank)
    ensures Attainable(rule, inherited, more, rank)
  {
    var plan :| Secures(rule, inherited, record, plan, rank);
    SecuresMonotone(rule, inherited, record, more, plan, rank);
  }

  lemma VerdictMonotone(root: Rule, record: seq<Attempt>, more: seq<Attempt>)
    requires IsSelection(record, more) && NoDuplicates(more)
    ensures Rank(Verdict(root, record)) <= Rank(Verdict(root, more))
  {
    SelectionMembers(record, more);
    forall rank | 2 <= rank <= 5 && Attainable(root, "", record, rank) ensures Attainable(root, "", more, rank) {
      AttainableMonotone(root, "", record, more, rank);
    }
    if CanBeUnresolved(root, "", record) { UnresolvedMonotone(root, "", record, more); }
  }

  /** Adding valid attempts to the record never lowers the reported status. */
  lemma RunIsMonotone(root: Rule, record: seq<Attempt>, more: seq<Attempt>, budget: nat, moreBudget: nat)
    requires WellFormed(root) && ValidRecord(more) && IsSelection(record, more)
    requires budget >= 1 && moreBudget >= 1
    requires !Run(root, record, budget).limited && !Run(root, more, moreBudget).limited
    ensures Rank(Run(root, record, budget).status) <= Rank(Run(root, more, moreBudget).status)
  {
    SelectionIds(record, more);
    RunIsExact(root, record, budget);
    RunIsExact(root, more, moreBudget);
    RecordHasNoDuplicates(more);
    VerdictMonotone(root, record, more);
  }

  lemma {:induction false} SelectionIds(record: seq<Attempt>, more: seq<Attempt>)
    requires IsSelection(record, more) && ValidRecord(more)
    ensures ValidRecord(record)
  {
    SelectionMembers(record, more);
    RecordHasNoDuplicates(more);
    SelectionNoDuplicates(record, more);
    forall i, j | 0 <= i < j < |record| ensures record[i].id != record[j].id {
      assert record[i] in more && record[j] in more;
    }
  }

  // ---------------------------------------------------------------- conservation

  function Sum(attempts: seq<Attempt>, value: Attempt -> real): real {
    if attempts == [] then 0.0 else value(attempts[0]) + Sum(attempts[1..], value)
  }

  lemma {:induction false} TotalIsSum(attempts: seq<Attempt>)
    ensures TotalCredits(attempts) == Sum(attempts, (a: Attempt) => a.Credits())
  {
    if attempts != [] { TotalIsSum(attempts[1..]); }
  }

  lemma SumCons(x: Attempt, rest: seq<Attempt>, value: Attempt -> real)
    ensures Sum([x] + rest, value) == value(x) + Sum(rest, value)
  {
    assert ([x] + rest)[1..] == rest;
  }

  lemma SumKept(record: seq<Attempt>, keep: set<Attempt>, value: Attempt -> real)
    requires record != []
    ensures Sum(Restrict(record, keep), value)
            == (if record[0] in keep then value(record[0]) else 0.0) + Sum(Restrict(record[1..], keep), value)
  {
    var rest := Restrict(record[1..], keep);
    if record[0] in keep {
      assert Restrict(record, keep) == [record[0]] + rest;
      SumCons(record[0], rest, value);
    } else {
      assert Restrict(record, keep) == rest;
    }
  }

  lemma {:induction false} KeepOneMore(record: seq<Attempt>, keep: set<Attempt>, x: Attempt, value: Attempt -> real)
    requires NoDuplicates(record) && x in record && x !in keep
    ensures Sum(Restrict(record, keep + {x}), value) == Sum(Restrict(record, keep), value) + value(x)
  {
    NoDuplicatesTail(record);
    HeadAndTail(record);
    hide Sum, Restrict, NoDuplicates;
    var rest := record[1..];
    SumKept(record, keep, value);
    SumKept(record, keep + {x}, value);
    if record[0] == x {
      RestrictCongruence(rest, keep + {x}, keep);
    } else {
      KeepOneMore(rest, keep, x, value);
    }
  }

  /** Sums do not depend on the order in which the allocation lists its attempts. */
  lemma {:induction false} RecordOrderSums(record: seq<Attempt>, t: seq<Attempt>, value: Attempt -> real)
    requires NoDuplicates(record) && NoDuplicates(t) && forall a <- t :: a in record
    ensures Sum(Restrict(record, Elements(t)), value) == Sum(t, value)
  {
    if t == [] {
      assert Elements(t) == {};
      NothingKept(record);
    } else {
      NoDuplicatesTail(t);
      HeadAndTail(t);
      RecordOrderSums(record, t[1..], value);
      KeepOneMore(record, Elements(t[1..]), t[0], value);
      assert Elements(t) == Elements(t[1..]) + {t[0]};
    }
  }

  lemma {:induction false} NothingKept(record: seq<Attempt>)
    ensures Restrict(record, {}) == []
  {
    if record != [] { NothingKept(record[1..]); }
  }

  lemma {:induction false} CreditsSplit(attempts: seq<Attempt>)
    ensures TotalCredits(attempts) == EarnedCompleted(attempts) + AttemptedInProgress(attempts)
  {
    if attempts != [] { CreditsSplit(attempts[1..]); }
  }

  lemma {:induction false} FlattenBalanced(row: Row)
    requires Balanced(row)
    ensures forall r <- Flatten(row) :: Balanced(r)
    decreases row
  {
    FlattenAllBalanced(row.children);
  }

  lemma {:induction false} FlattenAllBalanced(rows: seq<Row>)
    requires forall row <- rows :: Balanced(row)
    ensures forall r <- FlattenAll(rows) :: Balanced(r)
    decreases rows
  {
    if rows != [] {
      FlattenBalanced(rows[0]);
      FlattenAllBalanced(rows[1..]);
    }
  }

  /** What one reported row conserves. */
  lemma ReportConserves(root: Rule, record: seq<Attempt>, chosen: Candidate, limited: bool, states: nat)
    requires ValidRecord(record) && Accounted(chosen, record)
    ensures var r := Report(root, record, chosen.row, limited, states);
            && DistinctCourses(r.attempts) && (forall a <- r.attempts :: a in record)
            && r.credits == r.completed + r.inProgress
            && forall row <- r.rows :: Balanced(row)
  {
    var row := if chosen.row.status == NotSelected then BareRow(root, Unresolved) else chosen.row;
    assert Balanced(row);
    RecordHasNoDuplicates(record);
    RecordOrderSums(record, row.attempts, (a: Attempt) => a.Credits());
    TotalIsSum(row.attempts);
    TotalIsSum(Allocated(record, row));
    CreditsSplit(Allocated(record, row));
    FlattenBalanced(row);
  }

  lemma {:induction false} SearchFinds(traces: seq<Trace>, spent: nat, budget: nat) returns (i: nat)
    requires SearchTraces(traces, spent, budget).0.Found?
    ensures i < |traces| && Yield(SearchTraces(traces, spent, budget).0.candidate) in traces[i]
  {
    var first := Consume(traces[0], spent, budget);
    ConsumeMeaning(traces[0], spent, budget);
    if first.0.Exhausted? {
      var k := SearchFinds(traces[1..], first.1, budget);
      i := k + 1;
    } else {
      i := 0;
    }
  }

  lemma WitnessAccounted(root: Rule, record: seq<Attempt>, rank: nat, c: Candidate)
    requires WellFormed(root) && ValidRecord(record) && 2 <= rank <= 5
    requires Yield(c) in Witnesses(root, {}, rank, "", record)
    ensures Accounted(c, record)
  {
    if root.IsInformational() {
      NotSelectedBalanced(root);
    } else {
      var plan := WitnessSound(root, {}, rank, "", record, c);
    }
  }

  /** Conservation. In every reported result no course is consumed twice, every row adds up to
      its children, and the root's credits are the completed plus the in-progress credits. */
  lemma RunConserves(root: Rule, record: seq<Attempt>, budget: nat)
    requires WellFormed(root) && ValidRecord(record)
    ensures var r := Run(root, record, budget);
            && DistinctCourses(r.attempts) && (forall a <- r.attempts :: a in record)
            && r.credits == r.completed + r.inProgress
            && forall row <- r.rows :: Balanced(row)
  {
    var chosen := Choose(root, record, budget);
    if chosen.0.Found? {
      ChoiceAccounted(root, record, budget);
      ReportConserves(root, record, chosen.0.candidate, false, chosen.1);
    } else {
      var bare := Candidate(BareRow(root, Unresolved), {});
      assert Accounted(bare, record);
      ReportConserves(root, record, bare, true, chosen.1);
    }
  }

  lemma ChoiceAccounted(root: Rule, record: seq<Attempt>, budget: nat)
    requires WellFormed(root) && ValidRecord(record) && Choose(root, record, budget).0.Found?
    ensures Accounted(Choose(root, record, budget).0.candidate, record)
  {
    hide Accounted, Options, Witnesses, ValidRecord, WellFormed, Best, SearchTraces;
    var traces := RankTraces(root, record);
    if SearchTraces(traces, 0, budget).0.Found? {
      var i := SearchFinds(traces, 0, budget);
      WitnessAccounted(root, record, 5 - i, SearchTraces(traces, 0, budget).0.candidate);
    } else {
      OptionsNotEmpty(root, "", record, true);
      BestIsMaximal(Options(root, "", record, true));
      OptionAccounted(root, "", record, true, Best(Options(root, "", record, true)));
    }
  }
}
