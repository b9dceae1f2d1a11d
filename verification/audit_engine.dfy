/** The engine as it works: a counter of search states, a lazy backtracking search for the
    first witness, the exhaustive fallback, and the run that tries them in order. */
module AuditEngine {
  import opened AuditRules
  import opened Selections
  import opened AuditPlans
  import opened WitnessTraces
  import opened WitnessProofs
  import opened OptionSearch
  import opened AuditRun

  // ---------------------------------------------------------------- suspended containers

  /** What is waiting for a witness: nothing, or a container that goes on with its next child. */
  datatype Kont = Done | Resume(s: Search, position: nat, rows: map<nat, Row>, consumed: set<Code>, next: Kont)
  {
    ghost predicate Valid() {
      Resume? ==> s.Valid() && position < |s.indices| && next.Valid()
    }
  }

  /** The events that follow when the waiting containers receive a candidate. */
  ghost function Continue(k: Kont, c: Candidate, record: seq<Attempt>): Trace
    requires k.Valid()
    decreases k, 0, 0
  {
    match k
    case Done => [Yield(c)]
    case Resume(s, position, rows, consumed, next) =>
      Through(Combine(s, record, position + 1, rows[s.indices[position] := c.row], consumed + c.used), next, record)
  }

  /** A child's events seen through the containers that wait for it. */
  ghost function Through(events: Trace, k: Kont, record: seq<Attempt>): Trace
    requires k.Valid()
    decreases k, 1, |events|
  {
    if events == [] then []
    else (match events[0] case Tick => [Tick] case Yield(c) => Continue(k, c, record)) + Through(events[1..], k, record)
  }

  lemma {:induction false} ThroughAppend(a: Trace, b: Trace, k: Kont, record: seq<Attempt>)
    requires k.Valid()
    ensures Through(a + b, k, record) == Through(a, k, record) + Through(b, k, record)
  {
    if a == [] {
      assert a + b == b;
    } else {
      assert (a + b)[1..] == a[1..] + b;
      ThroughAppend(a[1..], b, k, record);
    }
  }

  lemma ThroughTick(rest: Trace, k: Kont, record: seq<Attempt>)
    requires k.Valid()
    ensures Through([Tick] + rest, k, record) == [Tick] + Through(rest, k, record)
  {
    assert ([Tick] + rest)[1..] == rest;
  }

  lemma ThroughYield(c: Candidate, k: Kont, record: seq<Attempt>)
    requires k.Valid()
    ensures Through([Yield(c)], k, record) == Continue(k, c, record)
  {
    assert [Yield(c)][1..] == [];
    assert Continue(k, c, record) + [] == Continue(k, c, record);
  }

  /** Running a container over a child's events is waiting for the child. */
  lemma {:induction false} ThroughForEach(s: Search, record: seq<Attempt>, position: nat, rows: map<nat, Row>,
                                          consumed: set<Code>, events: Trace, k: Kont)
    requires k.Valid() && s.Valid() && position < |s.indices|
    ensures Through(ForEach(s, record, position, rows, consumed, events), k, record)
            == Through(events, Resume(s, position, rows, consumed, k), record)
  {
    if events != [] {
      var rest := ForEach(s, record, position, rows, consumed, events[1..]);
      ThroughForEach(s, record, position, rows, consumed, events[1..], k);
      match events[0]
      case Tick =>
        ThroughTick(rest, k, record);
      case Yield(c) =>
        ThroughAppend(Combine(s, record, position + 1, rows[s.indices[position] := c.row], consumed + c.used),
                      rest, k, record);
    }
  }

  // ---------------------------------------------------------------- why the search ends

  ghost function Size(rule: Rule): nat
    decreases rule
  {
    2 + SizeAll(rule.children)
  }

  ghost function SizeAll(rules: seq<Rule>): nat
    decreases rules
  {
    if rules == [] then 0 else Size(rules[0]) + SizeAll(rules[1..])
  }

  ghost function SizeAt(rule: Rule, indices: seq<nat>): nat
    decreases |indices|
  {
    if indices == [] then 0
    else (if indices[0] < |rule.children| then Size(rule.children[indices[0]]) else 0) + SizeAt(rule, indices[1..])
  }

  lemma {:induction false} SelectionSize(rule: Rule, t: seq<nat>, s: seq<nat>)
    requires IsSelection(t, s)
    ensures SizeAt(rule, t) <= SizeAt(rule, s)
  {
    if t != [] {
      if t[0] == s[0] && IsSelection(t[1..], s[1..]) {
        SelectionSize(rule, t[1..], s[1..]);
      } else {
        SelectionSize(rule, t, s[1..]);
      }
    }
  }

  lemma {:induction false} ActiveSize(rule: Rule, from: nat)
    requires from <= |rule.children|
    ensures SizeAt(rule, ActiveIndices(rule, from)) <= SizeAll(rule.children[from..])
    decreases |rule.children| - from
  {
    if from < |rule.children| {
      ActiveSize(rule, from + 1);
      assert rule.children[from..][1..] == rule.children[from + 1..];
      if !rule.children[from].IsInformational() {
        assert ActiveIndices(rule, from)[1..] == ActiveIndices(rule, from + 1);
      }
    }
  }

  ghost function Remaining(s: Search, position: nat): nat
    requires s.Valid() && position <= |s.indices|
    decreases |s.indices| - position
  {
    if position == |s.indices| then 0 else Size(s.Child(position)) + Remaining(s, position + 1)
  }

  lemma {:induction false} RemainingIsSize(s: Search, position: nat)
    requires s.Valid() && position <= |s.indices|
    ensures Remaining(s, position) == SizeAt(s.rule, s.indices[position..])
    decreases |s.indices| - position
  {
    if position < |s.indices| {
      RemainingIsSize(s, position + 1);
      assert s.indices[position..][1..] == s.indices[position + 1..];
    }
  }

  lemma ChoiceSize(s: Search)
    requires s.Valid() && IsSelection(s.indices, ActiveIndices(s.rule, 0))
    ensures Remaining(s, 0) + 2 <= Size(s.rule)
  {
    RemainingIsSize(s, 0);
    assert s.indices[0..] == s.indices;
    SelectionSize(s.rule, s.indices, ActiveIndices(s.rule, 0));
    ActiveSize(s.rule, 0);
    assert s.rule.children[0..] == s.rule.children;
  }

  ghost function Weight(k: Kont): nat
    requires k.Valid()
  {
    match k
    case Done => 0
    case Resume(s, position, _, _, next) => 1 + Remaining(s, position + 1) + Weight(next)
  }

  // ---------------------------------------------------------------- the engine

  class Engine {
    const root: Rule
    const record: seq<Attempt>
    const budget: nat
    var states: nat

    constructor (root: Rule, record: seq<Attempt>, budget: nat)
      requires budget >= 1
      ensures this.root == root && this.record == record && this.budget == budget
    {
      this.root, this.record, this.budget := root, record, budget;
      states := 0;
    }

    /** Spend one search state; false when that was one too many. */
    method Spend() returns (ok: bool)
      modifies this`states
      ensures states == old(states) + 1 && (ok <==> states <= budget)
    {
      states := states + 1;
      ok := states <= budget;
    }

    /** The first completion that a rule's witnesses lead to, looked for lazily: nothing of the
        generator beyond it is run, and exactly its search states are spent. */
    method Solve(rule: Rule, used: set<Code>, rank: nat, inherited: string, k: Kont) returns (o: Outcome)
      requires k.Valid()
      modifies this`states
      ensures (o, states) == Consume(Through(Witnesses(rule, used, rank, inherited, record), k, record), old(states),
                                     budget)
      decreases Size(rule) + Weight(k), 0
    {
      var grade := EffectiveGrade(rule, inherited);
      var active := ActiveIndices(rule, 0);
      ghost var rest := Witnesses(rule, used, rank, inherited, record)[1..];
      ThroughTick(rest, k, record);
      assert Witnesses(rule, used, rank, inherited, record) == [Tick] + rest;
      var ok := Spend();
      if !ok { return Limited; }
      ghost var start := states;
      if rule.IsInformational() {
        ThroughYield(Candidate(NotSelectedRow(rule), {}), k, record);
        o := Deliver(k, Candidate(NotSelectedRow(rule), {}));
      } else if IsOpaque(rule, grade) || (rule.children != [] && active == []) {
        if rank <= Rank(Unresolved) {
          ThroughYield(Candidate(BareRow(rule, Unresolved), {}), k, record);
          o := Deliver(k, Candidate(BareRow(rule, Unresolved), {}));
        } else {
          o := Exhausted;
        }
      } else if rule.children != [] {
        CombinationsAreChoices(rule);
        o := SolveContainer(rule, used, rank, grade, k);
      } else {
        o := SolveLeaf(rule, used, rank, grade, k);
      }
    }

    /** Try each choice of children in turn. */
    method SolveContainer(rule: Rule, used: set<Code>, rank: nat, grade: string, k: Kont) returns (o: Outcome)
      requires k.Valid()
      requires ChoicesOf(rule, Combinations(ActiveIndices(rule, 0), ContainerNeed(rule)))
      modifies this`states
      ensures (o, states)
              == Consume(Through(EachChoice(rule, used, rank, grade, record,
                                            Combinations(ActiveIndices(rule, 0), ContainerNeed(rule))), k, record),
                         old(states), budget)
      decreases Size(rule) - 1 + Weight(k), 3
    {
      var choices := Combinations(ActiveIndices(rule, 0), ContainerNeed(rule));
      hide EachChoice, Combine, Through, Consume, Combinations, ChoicesOf, ActiveIndices, ContainerNeed;
      hide Size, Remaining, Weight;
      ghost var whole := Consume(Through(EachChoice(rule, used, rank, grade, record, choices), k, record), states,
                                 budget);
      assert choices[0..] == choices;
      var i := 0;
      while i < |choices|
        invariant i <= |choices|
        invariant ChoicesOf(rule, choices[i..])
        invariant whole == Consume(Through(EachChoice(rule, used, rank, grade, record, choices[i..]), k, record),
                                   states,
                                   budget)
      {
        LaterChoices(rule, choices, i);
        o := TryChoice(rule, used, rank, grade, choices, i, k);
        if !o.Exhausted? { return; }
        i := i + 1;
      }
      NoChoiceLeft(rule, used, rank, grade, choices[i..], k, states);
      o := Exhausted;
    }

    /** Try one choice; go on with the later ones only when it leads to nothing. */
    method TryChoice(rule: Rule, used: set<Code>, rank: nat, grade: string, choices: seq<seq<nat>>, i: nat, k: Kont)
        returns (o: Outcome)
      requires k.Valid() && i < |choices| && ChoicesOf(rule, choices[i..]) && ChoicesOf(rule, choices[i + 1..])
      modifies this`states
      ensures Consume(Through(EachChoice(rule, used, rank, grade, record, choices[i..]), k, record), old(states),
                      budget)
              == if o.Exhausted?
                 then Consume(Through(EachChoice(rule, used, rank, grade, record, choices[i + 1..]), k, record), states,
                              budget)
                 else (o, states)
      decreases Size(rule) - 1 + Weight(k), 2
    {
      hide EachChoice, Combine, Through, Consume, ChoicesOf;
      ChoiceFirst(rule, used, rank, grade, choices, i);
      var s := Search(rule, used, rank, grade, choices[i]);
      ghost var first := Combine(s, record, 0, map[], {});
      ghost var later := EachChoice(rule, used, rank, grade, record, choices[i + 1..]);
      NextChoice(first, later, k, states);
      var ok := Spend();
      if !ok { return Limited; }
      o := Advance(s, 0, map[], {}, k);
    }

    lemma LaterChoices(rule: Rule, choices: seq<seq<nat>>, i: nat)
      requires i < |choices| && ChoicesOf(rule, choices[i..])
      ensures ChoicesOf(rule, choices[i + 1..])
    {
      assert choices[i..][1..] == choices[i + 1..];
    }

    lemma NoChoiceLeft(rule: Rule, used: set<Code>, rank: nat, grade: string, choices: seq<seq<nat>>, k: Kont,
                       spent: nat)
      requires ChoicesOf(rule, choices) && choices == [] && k.Valid()
      ensures Consume(Through(EachChoice(rule, used, rank, grade, record, choices), k, record), spent, budget)
              == (Exhausted, spent)
    {
    }

    /** The choices from the i-th on start with the i-th. */
    lemma ChoiceFirst(rule: Rule, used: set<Code>, rank: nat, grade: string, choices: seq<seq<nat>>, i: nat)
      requires i < |choices| && ChoicesOf(rule, choices[i..])
      ensures var s := Search(rule, used, rank, grade, choices[i]);
              && s.Valid() && Remaining(s, 0) + 2 <= Size(rule) && ChoicesOf(rule, choices[i + 1..])
              && EachChoice(rule, used, rank, grade, record, choices[i..])
                 == [Tick] + Combine(s, record, 0, map[], {}) + EachChoice(rule, used, rank, grade, record,
                       choices[i + 1..])
    {
      hide Combine, Remaining, Size;
      assert choices[i..][0] == choices[i] && choices[i..][1..] == choices[i + 1..];
      ChoiceIsValid(rule, used, rank, grade, choices[i]);
      ChoiceSize(Search(rule, used, rank, grade, choices[i]));
    }

    /** One choice's share of the trace, then the rest. */
    lemma NextChoice(first: Trace, later: Trace, k: Kont, spent: nat)
      requires k.Valid()
      ensures Consume(Through([Tick] + first + later, k, record), spent, budget)
              == if spent + 1 > budget then (Limited, spent + 1)
                 else var r := Consume(Through(first, k, record), spent + 1, budget);
                      if r.0.Exhausted? then Consume(Through(later, k, record), r.1, budget) else r
    {
      assert [Tick] + first + later == [Tick] + (first + later);
      ThroughTick(first + later, k, record);
      ThroughAppend(first, later, k, record);
      ConsumeAppend(Through(first, k, record), Through(later, k, record), spent + 1, budget);
      assert ([Tick] + Through(first + later, k, record))[1..] == Through(first + later, k, record);
    }

    /** Go on with a container whose first `position` chosen children have witnesses. */
    method Advance(s: Search, position: nat, rows: map<nat, Row>, consumed: set<Code>, k: Kont) returns (o: Outcome)
      requires k.Valid() && s.Valid() && position <= |s.indices|
      modifies this`states
      ensures (o, states) == Consume(Through(Combine(s, record, position, rows, consumed), k, record), old(states),
                                     budget)
      decreases 1 + Remaining(s, position) + Weight(k), 1
    {
      AdvanceTrace(s, position, rows, consumed, k, states);
      hide Consume, Through, Combine, Witnesses, ContainerRow, Continue;
      var ok := Spend();
      if !ok { return Limited; }
      if position == |s.indices| {
        o := Deliver(k, Candidate(ContainerRow(s, rows), consumed));
      } else {
        o := Solve(s.Child(position), s.used + consumed, s.rank, s.grade, Resume(s, position, rows, consumed, k));
      }
    }

    /** What a container under way does next, as a trace. */
    lemma AdvanceTrace(s: Search, position: nat, rows: map<nat, Row>, consumed: set<Code>, k: Kont, spent: nat)
      requires k.Valid() && s.Valid() && position <= |s.indices|
      ensures Consume(Through(Combine(s, record, position, rows, consumed), k, record), spent, budget)
              == if spent + 1 > budget then (Limited, spent + 1)
                 else if position == |s.indices|
                 then Consume(Continue(k, Candidate(ContainerRow(s, rows), consumed), record), spent + 1, budget)
                 else Consume(Through(Witnesses(s.Child(position), s.used + consumed, s.rank, s.grade, record),
                                      Resume(s, position, rows, consumed, k), record), spent + 1, budget)
    {
      var rest := Combine(s, record, position, rows, consumed)[1..];
      assert Combine(s, record, position, rows, consumed) == [Tick] + rest;
      ThroughTick(rest, k, record);
      assert ([Tick] + Through(rest, k, record))[1..] == Through(rest, k, record);
      if position == |s.indices| {
        ThroughYield(Candidate(ContainerRow(s, rows), consumed), k, record);
      } else {
        ThroughForEach(s, record, position, rows, consumed,
                       Witnesses(s.Child(position), s.used + consumed, s.rank, s.grade, record), k);
      }
    }

    /** Hand a candidate to whatever waits for it. */
    method Deliver(k: Kont, c: Candidate) returns (o: Outcome)
      requires k.Valid()
      modifies this`states
      ensures (o, states) == Consume(Continue(k, c, record), old(states), budget)
      decreases Weight(k), 2
    {
      hide Combine, Witnesses, ContainerRow;
      match k
      case Done =>
        o := Found(c);
      case Resume(s, position, rows, consumed, next) =>
        o := Advance(s, position + 1, rows[s.indices[position] := c.row], consumed + c.used, next);
    }

    /** Attempts a leaf may use, collected one by one. */
    method Eligible(rule: Rule, used: set<Code>, grade: string, rank: nat) returns (eligible: seq<Attempt>)
      ensures eligible == EligibleAttempts(record, rule, used, grade, rank)
    {
      eligible := [];
      var i := 0;
      while i < |record|
        invariant i <= |record|
        invariant eligible + EligibleAttempts(record[i..], rule, used, grade, rank)
                  == EligibleAttempts(record, rule, used, grade, rank)
      {
        NextEligible(record, i, rule, used, grade, rank, eligible);
        if IsEligible(record[i], rule, used, grade, rank) {
          eligible := eligible + [record[i]];
        }
        i := i + 1;
      }
      assert eligible + [] == eligible;
    }

    /** The per-course maxima, and their sum, decide whether a leaf is worth searching. */
    method CheckHopeless(rule: Rule, eligible: seq<Attempt>) returns (hopeless: bool)
      ensures hopeless == Hopeless(rule, eligible)
    {
      if rule.kind == CreditThreshold {
        var best: map<Code, real> := map[];
        var i := 0;
        while i < |eligible|
          invariant i <= |eligible|
          invariant best == BestByCode(eligible[..i])
        {
          assert eligible[..i + 1][..i] == eligible[..i];
          var previous := if eligible[i].code in best then best[eligible[i].code] else 0.0;
          best := best[eligible[i].code := if eligible[i].Credits() > previous then eligible[i].Credits()
                       else previous];
          i := i + 1;
        }
        assert eligible[..|eligible|] == eligible;
        var total := SumValues(best);
        hopeless := total < rule.CreditFloor();
      } else {
        hopeless := |Codes(eligible)| < rule.LeafNeed();
      }
    }

    method SumValues(best: map<Code, real>) returns (total: real)
      ensures total == MapTotal(best)
    {
      total := 0.0;
      var left := best;
      while left != map[]
        invariant total + MapTotal(left) == MapTotal(best)
        decreases |left|
      {
        var code :| code in left;
        MapTotalPick(left, code);
        total := total + left[code];
        left := left - {code};
      }
    }

    /** One selection's share of the trace, then the rest. */
    lemma NextSelection(rule: Rule, grade: string, selections: seq<seq<Attempt>>, i: nat, k: Kont, spent: nat)
      requires k.Valid() && i < |selections|
      ensures Consume(Through(EachSelection(rule, grade, selections[i..]), k, record), spent, budget)
              == if spent + 1 > budget then (Limited, spent + 1)
                 else var r := if AcceptsSelection(rule, selections[i])
                               then Consume(Continue(k, LeafCandidate(rule, grade, selections[i]), record), spent + 1,
                                            budget)
                               else (Exhausted, spent + 1);
                      if !r.0.Exhausted? then r
                      else Consume(Through(EachSelection(rule, grade, selections[i + 1..]), k, record), r.1, budget)
    {
      var c := LeafCandidate(rule, grade, selections[i]);
      var yielded := if AcceptsSelection(rule, selections[i]) then [Yield(c)] else [];
      assert selections[i..][0] == selections[i] && selections[i..][1..] == selections[i + 1..];
      NextChoice(yielded, EachSelection(rule, grade, selections[i + 1..]), k, spent);
      ThroughYield(c, k, record);
    }

    method SolveLeaf(rule: Rule, used: set<Code>, rank: nat, grade: string, k: Kont) returns (o: Outcome)
      requires k.Valid()
      modifies this`states
      ensures (o, states) == Consume(Through(LeafWitnesses(rule, used, rank, grade, record), k, record), old(states),
                                     budget)
      decreases Size(rule) - 1 + Weight(k), 4
    {
      var eligible := Eligible(rule, used, grade, rank);
      var hopeless := CheckHopeless(rule, eligible);
      if hopeless { return Exhausted; }
      o := TrySelections(rule, grade, LeafSelections(rule, eligible), k);
    }

    /** Try each selection in turn. */
    method TrySelections(rule: Rule, grade: string, selections: seq<seq<Attempt>>, k: Kont) returns (o: Outcome)
      requires k.Valid()
      modifies this`states
      ensures (o, states) == Consume(Through(EachSelection(rule, grade, selections), k, record), old(states), budget)
      decreases Weight(k), 3
    {
      hide EachSelection, Through, Consume, Continue, Size, Weight;
      assert selections[0..] == selections;
      var i := 0;
      while i < |selections|
        invariant i <= |selections|
        invariant Consume(Through(EachSelection(rule, grade, selections), k, record), old(states), budget)
                  == Consume(Through(EachSelection(rule, grade, selections[i..]), k, record), states, budget)
      {
        NextSelection(rule, grade, selections, i, k, states);
        var ok := Spend();
        if !ok { return Limited; }
        if AcceptsSelection(rule, selections[i]) {
          o := Deliver(k, LeafCandidate(rule, grade, selections[i]));
          if !o.Exhausted? { return; }
        }
        i := i + 1;
      }
      NoSelectionLeft(rule, grade, selections[i..], k, states);
      o := Exhausted;
    }

    lemma NoSelectionLeft(rule: Rule, grade: string, selections: seq<seq<Attempt>>, k: Kont, spent: nat)
      requires selections == [] && k.Valid()
      ensures Consume(Through(EachSelection(rule, grade, selections), k, record), spent, budget) == (Exhausted, spent)
    {
    }

    // -------------------------------------------------------------- the exhaustive fallback

    /** Keep one best candidate per key, in the order in which the keys first appear. */
    method KeepBest(candidates: seq<Candidate>) returns (result: seq<Candidate>)
      ensures result == Deduplicate(candidates)
    {
      var best: map<Key, Candidate> := map[];
      ghost var order: seq<Key> := [];
      result := [];
      var i := 0;
      while i < |candidates|
        invariant i <= |candidates|
        invariant Tabulates(order, best)
        invariant Values(order, best) == Deduplicate(candidates[..i])
        invariant result == Values(order, best)
      {
        assert candidates[..i + 1][..i] == candidates[..i];
        var c := candidates[i];
        var key := (c.used, c.row.status);
        MergeTabulated(order, best, c);
        if key !in best {
          best := best[key := c];
          order := order + [key];
          result := result + [c];
          assert Values(order, best) == result;
        } else if ScoreLess(ScoreOf(best[key]), ScoreOf(c)) {
          best := best[key := c];
          result := Replace(result, c);
        }
        i := i + 1;
      }
      assert candidates[..|candidates|] == candidates;
    }

    /** All partial allocations of a rule, or None when the budget runs out on the way. */
    method AllOptions(rule: Rule, inherited: string) returns (r: Option<seq<Candidate>>)
      requires states <= budget
      modifies this`states
      ensures Completes(r, Options(rule, inherited, record, true), old(states), OptionCost(rule, inherited, record))
      decreases rule, 1
    {
      var grade := EffectiveGrade(rule, inherited);
      var ok := Spend();
      if !ok { return None; }
      if rule.IsInformational() {
        r := Some([Candidate(NotSelectedRow(rule), {})]);
      } else if IsOpaque(rule, grade) {
        r := Some([Candidate(BareRow(rule, Unresolved), {})]);
      } else if rule.children != [] {
        var options := OptionsOfChildren(rule, grade);
        if options.None? { return None; }
        var all := CombineAll(rule, options.value, [], {}, 0, []);
        if all.None? { return None; }
        assert [] + CombineOptions(rule, options.value, [], {}, 0) == CombineOptions(rule, options.value, [], {}, 0);
        var kept := KeepBest(all.value);
        r := Some(kept);
      } else {
        r := AllLeafOptions(rule, grade);
      }
    }

    /** `r` is the whole result at its whole cost, or None with the budget just exceeded. */
    ghost predicate Completes<T>(r: Option<T>, value: T, before: nat, cost: nat)
      reads this`states
    {
      if before + cost <= budget then r == Some(value) && states == before + cost
      else r.None? && states == budget + 1
    }

    method OptionsOfChildren(rule: Rule, grade: string) returns (r: Option<seq<seq<Candidate>>>)
      requires states <= budget
      modifies this`states
      ensures Completes(r, ChildOptions(rule, grade, record, true), old(states),
                        ChildCost(rule, grade, record, |rule.children|))
      decreases rule, 0
    {
      hide Options, ChildOptions;
      var options: seq<seq<Candidate>> := [];
      var i := 0;
      while i < |rule.children|
        invariant i <= |rule.children| && |options| == i
        invariant states == old(states) + ChildCost(rule, grade, record, i) && states <= budget
        invariant forall j :: 0 <= j < i ==> options[j] == Options(rule.children[j], grade, record, true)
      {
        var child := AllOptions(rule.children[i], grade);
        if child.None? {
          CostGrows(rule, grade, record, i + 1, |rule.children|);
          return None;
        }
        options := options + [child.value];
        i := i + 1;
      }
      AreChildOptions(rule, grade, record, options);
      r := Some(options);
    }

    method AllLeafOptions(rule: Rule, grade: string) returns (r: Option<seq<Candidate>>)
      requires states <= budget
      modifies this`states
      ensures Completes(r, Deduplicate(EachOption(rule, grade, OptionSelections(rule, Countable(record, rule, grade)))),
                        old(states), |OptionSelections(rule, Countable(record, rule, grade))|)
    {
      var eligible := Eligible(rule, {}, grade, Rank(Unresolved));
      var selections := OptionSelections(rule, eligible);
      var result: seq<Candidate> := [];
      var i := 0;
      while i < |selections|
        invariant i <= |selections| && states == old(states) + i && states <= budget
        invariant result + EachOption(rule, grade, selections[i..]) == EachOption(rule, grade, selections)
      {
        NextOption(rule, grade, selections, i, result);
        var ok := Spend();
        if !ok { return None; }
        if KeepsOption(rule, selections[i]) {
          result := result + [LeafOption(rule, grade, selections[i])];
        }
        i := i + 1;
      }
      assert result + [] == result;
      var kept := KeepBest(result);
      r := Some(kept);
    }

    /** Extend `result` with every way to finish a container from here. */
    method CombineAll(rule: Rule, options: seq<seq<Candidate>>, selected: seq<Row>, used: set<Code>, chosen: nat,
                      result: seq<Candidate>) returns (r: Option<seq<Candidate>>)
      requires |options| == |rule.children| && |selected| <= |options| && states <= budget
      modifies this`states
      ensures Completes(r, result + CombineOptions(rule, options, selected, used, chosen), old(states),
                        CombineCost(rule, options, |selected|, used, chosen))
      decreases |options| - |selected|, 1
    {
      var ok := Spend();
      if !ok { return None; }
      var index := |selected|;
      if index == |options| {
        return Some(result + [OptionContainer(rule, selected, used, chosen)]);
      }
      var sofar := result;
      if rule.kind != AllOf {
        var skipped := CombineAll(rule, options, selected + [NotSelectedRow(rule.children[index])], used, chosen,
                                  result);
        if skipped.None? { return None; }
        sofar := skipped.value;
        if chosen >= ContainerNeed(rule) {
          assert CombineOptions(rule, options, selected + [NotSelectedRow(rule.children[index])], used, chosen) + []
              == CombineOptions(rule, options, selected + [NotSelectedRow(rule.children[index])], used, chosen);
          return Some(sofar);
        }
      }
      if rule.kind != AllOf {
        Associate(result, CombineOptions(rule, options, selected + [NotSelectedRow(rule.children[index])], used,
                                         chosen),
                  TryEach(rule, options, selected, used, chosen, options[index]));
      }
      r := TryAll(rule, options, selected, used, chosen, sofar);
    }

    method TryAll(rule: Rule, options: seq<seq<Candidate>>, selected: seq<Row>, used: set<Code>, chosen: nat,
                  result: seq<Candidate>) returns (r: Option<seq<Candidate>>)
      requires |options| == |rule.children| && |selected| < |options| && states <= budget
      modifies this`states
      ensures Completes(r, result + TryEach(rule, options, selected, used, chosen, options[|selected|]), old(states),
                        TryCost(rule, options, |selected|, used, chosen, options[|selected|]))
      decreases |options| - |selected|, 0
    {
      var candidates := options[|selected|];
      var sofar := result;
      var i := 0;
      while i < |candidates|
        invariant i <= |candidates| && states <= budget
        invariant states + TryCost(rule, options, |selected|, used, chosen, candidates[i..])
                  == old(states) + TryCost(rule, options, |selected|, used, chosen, candidates)
        invariant sofar + TryEach(rule, options, selected, used, chosen, candidates[i..])
                  == result + TryEach(rule, options, selected, used, chosen, candidates)
      {
        var c := candidates[i];
        assert candidates[i..][0] == c && candidates[i..][1..] == candidates[i + 1..];
        if c.used !! used {
          var more := CombineAll(rule, options, selected + [c.row], used + c.used, chosen + Counts(c), sofar);
          if more.None? { return None; }
          Associate(sofar, CombineOptions(rule, options, selected + [c.row], used + c.used, chosen + Counts(c)),
                    TryEach(rule, options, selected, used, chosen, candidates[i + 1..]));
          sofar := more.value;
        } else {
          assert [] + TryEach(rule, options, selected, used, chosen, candidates[i + 1..])
              == TryEach(rule, options, selected, used, chosen, candidates[i + 1..]);
        }
        i := i + 1;
      }
      assert sofar + [] == sofar;
      r := Some(sofar);
    }

    // -------------------------------------------------------------- the run

    /** The whole audit: the ranks in order, then the fallback, then the report. */
    method RunAudit() returns (result: AuditResult)
      requires budget >= 1
      modifies this`states
      ensures result == Run(root, record, budget)
    {
      states := 0;
      var o := FirstWitness();
      if o.Exhausted? {
        var options := AllOptions(root, "");
        OptionsNotEmpty(root, "", record, true);
        if options.Some? {
          o := Found(Best(options.value));
        } else {
          o := Limited;
        }
      }
      match o
      case Found(c) =>
        result := Report(root, record, c.row, false, states);
      case _ =>
        result := Report(root, record, BareRow(root, Unresolved), true, states);
    }

    /** The ranks in order, until one has a witness. */
    method FirstWitness() returns (o: Outcome)
      requires states == 0
      modifies this`states
      ensures (o, states) == SearchTraces(RankTraces(root, record), 0, budget)
      ensures o.Exhausted? ==> states <= budget
    {
      hide RankTraces, SearchTraces, Witnesses, Consume;
      ghost var traces := RankTraces(root, record);
      var ranks := [5, 4, 3, 2];
      TracesByRank(ranks);
      NoTracesLeft(traces);
      var i := 0;
      o := Exhausted;
      while i < |ranks| && o.Exhausted?
        invariant i <= |ranks| && (o.Exhausted? ==> states <= budget)
        invariant SearchTraces(traces, 0, budget)
                  == if o.Exhausted? then SearchTraces(traces[i..], states, budget) else (o, states)
      {
        NextTrace(traces, i, states);
        o := WitnessOfRank(ranks[i], traces[i]);
        i := i + 1;
      }
    }

    lemma TracesByRank(ranks: seq<nat>)
      requires ranks == [5, 4, 3, 2]
      ensures var traces := RankTraces(root, record);
              |traces| == 4 && forall j | 0 <= j < 4 :: traces[j] == Witnesses(root, {}, ranks[j], "", record)
    {
      hide Witnesses;
    }

    lemma NextTrace(traces: seq<Trace>, i: nat, spent: nat)
      requires i < |traces|
      ensures SearchTraces(traces[i..], spent, budget)
              == var r := Consume(traces[i], spent, budget);
                 if r.0.Exhausted? then SearchTraces(traces[i + 1..], r.1, budget) else r
    {
      assert traces[i..][0] == traces[i] && traces[i..][1..] == traces[i + 1..];
    }

    lemma NoTracesLeft(traces: seq<Trace>)
      ensures traces[0..] == traces
      ensures forall spent: nat :: SearchTraces(traces[|traces|..], spent, budget) == (Exhausted, spent)
    {
    }

    method WitnessOfRank(rank: nat, ghost events: Trace) returns (o: Outcome)
      requires events == Witnesses(root, {}, rank, "", record) && states <= budget
      modifies this`states
      ensures (o, states) == Consume(events, old(states), budget)
      ensures o.Exhausted? ==> states <= budget
    {
      ThroughDone(events, record);
      ConsumeMeaning(events, states, budget);
      o := Solve(root, {}, rank, "", Done);
    }
  }

  lemma Associate<T>(a: seq<T>, b: seq<T>, c: seq<T>)
    ensures a + (b + c) == (a + b) + c
  {
  }

  lemma NextOption(rule: Rule, grade: string, selections: seq<seq<Attempt>>, i: nat, result: seq<Candidate>)
    requires i < |selections|
    ensures result + EachOption(rule, grade, selections[i..])
            == (if KeepsOption(rule, selections[i]) then result + [LeafOption(rule, grade, selections[i])] else result)
               + EachOption(rule, grade, selections[i + 1..])
  {
    assert selections[i..][0] == selections[i] && selections[i..][1..] == selections[i + 1..];
    var rest := EachOption(rule, grade, selections[i + 1..]);
    Associate(result, [LeafOption(rule, grade, selections[i])], rest);
    assert [] + rest == rest;
  }

  lemma AreChildOptions(rule: Rule, grade: string, record: seq<Attempt>, options: seq<seq<Candidate>>)
    requires |options| == |rule.children|
    requires forall j :: 0 <= j < |options| ==> options[j] == Options(rule.children[j], grade, record, true)
    ensures options == ChildOptions(rule, grade, record, true)
  {
  }

  lemma NextEligible(record: seq<Attempt>, i: nat, rule: Rule, used: set<Code>, grade: string, rank: nat,
                     sofar: seq<Attempt>)
    requires i < |record|
    ensures sofar + EligibleAttempts(record[i..], rule, used, grade, rank)
            == (if IsEligible(record[i], rule, used, grade, rank) then sofar + [record[i]] else sofar)
               + EligibleAttempts(record[i + 1..], rule, used, grade, rank)
  {
    assert record[i..][0] == record[i] && record[i..][1..] == record[i + 1..];
    Associate(sofar, [record[i]], EligibleAttempts(record[i + 1..], rule, used, grade, rank));
  }

  lemma {:induction false} ThroughDone(events: Trace, record: seq<Attempt>)
    ensures Through(events, Done, record) == events
  {
    if events != [] { ThroughDone(events[1..], record); }
  }

  // ---------------------------------------------------------------- the dictionary of best candidates

  type Key = (set<Code>, Status)

  function KeyOf(c: Candidate): Key { (c.used, c.row.status) }

  /** The dictionary lists exactly these keys, each with a candidate of that key. */
  ghost predicate Tabulates(order: seq<Key>, best: map<Key, Candidate>) {
    && NoDuplicates(order) && best.Keys == Elements(order)
    && forall key <- best :: KeyOf(best[key]) == key
  }

  ghost function Values(order: seq<Key>, best: map<Key, Candidate>): seq<Candidate>
    requires forall key <- order :: key in best
  {
    if order == [] then [] else [best[order[0]]] + Values(order[1..], best)
  }

  /** Put a candidate in the place of the one with its key. */
  function Replace(values: seq<Candidate>, c: Candidate): seq<Candidate> {
    if values == [] then []
    else if SameKey(values[0], c) then [c] + values[1..]
    else [values[0]] + Replace(values[1..], c)
  }

  lemma {:induction false} CostGrows(rule: Rule, grade: string, record: seq<Attempt>, low: nat, high: nat)
    requires low <= high <= |rule.children|
    ensures ChildCost(rule, grade, record, low) <= ChildCost(rule, grade, record, high)
    decreases high
  {
    if low < high { CostGrows(rule, grade, record, low, high - 1); }
  }

  lemma {:induction false} ValuesCongruence(order: seq<Key>, best: map<Key, Candidate>, other: map<Key, Candidate>)
    requires forall key <- order :: key in best && key in other && best[key] == other[key]
    ensures Values(order, best) == Values(order, other)
  {
    if order != [] { ValuesCongruence(order[1..], best, other); }
  }

  lemma {:induction false} ValuesAppend(order: seq<Key>, best: map<Key, Candidate>, key: Key, c: Candidate)
    requires forall k <- order :: k in best && k != key
    ensures forall k <- order + [key] :: k in best[key := c]
    ensures Values(order + [key], best[key := c]) == Values(order, best) + [c]
  {
    if order == [] {
      assert [key][1..] == [];
    } else {
      HeadAndTail(order);
      ValuesAppend(order[1..], best, key, c);
      assert (order + [key])[1..] == order[1..] + [key];
    }
  }

  /** The merge, read off the dictionary. */
  lemma {:induction false} MergeValues(order: seq<Key>, best: map<Key, Candidate>, c: Candidate)
    requires NoDuplicates(order) && forall key <- order :: key in best && KeyOf(best[key]) == key
    ensures Merge(Values(order, best), c)
            == if KeyOf(c) !in order then Values(order, best) + [c]
               else if ScoreLess(ScoreOf(best[KeyOf(c)]), ScoreOf(c)) then Values(order, best[KeyOf(c) := c])
               else Values(order, best)
    ensures KeyOf(c) in order ==> Replace(Values(order, best), c) == Values(order, best[KeyOf(c) := c])
  {
    if order != [] {
      NoDuplicatesTail(order);
      HeadAndTail(order);
      assert order[0] in order;
      if order[0] == KeyOf(c) {
        ValuesCongruence(order[1..], best, best[KeyOf(c) := c]);
      } else {
        MergeValues(order[1..], best, c);
      }
    }
  }

  lemma MergeTabulated(order: seq<Key>, best: map<Key, Candidate>, c: Candidate)
    requires Tabulates(order, best)
    ensures KeyOf(c) !in best ==>
              && Tabulates(order + [KeyOf(c)], best[KeyOf(c) := c])
              && Merge(Values(order, best), c) == Values(order, best) + [c]
              && Values(order + [KeyOf(c)], best[KeyOf(c) := c]) == Values(order, best) + [c]
    ensures KeyOf(c) in best ==>
              && Tabulates(order, best[KeyOf(c) := c])
              && Replace(Values(order, best), c) == Values(order, best[KeyOf(c) := c])
              && Merge(Values(order, best), c)
                 == if ScoreLess(ScoreOf(best[KeyOf(c)]), ScoreOf(c)) then Values(order, best[KeyOf(c) := c])
                    else Values(order, best)
  {
    assert forall key <- order :: key in best;
    MergeValues(order, best, c);
    if KeyOf(c) !in best {
      assert KeyOf(c) !in order;
      ValuesAppend(order, best, KeyOf(c), c);
      ElementsAppend(order, KeyOf(c));
    } else {
      assert best[KeyOf(c) := c].Keys == best.Keys;
    }
  }
}
