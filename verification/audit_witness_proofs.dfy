/** The witness generator against the reference assignments: every witness is an assignment,
    and every assignment is matched by a witness that consumes no other course. */
module WitnessProofs {
  import opened AuditRules
  import opened Selections
  import opened AuditPlans
  import opened WitnessTraces

  // ---------------------------------------------------------------- conservation

  /** No course twice, credits that add up, and a container that owns what its children own. */
  ghost predicate Balanced(row: Row) {
    && DistinctCourses(row.attempts)
    && row.credits == TotalCredits(row.attempts)
    && (row.children != [] ==>
          row.attempts == RowAttempts(row.children) && row.credits == RowCredits(row.children))
    && forall child <- row.children :: Balanced(child)
  }

  ghost predicate Accounted(c: Candidate, record: seq<Attempt>) {
    && Balanced(c.row)
    && c.used == Codes(c.row.attempts)
    && forall a <- c.row.attempts :: a in record
  }

  ghost predicate RowsDisjoint(rows: seq<Row>) {
    forall i, j :: 0 <= i < j < |rows| ==> Codes(rows[i].attempts) !! Codes(rows[j].attempts)
  }

  lemma {:induction false} RowAttemptsMembers(rows: seq<Row>)
    ensures forall a <- RowAttempts(rows) :: exists i :: 0 <= i < |rows| && a in rows[i].attempts
    ensures forall i :: 0 <= i < |rows| ==> Codes(rows[i].attempts) <= Codes(RowAttempts(rows))
    ensures forall c <- Codes(RowAttempts(rows)) :: exists i :: 0 <= i < |rows| && c in Codes(rows[i].attempts)
  {
    if rows != [] {
      RowAttemptsMembers(rows[1..]);
      var all := rows[0].attempts + RowAttempts(rows[1..]);
      forall a | a in all ensures exists i :: 0 <= i < |rows| && a in rows[i].attempts {
        if a !in rows[0].attempts {
          var i :| 0 <= i < |rows[1..]| && a in rows[1..][i].attempts;
          assert a in rows[i + 1].attempts;
        }
      }
      forall i | 0 <= i < |rows| ensures Codes(rows[i].attempts) <= Codes(all) {
        if i > 0 { assert rows[1..][i - 1] == rows[i]; }
      }
      forall c | c in Codes(all) ensures exists i :: 0 <= i < |rows| && c in Codes(rows[i].attempts) {
        var a :| a in all && a.code == c;
        var i :| 0 <= i < |rows| && a in rows[i].attempts;
        assert c in Codes(rows[i].attempts);
      }
    }
  }

  lemma DistinctAppend(a: seq<Attempt>, b: seq<Attempt>)
    requires DistinctCourses(a) && DistinctCourses(b) && Codes(a) !! Codes(b)
    ensures DistinctCourses(a + b)
  {
    forall i, j | 0 <= i < j < |a + b| ensures (a + b)[i].code != (a + b)[j].code {
      if i < |a| <= j {
        assert a[i] in a && b[j - |a|] in b;
        assert a[i].code in Codes(a) && b[j - |a|].code in Codes(b);
      }
    }
  }

  lemma {:induction false} RowsAddUp(rows: seq<Row>)
    requires forall row <- rows :: Balanced(row)
    requires RowsDisjoint(rows)
    ensures DistinctCourses(RowAttempts(rows))
    ensures RowCredits(rows) == TotalCredits(RowAttempts(rows))
  {
    if rows != [] {
      var rest := rows[1..];
      forall i, j | 0 <= i < j < |rest| ensures Codes(rest[i].attempts) !! Codes(rest[j].attempts) {
        assert rest[i] == rows[i + 1] && rest[j] == rows[j + 1];
      }
      HeadAndTail(rows);
      RowsAddUp(rest);
      RowAttemptsMembers(rest);
      forall c | c in Codes(RowAttempts(rest)) ensures c !in Codes(rows[0].attempts) {
        var i :| 0 <= i < |rest| && c in Codes(rest[i].attempts);
        assert rest[i] == rows[i + 1];
      }
      DistinctAppend(rows[0].attempts, RowAttempts(rest));
      TotalCreditsAppend(rows[0].attempts, RowAttempts(rest));
    }
  }

  lemma {:induction false} NotSelectedBalanced(rule: Rule)
    ensures Balanced(NotSelectedRow(rule))
    decreases rule
  {
    var row := NotSelectedRow(rule);
    forall i | 0 <= i < |row.children|
      ensures Balanced(row.children[i]) && row.children[i].attempts == [] && row.children[i].credits == 0.0
    {
      NotSelectedBalanced(rule.children[i]);
    }
    EmptyRows(row.children);
  }

  lemma {:induction false} EmptyRows(rows: seq<Row>)
    requires forall row <- rows :: row.attempts == [] && row.credits == 0.0
    ensures RowAttempts(rows) == [] && RowCredits(rows) == 0.0
  {
    if rows != [] { EmptyRows(rows[1..]); }
  }

  // ---------------------------------------------------------------- leaves

  lemma {:induction false} SelectionYields(rule: Rule, grade: string, selections: seq<seq<Attempt>>, c: Candidate)
    ensures Yield(c) in EachSelection(rule, grade, selections)
            <==> exists t :: t in selections && AcceptsSelection(rule, t) && c == LeafCandidate(rule, grade, t)
  {
    if selections != [] {
      var t := selections[0];
      var yielded := if AcceptsSelection(rule, t) then [Yield(LeafCandidate(rule, grade, t))] else [];
      var rest := EachSelection(rule, grade, selections[1..]);
      SelectionYields(rule, grade, selections[1..], c);
      assert EachSelection(rule, grade, selections) == [Tick] + yielded + rest;
      assert Yield(c) in [Tick] + yielded + rest <==> Yield(c) in yielded || Yield(c) in rest;
      HeadAndTail(selections);
    }
  }

  /** What a leaf yields: exactly the accepted selections of eligible attempts of a right size. */
  ghost predicate LeafChoice(rule: Rule, used: set<Code>, rank: nat, grade: string, record: seq<Attempt>,
                             t: seq<Attempt>) {
    && IsSelection(t, EligibleAttempts(record, rule, used, grade, rank))
    && AcceptsSelection(rule, t)
    && (if rule.kind == CreditThreshold then |t| >= 1 else |t| == rule.LeafNeed())
  }

  lemma {:induction false} MapTotalPick(best: map<Code, real>, code: Code)
    requires code in best
    ensures MapTotal(best) == best[code] + MapTotal(best - {code})
    decreases |best|
  {
    var picked :| picked in best && MapTotal(best) == best[picked] + MapTotal(best - {picked});
    if picked != code {
      MapTotalPick(best - {picked}, code);
      MapTotalPick(best - {code}, picked);
      assert best - {picked} - {code} == best - {code} - {picked};
    }
  }

  /** The per-course maxima bound the credits of any course-disjoint selection. */
  lemma {:induction false} BestBoundsCredits(best: map<Code, real>, t: seq<Attempt>)
    requires forall code <- best :: best[code] >= 0.0
    requires forall a <- t :: a.code in best && a.Credits() <= best[a.code]
    requires DistinctCourses(t)
    ensures TotalCredits(t) <= MapTotal(best)
    decreases |best|
  {
    if t == [] {
      MapTotalNonNegative(best);
    } else {
      var code := t[0].code;
      MapTotalPick(best, code);
      DistinctCoursesTail(t);
      forall a | a in t[1..] ensures a.code in best - {code} && a.Credits() <= (best - {code})[a.code] {
        assert a.code in Codes(t[1..]);
      }
      BestBoundsCredits(best - {code}, t[1..]);
    }
  }

  lemma {:induction false} MapTotalNonNegative(best: map<Code, real>)
    requires forall code <- best :: best[code] >= 0.0
    ensures MapTotal(best) >= 0.0
    decreases |best|
  {
    if best != map[] {
      var code :| code in best;
      MapTotalPick(best, code);
      MapTotalNonNegative(best - {code});
    }
  }

  lemma {:induction false} BestByCodeBounds(attempts: seq<Attempt>)
    ensures forall code <- BestByCode(attempts) :: BestByCode(attempts)[code] >= 0.0
    ensures forall a <- attempts :: a.code in BestByCode(attempts) && a.Credits() <= BestByCode(attempts)[a.code]
  {
    if attempts != [] {
      BestByCodeBounds(attempts[..|attempts| - 1]);
      assert attempts == attempts[..|attempts| - 1] + [attempts[|attempts| - 1]];
    }
  }

  /** Neither the credit bound nor the course count discards a leaf that has a selection. */
  lemma PruneIsSafe(rule: Rule, eligible: seq<Attempt>, t: seq<Attempt>)
    requires IsSelection(t, eligible) && AcceptsSelection(rule, t)
    requires rule.kind != CreditThreshold ==> |t| >= rule.LeafNeed()
    ensures !Hopeless(rule, eligible)
  {
    SelectionMembers(t, eligible);
    CodesCount(t);
    if rule.kind == CreditThreshold {
      BestByCodeBounds(eligible);
      BestBoundsCredits(BestByCode(eligible), t);
    } else {
      assert Codes(t) <= Codes(eligible);
      SubsetCount(Codes(t), Codes(eligible));
    }
  }

  lemma SubsetCount<T>(a: set<T>, b: set<T>)
    requires a <= b
    ensures |a| <= |b|
  {
    assert b == a + (b - a);
  }

  lemma LeafSelectionsMembers(rule: Rule, eligible: seq<Attempt>, t: seq<Attempt>)
    ensures t in LeafSelections(rule, eligible)
            <==> IsSelection(t, eligible)
                 && (if rule.kind == CreditThreshold then |t| >= 1 else |t| == rule.LeafNeed())
  {
    if rule.kind == CreditThreshold {
      CombinationsBetweenMembers(eligible, 1, |eligible|, t);
      if IsSelection(t, eligible) { SelectionMembers(t, eligible); }
    } else {
      CombinationsMembers(eligible, rule.LeafNeed(), t);
    }
  }

  lemma LeafYieldsSound(rule: Rule, used: set<Code>, rank: nat, grade: string, record: seq<Attempt>, c: Candidate)
      returns (t: seq<Attempt>)
    requires Yield(c) in LeafWitnesses(rule, used, rank, grade, record)
    ensures LeafChoice(rule, used, rank, grade, record, t) && c == LeafCandidate(rule, grade, t)
  {
    var selections := LeafSelections(rule, EligibleAttempts(record, rule, used, grade, rank));
    SelectionYields(rule, grade, selections, c);
    t :| t in selections && AcceptsSelection(rule, t) && c == LeafCandidate(rule, grade, t);
    LeafSelectionsMembers(rule, EligibleAttempts(record, rule, used, grade, rank), t);
  }

  lemma LeafYieldsComplete(rule: Rule, used: set<Code>, rank: nat, grade: string, record: seq<Attempt>, t: seq<Attempt>)
    requires LeafChoice(rule, used, rank, grade, record, t)
    ensures Yield(LeafCandidate(rule, grade, t)) in LeafWitnesses(rule, used, rank, grade, record)
  {
    var eligible := EligibleAttempts(record, rule, used, grade, rank);
    PruneIsSafe(rule, eligible, t);
    LeafSelectionsMembers(rule, eligible, t);
    SelectionYields(rule, grade, LeafSelections(rule, eligible), LeafCandidate(rule, grade, t));
  }

  /** A leaf rule the engine executes. */
  ghost predicate ExecutableLeaf(rule: Rule) {
    WellFormed(rule) && rule.children == [] && !rule.IsInformational() && !rule.IsUnresolved()
  }

  /** Every leaf witness is an assignment of its rank that consumes exactly its courses. */
  lemma LeafSound(rule: Rule, used: set<Code>, rank: nat, grade: string, record: seq<Attempt>, t: seq<Attempt>)
    requires ExecutableLeaf(rule) && 2 <= rank <= 5 && ValidRecord(record)
    requires LeafChoice(rule, used, rank, grade, record, t)
    ensures SecuresLeaf(rule, grade, record, Elements(t), Rank(LeafRow(rule, grade, t).status))
    ensures PlanCodes(Take(Elements(t))) == Codes(t) && Codes(t) !! used
    ensures Rank(LeafRow(rule, grade, t).status) >= rank
    ensures Accounted(LeafCandidate(rule, grade, t), record)
  {
    LeafMembers(rule, used, rank, grade, record, t);
    CodesCount(t);
    DistinctByCode(t);
    RecordHasNoDuplicates(record);
    SelectionIsRestriction(t, record);
    ElementCount(t);
    LeafRanked(rule, rank, grade, t);
  }

  lemma LeafMembers(rule: Rule, used: set<Code>, rank: nat, grade: string, record: seq<Attempt>, t: seq<Attempt>)
    requires ValidRecord(record)
    requires LeafChoice(rule, used, rank, grade, record, t)
    ensures forall a <- t :: a in record && IsEligible(a, rule, used, grade, rank)
    ensures IsSelection(t, record) && NoDuplicates(t)
  {
    var eligible := EligibleAttempts(record, rule, used, grade, rank);
    SelectionMembers(t, eligible);
    SelectionMembers(eligible, record);
    RecordHasNoDuplicates(record);
    SelectionTransitive(t, eligible, record);
    SelectionNoDuplicates(t, record);
  }

  lemma LeafRanked(rule: Rule, rank: nat, grade: string, t: seq<Attempt>)
    requires t != [] && rank >= 2
    requires forall a <- t :: Rank(AttemptStatus(a, grade)) >= rank
    ensures Rank(LeafRow(rule, grade, t).status) >= rank
    ensures forall a <- t :: Rank(AttemptStatus(a, grade)) >= Rank(LeafRow(rule, grade, t).status)
  {
    var statuses := Statuses(t, grade);
    forall s | s in statuses ensures Rank(s) >= rank {
      var i :| 0 <= i < |statuses| && statuses[i] == s;
      assert t[i] in t;
    }
    AggregateIsLeast(statuses);
    forall a | a in t ensures AttemptStatus(a, grade) in statuses {
      var i :| 0 <= i < |t| && t[i] == a;
      assert statuses[i] == AttemptStatus(a, grade);
    }
  }

  lemma DistinctByCode(t: seq<Attempt>)
    requires DistinctCourses(t)
    ensures forall a <- t, b <- t :: a.code == b.code ==> a == b
  {
  }

  lemma RecordHasNoDuplicates(record: seq<Attempt>)
    requires ValidRecord(record)
    ensures NoDuplicates(record)
  {
  }

  /** The eligible attempts of a leaf assignment, in record order: all of them are there. */
  lemma EligibleChoice(rule: Rule, used: set<Code>, rank: nat, grade: string, record: seq<Attempt>,
                       chosen: set<Attempt>)
      returns (all: seq<Attempt>)
    requires ValidRecord(record) && SecuresLeaf(rule, grade, record, chosen, rank)
    requires PlanCodes(Take(chosen)) !! used
    ensures IsSelection(all, EligibleAttempts(record, rule, used, grade, rank)) && NoDuplicates(all)
    ensures forall a <- all :: a in chosen
    ensures if rule.kind == CreditThreshold then TotalCredits(all) >= rule.CreditFloor() else |all| >= rule.LeafNeed()
  {
    var eligible := EligibleAttempts(record, rule, used, grade, rank);
    RecordHasNoDuplicates(record);
    SelectionNoDuplicates(eligible, record);
    forall a | a in chosen ensures a in eligible {
      assert a.code in PlanCodes(Take(chosen));
      assert IsEligible(a, rule, used, grade, rank);
    }
    RestrictThroughSelection(eligible, record, chosen);
    RestrictCount(eligible, chosen);
    RestrictIsSelection(eligible, chosen);
    all := Restrict(eligible, chosen);
  }

  /** Every leaf assignment contains a witness. */
  lemma LeafComplete(rule: Rule, used: set<Code>, rank: nat, grade: string, record: seq<Attempt>, chosen: set<Attempt>)
      returns (c: Candidate)
    requires ExecutableLeaf(rule) && 2 <= rank <= 5 && ValidRecord(record)
    requires SecuresLeaf(rule, grade, record, chosen, rank)
    requires PlanCodes(Take(chosen)) !! used
    ensures Yield(c) in LeafWitnesses(rule, used, rank, grade, record)
    ensures c.used <= PlanCodes(Take(chosen))
  {
    var all := EligibleChoice(rule, used, rank, grade, record, chosen);
    var t := if rule.kind == CreditThreshold then all else all[..rule.LeafNeed()];
    SelectionPrefix(all, EligibleAttempts(record, rule, used, grade, rank), |t|);
    assert t == all[..|t|];
    ChosenCoursesDistinct(t, chosen);
    assert TotalCredits([]) == 0.0;
    LeafYieldsComplete(rule, used, rank, grade, record, t);
    c := LeafCandidate(rule, grade, t);
  }

  lemma ChosenCoursesDistinct(t: seq<Attempt>, chosen: set<Attempt>)
    requires NoDuplicates(t) && forall a <- t :: a in chosen
    requires forall a <- chosen, b <- chosen :: a.code == b.code ==> a == b
    ensures |Codes(t)| == |t|
    ensures Codes(t) <= PlanCodes(Take(chosen))
  {
    forall i, j | 0 <= i < j < |t| ensures t[i].code != t[j].code {
      assert t[i] in chosen && t[j] in chosen;
    }
    CodesCount(t);
  }

  // ---------------------------------------------------------------- containers

  /** One finished child of a container under way: its row and the assignment behind it. */
  ghost predicate ChildDone(s: Search, record: seq<Attempt>, i: nat, row: Row, plan: Plan)
    requires i < |s.rule.children|
  {
    && Secures(s.rule.children[i], s.grade, record, plan, Rank(row.status))
    && Accounted(Candidate(row, PlanCodes(plan)), record)
    && Rank(row.status) >= s.rank
  }

  /** The state of a container whose first `position` chosen children are done. */
  ghost predicate UnderWay(s: Search, record: seq<Attempt>, position: nat, rows: map<nat, Row>,
                           consumed: set<Code>, parts: seq<Option<Plan>>)
  {
    && s.Valid() && position <= |s.indices| && |parts| == |s.rule.children|
    && rows.Keys == Elements(s.indices[..position])
    && (forall i: nat :: i < |parts| ==> (parts[i].Some? <==> i in rows))
    && (forall i: nat :: i < |parts| && parts[i].Some? ==> ChildDone(s, record, i, rows[i], parts[i].value))
    && PairwiseDisjoint(parts)
    && consumed == PartsCodes(parts)
    && consumed !! s.used
  }

  /** A container rule the engine executes, with its choice of children. */
  ghost predicate ExecutableChoice(s: Search) {
    && WellFormed(s.rule) && s.rule.children != [] && !s.rule.IsInformational() && !s.rule.IsUnresolved()
    && GradeSupported(s.grade) && 2 <= s.rank <= 5
    && IsSelection(s.indices, ActiveIndices(s.rule, 0))
    && |s.indices| == ContainerNeed(s.rule) && ActiveIndices(s.rule, 0) != []
  }

  lemma NothingDone(s: Search, record: seq<Attempt>)
    requires s.Valid()
    ensures UnderWay(s, record, 0, map[], {}, seq(|s.rule.children|, _ => None))
  {
    PartsCodesMembers(seq(|s.rule.children|, _ => None));
  }

  lemma AddPart(parts: seq<Option<Plan>>, i: nat, plan: Plan)
    requires i < |parts| && parts[i].None?
    requires PairwiseDisjoint(parts) && PlanCodes(plan) !! PartsCodes(parts)
    ensures PairwiseDisjoint(parts[i := Some(plan)])
    ensures PartsCodes(parts[i := Some(plan)]) == PartsCodes(parts) + PlanCodes(plan)
  {
    var more := parts[i := Some(plan)];
    PartsCodesMembers(parts);
    PartsCodesMembers(more);
    assert more[i] == Some(plan);
    forall c | c in PartsCodes(parts) ensures c in PartsCodes(more) {
      var k :| 0 <= k < |parts| && parts[k].Some? && c in PlanCodes(parts[k].value);
      assert more[k] == parts[k];
    }
    forall c | c in PartsCodes(more) ensures c in PartsCodes(parts) + PlanCodes(plan) {
      var k :| 0 <= k < |more| && more[k].Some? && c in PlanCodes(more[k].value);
      if k != i { assert parts[k] == more[k]; }
    }
    forall a, b | 0 <= a < b < |more| && more[a].Some? && more[b].Some?
      ensures PlanCodes(more[a].value) !! PlanCodes(more[b].value)
    {
    }
  }

  lemma ChildFinished(s: Search, record: seq<Attempt>, position: nat, rows: map<nat, Row>,
                      consumed: set<Code>, parts: seq<Option<Plan>>, c: Candidate, plan: Plan)
      returns (more: seq<Option<Plan>>)
    requires UnderWay(s, record, position, rows, consumed, parts) && position < |s.indices|
    requires ChildDone(s, record, s.indices[position], c.row, plan)
    requires c.used == PlanCodes(plan) && c.used !! s.used + consumed
    ensures UnderWay(s, record, position + 1, rows[s.indices[position] := c.row], consumed + c.used, more)
  {
    hide ChildDone, PairwiseDisjoint, PlanCodes, PartsCodes, Elements;
    var i := s.indices[position];
    FreshIndex(s, position);
    assert i !in rows && parts[i].None?;
    AddPart(parts, i, plan);
    more := parts[i := Some(plan)];
    var after := rows[i := c.row];
    DoneAfter(s, record, rows, parts, after, more, i);
    assert after.Keys == rows.Keys + {i};
  }

  lemma DoneAfter(s: Search, record: seq<Attempt>, rows: map<nat, Row>, parts: seq<Option<Plan>>,
                  after: map<nat, Row>, more: seq<Option<Plan>>, i: nat)
    requires |more| == |parts| == |s.rule.children| && i < |parts| && i in after && more == parts[i := more[i]]
    requires after == rows[i := after[i]] && more[i].Some? && ChildDone(s, record, i, after[i], more[i].value)
    requires forall k: nat :: k < |parts| ==> (parts[k].Some? <==> k in rows)
    requires forall k: nat :: k < |parts| && parts[k].Some? ==> ChildDone(s, record, k, rows[k], parts[k].value)
    ensures forall k: nat :: k < |more| ==> (more[k].Some? <==> k in after)
    ensures forall k: nat :: k < |more| && more[k].Some? ==> ChildDone(s, record, k, after[k], more[k].value)
  {
    hide ChildDone;
    forall k: nat | k < |more| ensures more[k].Some? <==> k in after {
      if k != i { assert more[k] == parts[k]; }
    }
    forall k: nat | k < |more| && more[k].Some? ensures ChildDone(s, record, k, after[k], more[k].value) {
      if k != i { assert more[k] == parts[k] && after[k] == rows[k]; }
    }
  }

  lemma FreshIndex(s: Search, position: nat)
    requires s.Valid() && position < |s.indices|
    ensures s.indices[position] !in Elements(s.indices[..position])
    ensures Elements(s.indices[..position + 1]) == Elements(s.indices[..position]) + {s.indices[position]}
  {
    assert s.indices[..position + 1] == s.indices[..position] + [s.indices[position]];
    ElementsAppend(s.indices[..position], s.indices[position]);
  }

  lemma ContainerFinished(s: Search, record: seq<Attempt>, rows: map<nat, Row>, consumed: set<Code>,
                          parts: seq<Option<Plan>>)
    requires ExecutableChoice(s)
    requires UnderWay(s, record, |s.indices|, rows, consumed, parts)
    ensures Accounted(Candidate(ContainerRow(s, rows), consumed), record)
    ensures Rank(ContainerRow(s, rows).status) >= s.rank
    ensures |PresentParts(parts)| == ContainerNeed(s.rule)
    ensures forall i: nat :: i < |parts| && parts[i].Some? ==>
              Secures(s.rule.children[i], s.grade, record, parts[i].value, Rank(ContainerRow(s, rows).status))
  {
    ContainerAccounted(s, record, rows, consumed, parts);
    ContainerRanked(s, record, rows, consumed, parts);
    PresentIsChosen(s, record, rows, consumed, parts);
  }

  lemma PresentIsChosen(s: Search, record: seq<Attempt>, rows: map<nat, Row>, consumed: set<Code>,
                        parts: seq<Option<Plan>>)
    requires UnderWay(s, record, |s.indices|, rows, consumed, parts)
    ensures |PresentParts(parts)| == |s.indices|
  {
    hide ChildDone, PairwiseDisjoint, PartsCodes;
    assert s.indices[..|s.indices|] == s.indices;
    ElementCount(s.indices);
    assert PresentParts(parts) == Elements(s.indices) by {
      forall i | i in Elements(s.indices) ensures i in PresentParts(parts) {
        var j :| 0 <= j < |s.indices| && s.indices[j] == i;
      }
    }
  }

  lemma ContainerAccounted(s: Search, record: seq<Attempt>, rows: map<nat, Row>, consumed: set<Code>,
                           parts: seq<Option<Plan>>)
    requires s.rule.children != []
    requires UnderWay(s, record, |s.indices|, rows, consumed, parts)
    ensures Accounted(Candidate(ContainerRow(s, rows), consumed), record)
  {
    var children := ChildRows(s.rule, rows);
    forall i: nat | i < |children|
      ensures Accounted(Candidate(children[i], PartCodes(parts[i])), record)
    {
      ChildAccounted(s, record, rows, consumed, parts, i);
    }
    forall i, j | 0 <= i < j < |children| ensures Codes(children[i].attempts) !! Codes(children[j].attempts) {
      assert Accounted(Candidate(children[i], PartCodes(parts[i])), record);
      assert Accounted(Candidate(children[j], PartCodes(parts[j])), record);
    }
    CodesOfParts(children, parts, record);
    RowsAddUp(children);
    RowAttemptsMembers(children);
  }

  lemma ChildAccounted(s: Search, record: seq<Attempt>, rows: map<nat, Row>, consumed: set<Code>,
                       parts: seq<Option<Plan>>, i: nat)
    requires UnderWay(s, record, |s.indices|, rows, consumed, parts) && i < |parts|
    ensures Accounted(Candidate(ChildRows(s.rule, rows)[i], PartCodes(parts[i])), record)
  {
    if parts[i].None? {
      NotSelectedBalanced(s.rule.children[i]);
      assert Codes(NotSelectedRow(s.rule.children[i]).attempts) == {};
    } else {
      assert ChildDone(s, record, i, rows[i], parts[i].value);
    }
  }

  lemma CodesOfParts(children: seq<Row>, parts: seq<Option<Plan>>, record: seq<Attempt>)
    requires |children| == |parts|
    requires forall i: nat :: i < |children| ==> Accounted(Candidate(children[i], PartCodes(parts[i])), record)
    ensures Codes(RowAttempts(children)) == PartsCodes(parts)
  {
    RowAttemptsMembers(children);
    PartsCodesMembers(parts);
    var union := Codes(RowAttempts(children));
    forall c | c in union ensures c in PartsCodes(parts) {
      var i :| 0 <= i < |children| && c in Codes(children[i].attempts);
      assert Accounted(Candidate(children[i], PartCodes(parts[i])), record);
    }
    forall c | c in PartsCodes(parts) ensures c in union {
      var i :| 0 <= i < |parts| && parts[i].Some? && c in PlanCodes(parts[i].value);
      assert Accounted(Candidate(children[i], PartCodes(parts[i])), record);
    }
  }

  lemma ContainerRanked(s: Search, record: seq<Attempt>, rows: map<nat, Row>, consumed: set<Code>,
                        parts: seq<Option<Plan>>)
    requires s.indices != [] && 2 <= s.rank
    requires UnderWay(s, record, |s.indices|, rows, consumed, parts)
    ensures Rank(ContainerRow(s, rows).status) >= s.rank
    ensures forall i: nat :: i < |parts| && parts[i].Some? ==>
              Secures(s.rule.children[i], s.grade, record, parts[i].value, Rank(ContainerRow(s, rows).status))
  {
    var statuses := seq(|s.indices|, j requires 0 <= j < |s.indices| => RowAt(s.rule, rows, s.indices[j]).status);
    forall status | status in statuses ensures Rank(status) >= s.rank {
      var j :| 0 <= j < |statuses| && statuses[j] == status;
      ChosenDone(s, record, rows, consumed, parts, j);
    }
    AggregateIsLeast(statuses);
    forall i: nat | i < |parts| && parts[i].Some?
      ensures Secures(s.rule.children[i], s.grade, record, parts[i].value, Rank(ContainerRow(s, rows).status))
    {
      var j := DoneChosen(s, record, rows, consumed, parts, i);
      assert statuses[j] == rows[i].status;
      hide Secures, UnderWay;
      SecuresAntitone(s.rule.children[i], s.grade, record, parts[i].value, Rank(rows[i].status),
                      Rank(ContainerRow(s, rows).status));
    }
  }

  /** Once all chosen children are done, each has its row at the rank asked for, */
  lemma ChosenDone(s: Search, record: seq<Attempt>, rows: map<nat, Row>, consumed: set<Code>,
                   parts: seq<Option<Plan>>, j: nat)
    requires UnderWay(s, record, |s.indices|, rows, consumed, parts) && j < |s.indices|
    ensures s.indices[j] in rows && Rank(rows[s.indices[j]].status) >= s.rank
  {
    var i := s.indices[j];
    assert s.indices[..|s.indices|] == s.indices;
    assert i in Elements(s.indices);
    assert ChildDone(s, record, i, rows[i], parts[i].value);
  }

  /** and each part belongs to a chosen child. */
  lemma DoneChosen(s: Search, record: seq<Attempt>, rows: map<nat, Row>, consumed: set<Code>,
                   parts: seq<Option<Plan>>, i: nat)
      returns (j: nat)
    requires UnderWay(s, record, |s.indices|, rows, consumed, parts) && i < |parts| && parts[i].Some?
    ensures i in rows && Secures(s.rule.children[i], s.grade, record, parts[i].value, Rank(rows[i].status))
    ensures j < |s.indices| && s.indices[j] == i
  {
    assert ChildDone(s, record, i, rows[i], parts[i].value);
    assert s.indices[..|s.indices|] == s.indices;
    assert i in Elements(s.indices);
    j :| 0 <= j < |s.indices| && s.indices[j] == i;
  }

  // ---------------------------------------------------------------- the generator is sound

  /** Every witness is an assignment of the rank it reports, at least the one asked for, conserves
      courses and credits, and keeps clear of the courses already used. */
  lemma {:induction false} WitnessSound(rule: Rule, used: set<Code>, rank: nat, inherited: string,
                                        record: seq<Attempt>, c: Candidate)
      returns (plan: Plan)
    requires WellFormed(rule) && !rule.IsInformational() && 2 <= rank <= 5 && ValidRecord(record)
    requires Yield(c) in Witnesses(rule, used, rank, inherited, record)
    ensures Secures(rule, inherited, record, plan, Rank(c.row.status))
    ensures c.used == PlanCodes(plan) && c.used !! used
    ensures Accounted(c, record) && Rank(c.row.status) >= rank
    decreases rule, 4, 0, 0, 0
  {
    var grade := EffectiveGrade(rule, inherited);
    var active := ActiveIndices(rule, 0);
    if IsOpaque(rule, grade) {
      plan := Take({});
    } else if rule.children != [] && active == [] {
      plan := Split(seq(|rule.children|, _ => None));
      PartsCodesMembers(plan.parts);
      assert PlanCodes(plan) == {};
    } else if rule.children != [] {
      CombinationsAreChoices(rule);
      var choices := Combinations(active, ContainerNeed(rule));
      assert Yield(c) in EachChoice(rule, used, rank, grade, record, choices);
      forall indices | indices in choices ensures |indices| == ContainerNeed(rule) {
        CombinationsMembers(active, ContainerNeed(rule), indices);
      }
      plan := ChoiceSound(rule, used, rank, inherited, record, choices, c);
    } else {
      var t := LeafYieldsSound(rule, used, rank, grade, record, c);
      LeafSound(rule, used, rank, grade, record, t);
      plan := Take(Elements(t));
    }
  }

  lemma {:induction false} ChoiceSound(rule: Rule, used: set<Code>, rank: nat, inherited: string,
                                       record: seq<Attempt>, choices: seq<seq<nat>>, c: Candidate)
      returns (plan: Plan)
    requires WellFormed(rule) && !rule.IsInformational() && 2 <= rank <= 5 && ValidRecord(record)
    requires rule.children != [] && !IsOpaque(rule, EffectiveGrade(rule, inherited))
    requires ActiveIndices(rule, 0) != []
    requires ChoicesOf(rule, choices) && forall indices <- choices :: |indices| == ContainerNeed(rule)
    requires Yield(c) in EachChoice(rule, used, rank, EffectiveGrade(rule, inherited), record, choices)
    ensures Secures(rule, inherited, record, plan, Rank(c.row.status))
    ensures c.used == PlanCodes(plan) && c.used !! used
    ensures Accounted(c, record) && Rank(c.row.status) >= rank
    decreases rule, 3, |choices|, 0, 0
  {
    var grade := EffectiveGrade(rule, inherited);
    ChoiceIsValid(rule, used, rank, grade, choices[0]);
    var s := Search(rule, used, rank, grade, choices[0]);
    if Yield(c) in Combine(s, record, 0, map[], {}) {
      NothingDone(s, record);
      plan := CombineSound(s, inherited, record, 0, map[], {}, seq(|rule.children|, _ => None), c);
    } else {
      plan := ChoiceSound(rule, used, rank, inherited, record, choices[1..], c);
    }
  }

  lemma {:induction false} CombineSound(s: Search, inherited: string, record: seq<Attempt>, position: nat,
                                        rows: map<nat, Row>, consumed: set<Code>, parts: seq<Option<Plan>>,
                                        c: Candidate)
      returns (plan: Plan)
    requires ExecutableChoice(s) && s.grade == EffectiveGrade(s.rule, inherited) && ValidRecord(record)
    requires UnderWay(s, record, position, rows, consumed, parts)
    requires Yield(c) in Combine(s, record, position, rows, consumed)
    ensures Secures(s.rule, inherited, record, plan, Rank(c.row.status))
    ensures c.used == PlanCodes(plan) && c.used !! s.used
    ensures Accounted(c, record) && Rank(c.row.status) >= s.rank
    decreases s.rule, 2, |s.indices| - position, 1, 0
  {
    if position == |s.indices| {
      assert c == Candidate(ContainerRow(s, rows), consumed);
      ContainerFinished(s, record, rows, consumed, parts);
      plan := Split(parts);
    } else {
      var events := Witnesses(s.Child(position), s.used + consumed, s.rank, s.grade, record);
      assert Yield(c) in ForEach(s, record, position, rows, consumed, events);
      plan := ForEachSound(s, inherited, record, position, rows, consumed, parts, events, c);
    }
  }

  lemma {:induction false} ForEachSound(s: Search, inherited: string, record: seq<Attempt>, position: nat,
                                        rows: map<nat, Row>, consumed: set<Code>, parts: seq<Option<Plan>>,
                                        events: Trace, c: Candidate)
      returns (plan: Plan)
    requires ExecutableChoice(s) && s.grade == EffectiveGrade(s.rule, inherited) && ValidRecord(record)
    requires UnderWay(s, record, position, rows, consumed, parts) && position < |s.indices|
    requires forall e <- events :: e in Witnesses(s.Child(position), s.used + consumed, s.rank, s.grade, record)
    requires Yield(c) in ForEach(s, record, position, rows, consumed, events)
    ensures Secures(s.rule, inherited, record, plan, Rank(c.row.status))
    ensures c.used == PlanCodes(plan) && c.used !! s.used
    ensures Accounted(c, record) && Rank(c.row.status) >= s.rank
    decreases s.rule, 2, |s.indices| - position, 0, |events|
  {
    if Yield(c) in ForEach(s, record, position, rows, consumed, events[1..]) {
      plan := ForEachSound(s, inherited, record, position, rows, consumed, parts, events[1..], c);
    } else {
      var child := events[0].candidate;
      assert events[0] in Witnesses(s.Child(position), s.used + consumed, s.rank, s.grade, record);
      var childPlan := WitnessSound(s.Child(position), s.used + consumed, s.rank, s.grade, record, child);
      var more := ChildFinished(s, record, position, rows, consumed, parts, child, childPlan);
      plan := CombineSound(s, inherited, record, position + 1, rows[s.indices[position] := child.row],
                           consumed + child.used, more, c);
    }
  }

  // ---------------------------------------------------------------- the generator is complete

  /** Every assignment that avoids the used courses is matched by a witness of the same rank
      that consumes none but the assignment's courses. */
  lemma {:induction false} WitnessComplete(rule: Rule, used: set<Code>, rank: nat, inherited: string,
                                           record: seq<Attempt>, plan: Plan)
      returns (c: Candidate)
    requires WellFormed(rule) && 2 <= rank <= 5 && ValidRecord(record)
    requires Secures(rule, inherited, record, plan, rank)
    requires PlanCodes(plan) !! used
    ensures Yield(c) in Witnesses(rule, used, rank, inherited, record)
    ensures c.used <= PlanCodes(plan)
    decreases rule, 3, 0
  {
    var grade := EffectiveGrade(rule, inherited);
    var active := ActiveIndices(rule, 0);
    if IsOpaque(rule, grade) || (rule.children != [] && active == []) {
      c := Candidate(BareRow(rule, Unresolved), {});
      assert Witnesses(rule, used, rank, inherited, record) == [Tick] + [Yield(c)];
    } else if rule.children != [] {
      var indices := ChosenIndices(rule, plan.parts);
      ChoiceIsValid(rule, used, rank, grade, indices);
      var s := Search(rule, used, rank, grade, indices);
      c := CombineComplete(s, record, 0, map[], {}, plan.parts);
      CombinationsAreChoices(rule);
      CombinationsMembers(active, ContainerNeed(rule), indices);
      ChoiceContains(rule, used, rank, grade, record, Combinations(active, ContainerNeed(rule)), indices, Yield(c));
    } else {
      c := LeafComplete(rule, used, rank, grade, record, plan.chosen);
    }
  }

  /** The first children of a plan, as many as the container asks for. */
  lemma ChosenIndices(rule: Rule, parts: seq<Option<Plan>>) returns (indices: seq<nat>)
    requires |parts| == |rule.children|
    requires forall i :: 0 <= i < |parts| && parts[i].Some? ==> !rule.children[i].IsInformational()
    requires |PresentParts(parts)| >= ContainerNeed(rule)
    ensures IsSelection(indices, ActiveIndices(rule, 0)) && |indices| == ContainerNeed(rule)
    ensures forall i <- indices :: i < |parts| && parts[i].Some?
  {
    var active := ActiveIndices(rule, 0);
    var all := Restrict(active, PresentParts(parts));
    RestrictCount(active, PresentParts(parts));
    RestrictIsSelection(active, PresentParts(parts));
    SelectionPrefix(all, active, ContainerNeed(rule));
    indices := all[..ContainerNeed(rule)];
    forall i | i in indices ensures i < |parts| && parts[i].Some? {
      assert i in all;
    }
  }

  lemma {:induction false} ChoiceContains(rule: Rule, used: set<Code>, rank: nat, grade: string, record: seq<Attempt>,
                                          choices: seq<seq<nat>>, indices: seq<nat>, e: Event)
    requires ChoicesOf(rule, choices) && indices in choices
    requires Search(rule, used, rank, grade, indices).Valid()
    requires e in Combine(Search(rule, used, rank, grade, indices), record, 0, map[], {})
    ensures e in EachChoice(rule, used, rank, grade, record, choices)
  {
    if indices != choices[0] {
      HeadAndTail(choices);
      ChoiceContains(rule, used, rank, grade, record, choices[1..], indices, e);
    }
  }

  lemma {:induction false} CombineComplete(s: Search, record: seq<Attempt>, position: nat, rows: map<nat, Row>,
                                           consumed: set<Code>, parts: seq<Option<Plan>>)
      returns (c: Candidate)
    requires s.Valid() && position <= |s.indices| && WellFormed(s.rule) && 2 <= s.rank <= 5 && ValidRecord(record)
    requires |parts| == |s.rule.children| && PairwiseDisjoint(parts)
    requires forall i <- s.indices :: i < |parts| && parts[i].Some?
               && Secures(s.rule.children[i], s.grade, record, parts[i].value, s.rank)
    requires PartsCodes(parts) !! s.used
    requires consumed <= PartsCodes(parts)
    requires forall j :: position <= j < |s.indices| ==> PlanCodes(parts[s.indices[j]].value) !! consumed
    ensures Yield(c) in Combine(s, record, position, rows, consumed)
    ensures c.used <= PartsCodes(parts)
    decreases s.rule, 2, |s.indices| - position
  {
    if position == |s.indices| {
      c := Candidate(ContainerRow(s, rows), consumed);
    } else {
      var i := s.indices[position];
      PartsCodesMembers(parts);
      assert i in s.indices;
      var child := WitnessComplete(s.Child(position), s.used + consumed, s.rank, s.grade, record, parts[i].value);
      forall j | position + 1 <= j < |s.indices|
        ensures PlanCodes(parts[s.indices[j]].value) !! consumed + child.used
      {
        assert s.indices[j] in s.indices && s.indices[j] != i;
        assert PlanCodes(parts[s.indices[j]].value) !! PlanCodes(parts[i].value);
      }
      c := CombineComplete(s, record, position + 1, rows[i := child.row], consumed + child.used, parts);
      ForEachContains(s, record, position, rows, consumed,
                      Witnesses(s.Child(position), s.used + consumed, s.rank, s.grade, record), child, Yield(c));
    }
  }

  lemma {:induction false} ForEachContains(s: Search, record: seq<Attempt>, position: nat, rows: map<nat, Row>,
                                           consumed: set<Code>, events: Trace, child: Candidate, e: Event)
    requires s.Valid() && position < |s.indices|
    requires Yield(child) in events
    requires e in Combine(s, record, position + 1, rows[s.indices[position] := child.row], consumed + child.used)
    ensures e in ForEach(s, record, position, rows, consumed, events)
  {
    if events[0] != Yield(child) {
      HeadAndTail(events);
      ForEachContains(s, record, position, rows, consumed, events[1..], child, e);
    }
  }
}
