/** What the exhaustive enumeration means: it agrees with the reference assignments on every
    completion, it knows exactly when a rule can only be unresolved, and merging loses nothing. */
module OptionMeaning {
  import opened AuditRules
  import opened Selections
  import opened AuditPlans
  import opened WitnessTraces
  import opened WitnessProofs
  import opened OptionSearch
  import opened OptionProofs

  // ---------------------------------------------------------------- small facts

  lemma OptionStatus(rule: Rule, inherited: string, record: seq<Attempt>, merge: bool, c: Candidate)
    requires c in Options(rule, inherited, record, merge)
    ensures c.row.status == NotSelected <==> rule.IsInformational()
    ensures rule.IsInformational() ==> c.used == {}
  {
    var grade := EffectiveGrade(rule, inherited);
    if !rule.IsInformational() && !IsOpaque(rule, grade) {
      hide Options;
      if rule.children != [] {
        var full := OptionTrail(rule, inherited, record, merge, c);
      } else {
        var t := LeafOptionSelection(rule, inherited, record, merge, c);
      }
    }
  }

  lemma {:induction false} EachOptionMembers(rule: Rule, grade: string, selections: seq<seq<Attempt>>, c: Candidate)
    ensures c in EachOption(rule, grade, selections)
            <==> exists t :: t in selections && KeepsOption(rule, t) && c == LeafOption(rule, grade, t)
  {
    if selections != [] {
      EachOptionMembers(rule, grade, selections[1..], c);
      HeadAndTail(selections);
    }
  }

  /** The selections a leaf option may come from. */
  ghost predicate OptionChoice(rule: Rule, grade: string, record: seq<Attempt>, t: seq<Attempt>) {
    && IsSelection(t, Countable(record, rule, grade))
    && (rule.kind != CreditThreshold ==> |t| <= rule.LeafNeed())
    && KeepsOption(rule, t)
  }

  lemma OptionSelectionsMembers(rule: Rule, eligible: seq<Attempt>, t: seq<Attempt>)
    ensures t in OptionSelections(rule, eligible)
            <==> IsSelection(t, eligible) && (rule.kind != CreditThreshold ==> |t| <= rule.LeafNeed())
  {
    var limit := if rule.kind == CreditThreshold || rule.LeafNeed() > |eligible| then |eligible| else rule.LeafNeed();
    CombinationsBetweenMembers(eligible, 0, limit, t);
    if IsSelection(t, eligible) { SelectionMembers(t, eligible); }
  }

  lemma LeafOptionSelection(rule: Rule, inherited: string, record: seq<Attempt>, merge: bool, c: Candidate)
      returns (t: seq<Attempt>)
    requires !rule.IsInformational() && !IsOpaque(rule, EffectiveGrade(rule, inherited)) && rule.children == []
    requires c in Options(rule, inherited, record, merge)
    ensures OptionChoice(rule, EffectiveGrade(rule, inherited), record, t)
    ensures c == LeafOption(rule, EffectiveGrade(rule, inherited), t)
  {
    var grade := EffectiveGrade(rule, inherited);
    var selections := OptionSelections(rule, Countable(record, rule, grade));
    MergeIfKeepsBest(EachOption(rule, grade, selections), merge);
    EachOptionMembers(rule, grade, selections, c);
    t :| t in selections && KeepsOption(rule, t) && c == LeafOption(rule, grade, t);
    OptionSelectionsMembers(rule, Countable(record, rule, grade), t);
  }

  /** A leaf option, up to a dominating one. */
  lemma LeafOptionCovered(rule: Rule, inherited: string, record: seq<Attempt>, merge: bool, t: seq<Attempt>)
    requires !rule.IsInformational() && !IsOpaque(rule, EffectiveGrade(rule, inherited)) && rule.children == []
    requires OptionChoice(rule, EffectiveGrade(rule, inherited), record, t)
    ensures Covered(Options(rule, inherited, record, merge), LeafOption(rule, EffectiveGrade(rule, inherited), t))
  {
    var grade := EffectiveGrade(rule, inherited);
    var selections := OptionSelections(rule, Countable(record, rule, grade));
    OptionSelectionsMembers(rule, Countable(record, rule, grade), t);
    EachOptionMembers(rule, grade, selections, LeafOption(rule, grade, t));
    MergeIfKeepsBest(EachOption(rule, grade, selections), merge);
  }

  /** A container option, up to a dominating one. */
  lemma ContainerOptionCovered(rule: Rule, inherited: string, record: seq<Attempt>, merge: bool, full: Trail)
    requires !rule.IsInformational() && !IsOpaque(rule, EffectiveGrade(rule, inherited)) && rule.children != []
    requires |full| == |rule.children|
    requires ValidTrail(rule, ChildOptions(rule, EffectiveGrade(rule, inherited), record, merge), full)
    ensures Covered(Options(rule, inherited, record, merge), Built(rule, full))
  {
    var options := ChildOptions(rule, EffectiveGrade(rule, inherited), record, merge);
    TrailIsOption(rule, options, full);
    MergeIfKeepsBest(CombineOptions(rule, options, [], {}, 0), merge);
  }

  lemma OptionTrail(rule: Rule, inherited: string, record: seq<Attempt>, merge: bool, c: Candidate)
      returns (full: Trail)
    requires !rule.IsInformational() && !IsOpaque(rule, EffectiveGrade(rule, inherited)) && rule.children != []
    requires c in Options(rule, inherited, record, merge)
    ensures ValidTrail(rule, ChildOptions(rule, EffectiveGrade(rule, inherited), record, merge), full)
    ensures |full| == |rule.children| && c == Built(rule, full)
  {
    var options := ChildOptions(rule, EffectiveGrade(rule, inherited), record, merge);
    MergeIfKeepsBest(CombineOptions(rule, options, [], {}, 0), merge);
    full := ContainerOptionTrail(rule, options, c);
  }

  lemma {:induction false} ActiveStatusesMembers(rows: seq<Row>)
    ensures NotSelected !in ActiveStatuses(rows)
    ensures forall s <- ActiveStatuses(rows) :: exists i :: 0 <= i < |rows| && rows[i].status == s
    ensures forall i :: 0 <= i < |rows| && rows[i].status != NotSelected ==> rows[i].status in ActiveStatuses(rows)
  {
    if rows != [] {
      ActiveStatusesMembers(rows[1..]);
      forall s | s in ActiveStatuses(rows) ensures exists i :: 0 <= i < |rows| && rows[i].status == s {
        if s != rows[0].status {
          var i :| 0 <= i < |rows[1..]| && rows[1..][i].status == s;
          assert rows[i + 1].status == s;
        }
      }
      forall i | 0 <= i < |rows| && rows[i].status != NotSelected ensures rows[i].status in ActiveStatuses(rows) {
        if i > 0 { assert rows[1..][i - 1] == rows[i]; }
      }
    }
  }

  lemma {:induction false} TrailUsedMembers(trail: Trail)
    ensures forall i :: 0 <= i < |trail| && trail[i].Some? ==> trail[i].value.used <= TrailUsed(trail)
    ensures forall c <- TrailUsed(trail) :: exists i :: 0 <= i < |trail| && trail[i].Some? && c in trail[i].value.used
  {
    if trail != [] {
      TrailUsedMembers(trail[..|trail| - 1]);
    }
  }

  /** Candidates picked at different positions share no course. */
  lemma TrailDisjoint(rule: Rule, options: seq<seq<Candidate>>, trail: Trail, i: nat, j: nat)
    requires ValidTrail(rule, options, trail) && i < j < |trail| && trail[i].Some? && trail[j].Some?
    ensures trail[i].value.used !! trail[j].value.used
  {
    assert StepOpen(rule, options, trail, j);
    TrailUsedMembers(trail[..j]);
    assert trail[..j][i] == trail[i];
  }

  lemma {:induction false} NothingTaken(trail: Trail)
    requires forall i :: 0 <= i < |trail| && trail[i].Some? ==> trail[i].value.used == {}
    ensures TrailUsed(trail) == {}
  {
    if trail != [] { NothingTaken(trail[..|trail| - 1]); }
  }

  /** Every rule can be left without taking anything. */
  lemma {:induction false} ZeroOption(rule: Rule, inherited: string, record: seq<Attempt>, merge: bool)
      returns (c: Candidate)
    ensures c in Options(rule, inherited, record, merge) && c.used == {}
    decreases rule, 1, 0
  {
    var grade := EffectiveGrade(rule, inherited);
    if rule.IsInformational() {
      c := Candidate(NotSelectedRow(rule), {});
    } else if IsOpaque(rule, grade) {
      c := Candidate(BareRow(rule, Unresolved), {});
    } else if rule.children != [] {
      var full := ZeroTrail(rule, grade, record, merge, |rule.children|);
      assert full[..|full|] == full;
      ContainerOptionCovered(rule, inherited, record, merge, full);
      c :| c in Options(rule, inherited, record, merge) && Dominates(c, Built(rule, full));
    } else {
      LeafOptionCovered(rule, inherited, record, merge, []);
      c :| c in Options(rule, inherited, record, merge) && Dominates(c, LeafOption(rule, grade, []));
    }
  }

  lemma {:induction false} ZeroTrail(rule: Rule, grade: string, record: seq<Attempt>, merge: bool, n: nat)
      returns (trail: Trail)
    requires n <= |rule.children|
    ensures |trail| == n && ValidTrail(rule, ChildOptions(rule, grade, record, merge), trail)
    ensures TrailUsed(trail) == {}
    ensures forall i :: 0 <= i < n ==> (trail[i].Some? <==> rule.kind == AllOf)
    decreases rule, 0, n
  {
    if n == 0 {
      trail := [];
    } else {
      var options := ChildOptions(rule, grade, record, merge);
      assert |options| == |rule.children| && options[n - 1] == Options(rule.children[n - 1], grade, record, merge);
      hide ValidTrail, TrailUsed, TrailChosen, Options, ChildOptions;
      var front := ZeroTrail(rule, grade, record, merge, n - 1);
      var step := None;
      if rule.kind == AllOf {
        var c := ZeroOption(rule.children[n - 1], grade, record, merge);
        step := Some(c);
      }
      trail := front + [step];
      ExtendTrail(rule, options, front, step);
      TrailFoldsUsed(front, step);
      forall i | 0 <= i < n ensures trail[i].Some? <==> rule.kind == AllOf {
        assert i < n - 1 ==> trail[i] == front[i];
      }
    }
  }

  // ---------------------------------------------------------------- conservation

  /** Every enumerated allocation conserves courses and credits. */
  lemma {:induction false} OptionAccounted(rule: Rule, inherited: string, record: seq<Attempt>, merge: bool,
                                           c: Candidate)
    requires ValidRecord(record)
    requires c in Options(rule, inherited, record, merge)
    ensures Accounted(c, record)
    decreases rule
  {
    var grade := EffectiveGrade(rule, inherited);
    if rule.IsInformational() {
      NotSelectedBalanced(rule);
    } else if IsOpaque(rule, grade) {
    } else if rule.children != [] {
      var full := OptionTrail(rule, inherited, record, merge, c);
      var options := ChildOptions(rule, grade, record, merge);
      forall i: nat | i < |full| && full[i].Some? ensures Accounted(full[i].value, record) {
        assert StepOpen(rule, options, full, i);
        OptionAccounted(rule.children[i], grade, record, merge, full[i].value);
      }
      TrailAccounted(rule, options, record, full);
    } else {
      var t := LeafOptionSelection(rule, inherited, record, merge, c);
      CodesCount(t);
      SelectionMembers(t, Countable(record, rule, grade));
      SelectionMembers(Countable(record, rule, grade), record);
    }
  }

  lemma TrailAccounted(rule: Rule, options: seq<seq<Candidate>>, record: seq<Attempt>, full: Trail)
    requires rule.children != [] && |full| == |rule.children| && ValidTrail(rule, options, full)
    requires forall i: nat :: i < |full| && full[i].Some? ==> Accounted(full[i].value, record)
    ensures Accounted(Built(rule, full), record)
  {
    var rows := TrailRows(rule, full);
    forall i: nat | i < |rows|
      ensures Accounted(Candidate(rows[i], if full[i].Some? then full[i].value.used else {}), record)
    {
      if full[i].None? {
        NotSelectedBalanced(rule.children[i]);
        assert Codes(rows[i].attempts) == {};
      }
    }
    forall i, j | 0 <= i < j < |rows| ensures Codes(rows[i].attempts) !! Codes(rows[j].attempts) {
      if full[i].Some? && full[j].Some? { TrailDisjoint(rule, options, full, i, j); }
    }
    RowsAddUp(rows);
    TrailCodes(rule, record, full);
    RowAttemptsMembers(rows);
  }

  lemma TrailCodes(rule: Rule, record: seq<Attempt>, full: Trail)
    requires |full| == |rule.children|
    requires forall i: nat :: i < |full| && full[i].Some? ==> Accounted(full[i].value, record)
    ensures Codes(RowAttempts(TrailRows(rule, full))) == TrailUsed(full)
  {
    var rows := TrailRows(rule, full);
    RowAttemptsMembers(rows);
    TrailUsedMembers(full);
    var union := Codes(RowAttempts(rows));
    forall c | c in union ensures c in TrailUsed(full) {
      var i :| 0 <= i < |rows| && c in Codes(rows[i].attempts);
      assert full[i].Some?;
      assert Accounted(full[i].value, record);
    }
    forall c | c in TrailUsed(full) ensures c in union {
      var i :| 0 <= i < |full| && full[i].Some? && c in full[i].value.used;
      assert Accounted(full[i].value, record);
      assert c in Codes(rows[i].attempts);
    }
  }

  // ---------------------------------------------------------------- completions are assignments

  lemma PartsCodesSnoc(parts: seq<Option<Plan>>, part: Option<Plan>)
    ensures PartsCodes(parts + [part]) == PartsCodes(parts) + PartCodes(part)
  {
    var more := parts + [part];
    PartsCodesMembers(parts);
    PartsCodesMembers(more);
    assert more[|parts|] == part;
    forall c | c in PartsCodes(parts) ensures c in PartsCodes(more) {
      var i :| 0 <= i < |parts| && parts[i].Some? && c in PlanCodes(parts[i].value);
      assert more[i] == parts[i];
    }
  }

  lemma PresentSnoc(parts: seq<Option<Plan>>, part: Option<Plan>)
    ensures |PresentParts(parts + [part])| == |PresentParts(parts)| + (if part.Some? then 1 else 0)
  {
    var more := parts + [part];
    if part.Some? {
      assert PresentParts(more) == PresentParts(parts) + {|parts|};
    } else {
      assert PresentParts(more) == PresentParts(parts);
    }
  }

  /** An enumerated allocation whose status is a completion is an assignment of that rank. */
  lemma {:induction false} OptionSound(rule: Rule, inherited: string, record: seq<Attempt>, merge: bool,
                                       c: Candidate, rank: nat)
      returns (plan: Plan)
    requires WellFormed(rule) && ValidRecord(record) && 3 <= rank <= 5
    requires c in Options(rule, inherited, record, merge) && Rank(c.row.status) >= rank
    ensures Secures(rule, inherited, record, plan, rank)
    ensures PlanCodes(plan) == c.used
    decreases rule, 1, 0
  {
    var grade := EffectiveGrade(rule, inherited);
    OptionStatus(rule, inherited, record, merge, c);
    if rule.children != [] {
      var full := OptionTrail(rule, inherited, record, merge, c);
      var rows := TrailRows(rule, full);
      ActiveStatusesMembers(rows);
      AggregateCompletion(ActiveStatuses(rows), TrailChosen(full) < ContainerNeed(rule), rank);
      assert full[..|full|] == full;
      var parts := TrailPlan(rule, grade, record, merge, full, |full|, rank);
      plan := Split(parts);
      forall i | 0 <= i < |parts| && full[i].Some? && full[i].value.row.status != NotSelected
        ensures !rule.children[i].IsInformational()
      {
        assert PartMatches(rule.children[i], grade, record, full[i], parts[i], rank);
      }
      SomePartActive(rule, full, parts);
    } else {
      var t := LeafOptionSelection(rule, inherited, record, merge, c);
      LeafOptionSound(rule, grade, record, t, rank);
      plan := Take(Elements(t));
    }
  }

  /** A container that reaches a completion has a child that states a requirement. */
  lemma SomePartActive(rule: Rule, full: Trail, parts: seq<Option<Plan>>)
    requires |full| == |parts| == |rule.children| && ActiveStatuses(TrailRows(rule, full)) != []
    requires forall i :: 0 <= i < |parts| && full[i].Some? && full[i].value.row.status != NotSelected
               ==> !rule.children[i].IsInformational()
    ensures ActiveIndices(rule, 0) != []
  {
    var rows := TrailRows(rule, full);
    ActiveStatusesMembers(rows);
    var s := ActiveStatuses(rows)[0];
    assert s in ActiveStatuses(rows);
    var i :| 0 <= i < |rows| && rows[i].status == s;
    assert full[i].Some?;
    assert i in ActiveIndices(rule, 0);
  }

  lemma LeafOptionSound(rule: Rule, grade: string, record: seq<Attempt>, t: seq<Attempt>, rank: nat)
    requires ValidRecord(record) && 3 <= rank <= 5 && OptionChoice(rule, grade, record, t)
    requires Rank(LeafOption(rule, grade, t).row.status) >= rank
    ensures SecuresLeaf(rule, grade, record, Elements(t), rank)
    ensures PlanCodes(Take(Elements(t))) == Codes(t)
  {
    var statuses := Statuses(t, grade);
    assert NotSelected !in statuses;
    AggregateCompletion(statuses, !MeetsLeaf(rule, t), rank);
    forall a | a in t ensures Rank(AttemptStatus(a, grade)) >= rank {
      var i :| 0 <= i < |t| && t[i] == a;
      assert statuses[i] in statuses;
    }
    hide AttemptStatus, Rank, LeafOption, MeetsLeaf;
    var eligible := Countable(record, rule, grade);
    SelectionMembers(t, eligible);
    SelectionMembers(eligible, record);
    RecordHasNoDuplicates(record);
    SelectionTransitive(t, eligible, record);
    SelectionNoDuplicates(t, record);
    SelectionIsRestriction(t, record);
    CodesCount(t);
    DistinctByCode(t);
    ElementCount(t);
  }

  /** `parts` are assignments behind the first children of a trail. */
  ghost predicate PartsMatch(rule: Rule, grade: string, record: seq<Attempt>, full: Trail,
                             parts: seq<Option<Plan>>, rank: nat)
  {
    && |parts| <= |full| == |rule.children|
    && (forall i :: 0 <= i < |parts| ==> PartMatches(rule.children[i], grade, record, full[i], parts[i], rank))
    && PairwiseDisjoint(parts)
    && PartsCodes(parts) == TrailUsed(full[..|parts|])
    && |PresentParts(parts)| == TrailChosen(full[..|parts|])
  }

  ghost predicate PartMatches(child: Rule, grade: string, record: seq<Attempt>, step: Option<Candidate>,
                              part: Option<Plan>, rank: nat)
  {
    && (part.Some? ==> Secures(child, grade, record, part.value, rank))
    && (part.Some? <==> step.Some? && Counts(step.value) == 1)
    && PartCodes(part) == if step.Some? then step.value.used else {}
  }

  lemma PartsMatchStep(rule: Rule, grade: string, record: seq<Attempt>, options: seq<seq<Candidate>>, full: Trail,
                       parts: seq<Option<Plan>>, part: Option<Plan>, rank: nat)
    requires ValidTrail(rule, options, full) && PartsMatch(rule, grade, record, full, parts, rank)
    requires |parts| < |full|
    requires PartMatches(rule.children[|parts|], grade, record, full[|parts|], part, rank)
    ensures PartsMatch(rule, grade, record, full, parts + [part], rank)
  {
    PartsStayDisjoint(rule, grade, record, options, full, parts, part, rank);
    EachPartMatches(rule, grade, record, full, parts, part, rank);
    PartsStayCounted(rule, grade, record, full, parts, part, rank);
    hide PartsMatch, PartMatches, ValidTrail, PairwiseDisjoint, TrailUsed, TrailChosen, PartsCodes, PresentParts;
    PartsMatchOf(rule, grade, record, full, parts + [part], |parts| + 1, rank);
  }

  lemma PartTakes(child: Rule, grade: string, record: seq<Attempt>, step: Option<Candidate>, part: Option<Plan>,
                  rank: nat)
    requires PartMatches(child, grade, record, step, part, rank)
    ensures part.Some? <==> step.Some? && Counts(step.value) == 1
    ensures PartCodes(part) == if step.Some? then step.value.used else {}
  {
  }

  lemma PartsStayCounted(rule: Rule, grade: string, record: seq<Attempt>, full: Trail, parts: seq<Option<Plan>>,
                         part: Option<Plan>, rank: nat)
    requires PartsMatch(rule, grade, record, full, parts, rank) && |parts| < |full|
    requires PartMatches(rule.children[|parts|], grade, record, full[|parts|], part, rank)
    ensures |full| == |rule.children|
    ensures PartsCodes(parts + [part]) == TrailUsed(full[..|parts| + 1])
    ensures |PresentParts(parts + [part])| == TrailChosen(full[..|parts| + 1])
  {
    hide PairwiseDisjoint, TrailUsed, TrailChosen, PartsCodes, PresentParts, PartMatches, Counts, PartCodes;
    PartTakes(rule.children[|parts|], grade, record, full[|parts|], part, rank);
    PartsCount(full[..|parts|], full[|parts|], parts, part);
    PrefixMore(full, |parts|);
  }

  lemma EachPartMatches(rule: Rule, grade: string, record: seq<Attempt>, full: Trail, parts: seq<Option<Plan>>,
                        part: Option<Plan>, rank: nat)
    requires PartsMatch(rule, grade, record, full, parts, rank) && |parts| < |full|
    requires PartMatches(rule.children[|parts|], grade, record, full[|parts|], part, rank)
    ensures forall i: nat | i < |parts| + 1 :: PartMatches(rule.children[i], grade, record, full[i],
                                                           (parts + [part])[i], rank)
  {
    hide PartMatches;
    forall i: nat | i < |parts| + 1
      ensures PartMatches(rule.children[i], grade, record, full[i], (parts + [part])[i], rank)
    {
      if i < |parts| { assert (parts + [part])[i] == parts[i]; }
    }
  }

  lemma PartsMatchOf(rule: Rule, grade: string, record: seq<Attempt>, full: Trail, more: seq<Option<Plan>>, n: nat,
                     rank: nat)
    requires |more| == n <= |full| == |rule.children| && PairwiseDisjoint(more)
    requires forall i: nat | i < n :: PartMatches(rule.children[i], grade, record, full[i], more[i], rank)
    requires PartsCodes(more) == TrailUsed(full[..n]) && |PresentParts(more)| == TrailChosen(full[..n])
    ensures PartsMatch(rule, grade, record, full, more, rank)
  {
  }

  lemma PrefixMore(full: Trail, n: nat)
    requires n < |full|
    ensures full[..n + 1] == full[..n] + [full[n]]
  {
  }

  /** One more part takes the courses of one more step, and counts when the step does. */
  lemma PartsCount(front: Trail, step: Option<Candidate>, parts: seq<Option<Plan>>, part: Option<Plan>)
    requires PartsCodes(parts) == TrailUsed(front) && |PresentParts(parts)| == TrailChosen(front)
    requires PartCodes(part) == if step.Some? then step.value.used else {}
    requires part.Some? <==> step.Some? && Counts(step.value) == 1
    ensures PartsCodes(parts + [part]) == TrailUsed(front + [step])
    ensures |PresentParts(parts + [part])| == TrailChosen(front + [step])
  {
    TrailFoldsUsed(front, step);
    PartsCodesSnoc(parts, part);
    PresentSnoc(parts, part);
    hide PartCodes, PartsCodes, PresentParts, TrailUsed, TrailChosen;
  }

  lemma PartsStayDisjoint(rule: Rule, grade: string, record: seq<Attempt>, options: seq<seq<Candidate>>, full: Trail,
                          parts: seq<Option<Plan>>, part: Option<Plan>, rank: nat)
    requires ValidTrail(rule, options, full) && PartsMatch(rule, grade, record, full, parts, rank)
    requires |parts| < |full|
    requires PartMatches(rule.children[|parts|], grade, record, full[|parts|], part, rank)
    ensures PairwiseDisjoint(parts + [part])
  {
    var n := |parts|;
    var more := parts + [part];
    forall i: nat, j: nat | i < j < |more| && more[i].Some? && more[j].Some?
      ensures PlanCodes(more[i].value) !! PlanCodes(more[j].value)
    {
      if j == n {
        assert PartMatches(rule.children[i], grade, record, full[i], parts[i], rank);
        TrailDisjoint(rule, options, full, i, j);
      }
    }
  }

  lemma {:induction false} TrailPlan(rule: Rule, grade: string, record: seq<Attempt>, merge: bool, full: Trail,
                                     n: nat, rank: nat)
      returns (parts: seq<Option<Plan>>)
    requires WellFormed(rule) && ValidRecord(record) && 3 <= rank <= 5 && n <= |full| == |rule.children|
    requires ValidTrail(rule, ChildOptions(rule, grade, record, merge), full)
    requires forall s <- ActiveStatuses(TrailRows(rule, full)) :: Rank(s) >= rank
    ensures |parts| == n && PartsMatch(rule, grade, record, full, parts, rank)
    decreases rule, 0, n
  {
    if n == 0 {
      parts := [];
      assert PresentParts(parts) == {};
    } else {
      var options := ChildOptions(rule, grade, record, merge);
      var front := TrailPlan(rule, grade, record, merge, full, n - 1, rank);
      var step := full[n - 1];
      var part := None;
      assert StepOpen(rule, options, full, n - 1);
      assert options[n - 1] == Options(rule.children[n - 1], grade, record, merge);
      assert WellFormed(rule.children[n - 1]);
      hide PartsMatch, Secures, ValidTrail, ChildOptions, Options, WellFormed;
      if step.Some? {
        OptionStatus(rule.children[n - 1], grade, record, merge, step.value);
        if Counts(step.value) == 1 {
          ActiveStatusesMembers(TrailRows(rule, full));
          assert TrailRows(rule, full)[n - 1].status == step.value.row.status;
          var plan := OptionSound(rule.children[n - 1], grade, record, merge, step.value, rank);
          part := Some(plan);
        }
      }
      PartsMatchStep(rule, grade, record, options, full, front, part, rank);
      parts := front + [part];
    }
  }

  // ---------------------------------------------------------------- assignments are enumerated

  /** Every assignment of a completion rank is matched by an enumerated allocation of that rank
      that takes no other course. */
  lemma {:induction false} OptionComplete(rule: Rule, inherited: string, record: seq<Attempt>, merge: bool,
                                          plan: Plan, rank: nat)
      returns (c: Candidate)
    requires WellFormed(rule) && ValidRecord(record) && 3 <= rank <= 5
    requires Secures(rule, inherited, record, plan, rank)
    ensures c in Options(rule, inherited, record, merge) && Rank(c.row.status) >= rank
    ensures c.used <= PlanCodes(plan)
    decreases rule, 1, 0
  {
    var grade := EffectiveGrade(rule, inherited);
    if rule.children != [] {
      var indices := ChosenIndices(rule, plan.parts);
      ChoiceIsValid(rule, {}, rank, grade, indices);
      var full := PlanTrail(rule, grade, record, merge, plan.parts, indices, |rule.children|, rank);
      FullTrailRank(rule, full, plan.parts, indices, rank);
      ContainerOptionCovered(rule, inherited, record, merge, full);
      c :| c in Options(rule, inherited, record, merge) && Dominates(c, Built(rule, full));
    } else {
      var t := SufficientSelection(rule, grade, record, plan.chosen, rank);
      LeafOptionCovered(rule, inherited, record, merge, t);
      c :| c in Options(rule, inherited, record, merge) && Dominates(c, LeafOption(rule, grade, t));
    }
  }

  /** Positions below n that a choice of children contains. */
  function ChosenBelow(indices: seq<nat>, n: nat): set<nat> {
    set i <- indices | i < n :: i
  }

  lemma ChosenBelowStep(indices: seq<nat>, n: nat)
    ensures |ChosenBelow(indices, n + 1)| == |ChosenBelow(indices, n)| + (if n in indices then 1 else 0)
  {
    if n in indices {
      assert ChosenBelow(indices, n + 1) == ChosenBelow(indices, n) + {n};
    } else {
      assert ChosenBelow(indices, n + 1) == ChosenBelow(indices, n);
    }
  }

  lemma ChosenBelowAll(indices: seq<nat>, n: nat)
    requires NoDuplicates(indices) && forall i <- indices :: i < n
    ensures |ChosenBelow(indices, n)| == |indices|
  {
    ElementCount(indices);
    assert ChosenBelow(indices, n) == Elements(indices);
  }

  lemma ChosenBelowMore(indices: seq<nat>, n: nat)
    requires NoDuplicates(indices) && n in indices
    ensures |ChosenBelow(indices, n)| < |indices|
  {
    ElementCount(indices);
    assert ChosenBelow(indices, n) <= Elements(indices) - {n};
    SubsetCount(ChosenBelow(indices, n), Elements(indices) - {n});
  }

  /** A trail that takes, at each chosen child, an allocation within the child's assignment. */
  ghost predicate Follows(trail: Trail, parts: seq<Option<Plan>>, indices: seq<nat>, rank: nat) {
    && |trail| <= |parts|
    && (forall i :: 0 <= i < |trail| ==> StepFollows(trail[i], parts[i], i in indices, rank))
    && TrailUsed(trail) <= PartsCodes(parts)
    && TrailChosen(trail) == |ChosenBelow(indices, |trail|)|
  }

  ghost predicate StepFollows(step: Option<Candidate>, part: Option<Plan>, chosen: bool, rank: nat) {
    if chosen
    then step.Some? && Rank(step.value.row.status) >= rank && step.value.used <= PartCodes(part)
    else step.None? || (step.value.row.status == NotSelected && step.value.used == {})
  }

  lemma FollowsStep(trail: Trail, parts: seq<Option<Plan>>, indices: seq<nat>, step: Option<Candidate>, rank: nat)
    requires rank >= 1
    requires Follows(trail, parts, indices, rank) && |trail| < |parts|
    requires StepFollows(step, parts[|trail|], |trail| in indices, rank)
    ensures Follows(trail + [step], parts, indices, rank)
  {
    hide TrailUsed, TrailChosen, PartsCodes, ChosenBelow, StepFollows, Counts;
    TrailFoldsUsed(trail, step);
    ChosenBelowStep(indices, |trail|);
    StepWithin(parts, |trail|, step, |trail| in indices, rank);
    forall i | 0 <= i < |trail| + 1 ensures StepFollows((trail + [step])[i], parts[i], i in indices, rank) {}
  }

  lemma StepWithin(parts: seq<Option<Plan>>, n: nat, step: Option<Candidate>, chosen: bool, rank: nat)
    requires rank >= 1 && n < |parts| && StepFollows(step, parts[n], chosen, rank)
    ensures (if step.Some? then step.value.used else {}) <= PartsCodes(parts)
    ensures (if step.Some? then Counts(step.value) else 0) == if chosen then 1 else 0
  {
    PartsCodesMembers(parts);
  }

  lemma {:induction false} PlanTrail(rule: Rule, grade: string, record: seq<Attempt>, merge: bool,
                                     parts: seq<Option<Plan>>, indices: seq<nat>, n: nat, rank: nat)
      returns (trail: Trail)
    requires WellFormed(rule) && ValidRecord(record) && 3 <= rank <= 5
    requires n <= |rule.children| == |parts| && PairwiseDisjoint(parts)
    requires NoDuplicates(indices) && IsSelection(indices, ActiveIndices(rule, 0)) && |indices| == ContainerNeed(rule)
    requires forall i <- indices :: i < |parts| && parts[i].Some?
               && Secures(rule.children[i], grade, record, parts[i].value, rank)
    ensures |trail| == n && ValidTrail(rule, ChildOptions(rule, grade, record, merge), trail)
    ensures Follows(trail, parts, indices, rank)
    decreases rule, 0, n + 1
  {
    if n == 0 {
      trail := [];
      assert ChosenBelow(indices, 0) == {};
    } else {
      var options := ChildOptions(rule, grade, record, merge);
      assert |options| == |rule.children|;
      var front := PlanTrail(rule, grade, record, merge, parts, indices, n - 1, rank);
      hide ValidTrail, Follows, Secures, WellFormed, ChildOptions, PairwiseDisjoint, NoDuplicates, IsSelection;
      var step := PlanStep(rule, grade, record, merge, parts, indices, n - 1, rank);
      PlanTrailStep(rule, options, parts, indices, front, step, rank);
      trail := front + [step];
    }
  }

  /** What a trail takes at the i-th child: an option within the child's assignment if it is chosen. */
  lemma {:induction false} PlanStep(rule: Rule, grade: string, record: seq<Attempt>, merge: bool,
                                    parts: seq<Option<Plan>>, indices: seq<nat>, i: nat, rank: nat)
      returns (step: Option<Candidate>)
    requires WellFormed(rule) && ValidRecord(record) && 3 <= rank <= 5 && i < |rule.children| == |parts|
    requires NoDuplicates(indices) && IsSelection(indices, ActiveIndices(rule, 0)) && |indices| == ContainerNeed(rule)
    requires i in indices ==> parts[i].Some? && Secures(rule.children[i], grade, record, parts[i].value, rank)
    ensures StepFollows(step, parts[i], i in indices, rank)
    ensures step.None? ==> rule.kind != AllOf
    ensures step.Some? ==> i in indices || rule.kind == AllOf
    ensures step.Some? ==> step.value in ChildOptions(rule, grade, record, merge)[i]
    decreases rule, 0, 0
  {
    if i in indices {
      var c := OptionComplete(rule.children[i], grade, record, merge, parts[i].value, rank);
      step := Some(c);
    } else if rule.kind == AllOf {
      AllOfSkipsInformational(rule, indices, i);
      step := Some(Candidate(NotSelectedRow(rule.children[i]), {}));
      InformationalOption(rule, grade, record, merge, i);
    } else {
      step := None;
    }
  }

  /** The next step, taken from the child's options, keeps the trail valid and within the assignment. */
  lemma PlanTrailStep(rule: Rule, options: seq<seq<Candidate>>, parts: seq<Option<Plan>>, indices: seq<nat>,
                      front: Trail, step: Option<Candidate>, rank: nat)
    requires ValidTrail(rule, options, front) && Follows(front, parts, indices, rank) && rank >= 1
    requires |front| < |parts| == |options| && PairwiseDisjoint(parts)
    requires NoDuplicates(indices) && |indices| == ContainerNeed(rule)
    requires StepFollows(step, parts[|front|], |front| in indices, rank)
    requires |front| in indices ==> parts[|front|].Some?
    requires step.None? ==> rule.kind != AllOf
    requires step.Some? ==> step.value in options[|front|] && (|front| in indices || rule.kind == AllOf)
    ensures ValidTrail(rule, options, front + [step]) && Follows(front + [step], parts, indices, rank)
  {
    FollowsStep(front, parts, indices, step, rank);
    if |front| in indices {
      ChosenBelowMore(indices, |front|);
      PlanTrailDisjoint(front, parts, indices, step.value.used, rank);
    }
    hide ValidTrail, StepFollows, PairwiseDisjoint, NoDuplicates;
    ExtendTrail(rule, options, front, step);
  }

  lemma InformationalOption(rule: Rule, grade: string, record: seq<Attempt>, merge: bool, i: nat)
    requires i < |rule.children| && rule.children[i].IsInformational()
    ensures Candidate(NotSelectedRow(rule.children[i]), {}) in ChildOptions(rule, grade, record, merge)[i]
  {
    var only := Candidate(NotSelectedRow(rule.children[i]), {});
    assert Options(rule.children[i], grade, record, merge) == [only];
    assert only in [only];
  }

  lemma ExtendTrail(rule: Rule, options: seq<seq<Candidate>>, front: Trail, step: Option<Candidate>)
    requires ValidTrail(rule, options, front) && |front| < |options|
    requires step.None? ==> rule.kind != AllOf
    requires step.Some? ==> step.value in options[|front|] && step.value.used !! TrailUsed(front)
                            && (rule.kind == AllOf || TrailChosen(front) < ContainerNeed(rule))
    ensures ValidTrail(rule, options, front + [step])
  {
    assert (front + [step])[..|front|] == front;
    assert StepOpen(rule, options, front + [step], |front|);
    TrailStep(rule, options, front, step);
  }

  lemma PlanTrailDisjoint(front: Trail, parts: seq<Option<Plan>>, indices: seq<nat>, used: set<Code>, rank: nat)
    requires Follows(front, parts, indices, rank) && |front| < |parts| && PairwiseDisjoint(parts)
    requires parts[|front|].Some? && used <= PlanCodes(parts[|front|].value)
    ensures used !! TrailUsed(front)
  {
    TrailUsedMembers(front);
    hide TrailUsed, TrailChosen, ChosenBelow, PartsCodes;
    forall c | c in TrailUsed(front) ensures c !in used {
      var i :| 0 <= i < |front| && front[i].Some? && c in front[i].value.used;
      assert StepFollows(front[i], parts[i], i in indices, rank);
      assert c in PartCodes(parts[i]);
    }
  }

  lemma AllOfSkipsInformational(rule: Rule, indices: seq<nat>, i: nat)
    requires rule.kind == AllOf && i < |rule.children| && i !in indices
    requires NoDuplicates(indices) && IsSelection(indices, ActiveIndices(rule, 0)) && |indices| == ContainerNeed(rule)
    ensures rule.children[i].IsInformational()
  {
    var active := ActiveIndices(rule, 0);
    if !rule.children[i].IsInformational() {
      SelectionMembers(indices, active);
      ElementCount(indices);
      ElementCount(active);
      assert Elements(indices) <= Elements(active) - {i};
      SubsetCount(Elements(indices), Elements(active) - {i});
      assert false;
    }
  }

  lemma FullTrailRank(rule: Rule, full: Trail, parts: seq<Option<Plan>>, indices: seq<nat>, rank: nat)
    requires 3 <= rank <= 5 && |full| == |rule.children| == |parts| && NoDuplicates(indices) && indices != []
    requires |indices| == ContainerNeed(rule) && forall i <- indices :: i < |full|
    requires Follows(full, parts, indices, rank)
    ensures Rank(Built(rule, full).row.status) >= rank
  {
    var rows := TrailRows(rule, full);
    ActiveStatusesMembers(rows);
    ChosenBelowAll(indices, |full|);
    forall s | s in ActiveStatuses(rows) ensures Rank(s) >= rank {
      var i :| 0 <= i < |rows| && rows[i].status == s;
      assert StepFollows(full[i], parts[i], i in indices, rank);
    }
    assert indices[0] in indices;
    assert StepFollows(full[indices[0]], parts[indices[0]], true, rank);
    assert rows[indices[0]].status in ActiveStatuses(rows);
    AggregateCompletion(ActiveStatuses(rows), TrailChosen(full) < ContainerNeed(rule), rank);
  }

  /** Taking one attempt out of a selection. */
  lemma RemoveOne(t: seq<Attempt>, s: seq<Attempt>, i: nat)
    requires IsSelection(t, s) && i < |t|
    ensures IsSelection(t[..i] + t[i + 1..], s)
    ensures TotalCredits(t[..i] + t[i + 1..]) == TotalCredits(t) - t[i].Credits()
  {
    assert t == t[..i] + ([t[i]] + t[i + 1..]);
    TotalCreditsAppend(t[..i], [t[i]] + t[i + 1..]);
    TotalCreditsAppend(t[..i], t[i + 1..]);
    assert ([t[i]] + t[i + 1..])[1..] == t[i + 1..];
    DropIsSelection(t, i);
    SelectionTransitive(t[..i] + t[i + 1..], t, s);
  }

  lemma {:induction false} SelectionSelf<T>(t: seq<T>)
    ensures IsSelection(t, t)
  {
    if t != [] { SelectionSelf(t[1..]); }
  }

  lemma {:induction false} DropIsSelection<T>(t: seq<T>, i: nat)
    requires i < |t|
    ensures IsSelection(t[..i] + t[i + 1..], t)
  {
    var rest := t[..i] + t[i + 1..];
    if i == 0 {
      assert rest == t[1..];
      SelectionSelf(t[1..]);
    } else {
      DropIsSelection(t[1..], i - 1);
      assert rest[1..] == t[1..][..i - 1] + t[1..][i..];
    }
  }

  /** Dropping attempts a credit rule does not need ends in a selection that needs them all. */
  lemma {:induction false} MinimalSelection(rule: Rule, s: seq<Attempt>, t: seq<Attempt>) returns (u: seq<Attempt>)
    requires IsSelection(t, s) && MeetsLeaf(rule, t) && |Codes(t)| == |t|
    ensures IsSelection(u, s) && MeetsLeaf(rule, u) && KeepsOption(rule, u)
    ensures forall a <- u :: a in t
    decreases |t|
  {
    if Superfluous(rule, t) {
      var a :| a in t && TotalCredits(t) - a.Credits() >= rule.CreditFloor();
      var i :| 0 <= i < |t| && t[i] == a;
      var less := t[..i] + t[i + 1..];
      RemoveOne(t, s, i);
      CodesCount(t);
      assert DistinctCourses(less);
      CodesCount(less);
      u := MinimalSelection(rule, s, less);
    } else {
      u := t;
    }
  }

  lemma SufficientSelection(rule: Rule, grade: string, record: seq<Attempt>, chosen: set<Attempt>, rank: nat)
      returns (t: seq<Attempt>)
    requires ExecutableLeaf(rule) && 3 <= rank <= 5 && ValidRecord(record)
    requires SecuresLeaf(rule, grade, record, chosen, rank)
    ensures OptionChoice(rule, grade, record, t)
    ensures Rank(LeafOption(rule, grade, t).row.status) >= rank
    ensures Codes(t) <= PlanCodes(Take(chosen))
  {
    var eligible := Countable(record, rule, grade);
    var all := RestrictedChoice(rule, grade, record, chosen, rank);
    var enough := if rule.kind == CreditThreshold then all else all[..rule.LeafNeed()];
    SelectionPrefix(all, eligible, |enough|);
    assert enough == all[..|enough|];
    RecordHasNoDuplicates(record);
    SelectionNoDuplicates(eligible, record);
    SelectionNoDuplicates(enough, eligible);
    assert forall a <- enough :: a in all;
    ChosenCoursesDistinct(enough, chosen);
    if rule.kind == CreditThreshold {
      t := MinimalSelection(rule, eligible, enough);
      assert TotalCredits([]) == 0.0;
    } else {
      t := enough;
    }
    LeafOptionRank(rule, grade, t, rank);
  }

  lemma RestrictedChoice(rule: Rule, grade: string, record: seq<Attempt>, chosen: set<Attempt>, rank: nat)
      returns (all: seq<Attempt>)
    requires 3 <= rank <= 5 && ValidRecord(record)
    requires SecuresLeaf(rule, grade, record, chosen, rank)
    ensures IsSelection(all, Countable(record, rule, grade)) && MeetsLeaf(rule, all)
    ensures forall a <- all :: a in chosen
  {
    var eligible := Countable(record, rule, grade);
    RecordHasNoDuplicates(record);
    SelectionNoDuplicates(eligible, record);
    forall a | a in chosen ensures a in eligible {
      assert IsEligible(a, rule, {}, grade, Rank(Unresolved));
    }
    RestrictThroughSelection(eligible, record, chosen);
    RestrictCount(eligible, chosen);
    RestrictIsSelection(eligible, chosen);
    all := Restrict(eligible, chosen);
  }

  lemma LeafOptionRank(rule: Rule, grade: string, t: seq<Attempt>, rank: nat)
    requires 3 <= rank <= 5 && t != [] && MeetsLeaf(rule, t)
    requires forall a <- t :: Rank(AttemptStatus(a, grade)) >= rank
    ensures Rank(LeafOption(rule, grade, t).row.status) >= rank
  {
    var statuses := Statuses(t, grade);
    assert NotSelected !in statuses;
    forall s | s in statuses ensures Rank(s) >= rank {
      var i :| 0 <= i < |statuses| && statuses[i] == s;
      assert t[i] in t;
    }
    AggregateCompletion(statuses, false, rank);
  }

  // ---------------------------------------------------------------- when nothing is complete

  /** Some allocation, complete or not, runs into something that the rules and the record leave undecided. */
  ghost predicate CanBeUnresolved(rule: Rule, inherited: string, record: seq<Attempt>)
    decreases rule
  {
    var grade := EffectiveGrade(rule, inherited);
    if rule.IsInformational() then false
    else if IsOpaque(rule, grade) then true
    else if rule.children != [] then
      || (exists i :: 0 <= i < |rule.children| && CanBeUnresolved(rule.children[i], grade, record))
      || (rule.kind == AllOf && ActiveIndices(rule, 0) == [])
    else exists a <- record :: rule.Lists(a.code) && AttemptStatus(a, grade) == Unresolved
  }

  lemma {:induction false} UnresolvedMonotone(rule: Rule, inherited: string, record: seq<Attempt>, more: seq<Attempt>)
    requires forall a <- record :: a in more
    requires CanBeUnresolved(rule, inherited, record)
    ensures CanBeUnresolved(rule, inherited, more)
    decreases rule
  {
    var grade := EffectiveGrade(rule, inherited);
    if !IsOpaque(rule, grade) && rule.children != [] {
      if i :| 0 <= i < |rule.children| && CanBeUnresolved(rule.children[i], grade, record) {
        UnresolvedMonotone(rule.children[i], grade, record, more);
      }
    }
  }

  /** An enumerated allocation is unresolved only when something unresolved is within reach. */
  lemma {:induction false} UnresolvedSound(rule: Rule, inherited: string, record: seq<Attempt>, merge: bool,
                                           c: Candidate)
    requires WellFormed(rule)
    requires c in Options(rule, inherited, record, merge) && c.row.status == Unresolved
    ensures CanBeUnresolved(rule, inherited, record)
    decreases rule
  {
    var grade := EffectiveGrade(rule, inherited);
    OptionStatus(rule, inherited, record, merge, c);
    if IsOpaque(rule, grade) {
    } else if rule.children != [] {
      var full := OptionTrail(rule, inherited, record, merge, c);
      var rows := TrailRows(rule, full);
      ActiveStatusesMembers(rows);
      if Unresolved in ActiveStatuses(rows) {
        var i :| 0 <= i < |rows| && rows[i].status == Unresolved;
        assert full[i].Some?;
        assert StepOpen(rule, ChildOptions(rule, grade, record, merge), full, i);
        UnresolvedSound(rule.children[i], grade, record, merge, full[i].value);
      } else {
        NothingChosen(rule, full);
      }
    } else {
      var t := LeafOptionSelection(rule, inherited, record, merge, c);
      var statuses := Statuses(t, grade);
      if Unresolved in statuses {
        var i :| 0 <= i < |statuses| && statuses[i] == Unresolved;
        SelectionMembers(t, Countable(record, rule, grade));
        SelectionMembers(Countable(record, rule, grade), record);
        assert t[i] in t;
      } else {
        assert false;
      }
    }
  }

  lemma {:induction false} NothingChosen(rule: Rule, full: Trail)
    requires |full| <= |rule.children| && ActiveStatuses(TrailRows(rule, full)) == []
    ensures TrailChosen(full) == 0
  {
    if full != [] {
      var front, last := full[..|full| - 1], full[|full| - 1];
      assert full == front + [last];
      TrailFoldsRows(rule, front, last);
      ActiveStatusesMembers(TrailRows(rule, full));
      assert TrailRows(rule, full)[|full| - 1].status == NotSelected;
      ActiveStatusesAppend(TrailRows(rule, front), [TrailRows(rule, full)[|full| - 1]]);
      NothingChosen(rule, front);
    }
  }

  lemma {:induction false} ActiveStatusesAppend(a: seq<Row>, b: seq<Row>)
    ensures ActiveStatuses(a + b) == ActiveStatuses(a) + ActiveStatuses(b)
  {
    if a == [] {
      assert a + b == b;
    } else {
      assert (a + b)[1..] == a[1..] + b;
      ActiveStatusesAppend(a[1..], b);
    }
  }

  lemma SingletonSelection<T>(s: seq<T>, x: T)
    requires x in s
    ensures IsSelection([x], s)
  {
    if s[0] != x {
      HeadAndTail(s);
      SingletonSelection(s[1..], x);
    }
  }

  /** Whenever something unresolved is within reach the enumeration reports it. */
  lemma {:induction false} UnresolvedComplete(rule: Rule, inherited: string, record: seq<Attempt>, merge: bool)
      returns (c: Candidate)
    requires WellFormed(rule) && CanBeUnresolved(rule, inherited, record)
    ensures c in Options(rule, inherited, record, merge) && c.row.status == Unresolved
    decreases rule
  {
    var grade := EffectiveGrade(rule, inherited);
    if IsOpaque(rule, grade) {
      c := Candidate(BareRow(rule, Unresolved), {});
    } else if rule.children != [] {
      var full := ZeroTrail(rule, grade, record, merge, |rule.children|);
      if i :| 0 <= i < |rule.children| && CanBeUnresolved(rule.children[i], grade, record) {
        var child := UnresolvedComplete(rule.children[i], grade, record, merge);
        full := PlaceOne(rule, ChildOptions(rule, grade, record, merge), full, i, child);
        var rows := TrailRows(rule, full);
        ActiveStatusesMembers(rows);
        assert rows[i].status == Unresolved;
      } else {
        ZeroTrailOfNotes(rule, grade, record, merge, full);
      }
      ContainerOptionCovered(rule, inherited, record, merge, full);
      c :| c in Options(rule, inherited, record, merge) && Dominates(c, Built(rule, full));
    } else {
      var a :| a in record && rule.Lists(a.code) && AttemptStatus(a, grade) == Unresolved;
      c := UnresolvedLeaf(rule, inherited, record, merge, a);
    }
  }

  lemma UnresolvedLeaf(rule: Rule, inherited: string, record: seq<Attempt>, merge: bool, a: Attempt)
      returns (c: Candidate)
    requires ExecutableLeaf(rule) && GradeSupported(EffectiveGrade(rule, inherited))
    requires a in record && rule.Lists(a.code) && AttemptStatus(a, EffectiveGrade(rule, inherited)) == Unresolved
    ensures c in Options(rule, inherited, record, merge) && c.row.status == Unresolved
  {
    var grade := EffectiveGrade(rule, inherited);
    var eligible := Countable(record, rule, grade);
    assert IsEligible(a, rule, {}, grade, Rank(Unresolved));
    SingletonSelection(eligible, a);
    var t := [a];
    assert t[1..] == [];
    CodesCount(t);
    assert TotalCredits(t) == a.Credits();
    assert KeepsOption(rule, t);
    LeafOptionCovered(rule, inherited, record, merge, t);
    assert Statuses(t, grade)[0] == Unresolved;
    c :| c in Options(rule, inherited, record, merge) && Dominates(c, LeafOption(rule, grade, t));
  }

  /** Put one candidate into a trail that otherwise takes nothing. */
  lemma PlaceOne(rule: Rule, options: seq<seq<Candidate>>, zero: Trail, i: nat, child: Candidate) returns (full: Trail)
    requires |zero| == |rule.children| && ValidTrail(rule, options, zero) && i < |zero|
    requires TrailUsed(zero) == {} && forall k :: 0 <= k < |zero| ==> (zero[k].Some? <==> rule.kind == AllOf)
    requires rule.kind != AllOf ==> ContainerNeed(rule) >= 1
    requires child in options[i]
    ensures |full| == |zero| && ValidTrail(rule, options, full) && full[i] == Some(child)
  {
    full := zero[i := Some(child)];
    TrailUsedMembers(zero);
    forall k: nat | k < |full| ensures StepOpen(rule, options, full, k) {
      assert StepOpen(rule, options, zero, k);
      PlacedPrefix(zero, full, i, child, k);
    }
  }

  lemma {:induction false} PlacedPrefix(zero: Trail, full: Trail, i: nat, child: Candidate, k: nat)
    requires i < |zero| && full == zero[i := Some(child)] && k <= |zero|
    requires forall j :: 0 <= j < |zero| && zero[j].Some? ==> zero[j].value.used == {}
    ensures TrailUsed(full[..k]) == if k > i then child.used else {}
    ensures k <= i && (forall j :: 0 <= j < |zero| ==> zero[j].None?) ==> TrailChosen(full[..k]) == 0
  {
    if k > 0 {
      PlacedPrefix(zero, full, i, child, k - 1);
      assert full[..k] == full[..k - 1] + [full[k - 1]];
      TrailFoldsUsed(full[..k - 1], full[k - 1]);
    }
  }

  lemma ZeroTrailOfNotes(rule: Rule, grade: string, record: seq<Attempt>, merge: bool, full: Trail)
    requires rule.kind == AllOf && ActiveIndices(rule, 0) == [] && |full| == |rule.children|
    requires ValidTrail(rule, ChildOptions(rule, grade, record, merge), full)
    ensures Built(rule, full).row.status == Unresolved
  {
    var rows := TrailRows(rule, full);
    forall i | 0 <= i < |rows| ensures rows[i].status == NotSelected {
      assert rule.children[i].IsInformational();
      if full[i].Some? {
        assert StepOpen(rule, ChildOptions(rule, grade, record, merge), full, i);
        OptionStatus(rule.children[i], grade, record, merge, full[i].value);
      }
    }
    NoneActive(rows);
  }

  lemma {:induction false} NoneActive(rows: seq<Row>)
    requires forall row <- rows :: row.status == NotSelected
    ensures ActiveStatuses(rows) == []
  {
    if rows != [] { NoneActive(rows[1..]); }
  }

  // ---------------------------------------------------------------- merging loses nothing

  ghost predicate TrailDominates(better: Trail, full: Trail) {
    && |better| <= |full|
    && forall i :: 0 <= i < |better| ==>
         && (better[i].Some? <==> full[i].Some?)
         && (better[i].Some? ==> Dominates(better[i].value, full[i].value))
  }

  /** Exchange: each allocation of the full enumeration is dominated by one the merged lists keep. */
  lemma {:induction false} Exchange(rule: Rule, inherited: string, record: seq<Attempt>, c: Candidate)
    requires c in Options(rule, inherited, record, false)
    ensures Covered(Options(rule, inherited, record, true), c)
    decreases rule, 1, 0
  {
    var grade := EffectiveGrade(rule, inherited);
    if rule.IsInformational() || IsOpaque(rule, grade) {
      assert Dominates(c, c);
    } else if rule.children != [] {
      var full := OptionTrail(rule, inherited, record, false, c);
      var better := ExchangeTrail(rule, grade, record, full, |full|);
      assert full[..|full|] == full;
      BuiltDominates(rule, better, full);
      ContainerOptionCovered(rule, inherited, record, true, better);
      var kept :| kept in Options(rule, inherited, record, true) && Dominates(kept, Built(rule, better));
      assert Dominates(kept, c);
    } else {
      var t := LeafOptionSelection(rule, inherited, record, false, c);
      LeafOptionCovered(rule, inherited, record, true, t);
    }
  }

  lemma {:induction false} ExchangeTrail(rule: Rule, grade: string, record: seq<Attempt>, full: Trail, n: nat)
      returns (better: Trail)
    requires ValidTrail(rule, ChildOptions(rule, grade, record, false), full) && n <= |full|
    ensures |better| == n && ValidTrail(rule, ChildOptions(rule, grade, record, true), better)
    ensures TrailDominates(better, full)
    ensures TrailUsed(better) == TrailUsed(full[..n]) && TrailChosen(better) == TrailChosen(full[..n])
    decreases rule, 0, n + 1
  {
    if n == 0 {
      better := [];
    } else {
      var options := ChildOptions(rule, grade, record, true);
      var front := ExchangeTrail(rule, grade, record, full, n - 1);
      var step := ExchangePick(rule, grade, record, full, n - 1);
      hide ValidTrail, ChildOptions, Dominates, TrailDominates, TrailUsed, TrailChosen;
      ExchangeStep(rule, options, ChildOptions(rule, grade, record, false), full, front, step);
      DominatesMore(front, step, full);
      better := front + [step];
    }
  }

  lemma DominatesMore(front: Trail, step: Option<Candidate>, full: Trail)
    requires TrailDominates(front, full) && |front| < |full|
    requires step.Some? <==> full[|front|].Some?
    requires step.Some? ==> Dominates(step.value, full[|front|].value)
    ensures TrailDominates(front + [step], full)
  {
    hide Dominates;
  }

  /** A better-scoring option of the search with deduplication, for one step of the trail. */
  lemma {:induction false} ExchangePick(rule: Rule, grade: string, record: seq<Attempt>, full: Trail, i: nat)
      returns (step: Option<Candidate>)
    requires ValidTrail(rule, ChildOptions(rule, grade, record, false), full) && i < |full|
    ensures step.Some? <==> full[i].Some?
    ensures step.Some? ==>
              step.value in ChildOptions(rule, grade, record, true)[i] && Dominates(step.value, full[i].value)
    decreases rule, 0, 0
  {
    assert StepOpen(rule, ChildOptions(rule, grade, record, false), full, i);
    step := None;
    if full[i].Some? {
      Exchange(rule.children[i], grade, record, full[i].value);
      var kept :| kept in Options(rule.children[i], grade, record, true) && Dominates(kept, full[i].value);
      step := Some(kept);
    }
  }

  lemma ExchangeStep(rule: Rule, options: seq<seq<Candidate>>, all: seq<seq<Candidate>>, full: Trail, front: Trail,
                     step: Option<Candidate>)
    requires ValidTrail(rule, all, full) && ValidTrail(rule, options, front) && |front| < |full|
    requires TrailUsed(front) == TrailUsed(full[..|front|]) && TrailChosen(front) == TrailChosen(full[..|front|])
    requires step.Some? <==> full[|front|].Some?
    requires step.Some? ==> step.value in options[|front|] && Dominates(step.value, full[|front|].value)
    ensures ValidTrail(rule, options, front + [step])
    ensures TrailUsed(front + [step]) == TrailUsed(full[..|front| + 1])
    ensures TrailChosen(front + [step]) == TrailChosen(full[..|front| + 1])
  {
    var n := |front|;
    assert StepOpen(rule, all, full, n);
    PrefixMore(full, n);
    TrailFoldsUsed(front, step);
    TrailFoldsUsed(full[..n], full[n]);
    hide TrailUsed, TrailChosen, ValidTrail, ContainerNeed;
    ExtendTrail(rule, options, front, step);
  }

  lemma BuiltDominates(rule: Rule, better: Trail, full: Trail)
    requires rule.children != [] && |better| == |full| == |rule.children| && TrailDominates(better, full)
    requires TrailUsed(better) == TrailUsed(full) && TrailChosen(better) == TrailChosen(full)
    ensures Dominates(Built(rule, better), Built(rule, full))
  {
    RowsDominate(TrailRows(rule, better), TrailRows(rule, full));
  }

  lemma {:induction false} RowsDominate(better: seq<Row>, rows: seq<Row>)
    requires |better| == |rows|
    requires forall i :: 0 <= i < |rows| ==>
               better[i].status == rows[i].status && TotalsAtMost(TotalsOf(rows[i]), TotalsOf(better[i]))
    ensures ActiveStatuses(better) == ActiveStatuses(rows)
    ensures TotalsAtMost(TotalsOfAll(rows), TotalsOfAll(better))
  {
    if rows != [] { RowsDominate(better[1..], rows[1..]); }
  }

  /** The merged lists invent nothing. */
  lemma {:induction false} MergedIsEnumerated(rule: Rule, inherited: string, record: seq<Attempt>, c: Candidate)
    requires c in Options(rule, inherited, record, true)
    ensures c in Options(rule, inherited, record, false)
    decreases rule
  {
    var grade := EffectiveGrade(rule, inherited);
    if !rule.IsInformational() && !IsOpaque(rule, grade) {
      if rule.children != [] {
        var full := OptionTrail(rule, inherited, record, true, c);
        var options := ChildOptions(rule, grade, record, false);
        forall i: nat | i < |full| ensures StepOpen(rule, options, full, i) {
          assert StepOpen(rule, ChildOptions(rule, grade, record, true), full, i);
          if full[i].Some? {
            MergedIsEnumerated(rule.children[i], grade, record, full[i].value);
          }
        }
        TrailIsOption(rule, options, full);
      } else {
        MergeIfKeepsBest(EachOption(rule, grade, OptionSelections(rule, Countable(record, rule, grade))), true);
      }
    }
  }

  /** The merge is lossless: it keeps every reachable pair of consumed courses and status, invents
      none, and for each keeps an allocation whose score nothing with that pair exceeds. */
  lemma MergeIsLossless(rule: Rule, inherited: string, record: seq<Attempt>)
    ensures forall c <- Options(rule, inherited, record, true) :: c in Options(rule, inherited, record, false)
    ensures forall c <- Options(rule, inherited, record, false) ::
              exists kept :: kept in Options(rule, inherited, record, true)
                             && SameKey(kept, c) && !ScoreLess(ScoreOf(kept), ScoreOf(c))
  {
    forall c | c in Options(rule, inherited, record, true) ensures c in Options(rule, inherited, record, false) {
      MergedIsEnumerated(rule, inherited, record, c);
    }
    forall c | c in Options(rule, inherited, record, false)
      ensures exists kept :: kept in Options(rule, inherited, record, true)
                             && SameKey(kept, c) && !ScoreLess(ScoreOf(kept), ScoreOf(c))
    {
      Exchange(rule, inherited, record, c);
      var kept :| kept in Options(rule, inherited, record, true) && Dominates(kept, c);
      ScoreComparesTotals(kept, c);
    }
  }
}
