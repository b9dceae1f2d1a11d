/** The exhaustive enumeration against the reference assignments, and the dominance merge
    against the enumeration without it. */
module OptionProofs {
  import opened AuditRules
  import opened Selections
  import opened AuditPlans
  import opened WitnessTraces
  import opened OptionSearch

  // ---------------------------------------------------------------- the score is additive

  datatype Totals = Totals(satisfied: nat, count: nat, credits: real)

  function Plus(a: Totals, b: Totals): Totals {
    Totals(a.satisfied + b.satisfied, a.count + b.count, a.credits + b.credits)
  }

  /** The additive part of the score, computed on the tree instead of the flattened rows. */
  function TotalsOf(row: Row): Totals
    decreases row
  {
    if row.children != [] then TotalsOfAll(row.children)
    else if row.status == NotSelected then Totals(0, 0, 0.0)
    else Totals(if row.status == Satisfied then 1 else 0,
                if row.satisfiedCount.Some? then row.satisfiedCount.value else 0, row.credits)
  }

  function TotalsOfAll(rows: seq<Row>): Totals
    decreases rows
  {
    if rows == [] then Totals(0, 0, 0.0) else Plus(TotalsOf(rows[0]), TotalsOfAll(rows[1..]))
  }

  function LeafTotals(rows: seq<Row>): Totals {
    var leaves := ScoredLeaves(rows);
    Totals(SatisfiedLeaves(leaves), SatisfiedCounts(leaves), RowCredits(leaves))
  }

  lemma {:induction false} LeafTotalsAppend(a: seq<Row>, b: seq<Row>)
    ensures LeafTotals(a + b) == Plus(LeafTotals(a), LeafTotals(b))
  {
    if a == [] {
      assert a + b == b;
    } else {
      assert a + b == [a[0]] + (a[1..] + b);
      LeafTotalsAppend(a[1..], b);
    }
  }

  lemma {:induction false} TotalsMatch(row: Row)
    ensures LeafTotals(Flatten(row)) == TotalsOf(row)
    decreases row
  {
    AllTotalsMatch(row.children);
    LeafTotalsAppend([row], FlattenAll(row.children));
    OwnTotals(row);
  }

  lemma OwnTotals(row: Row)
    ensures LeafTotals([row]) == if row.children == [] then TotalsOf(row) else Totals(0, 0, 0.0)
  {
    var own := [row];
    assert own[0] == row && own[1..] == [];
    assert ScoredLeaves(own[1..]) == [];
    if row.children == [] && row.status != NotSelected {
      assert ScoredLeaves(own) == [row] + [];
      assert [row] + [] == own;
      assert SatisfiedLeaves(own[1..]) == 0 && SatisfiedCounts(own[1..]) == 0 && RowCredits(own[1..]) == 0.0;
    } else {
      assert ScoredLeaves(own) == [];
    }
  }

  lemma {:induction false} AllTotalsMatch(rows: seq<Row>)
    ensures LeafTotals(FlattenAll(rows)) == TotalsOfAll(rows)
    decreases rows
  {
    if rows != [] {
      TotalsMatch(rows[0]);
      AllTotalsMatch(rows[1..]);
      LeafTotalsAppend(Flatten(rows[0]), FlattenAll(rows[1..]));
    }
  }

  predicate TotalsAtMost(a: Totals, b: Totals) {
    a.satisfied < b.satisfied || (a.satisfied == b.satisfied &&
      (a.count < b.count || (a.count == b.count && a.credits <= b.credits)))
  }

  /** With one key the score compares exactly the additive totals. */
  lemma ScoreComparesTotals(a: Candidate, b: Candidate)
    requires SameKey(a, b)
    ensures ScoreLess(ScoreOf(a), ScoreOf(b)) <==> !TotalsAtMost(TotalsOf(b.row), TotalsOf(a.row))
  {
    TotalsMatch(a.row);
    TotalsMatch(b.row);
  }

  // ---------------------------------------------------------------- the merge keeps a best one per key

  /** `better` stands in for `c`: same courses, same status, totals at least as good. */
  ghost predicate Dominates(better: Candidate, c: Candidate) {
    SameKey(better, c) && TotalsAtMost(TotalsOf(c.row), TotalsOf(better.row))
  }

  ghost predicate Covered(cs: seq<Candidate>, c: Candidate) {
    exists better :: better in cs && Dominates(better, c)
  }

  lemma {:induction false} MergeMembers(best: seq<Candidate>, c: Candidate, x: Candidate)
    requires x in Merge(best, c)
    ensures x in best || x == c
  {
    if best != [] && !SameKey(best[0], c) && x != best[0] {
      MergeMembers(best[1..], c, x);
    }
  }

  lemma {:induction false} MergeCovers(best: seq<Candidate>, c: Candidate, x: Candidate)
    requires x == c || x in best
    ensures Covered(Merge(best, c), x)
  {
    if best == [] {
      assert Dominates(c, x) && c in Merge(best, c);
    } else if SameKey(best[0], c) {
      ScoreComparesTotals(best[0], c);
      var first := Merge(best, c)[0];
      assert Dominates(first, c) && Dominates(first, best[0]);
      if x != c && x != best[0] {
        assert x in best[1..] && x in Merge(best, c);
        assert Dominates(x, x);
      }
    } else if x == best[0] {
      assert x in Merge(best, c) && Dominates(x, x);
    } else {
      MergeCovers(best[1..], c, x);
      var better :| better in Merge(best[1..], c) && Dominates(better, x);
      assert better in Merge(best, c);
    }
  }

  lemma CoverTransitive(cs: seq<Candidate>, mid: seq<Candidate>, x: Candidate)
    requires Covered(mid, x)
    requires forall y <- mid :: Covered(cs, y)
    ensures Covered(cs, x)
  {
    var y :| y in mid && Dominates(y, x);
    var z :| z in cs && Dominates(z, y);
    assert Dominates(z, x);
  }

  /** Every candidate of the merged list was in the list, and every candidate is dominated. */
  lemma {:induction false} DeduplicateKeepsBest(cs: seq<Candidate>)
    ensures forall x <- Deduplicate(cs) :: x in cs
    ensures forall x <- cs :: Covered(Deduplicate(cs), x)
  {
    if cs != [] {
      var front, last := cs[..|cs| - 1], cs[|cs| - 1];
      assert cs == front + [last];
      DeduplicateKeepsBest(front);
      forall x | x in Deduplicate(cs) ensures x in cs {
        MergeMembers(Deduplicate(front), last, x);
      }
      forall y | y in Deduplicate(front) ensures Covered(Deduplicate(cs), y) {
        MergeCovers(Deduplicate(front), last, y);
      }
      MergeCovers(Deduplicate(front), last, last);
      forall x | x in cs ensures Covered(Deduplicate(cs), x) {
        if x in front {
          CoverTransitive(Deduplicate(cs), Deduplicate(front), x);
        }
      }
    }
  }

  lemma MergeIfKeepsBest(cs: seq<Candidate>, merge: bool)
    ensures forall x <- MergeIf(cs, merge) :: x in cs
    ensures forall x <- cs :: Covered(MergeIf(cs, merge), x)
  {
    if merge {
      DeduplicateKeepsBest(cs);
    } else {
      forall x | x in cs ensures Covered(cs, x) {
        assert Dominates(x, x);
      }
    }
  }

  // ---------------------------------------------------------------- container trails

  /** What a container did with each of its first children: left it out, or took a candidate. */
  type Trail = seq<Option<Candidate>>

  function TrailRows(rule: Rule, trail: Trail): seq<Row>
    requires |trail| <= |rule.children|
  {
    seq(|trail|, i requires 0 <= i < |trail| =>
      if trail[i].Some? then trail[i].value.row else NotSelectedRow(rule.children[i]))
  }

  function TrailUsed(trail: Trail): set<Code> {
    if trail == [] then {}
    else
      var last := trail[|trail| - 1];
      TrailUsed(trail[..|trail| - 1]) + (if last.Some? then last.value.used else {})
  }

  function TrailChosen(trail: Trail): nat {
    if trail == [] then 0
    else
      var last := trail[|trail| - 1];
      TrailChosen(trail[..|trail| - 1]) + (if last.Some? then Counts(last.value) else 0)
  }

  /** The step at position i was open to the engine. */
  ghost predicate StepOpen(rule: Rule, options: seq<seq<Candidate>>, trail: Trail, i: nat)
    requires i < |trail| <= |options|
  {
    match trail[i]
    case None => rule.kind != AllOf
    case Some(c) =>
      && c in options[i] && c.used !! TrailUsed(trail[..i])
      && (rule.kind == AllOf || TrailChosen(trail[..i]) < ContainerNeed(rule))
  }

  ghost predicate ValidTrail(rule: Rule, options: seq<seq<Candidate>>, trail: Trail) {
    && |options| == |rule.children| && |trail| <= |options|
    && forall i: nat :: i < |trail| ==> StepOpen(rule, options, trail, i)
  }

  function Built(rule: Rule, trail: Trail): Candidate
    requires |trail| == |rule.children|
  {
    OptionContainer(rule, TrailRows(rule, trail), TrailUsed(trail), TrailChosen(trail))
  }

  function FromTrail(rule: Rule, options: seq<seq<Candidate>>, trail: Trail): seq<Candidate>
    requires |options| == |rule.children| && |trail| <= |options|
  {
    CombineOptions(rule, options, TrailRows(rule, trail), TrailUsed(trail), TrailChosen(trail))
  }

  lemma TrailStep(rule: Rule, options: seq<seq<Candidate>>, trail: Trail, step: Option<Candidate>)
    requires ValidTrail(rule, options, trail) && |trail| < |options|
    ensures ValidTrail(rule, options, trail + [step]) <==> StepOpen(rule, options, trail + [step], |trail|)
  {
    var more := trail + [step];
    forall i: nat | i < |trail| ensures StepOpen(rule, options, more, i) {
      assert StepOpen(rule, options, trail, i);
      assert more[..i] == trail[..i];
    }
  }

  lemma TrailFolds(rule: Rule, trail: Trail, step: Option<Candidate>)
    requires |trail| < |rule.children|
    ensures step.None? ==>
              && TrailRows(rule, trail + [step]) == TrailRows(rule, trail) + [NotSelectedRow(rule.children[|trail|])]
              && TrailUsed(trail + [step]) == TrailUsed(trail)
              && TrailChosen(trail + [step]) == TrailChosen(trail)
    ensures step.Some? ==>
              && TrailRows(rule, trail + [step]) == TrailRows(rule, trail) + [step.value.row]
              && TrailUsed(trail + [step]) == TrailUsed(trail) + step.value.used
              && TrailChosen(trail + [step]) == TrailChosen(trail) + Counts(step.value)
  {
    TrailFoldsUsed(trail, step);
    TrailFoldsRows(rule, trail, step);
  }

  lemma TrailFoldsUsed(trail: Trail, step: Option<Candidate>)
    ensures TrailUsed(trail + [step]) == TrailUsed(trail) + (if step.Some? then step.value.used else {})
    ensures TrailChosen(trail + [step]) == TrailChosen(trail) + (if step.Some? then Counts(step.value) else 0)
  {
    var more := trail + [step];
    assert more[..|more| - 1] == trail && more[|more| - 1] == step;
  }

  lemma TrailFoldsRows(rule: Rule, trail: Trail, step: Option<Candidate>)
    requires |trail| < |rule.children|
    ensures TrailRows(rule, trail + [step]) == TrailRows(rule, trail)
              + [if step.Some? then step.value.row else NotSelectedRow(rule.children[|trail|])]
  {
  }

  /** Every container option comes from a complete trail. */
  lemma {:induction false} TrailSound(rule: Rule, options: seq<seq<Candidate>>, trail: Trail, c: Candidate)
      returns (full: Trail)
    requires ValidTrail(rule, options, trail)
    requires c in FromTrail(rule, options, trail)
    ensures ValidTrail(rule, options, full) && |full| == |options| && c == Built(rule, full)
    decreases |options| - |trail|, 1, 0
  {
    var index := |trail|;
    if index == |options| {
      full := trail;
    } else {
      TrailStep(rule, options, trail, None);
      TrailFolds(rule, trail, None);
      if rule.kind != AllOf && c in FromTrail(rule, options, trail + [None]) {
        assert StepOpen(rule, options, trail + [None], |trail|);
        full := TrailSound(rule, options, trail + [None], c);
      } else {
        full := TrySound(rule, options, trail, options[index], c);
      }
    }
  }

  lemma {:induction false} TrySound(rule: Rule, options: seq<seq<Candidate>>, trail: Trail,
                                    candidates: seq<Candidate>, c: Candidate)
      returns (full: Trail)
    requires ValidTrail(rule, options, trail) && |trail| < |options|
    requires rule.kind == AllOf || TrailChosen(trail) < ContainerNeed(rule)
    requires forall x <- candidates :: x in options[|trail|]
    requires c in TryEach(rule, options, TrailRows(rule, trail), TrailUsed(trail), TrailChosen(trail), candidates)
    ensures ValidTrail(rule, options, full) && |full| == |options| && c == Built(rule, full)
    decreases |options| - |trail|, 0, |candidates|
  {
    var x := candidates[0];
    TrailStep(rule, options, trail, Some(x));
    TrailFolds(rule, trail, Some(x));
    if x.used !! TrailUsed(trail) && c in FromTrail(rule, options, trail + [Some(x)]) {
      assert (trail + [Some(x)])[..|trail|] == trail;
      assert StepOpen(rule, options, trail + [Some(x)], |trail|);
      full := TrailSound(rule, options, trail + [Some(x)], c);
    } else {
      full := TrySound(rule, options, trail, candidates[1..], c);
    }
  }

  /** Every complete trail is enumerated. */
  lemma {:induction false} TrailComplete(rule: Rule, options: seq<seq<Candidate>>, full: Trail, index: nat)
    requires ValidTrail(rule, options, full) && |full| == |options| && index <= |full|
    ensures Built(rule, full) in FromTrail(rule, options, full[..index])
    decreases |options| - index
  {
    var trail := full[..index];
    if index == |options| {
      assert trail == full;
    } else {
      assert full[..index + 1] == trail + [full[index]];
      assert StepOpen(rule, options, full, index);
      TrailPrefix(rule, options, full, index);
      TrailComplete(rule, options, full, index + 1);
      TrailFolds(rule, trail, full[index]);
      if full[index].Some? {
        TryContains(rule, options, trail, options[index], full[index].value, Built(rule, full));
      }
    }
  }

  lemma TrailPrefix(rule: Rule, options: seq<seq<Candidate>>, full: Trail, index: nat)
    requires ValidTrail(rule, options, full) && index <= |full|
    ensures ValidTrail(rule, options, full[..index])
  {
    forall i: nat | i < index ensures StepOpen(rule, options, full[..index], i) {
      assert StepOpen(rule, options, full, i);
      assert full[..index][..i] == full[..i];
    }
  }

  lemma {:induction false} TryContains(rule: Rule, options: seq<seq<Candidate>>, trail: Trail,
                                       candidates: seq<Candidate>, x: Candidate, c: Candidate)
    requires |options| == |rule.children| && |trail| < |options|
    requires x in candidates && x.used !! TrailUsed(trail)
    requires c in CombineOptions(rule, options, TrailRows(rule, trail) + [x.row], TrailUsed(trail) + x.used,
                                 TrailChosen(trail) + Counts(x))
    ensures c in TryEach(rule, options, TrailRows(rule, trail), TrailUsed(trail), TrailChosen(trail), candidates)
  {
    if candidates[0] != x {
      HeadAndTail(candidates);
      TryContains(rule, options, trail, candidates[1..], x, c);
    }
  }

  lemma ContainerOptionTrail(rule: Rule, options: seq<seq<Candidate>>, c: Candidate) returns (full: Trail)
    requires |options| == |rule.children| && c in CombineOptions(rule, options, [], {}, 0)
    ensures ValidTrail(rule, options, full) && |full| == |options| && c == Built(rule, full)
  {
    assert TrailRows(rule, []) == [];
    full := TrailSound(rule, options, [], c);
  }

  lemma TrailIsOption(rule: Rule, options: seq<seq<Candidate>>, full: Trail)
    requires ValidTrail(rule, options, full) && |full| == |options|
    ensures Built(rule, full) in CombineOptions(rule, options, [], {}, 0)
  {
    TrailComplete(rule, options, full, 0);
    assert TrailRows(rule, full[..0]) == [];
  }
}
