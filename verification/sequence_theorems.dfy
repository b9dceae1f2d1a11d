/** What a plan promises about the courses in it. */
module PlanTheorems {
  import opened Forest
  import opened Requirements
  import opened RequirementProofs
  import opened Cycles
  import opened Layers
  import opened Blocks
  import opened SequencePlanner
  import opened SearchTrees

  ghost predicate InStage(plan: SequencePlan, k: nat, c: Code) { k < |plan.stages| && c in plan.stages[k] }

  ghost predicate Staged(plan: SequencePlan, c: Code) { exists k: nat :: InStage(plan, k, c) }

  /** The course of a stage lies in a bundle of the layer, and the bundle is not blocked. */
  lemma StageMember(ctx: Context, plan: SequencePlan, l: Layout, k: nat, c: Code)
    requires PlanOk(ctx, plan, l) && InStage(plan, k, c)
    ensures c in Known(ctx) && c in l.anchor && l.anchor[c] in l.layers[k] && l.anchor[c] in Eligible(l)
  {
    assert c in MembersOf(l.anchor, l.layers[k]);
    assert StageOk(l.full, Eligible(l), l.layers, k);
  }

  lemma PlannedCourses(ctx: Context, plan: SequencePlan, l: Layout)
    requires PlanOk(ctx, plan, l)
    ensures l.anchor.Keys == Known(ctx)
  {
  }

  lemma AnchorNode(ctx: Context, l: Layout, c: Code)
    requires Bundled(ctx, l.links, l.anchor) && IsBundleGraph(ctx, l.anchor, l.full) && c in l.anchor
    ensures l.anchor[c] in l.full && l.anchor[l.anchor[c]] == l.anchor[c]
  {
    AnchorsAreRoots(ctx, l.links, l.anchor, c);
  }

  lemma UnblockedIsStaged(ctx: Context, plan: SequencePlan, l: Layout, c: Code) returns (k: nat)
    requires PlanOk(ctx, plan, l) && c in l.anchor && l.anchor[c] !in l.blocked
    ensures InStage(plan, k, c)
  {
    AnchorNode(ctx, l, c);
    assert l.anchor[c] in Eligible(l);
    assert PlacedBelow(l.layers, |l.layers|, l.anchor[c]);
    k :| 0 <= k < |l.layers| && l.anchor[c] in l.layers[k];
    assert c in MembersOf(l.anchor, l.layers[k]);
  }

  /** Every known course that is not blocked is in exactly one stage, and no other course is. */
  lemma StagedExactlyOnce(ctx: Context, plan: SequencePlan, l: Layout, c: Code)
    requires PlanOk(ctx, plan, l)
    ensures Staged(plan, c) <==> c in Known(ctx) && l.anchor[c] !in l.blocked
    ensures forall j: nat, k: nat :: InStage(plan, j, c) && InStage(plan, k, c) ==> j == k
  {
    if c in Known(ctx) && l.anchor[c] !in l.blocked {
      var k := UnblockedIsStaged(ctx, plan, l, c);
    }
    if k: nat :| InStage(plan, k, c) {
      StageMember(ctx, plan, l, k, c);
    }
    forall j: nat, k: nat | InStage(plan, j, c) && InStage(plan, k, c) ensures j == k {
      StageMember(ctx, plan, l, j, c);
      StageMember(ctx, plan, l, k, c);
      var low, high := if j < k then j else k, if j < k then k else j;
      assert StageOk(l.full, Eligible(l), l.layers, high);
      if low < high { assert PlacedBelow(l.layers, high, l.anchor[c]); }
    }
  }

  /** A staged course has nothing against it on its own account. */
  lemma StagedIsSound(ctx: Context, plan: SequencePlan, l: Layout, c: Code)
    requires PlanOk(ctx, plan, l) && Staged(plan, c)
    ensures c in ctx.courses && !Assess(ctx, c).hard && OwnBlockers(ctx, c) == {}
  {
    StagedExactlyOnce(ctx, plan, l, c);
    AnchorNode(ctx, l, c);
    if Assess(ctx, c).hard {
      assert HardBundle(ctx, l.anchor, l.anchor[c]);
      assert StartsBlocked(ctx, l.anchor, l.full, l.anchor[c]);
    }
    HardIffBlocker(ctx, c);
  }

  /** A plan is complete exactly when its stages hold the whole selection. */
  lemma CompleteIffAllStaged(ctx: Context, plan: SequencePlan, l: Layout)
    requires PlanOk(ctx, plan, l)
    ensures plan.complete <==> forall c <- ctx.selected :: Staged(plan, c)
  {
    if plan.complete {
      forall c | c in ctx.selected ensures Staged(plan, c) { CompleteStages(ctx, plan, l, c); }
    }
    if forall c <- ctx.selected :: Staged(plan, c) {
      if plan.blockers != [] { AllStagedNoBlocker(ctx, plan, l, plan.blockers[0]); }
    }
  }

  /** What a plan lists. */
  lemma BlockerListed(ctx: Context, plan: SequencePlan, l: Layout, b: Blocker)
    requires PlanOk(ctx, plan, l)
    ensures b in plan.blockers <==> OwnBlocker(ctx, b) || CycleReport(ctx, l, b) || OthersBlocker(ctx, l, b)
    ensures plan.complete ==> b !in plan.blockers
  {
    hide OwnBlocker, CycleReport, OthersBlocker, BlockersOrdered, Layered, LeastBlocked, IsBundleGraph, Bundled;
    assert b in plan.blockers <==> b in BlockerSet(plan.blockers);
  }

  lemma OwnBlockersReported(ctx: Context, plan: SequencePlan, l: Layout, c: Code)
    requires PlanOk(ctx, plan, l) && c in ctx.selected
    ensures OwnBlockers(ctx, c) <= BlockerSet(plan.blockers)
  {
    hide PlanOk;
    forall b | b in OwnBlockers(ctx, c) ensures b in plan.blockers {
      assert OwnBlocker(ctx, b);
      BlockerListed(ctx, plan, l, b);
    }
  }

  /** A complete plan has nothing against a selected course on its own account. */
  lemma NothingAgainst(ctx: Context, plan: SequencePlan, l: Layout, c: Code)
    requires PlanOk(ctx, plan, l) && plan.complete && c in ctx.selected
    ensures c in Known(ctx) && !Assess(ctx, c).hard
  {
    OwnBlockersReported(ctx, plan, l, c);
    assert BlockerSet(plan.blockers) == {};
    hide PlanOk, Assess;
    assert OwnBlockers(ctx, c) == {};
    assert c !in ctx.courses ==> Plain(c, UnknownCourse) in OwnBlockers(ctx, c);
    HardIffBlocker(ctx, c);
  }

  lemma NotBlockedByOthers(ctx: Context, plan: SequencePlan, l: Layout, c: Code)
    requires PlanOk(ctx, plan, l) && plan.complete
    requires c in l.anchor
    ensures !BlockedByOthers(ctx, l, c)
  {
    hide PlanOk, BlockedByOthers, HardBundle, OwnBlocker, CycleReport;
    if BlockedByOthers(ctx, l, c) {
      var b := Plain(c, if HardBundle(ctx, l.anchor, l.anchor[c]) then BlockedCorequisite else BlockedPrerequisite);
      assert OthersBlocker(ctx, l, b);
      BlockerListed(ctx, plan, l, b);
    }
  }

  lemma CompleteStages(ctx: Context, plan: SequencePlan, l: Layout, c: Code)
    requires PlanOk(ctx, plan, l) && plan.complete && c in ctx.selected
    ensures Staged(plan, c)
  {
    hide PlanOk, Marks, Assess;
    NothingAgainst(ctx, plan, l, c);
    PlannedCourses(ctx, plan, l);
    NotBlockedByOthers(ctx, plan, l, c);
    NoCycleReported(ctx, plan, l, c);
    var k := UnblockedIsStaged(ctx, plan, l, c);
  }

  /** A reported cycle leaves a blocker, so a complete plan has none. */
  lemma NoCycleReported(ctx: Context, plan: SequencePlan, l: Layout, c: Code)
    requires PlanOk(ctx, plan, l) && plan.complete && c in l.anchor
    ensures !Edge(l.full, l.anchor[c], l.anchor[c]) && l.anchor[c] !in Marks(l.full)
  {
    hide BlockersOk, Layered, LeastBlocked, Bundled, Marks, Prereqs, BlockersOrdered;
    var n := l.anchor[c];
    if Edge(l.full, n, n) {
      assert Needs(ctx, l.anchor, n, n);
      var a, p :| a in l.anchor && p in l.anchor && l.anchor[a] == n && l.anchor[p] == n && p in Prereqs(ctx, a);
      var b := ReportFor(ctx, l, a);
      BlockerListed(ctx, plan, l, b);
    } else if n in Marks(l.full) {
      var b := ReportFor(ctx, l, c);
      BlockerListed(ctx, plan, l, b);
    }
  }

  lemma ReportFor(ctx: Context, l: Layout, c: Code) returns (b: Blocker)
    requires NamedInCycle(ctx, l, c)
    ensures CycleReport(ctx, l, b)
  {
    var words := ListingExists(BundleOf(l.anchor, l.anchor[c]));
    b := Blocker(c, PrerequisiteCycle, words, [], false);
  }

  lemma AllStagedNoBlocker(ctx: Context, plan: SequencePlan, l: Layout, b: Blocker)
    requires PlanOk(ctx, plan, l) && forall c <- ctx.selected :: Staged(plan, c)
    ensures b !in plan.blockers
  {
    BlockerListed(ctx, plan, l, b);
    hide BlockersOk;
    if OwnBlocker(ctx, b) {
      var c :| c in ctx.selected && b in OwnBlockers(ctx, c);
      StagedIsSound(ctx, plan, l, c);
    } else if CycleReport(ctx, l, b) {
      assert b.code in Known(ctx);
      StagedExactlyOnce(ctx, plan, l, b.code);
      NamedIsBlocked(ctx, l, b.code);
    } else if OthersBlocker(ctx, l, b) {
      assert b.code in Known(ctx);
      StagedExactlyOnce(ctx, plan, l, b.code);
    }
  }

  lemma NamedIsBlocked(ctx: Context, l: Layout, c: Code)
    requires IsBundleGraph(ctx, l.anchor, l.full) && LeastBlocked(ctx, l.anchor, l.full, l.blocked)
    requires Bundled(ctx, l.links, l.anchor) && NamedInCycle(ctx, l, c)
    ensures l.anchor[c] in l.blocked
  {
    var n := l.anchor[c];
    AnchorNode(ctx, l, c);
    if n in Marks(l.full) {
      MarksOnCycles(l.full, n);
    } else {
      LoopIsCycle(ctx, l, c);
    }
    hide OnCycle, IsBundleGraph, Bundled, HardBundle, Marks;
    assert StartsBlocked(ctx, l.anchor, l.full, n);
  }

  lemma LoopIsCycle(ctx: Context, l: Layout, c: Code)
    requires IsBundleGraph(ctx, l.anchor, l.full) && NeedsOwnBundle(ctx, l.anchor, c)
    ensures OnCycle(l.full, l.anchor[c])
  {
    var n := l.anchor[c];
    assert Needs(ctx, l.anchor, n, n);
    assert Edge(l.full, n, n);
    assert CycleThrough(l.full, n, [n, n]);
  }

  lemma MarksOnCycles(full: Graph, n: Code)
    requires n in Marks(full)
    ensures OnCycle(full, n)
  {
    SearchSettles(Loopless(full));
    OnCycleMore(Loopless(full), full, n);
  }

  /** Courses tied together by corequisites are in the same stage, or none of them is in any. */
  lemma BundlesStayWhole(ctx: Context, plan: SequencePlan, l: Layout, a: Code, b: Code, k: nat)
    requires PlanOk(ctx, plan, l) && Connected(l.links, a, b) && InStage(plan, k, a)
    ensures InStage(plan, k, b)
  {
    StageMember(ctx, plan, l, k, a);
    StaysKnown(ctx, l.links, a, b);
    SameAnchor(ctx, l.links, l.anchor, a, b);
    assert b in MembersOf(l.anchor, l.layers[k]);
  }

  // ---------------------------------------------------------------- prerequisites come first

  /** The courses of the first k stages. */
  ghost function StagedBefore(plan: SequencePlan, k: nat): set<Code> {
    set j, c | 0 <= j < k && j < |plan.stages| && c in plan.stages[j] :: c
  }

  /** The known courses a staged course depends on are in earlier stages. */
  lemma PrerequisitesComeFirst(ctx: Context, plan: SequencePlan, l: Layout, k: nat, c: Code, p: Code)
    requires PlanOk(ctx, plan, l) && InStage(plan, k, c) && p in Prereqs(ctx, c)
    ensures p in StagedBefore(plan, k)
  {
    hide Assess;
    StageMember(ctx, plan, l, k, c);
    AnchorNode(ctx, l, p);
    var n, d := l.anchor[c], l.anchor[p];
    assert NeedsVia(ctx, l.anchor, l.anchor.Keys, n, d);
    assert Edge(l.full, n, d);
    assert d in Eligible(l);
    assert StageOk(l.full, Eligible(l), l.layers, k);
    assert PlacedBelow(l.layers, k, d);
    var j :| 0 <= j < k && j < |l.layers| && d in l.layers[j];
    assert p in MembersOf(l.anchor, l.layers[j]);
  }

  lemma CorequisitesComeAlong(ctx: Context, plan: SequencePlan, l: Layout, k: nat, c: Code, q: Code)
    requires PlanOk(ctx, plan, l) && InStage(plan, k, c) && q in Coreqs(ctx, c)
    ensures InStage(plan, k, q)
  {
    StageMember(ctx, plan, l, k, c);
    assert (c, q) in l.links;
    ConnectedLink(l.links, c, q);
    BundlesStayWhole(ctx, plan, l, c, q, k);
  }

  /** A code that a requirement names is stray when only a selected course without a record
      stands for it: the record found is the one the requirement names. */
  predicate Stray(ctx: Context, code: Code) {
    && code !in Taken(ctx)
    && var matched := Matched(ctx, code);
       matched.Some? && matched.value !in ctx.courses
  }

  /** No stray code is counted on: a choice that completed courses settle asks nothing, an open one
      asks it of the alternatives that can be taken. */
  predicate StrayFree(req: Req, owner: Code, ctx: Context)
    decreases req
  {
    match req
    case CourseRef(code) => !Stray(ctx, code)
    case Condition(_) => true
    case AllOf(items) => forall i :: 0 <= i < |items| ==> StrayFree(items[i], owner, ctx)
    case AnyOf(items) =>
      || (exists i :: 0 <= i < |items| && Holds(items[i], Taken(ctx), {}))
      || forall i :: 0 <= i < |items| && Evaluate(items[i], owner, ctx).ready ==> StrayFree(items[i], owner, ctx)
  }

  ghost predicate StrayFreeOption(req: Option<Req>, owner: Code, ctx: Context) {
    req.Some? ==> StrayFree(req.value, owner, ctx)
  }

  /** With every selected course on record nothing is stray. */
  lemma {:induction false} AllRecordedStrayFree(req: Req, owner: Code, ctx: Context)
    requires AliasesFor(ctx.selectedAliases, ctx.selected, ctx.campus) && forall c <- ctx.selected :: c in ctx.courses
    ensures StrayFree(req, owner, ctx)
    decreases req
  {
    match req
    case CourseRef(_) =>
    case Condition(_) =>
    case AllOf(items) =>
      forall i | 0 <= i < |items|
        ensures StrayFree(items[i], owner, ctx) { AllRecordedStrayFree(items[i], owner, ctx); }
    case AnyOf(items) =>
      forall i | 0 <= i < |items|
        ensures StrayFree(items[i], owner, ctx) { AllRecordedStrayFree(items[i], owner, ctx); }
  }

  lemma AllDependenciesWithin(results: seq<Evaluation>, recorded: set<Code>)
    ensures AllDependencies(results) <= recorded <==> forall r <- results :: r.dependencies <= recorded
  {
    AllDependenciesMembers(results);
    forall r | r in results && AllDependencies(results) <= recorded ensures r.dependencies <= recorded {
      var i :| 0 <= i < |results| && results[i] == r;
    }
    if forall r <- results :: r.dependencies <= recorded {
      forall d | d in AllDependencies(results) ensures d in recorded {
        var i :| 0 <= i < |results| && d in results[i].dependencies;
        assert results[i] in results;
      }
    }
  }

  /** A ready requirement counts on no stray code exactly when all it depends on is on record. */
  lemma {:induction false} StrayFreeIffRecorded(req: Req, owner: Code, ctx: Context)
    requires Evaluate(req, owner, ctx).ready
    ensures StrayFree(req, owner, ctx) <==> Evaluate(req, owner, ctx).dependencies <= ctx.courses.Keys
    decreases req
  {
    match req
    case CourseRef(_) =>
    case Condition(_) =>
    case AllOf(items) =>
      var results := EvaluateItems(items, owner, ctx);
      forall i | 0 <= i < |items|
        ensures StrayFree(items[i], owner, ctx) <==> results[i].dependencies <= ctx.courses.Keys
      {
        ItemResult(items, owner, ctx, i);
        StrayFreeIffRecorded(items[i], owner, ctx);
      }
      AllDependenciesWithin(results, ctx.courses.Keys);
    case AnyOf(items) =>
      if !exists i :: 0 <= i < |items| && Holds(items[i], Taken(ctx), {}) {
        var results := EvaluateItems(items, owner, ctx);
        forall i | 0 <= i < |items|
          ensures results[i] == Evaluate(items[i], owner, ctx)
          ensures results[i].ready ==>
                    (StrayFree(items[i], owner, ctx) <==> results[i].dependencies <= ctx.courses.Keys)
        {
          ItemResult(items, owner, ctx, i);
          if results[i].ready { StrayFreeIffRecorded(items[i], owner, ctx); }
        }
        ChoiceWithin(req, results, owner, ctx.campus, ctx.courses.Keys);
      }
  }

  /** A ready choice depends on recorded courses exactly when each alternative that can be taken does. */
  lemma ChoiceWithin(req: Req, results: seq<Evaluation>, owner: Code, campus: map<Code, set<Code>>, recorded: set<Code>)
    requires EvaluateAny(req, results, owner, campus).ready
    ensures EvaluateAny(req, results, owner, campus).dependencies <= recorded
            <==> forall i :: 0 <= i < |results| && results[i].ready ==> results[i].dependencies <= recorded
  {
    var viable := Viable(results);
    ViableMembers(results);
    AllDependenciesWithin(viable, recorded);
    if |viable| == 1 {
      assert viable == [viable[0]];
    } else {
      OneGroupIsAll(viable, campus);
    }
    forall i | 0 <= i < |results| && results[i].ready ensures results[i] in viable { assert results[i] in results; }
    forall v | v in viable ensures exists i :: 0 <= i < |results| && results[i] == v && v.ready { assert v in results; }
  }

  lemma ChoosableIsSelected(ctx: Context)
    requires AliasesFor(ctx.selectedAliases, ctx.selected, ctx.campus)
    ensures Choosable(ctx) <= ctx.selected
  {
  }

  /** A course with nothing against it has ready requirements, or none. */
  lemma NotHardMeansReady(ctx: Context, c: Code)
    requires c in ctx.courses && !Assess(ctx, c).hard
    ensures var course := ctx.courses[c];
            && course.isCurrent && course.code == c
            && EvaluateOption(course.prerequisites, c, ctx).ready && EvaluateOption(course.corequisites, c, ctx).ready
            && Assess(ctx, c).prereqs == EvaluateOption(course.prerequisites, c, ctx).dependencies
            && Assess(ctx, c).coreqs == EvaluateOption(course.corequisites, c, ctx).dependencies
  {
  }

  /** A ready requirement that counts on no stray code holds once the known courses it depends on are there. */
  lemma ReadyHolds(req: Req, owner: Code, ctx: Context, there: set<Code>)
    requires AliasesFor(ctx.selectedAliases, ctx.selected, ctx.campus) && StrayFree(req, owner, ctx)
    requires Evaluate(req, owner, ctx).ready && Evaluate(req, owner, ctx).dependencies * Known(ctx) <= there
    ensures Holds(req, CountedOn(ctx, there), {})
  {
    var e := Evaluate(req, owner, ctx);
    ReadyIsSound(req, owner, ctx);
    StrayFreeIffRecorded(req, owner, ctx);
    DependenciesAreSelected(req, owner, ctx);
    ChoosableIsSelected(ctx);
    assert e.dependencies <= there by {
      forall d | d in e.dependencies ensures d in there { assert d in Choosable(ctx) && d in Known(ctx); }
    }
    CountedOnMore(ctx, e.dependencies, there);
    HoldsMonotone(req, CountedOn(ctx, e.dependencies), CountedOn(ctx, there), {});
  }

  /** A requirement of a course, where there is one, holds on the courses of the first k stages. */
  ghost predicate HoldsBy(req: Option<Req>, ctx: Context, plan: SequencePlan, k: nat) {
    req.Some? ==> Holds(req.value, CountedOn(ctx, StagedBefore(plan, k)), {})
  }

  /** Stage safety: when a course's stage comes, its prerequisites hold on the strength of completed
      courses and strictly earlier stages, and its corequisites with its own stage added. */
  lemma StageSafety(ctx: Context, plan: SequencePlan, l: Layout, k: nat, c: Code)
    requires PlanOk(ctx, plan, l) && InStage(plan, k, c)
    requires AliasesFor(ctx.selectedAliases, ctx.selected, ctx.campus)
    ensures c in ctx.courses
    ensures StrayFreeOption(ctx.courses[c].prerequisites, c, ctx) ==> HoldsBy(ctx.courses[c].prerequisites, ctx, plan,
          k)
    ensures StrayFreeOption(ctx.courses[c].corequisites, c, ctx) ==> HoldsBy(ctx.courses[c].corequisites, ctx, plan,
          k + 1)
  {
    StagedIsSound(ctx, plan, l, c);
    NotHardMeansReady(ctx, c);
    var course := ctx.courses[c];
    if course.prerequisites.Some? && StrayFree(course.prerequisites.value, c, ctx) {
      forall p | p in Assess(ctx, c).prereqs * Known(ctx) ensures p in StagedBefore(plan, k) {
        PrerequisitesComeFirst(ctx, plan, l, k, c, p);
      }
      ReadyHolds(course.prerequisites.value, c, ctx, StagedBefore(plan, k));
    }
    if course.corequisites.Some? && StrayFree(course.corequisites.value, c, ctx) {
      forall q | q in Assess(ctx, c).coreqs * Known(ctx) ensures q in StagedBefore(plan, k + 1) {
        CorequisitesComeAlong(ctx, plan, l, k, c, q);
        assert q in plan.stages[k];
      }
      ReadyHolds(course.corequisites.value, c, ctx, StagedBefore(plan, k + 1));
    }
  }

  /** In particular when every selected course is on record. */
  lemma StageSafetyWhenRecorded(ctx: Context, plan: SequencePlan, l: Layout, k: nat, c: Code)
    requires PlanOk(ctx, plan, l) && InStage(plan, k, c)
    requires AliasesFor(ctx.selectedAliases, ctx.selected, ctx.campus) && forall s <- ctx.selected :: s in ctx.courses
    ensures c in ctx.courses
    ensures HoldsBy(ctx.courses[c].prerequisites, ctx, plan, k)
    ensures HoldsBy(ctx.courses[c].corequisites, ctx, plan, k + 1)
  {
    StageSafety(ctx, plan, l, k, c);
    var course := ctx.courses[c];
    if course.prerequisites.Some? { AllRecordedStrayFree(course.prerequisites.value, c, ctx); }
    if course.corequisites.Some? { AllRecordedStrayFree(course.corequisites.value, c, ctx); }
  }

  /** No choice in the requirement is left open by completed courses. */
  predicate NoOpenChoice(req: Req, ctx: Context)
    decreases req
  {
    match req
    case CourseRef(_) => true
    case Condition(_) => true
    case AllOf(items) => forall i :: 0 <= i < |items| ==> NoOpenChoice(items[i], ctx)
    case AnyOf(items) => exists i :: 0 <= i < |items| && Holds(items[i], Taken(ctx), {})
  }

  ghost predicate NoOpenChoiceOption(req: Option<Req>, ctx: Context) { req.Some? ==> NoOpenChoice(req.value, ctx) }

  /** A ready requirement without open choices that holds on known courses counts on no stray code. */
  lemma {:induction false} HoldsNeedsRecords(req: Req, owner: Code, ctx: Context, there: set<Code>)
    requires NoOpenChoice(req, ctx) && Evaluate(req, owner, ctx).ready
    requires there <= Known(ctx) && Holds(req, CountedOn(ctx, there), {})
    ensures StrayFree(req, owner, ctx)
    decreases req
  {
    match req
    case CourseRef(_) =>
    case Condition(_) =>
    case AnyOf(_) =>
    case AllOf(items) =>
      forall i | 0 <= i < |items| ensures StrayFree(items[i], owner, ctx) {
        ItemResult(items, owner, ctx, i);
        HoldsNeedsRecords(items[i], owner, ctx, there);
      }
  }

  lemma StagedIsKnown(ctx: Context, plan: SequencePlan, l: Layout, k: nat)
    requires PlanOk(ctx, plan, l)
    ensures StagedBefore(plan, k) <= Known(ctx)
  {
    forall d | d in StagedBefore(plan, k) ensures d in Known(ctx) {
      var j :| 0 <= j < k && j < |plan.stages| && d in plan.stages[j];
      StageMember(ctx, plan, l, j, d);
    }
  }

  /** Where completed courses leave no choice open, stage safety holds exactly when no stray code is
      counted on, for prerequisites and for corequisites. */
  lemma SafetyIffStrayFree(ctx: Context, plan: SequencePlan, l: Layout, k: nat, c: Code)
    requires PlanOk(ctx, plan, l) && InStage(plan, k, c)
    requires AliasesFor(ctx.selectedAliases, ctx.selected, ctx.campus)
    ensures c in ctx.courses
    ensures NoOpenChoiceOption(ctx.courses[c].prerequisites, ctx) ==>
              (HoldsBy(ctx.courses[c].prerequisites, ctx, plan, k)
               <==> StrayFreeOption(ctx.courses[c].prerequisites, c, ctx))
    ensures NoOpenChoiceOption(ctx.courses[c].corequisites, ctx) ==>
              (HoldsBy(ctx.courses[c].corequisites, ctx, plan, k + 1)
               <==> StrayFreeOption(ctx.courses[c].corequisites, c, ctx))
  {
    hide PlanOk;
    StageSafety(ctx, plan, l, k, c);
    StagedIsReady(ctx, plan, l, c);
    NeedsRecordsBy(ctx, plan, l, ctx.courses[c].prerequisites, c, k);
    NeedsRecordsBy(ctx, plan, l, ctx.courses[c].corequisites, c, k + 1);
  }

  lemma StagedIsReady(ctx: Context, plan: SequencePlan, l: Layout, c: Code)
    requires PlanOk(ctx, plan, l) && Staged(plan, c)
    ensures c in ctx.courses
    ensures EvaluateOption(ctx.courses[c].prerequisites, c, ctx).ready
    ensures EvaluateOption(ctx.courses[c].corequisites, c, ctx).ready
  {
    StagedIsSound(ctx, plan, l, c);
    NotHardMeansReady(ctx, c);
  }

  lemma NeedsRecordsBy(ctx: Context, plan: SequencePlan, l: Layout, req: Option<Req>, owner: Code, k: nat)
    requires PlanOk(ctx, plan, l) && EvaluateOption(req, owner, ctx).ready
    ensures NoOpenChoiceOption(req, ctx) && HoldsBy(req, ctx, plan, k) ==> StrayFreeOption(req, owner, ctx)
  {
    StagedIsKnown(ctx, plan, l, k);
    if req.Some? && NoOpenChoice(req.value, ctx) && HoldsBy(req, ctx, plan, k) {
      HoldsNeedsRecords(req.value, owner, ctx, StagedBefore(plan, k));
    }
  }

  // ---------------------------------------------------------------- no schedule is shorter

  /** A schedule of the unblocked courses: corequisites together, prerequisites strictly before. */
  ghost predicate Schedules(ctx: Context, l: Layout, when: map<Code, nat>) {
    && (forall c <- l.anchor :: l.anchor[c] !in l.blocked ==> c in when)
    && (forall c, q {:trigger (c, q) in l.links} | (c, q) in l.links && c in when && q in when :: when[c] == when[q])
    && (forall c, p {:trigger p in Prereqs(ctx, c)} | c in when && p in when && p in Prereqs(ctx, c) ::
        when[p] < when[c])
  }

  lemma {:induction false} ChainTogether(ctx: Context, l: Layout, when: map<Code, nat>, chain: seq<Code>)
    requires Bundled(ctx, l.links, l.anchor) && Schedules(ctx, l, when)
    requires IsChain(l.links, chain) && chain[0] in l.anchor && l.anchor[chain[0]] !in l.blocked
    ensures chain[0] in when && chain[|chain| - 1] in when && when[chain[|chain| - 1]] == when[chain[0]]
    decreases |chain|
  {
    if |chain| > 1 {
      var a, b := chain[0], chain[1];
      assert Linked(l.links, a, b);
      if (a, b) in l.links {
        ConnectedLink(l.links, a, b);
      } else {
        ConnectedLink(l.links, b, a);
        ConnectedSymmetric(l.links, b, a);
      }
      StaysKnown(ctx, l.links, a, b);
      SameAnchor(ctx, l.links, l.anchor, a, b);
      ChainTogether(ctx, l, when, chain[1..]);
    }
  }

  lemma WithItsAnchor(ctx: Context, l: Layout, when: map<Code, nat>, c: Code)
    requires Bundled(ctx, l.links, l.anchor) && Schedules(ctx, l, when) && c in l.anchor && l.anchor[c] !in l.blocked
    ensures c in when && l.anchor[c] in when && when[c] == when[l.anchor[c]]
  {
    var chain :| IsChain(l.links, chain) && chain[0] == c && chain[|chain| - 1] == l.anchor[c];
    ChainTogether(ctx, l, when, chain);
  }

  /** No schedule of the same courses takes a course before its stage. */
  lemma StagesAreEarliest(ctx: Context, plan: SequencePlan, l: Layout, when: map<Code, nat>, k: nat, c: Code)
    requires PlanOk(ctx, plan, l) && Schedules(ctx, l, when) && InStage(plan, k, c)
    ensures c in when && when[c] >= k
  {
    StageMember(ctx, plan, l, k, c);
    WithItsAnchor(ctx, l, when, c);
    var eligible := Eligible(l);
    forall n | n in eligible ensures n in when {
      assert l.anchor[n] == n;
    }
    forall n, d | n in eligible && d in eligible && Edge(l.full, n, d) ensures when[d] < when[n] {
      assert Needs(ctx, l.anchor, n, d);
      var b, p :| b in l.anchor && p in l.anchor && l.anchor[b] == n && l.anchor[p] == d && p in Prereqs(ctx, b);
      WithItsAnchor(ctx, l, when, b);
      WithItsAnchor(ctx, l, when, p);
    }
    StageIsEarliest(l.full, eligible, l.layers, when, k, l.anchor[c]);
  }

  /** So no schedule has fewer stages. */
  lemma FewestStages(ctx: Context, plan: SequencePlan, l: Layout, when: map<Code, nat>)
    requires PlanOk(ctx, plan, l) && Schedules(ctx, l, when) && plan.stages != []
    ensures exists c :: c in when && when[c] >= |plan.stages| - 1
  {
    var k := |plan.stages| - 1;
    assert StageOk(l.full, Eligible(l), l.layers, k);
    var n :| n in l.layers[k];
    assert n in Eligible(l) && n in l.anchor && l.anchor[n] == n;
    assert n in MembersOf(l.anchor, l.layers[k]);
    StagesAreEarliest(ctx, plan, l, when, k, n);
  }

  /** And the stages are themselves such a schedule. */
  lemma StagesSchedule(ctx: Context, plan: SequencePlan, l: Layout, when: map<Code, nat>)
    requires PlanOk(ctx, plan, l) && forall c {:trigger c in when} :: c in when <==> Staged(plan, c)
    requires forall c <- when :: InStage(plan, when[c], c)
    ensures Schedules(ctx, l, when)
  {
    forall c | c in l.anchor && l.anchor[c] !in l.blocked ensures c in when { StagedExactlyOnce(ctx, plan, l, c); }
    forall c, q | (c, q) in l.links && c in when && q in when ensures when[c] == when[q] {
      ConnectedLink(l.links, c, q);
      BundlesStayWhole(ctx, plan, l, c, q, when[c]);
      StagedExactlyOnce(ctx, plan, l, q);
    }
    forall c, p | c in when && p in when && p in Prereqs(ctx, c) ensures when[p] < when[c] {
      PrerequisitesComeFirst(ctx, plan, l, when[c], c, p);
      var j :| 0 <= j < when[c] && j < |plan.stages| && p in plan.stages[j];
      assert InStage(plan, j, p);
      StagedExactlyOnce(ctx, plan, l, p);
    }
  }
}
