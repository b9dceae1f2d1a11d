/** Two inputs at the limit of stage safety: one where a staged course's requirement is never met, and
    one where a requirement is met by chance. */
module PlanExamples {
  import opened Forest
  import opened Requirements
  import opened RequirementProofs
  import opened Cycles
  import opened Layers
  import opened Blocks
  import opened SequencePlanner
  import opened PlanTheorems

  /** Course 1 needs course 2, before it or along with it. */
  function StrayCourses(before: bool): map<Code, Course> {
    var need := Some(CourseRef(2));
    map[1 := Course(1, true, Parsed, if before then need else None, if before then None else need, before, !before,
                    false),
        2 := PlainCourse(2)]
  }

  lemma CycleGoesOn(g: Graph, n: Code) returns (d: Code, e: Code)
    requires OnCycle(g, n)
    ensures Edge(g, n, d) && Edge(g, d, e)
  {
    var path :| CycleThrough(g, n, path);
    d := path[1];
    e := if |path| > 2 then path[2] else d;
  }

  /** Where no dependency has a dependency of its own, and nothing is against a known course,
      nothing is blocked. */
  lemma NothingBlocked(ctx: Context, plan: SequencePlan, l: Layout)
    requires PlanOk(ctx, plan, l) && forall c <- Known(ctx) :: !Assess(ctx, c).hard
    requires forall n, d, e :: Edge(l.full, n, d) ==> !Edge(l.full, d, e)
    ensures l.blocked == {}
  {
    forall n | n in l.full ensures !StartsBlocked(ctx, l.anchor, l.full, n) {
      if OnCycle(l.full, n) {
        var d, e := CycleGoesOn(l.full, n);
      }
    }
    assert SpreadClosed(l.full, {});
    assert l.blocked <= {};
  }

  ghost predicate StrayContext(ctx: Context, before: bool) {
    && ctx.selected == {1, 3} && Taken(ctx) == {}
    && ctx.courses == StrayCourses(before) && ctx.campus == map[3 := {2}] && ctx.selectedAliases == map[2 := 3]
  }

  lemma PreparedStray(ctx: Context, before: bool)
    requires Prepared(ctx, StrayCourses(before), [1, 3], [], map[3 := {2}])
    ensures StrayContext(ctx, before)
  {
    assert 3 in ctx.selected && 2 in ctx.campus[3] && ctx.selectedAliases[2] == 3;
    forall a | a in ctx.selectedAliases ensures a == 2 { assert ctx.selectedAliases[a] in ctx.campus; }
  }

  lemma StrayAssessment(ctx: Context, before: bool)
    requires StrayContext(ctx, before)
    ensures Known(ctx) == {1} && Prereqs(ctx, 1) == {} && !Assess(ctx, 1).hard
  {
    assert Evaluate(CourseRef(2), 1, ctx) == Evaluation(true, {3}, []);
    assert EvaluateOption(None, 1, ctx) == Evaluation(true, {}, []);
  }

  lemma StrayUnblocked(ctx: Context, plan: SequencePlan, l: Layout, before: bool)
    requires StrayContext(ctx, before) && PlanOk(ctx, plan, l)
    ensures l.blocked == {}
  {
    StrayAssessment(ctx, before);
    forall n, d ensures !Edge(l.full, n, d) {
      assert Edge(l.full, n, d) <==> Needs(ctx, l.anchor, n, d);
    }
    hide PlanOk, StrayContext, Assess;
    NothingBlocked(ctx, plan, l);
  }

  lemma StrayNeverMet(ctx: Context, plan: SequencePlan, l: Layout, before: bool, k: nat)
    requires StrayContext(ctx, before) && PlanOk(ctx, plan, l)
    ensures Staged(plan, 1) && 2 !in CountedOn(ctx, StagedBefore(plan, k))
  {
    hide PlanOk;
    StrayAssessment(ctx, before);
    StrayUnblocked(ctx, plan, l, before);
    PlannedCourses(ctx, plan, l);
    var staged := UnblockedIsStaged(ctx, plan, l, 1);
    StagedIsKnown(ctx, plan, l, k);
  }

  /** Stage safety fails when a selected course has no record: course 1 needs course 2, of which
      the selected course 3 is the other campus's offering. Course 1 is staged, course 2 never met,
      neither before it nor along with it. */
  lemma MissingRecordBreaksSafety(ctx: Context, plan: SequencePlan, l: Layout, before: bool, k: nat)
    requires Prepared(ctx, StrayCourses(before), [1, 3], [], map[3 := {2}]) && PlanOk(ctx, plan, l)
    ensures Staged(plan, 1) && ctx.courses == StrayCourses(before)
    ensures var course := StrayCourses(before)[1];
            !HoldsBy(if before then course.prerequisites else course.corequisites, ctx, plan, k)
  {
    PreparedStray(ctx, before);
    hide PlanOk, Prepared;
    StrayNeverMet(ctx, plan, l, before, k);
  }

  /** Course 1 needs course 4, and either course 2 or one of courses 4 and 5. */
  function ChanceTree(): Req {
    AllOf([CourseRef(4), AnyOf([CourseRef(2), AnyOf([CourseRef(4), CourseRef(5)])])])
  }

  function ChanceCourses(): map<Code, Course> {
    map[1 := Course(1, true, Parsed, Some(ChanceTree()), None, true, false, false),
        2 := PlainCourse(2), 4 := PlainCourse(4), 5 := PlainCourse(5)]
  }

  ghost predicate ChanceContext(ctx: Context) {
    && ctx.selected == {1, 3, 4, 5} && Taken(ctx) == {}
    && ctx.courses == ChanceCourses() && ctx.campus == map[3 := {2}] && ctx.selectedAliases == map[2 := 3]
  }

  lemma PreparedChance(ctx: Context)
    requires Prepared(ctx, ChanceCourses(), [1, 3, 4, 5], [], map[3 := {2}])
    ensures ChanceContext(ctx)
  {
    assert 3 in ctx.selected && 2 in ctx.campus[3] && ctx.selectedAliases[2] == 3;
    forall a | a in ctx.selectedAliases ensures a == 2 { assert ctx.selectedAliases[a] in ctx.campus; }
  }

  lemma ChanceCodes(ctx: Context)
    requires ChanceContext(ctx)
    ensures Evaluate(CourseRef(4), 1, ctx) == Evaluation(true, {4}, [])
    ensures Evaluate(CourseRef(5), 1, ctx) == Evaluation(true, {5}, [])
    ensures Evaluate(CourseRef(2), 1, ctx) == Evaluation(true, {3}, [])
  {
  }

  /** The two alternatives in the inner choice are different courses, so it is not ready. */
  lemma InnerChoice(ctx: Context)
    requires ctx.campus == map[3 := {2}] && Taken(ctx) == {}
    requires Evaluate(CourseRef(4), 1, ctx) == Evaluation(true, {4}, [])
    requires Evaluate(CourseRef(5), 1, ctx) == Evaluation(true, {5}, [])
    ensures !Evaluate(AnyOf([CourseRef(4), CourseRef(5)]), 1, ctx).ready
  {
    var inner := [CourseRef(4), CourseRef(5)];
    PairResults(inner, 1, ctx);
    var four, five := Evaluation(true, {4}, []), Evaluation(true, {5}, []);
    ViablePair(four, five);
    TwoPlaces(four, five, ctx.campus);
  }

  /** So the outer one comes down to its first alternative. */
  lemma OuterChoice(ctx: Context, other: Req)
    requires Taken(ctx) == {} && !Holds(other, {}, {}) && !Evaluate(other, 1, ctx).ready
    requires Evaluate(CourseRef(2), 1, ctx) == Evaluation(true, {3}, [])
    ensures Evaluate(AnyOf([CourseRef(2), other]), 1, ctx) == Evaluation(true, {3}, [])
  {
    var outer := [CourseRef(2), other];
    PairResults(outer, 1, ctx);
    ViablePair(Evaluation(true, {3}, []), Evaluate(other, 1, ctx));
  }

  lemma ChanceEvaluation(ctx: Context)
    requires ChanceContext(ctx)
    ensures Evaluate(ChanceTree(), 1, ctx).ready && Evaluate(ChanceTree(), 1, ctx).dependencies == {3, 4}
  {
    ChanceCodes(ctx);
    InnerChoice(ctx);
    OuterChoice(ctx, AnyOf([CourseRef(4), CourseRef(5)]));
    var items := ChanceTree().items;
    PairResults(items, 1, ctx);
    AllDependenciesMembers(EvaluateItems(items, 1, ctx));
    assert EvaluateItems(items, 1, ctx)[0].dependencies == {4} && EvaluateItems(items, 1, ctx)[1].dependencies == {3};
  }

  lemma ChanceTreeWalks()
    ensures OptionWalkable(Some(ChanceTree()))
  {
  }

  lemma PlainAssessment(ctx: Context, code: Code)
    requires code in ctx.courses && ctx.courses[code] == PlainCourse(code)
    ensures Assess(ctx, code) == Assessment({}, false, {}, {})
  {
  }

  lemma PrerequisiteAssessment(ctx: Context, code: Code, tree: Req)
    requires code in ctx.courses
    requires ctx.courses[code] == Course(code, true, Parsed, Some(tree), None, true, false, false)
    requires OptionWalkable(Some(tree)) && Evaluate(tree, code, ctx).ready
    ensures Assess(ctx, code) == Assessment({}, false, Evaluate(tree, code, ctx).dependencies, {})
  {
    ReadyIffUnblocked(tree, code, ctx);
  }

  lemma ChanceAssessments(ctx: Context)
    requires ChanceContext(ctx)
    ensures Known(ctx) == {1, 4, 5} && forall c <- Known(ctx) :: !Assess(ctx, c).hard && Coreqs(ctx, c) == {}
    ensures Prereqs(ctx, 1) == {4} && Prereqs(ctx, 4) == {} && Prereqs(ctx, 5) == {}
  {
    hide Assess, Evaluate, OptionWalkable;
    ChanceEvaluation(ctx);
    ChanceTreeWalks();
    PrerequisiteAssessment(ctx, 1, ChanceTree());
    PlainAssessment(ctx, 4);
    PlainAssessment(ctx, 5);
  }

  lemma SingleBundle(ctx: Context, links: Links, anchor: map<Code, Code>, c: Code)
    requires Bundled(ctx, links, anchor) && forall k <- Known(ctx) :: Coreqs(ctx, k) == {}
    requires c in anchor
    ensures anchor[c] == c
  {
    assert IsAnchor(links, c, anchor[c]);
    var chain :| IsChain(links, chain) && chain[0] == c && chain[|chain| - 1] == anchor[c];
    assert |chain| > 1 ==> Linked(links, chain[0], chain[1]);
  }

  /** Without corequisites the bundles are the courses, and the edges the prerequisites. */
  lemma SingleBundles(ctx: Context, l: Layout, n: Code, d: Code)
    requires Bundled(ctx, l.links, l.anchor) && forall k <- Known(ctx) :: Coreqs(ctx, k) == {}
    requires Needs(ctx, l.anchor, n, d)
    ensures n in Known(ctx) && d in Prereqs(ctx, n)
  {
    var c, p :| c in l.anchor && p in l.anchor && l.anchor[c] == n && l.anchor[p] == d && p in Prereqs(ctx, c);
    SingleBundle(ctx, l.links, l.anchor, c);
    SingleBundle(ctx, l.links, l.anchor, p);
  }

  lemma ChanceEdges(ctx: Context, l: Layout, n: Code, d: Code)
    requires ChanceContext(ctx) && Bundled(ctx, l.links, l.anchor) && Needs(ctx, l.anchor, n, d)
    ensures n == 1 && d == 4
  {
    ChanceAssessments(ctx);
    hide Assess, Prereqs, Coreqs, ChanceContext, Needs, Bundled;
    SingleBundles(ctx, l, n, d);
  }

  lemma ChanceUnblocked(ctx: Context, plan: SequencePlan, l: Layout)
    requires ChanceContext(ctx) && PlanOk(ctx, plan, l)
    ensures l.blocked == {}
  {
    ChanceAssessments(ctx);
    hide Assess, Prereqs, Coreqs, ChanceContext, Bundled, LeastBlocked, Layered, BlockersOk;
    forall n, d | Edge(l.full, n, d) ensures n == 1 && d == 4 {
      assert Needs(ctx, l.anchor, n, d);
      ChanceEdges(ctx, l, n, d);
    }
    NothingBlocked(ctx, plan, l);
  }

  lemma ChanceIsStaged(ctx: Context, plan: SequencePlan, l: Layout) returns (k: nat)
    requires ChanceContext(ctx) && PlanOk(ctx, plan, l)
    ensures InStage(plan, k, 1) && 4 in StagedBefore(plan, k)
  {
    hide PlanOk, Assess;
    ChanceAssessments(ctx);
    ChanceUnblocked(ctx, plan, l);
    PlannedCourses(ctx, plan, l);
    k := UnblockedIsStaged(ctx, plan, l, 1);
    PrerequisitesComeFirst(ctx, plan, l, k, 1, 4);
  }

  lemma ChanceCountsOnStray(ctx: Context)
    requires ChanceContext(ctx)
    ensures !StrayFree(ChanceTree(), 1, ctx)
  {
    hide Evaluate, StrayFree;
    ChanceEvaluation(ctx);
    StrayFreeIffRecorded(ChanceTree(), 1, ctx);
  }

  /** With a choice left open a requirement may be met although it counts on a stray code: course 1
      is staged after course 4, which happens to meet the alternative that was not counted on. */
  lemma OpenChoiceMetByChance(ctx: Context, plan: SequencePlan, l: Layout) returns (k: nat)
    requires Prepared(ctx, ChanceCourses(), [1, 3, 4, 5], [], map[3 := {2}]) && PlanOk(ctx, plan, l)
    ensures InStage(plan, k, 1) && HoldsBy(ChanceCourses()[1].prerequisites, ctx, plan, k)
    ensures !StrayFreeOption(ChanceCourses()[1].prerequisites, 1, ctx)
  {
    PreparedChance(ctx);
    hide PlanOk, Prepared, ChanceContext, ChanceTree, Holds, StrayFree;
    k := ChanceIsStaged(ctx, plan, l);
    ChanceHolds(CountedOn(ctx, StagedBefore(plan, k)));
    ChanceCountsOnStray(ctx);
  }

  lemma ChanceHolds(courses: set<Word>)
    requires 4 in courses
    ensures Holds(ChanceTree(), courses, {})
  {
    var inner := [CourseRef(4), CourseRef(5)];
    var outer := [CourseRef(2), AnyOf(inner)];
    assert Holds(inner[0], courses, {});
    assert Holds(outer[1], courses, {});
  }
}
