/** What the planner makes of a course's record, over the fields of the record: which reasons it
    reports, what the course then depends on, and what is known of every staged course. */
module CourseMeaning {
  import opened Forest
  import opened Requirements
  import opened RequirementMeaning
  import opened RequirementLoops
  import opened TreeSizes
  import opened Blocks
  import opened SequencePlanner
  import opened PlanTheorems

  // ---------------------------------------------------------------- trees that are evaluated

  /** A tree the planner evaluates: at most 64 levels and 2000 nodes, and nothing in it is empty. */
  ghost predicate Evaluable(tree: Option<Req>) {
    tree.Some? ==> Levels(tree.value) <= 64 && Nodes(tree.value) <= 2000 && NothingEmpty(tree.value)
  }

  lemma EvaluableMeaning(tree: Option<Req>)
    ensures OptionWalkable(tree) <==> Evaluable(tree)
  {
    if tree.Some? {
      FitsMeaning(tree.value, 64);
      PreorderNodes(tree.value);
    }
  }

  // ---------------------------------------------------------------- the reasons a course is blocked for

  ghost predicate Ready(tree: Option<Req>, ctx: Context) { tree.Some? ==> IsReady(tree.value, ctx) }

  ghost function Needed(tree: Option<Req>, ctx: Context): set<Code> {
    if tree.Some? then NeededBy(tree.value, ctx) else {}
  }

  ghost predicate InTheWay(tree: Option<Req>, owner: Code, ctx: Context, b: Blocker) {
    tree.Some? && !IsReady(tree.value, ctx) && Stops(tree.value, owner, ctx, b)
  }

  /** Corequisites name what is missing as a corequisite. */
  ghost predicate CoreqInTheWay(tree: Option<Req>, owner: Code, ctx: Context, b: Blocker) {
    b.reason != MissingPrerequisite
    && (InTheWay(tree, owner, ctx, b)
        || (b.reason == MissingCorequisite && InTheWay(tree, owner, ctx, b.(reason := MissingPrerequisite))))
  }

  /** The record can be looked into: it is current and its trees can be evaluated. */
  ghost predicate Legible(course: Course) {
    course.isCurrent && Evaluable(course.prerequisites) && Evaluable(course.corequisites)
  }

  /** The raw text names a kind of requirement of which there is no tree. */
  predicate KindMissing(course: Course) {
    (course.rawPrerequisite && course.prerequisites == None) || (course.rawCorequisite && course.corequisites == None)
  }

  /** The words for the kinds of requirement of which there is no tree. */
  function KindsNamed(names: Names, course: Course): seq<Word> {
    (if course.rawCorequisite && course.corequisites == None then [names.corequisite] else [])
    + (if course.rawPrerequisite && course.prerequisites == None then [names.prerequisite] else [])
  }

  /** The reasons for a record that was parsed. */
  ghost predicate ParsedReason(ctx: Context, c: Code, b: Blocker)
    requires c in ctx.courses
  {
    var course := ctx.courses[c];
    || (KindMissing(course) && b == Blocker(c, RequirementsInvalid, KindsNamed(ctx.names, course), [], false))
    || (course.rawGrade && b == Blocker(c, UnresolvedCondition, [ctx.names.grade], [], false))
    || InTheWay(course.prerequisites, c, ctx, b)
    || CoreqInTheWay(course.corequisites, c, ctx, b)
  }

  /** Each reason for which a selected course is reported on its own account, and its blocker. */
  ghost predicate OwnReason(ctx: Context, c: Code, b: Blocker) {
    if c !in ctx.courses then b == Blocker(c, UnknownCourse, [], [], false)
    else
      var course := ctx.courses[c];
      || (!course.isCurrent && b == Blocker(c, CourseRetired, [], [], false))
      || (course.isCurrent && course.code != c && b == Blocker(c, CodeMismatch, [], [], false))
      || (b == Blocker(c, RequirementsInvalid, [], [], false) && course.isCurrent
          && (!Legible(course)
              || (course.status == NoRequisites
                  && (course.prerequisites.Some? || course.corequisites.Some? || course.rawPrerequisite
                      || course.rawCorequisite))))
      || (Legible(course) && course.status == Unparsed && b == Blocker(c, RequirementsUnparsed, [], [], false))
      || (Legible(course) && course.status == Parsed && ParsedReason(ctx, c, b))
  }

  /** Nothing is wrong with the course's record and its requirements are ready. */
  ghost predicate Takeable(ctx: Context, c: Code) {
    c in ctx.courses
    && var course := ctx.courses[c];
       && course.isCurrent && course.code == c && Legible(course)
       && course.status != Unparsed
       && (course.status == NoRequisites ==>
             && course.prerequisites == None && course.corequisites == None
             && !course.rawPrerequisite && !course.rawCorequisite)
       && (course.status == Parsed ==>
             && !KindMissing(course) && !course.rawGrade
             && Ready(course.prerequisites, ctx) && Ready(course.corequisites, ctx))
  }

  lemma OptionMeaning(tree: Option<Req>, owner: Code, ctx: Context)
    ensures EvaluateOption(tree, owner, ctx).ready <==> Ready(tree, ctx)
    ensures EvaluateOption(tree, owner, ctx).dependencies == Needed(tree, ctx)
    ensures forall b :: !Ready(tree, ctx) ==>
                    (b in EvaluateOption(tree, owner, ctx).blockers <==> InTheWay(tree, owner, ctx, b))
  {
    if tree.Some? { EvaluateMeaning(tree.value, owner, ctx); }
  }

  lemma RenamedMembers(blockers: seq<Blocker>, b: Blocker)
    ensures b in Renamed(blockers)
            <==> b.reason != MissingPrerequisite
                 && (b in blockers
                     || (b.reason == MissingCorequisite && b.(reason := MissingPrerequisite) in blockers))
  {
    var renamed := Renamed(blockers);
    if b in renamed {
      var i :| 0 <= i < |renamed| && renamed[i] == b;
      assert blockers[i] in blockers;
    }
    if b.reason != MissingPrerequisite && b in blockers {
      var i :| 0 <= i < |blockers| && blockers[i] == b;
      assert renamed[i] == b;
    }
    if b.reason == MissingCorequisite && b.(reason := MissingPrerequisite) in blockers {
      var i :| 0 <= i < |blockers| && blockers[i] == b.(reason := MissingPrerequisite);
      assert renamed[i] == b;
    }
  }

  lemma RenamedMeaning(tree: Option<Req>, owner: Code, ctx: Context, b: Blocker)
    requires !Ready(tree, ctx)
    ensures b in BlockerSet(Renamed(EvaluateOption(tree, owner, ctx).blockers)) <==> CoreqInTheWay(tree, owner, ctx, b)
  {
    OptionMeaning(tree, owner, ctx);
    hide InTheWay, Ready, EvaluateOption, Renamed;
    RenamedMembers(EvaluateOption(tree, owner, ctx).blockers, b);
  }

  /** A parsed record that can be evaluated. */
  lemma ParsedMeaning(ctx: Context, c: Code, b: Blocker)
    requires c in ctx.courses && Legible(ctx.courses[c]) && ctx.courses[c].status == Parsed
    ensures b in Assess(ctx, c).blockers <==> OwnReason(ctx, c, b)
    ensures Assess(ctx, c).hard <==> !Takeable(ctx, c)
    ensures Assess(ctx, c).prereqs == Needed(ctx.courses[c].prerequisites, ctx)
    ensures Assess(ctx, c).coreqs == Needed(ctx.courses[c].corequisites, ctx)
  {
    var course := ctx.courses[c];
    EvaluableMeaning(course.prerequisites);
    EvaluableMeaning(course.corequisites);
    OptionMeaning(course.prerequisites, c, ctx);
    OptionMeaning(course.corequisites, c, ctx);
    if !Ready(course.corequisites, ctx) { RenamedMeaning(course.corequisites, c, ctx, b); }
    hide Evaluable, OptionWalkable, EvaluateOption, Renamed, Ready, Needed;
    NotInTheWay(course.prerequisites, c, ctx, b);
    NotInTheWay(course.corequisites, c, ctx, b);
    NotInTheWay(course.corequisites, c, ctx, b.(reason := MissingPrerequisite));
    hide InTheWay;
  }

  lemma NotInTheWay(tree: Option<Req>, owner: Code, ctx: Context, b: Blocker)
    ensures Ready(tree, ctx) ==> !InTheWay(tree, owner, ctx, b)
  {
  }

  /** What the planner makes of a course on record, exactly: the reasons it reports, whether it blocks
      the course, and the selected courses it depends on, kept even when it is blocked. */
  lemma AssessMeaning(ctx: Context, c: Code, b: Blocker)
    requires c in ctx.courses
    ensures b in Assess(ctx, c).blockers <==> OwnReason(ctx, c, b)
    ensures Assess(ctx, c).hard <==> !Takeable(ctx, c)
    ensures var course := ctx.courses[c];
            var evaluated := Legible(course) && course.status == Parsed;
            && Assess(ctx, c).prereqs == (if evaluated then Needed(course.prerequisites, ctx) else {})
            && Assess(ctx, c).coreqs == (if evaluated then Needed(course.corequisites, ctx) else {})
  {
    var course := ctx.courses[c];
    EvaluableMeaning(course.prerequisites);
    EvaluableMeaning(course.corequisites);
    hide Evaluable, OptionWalkable;
    if Legible(course) && course.status == Parsed { ParsedMeaning(ctx, c, b); }
  }

  lemma OwnMeaning(ctx: Context, c: Code, b: Blocker)
    ensures b in OwnBlockers(ctx, c) <==> OwnReason(ctx, c, b)
  {
    if c in ctx.courses { AssessMeaning(ctx, c, b); }
  }

  // ---------------------------------------------------------------- what a plan then says

  /** A staged course is on record, current and under its own code; its trees are there, can be
      evaluated and are ready; and nothing in its raw text is left unread. */
  lemma StagedIsTakeable(ctx: Context, plan: SequencePlan, l: Layout, c: Code)
    requires PlanOk(ctx, plan, l) && Staged(plan, c)
    ensures Takeable(ctx, c)
  {
    StagedIsSound(ctx, plan, l, c);
    AssessMeaning(ctx, c, Plain(c, UnknownCourse));
  }

  /** What a plan reports: exactly the reasons of its selected courses, the cycles, and one blocker for
      each course that is blocked by others. */
  lemma ReportedReasons(ctx: Context, plan: SequencePlan, l: Layout, b: Blocker)
    requires PlanOk(ctx, plan, l)
    ensures b in plan.blockers
            <==> (exists c :: c in ctx.selected && OwnReason(ctx, c, b)) || CycleReport(ctx, l, b)
                 || OthersBlocker(ctx, l, b)
  {
    BlockerListed(ctx, plan, l, b);
    forall c ensures b in OwnBlockers(ctx, c) <==> OwnReason(ctx, c, b) { OwnMeaning(ctx, c, b); }
    hide OwnBlockers, OwnReason, PlanOk;
  }

  /** A course may be blocked on its own account exactly when it is not takeable; the graph of bundles
      and the bundles follow what the records need. */
  lemma NeedsMeaning(ctx: Context, c: Code, d: Code)
    ensures d in Prereqs(ctx, c)
            <==> && c in ctx.courses && Legible(ctx.courses[c]) && ctx.courses[c].status == Parsed
                 && d in Needed(ctx.courses[c].prerequisites, ctx) && d in ctx.selected && d in ctx.courses
    ensures d in Coreqs(ctx, c)
            <==> && c in ctx.courses && Legible(ctx.courses[c]) && ctx.courses[c].status == Parsed
                 && d in Needed(ctx.courses[c].corequisites, ctx) && d in ctx.selected && d in ctx.courses
  {
    if c in ctx.courses { AssessMeaning(ctx, c, Plain(c, UnknownCourse)); }
  }

  // ---------------------------------------------------------------- from the input itself

  /** What the context derived from an input says of the input: what counts as completed, here or at
      the other campus, what is selected, and which course an alias stands for. */
  lemma InputMeaning(ctx: Context, courses: map<Code, Course>, selected: seq<Code>, completed: seq<Code>,
                     campus: map<Code, set<Code>>, code: Code)
    requires Prepared(ctx, courses, selected, completed, campus)
    ensures Done(ctx, code) <==> code in completed || exists c <- completed :: c in campus && code in campus[c]
    ensures code in ctx.selected <==> code in selected && code !in completed
    ensures (exists c :: StandsFor(ctx, code, c))
            <==> exists c <- selected :: c !in completed && (c == code || (c in campus && code in campus[c]))
    ensures forall c :: StandsFor(ctx, code, c) ==>
                    c in selected && c !in completed && (c == code || (c in campus && code in campus[c]))
    ensures ctx.courses == courses && ctx.campus == campus
  {
    if c :| c in selected && c !in completed && (c == code || (c in campus && code in campus[c])) {
      assert c in ctx.selected;
      assert code in ctx.selected || code in ctx.selectedAliases;
      assert StandsFor(ctx, code, if code in ctx.selected then code else ctx.selectedAliases[code]);
    }
  }

  /** Nothing completed is staged, and nothing that was not selected. */
  lemma StagedIsSelected(ctx: Context, courses: map<Code, Course>, selected: seq<Code>, completed: seq<Code>,
                         campus: map<Code, set<Code>>, plan: SequencePlan, l: Layout, c: Code)
    requires Prepared(ctx, courses, selected, completed, campus) && PlanOk(ctx, plan, l) && Staged(plan, c)
    ensures c in selected && c !in completed && c in courses
  {
    StagedExactlyOnce(ctx, plan, l, c);
    InputMeaning(ctx, courses, selected, completed, campus, c);
  }

  // ---------------------------------------------------------------- the order of the reasons

  /** The name under which a reason is reported. */
  function NameOf(reason: Reason): string {
    match reason
    case UnknownCourse => "unknown_course"
    case CourseRetired => "course_retired"
    case CodeMismatch => "course_code_mismatch"
    case RequirementsInvalid => "requirements_invalid"
    case RequirementsUnparsed => "requirements_unparsed"
    case UnresolvedCondition => "unresolved_condition"
    case MissingPrerequisite => "missing_prerequisite"
    case MissingCorequisite => "missing_corequisite"
    case RetiredPrerequisite => "retired_prerequisite"
    case AlternativeRequired => "alternative_required"
    case MultipleAlternatives => "multiple_alternatives_selected"
    case PrerequisiteCycle => "prerequisite_cycle"
    case BlockedCorequisite => "blocked_corequisite"
    case BlockedPrerequisite => "blocked_prerequisite"
  }

  /** The first place at which two names differ decides. */
  ghost predicate NameBefore(a: string, b: string) {
    exists i :: 0 <= i < |a| && i < |b| && a[..i] == b[..i] && a[i] < b[i]
  }

  lemma BeforeAt(a: string, b: string, i: nat)
    requires i < |a| && i < |b| && a[..i] == b[..i] && a[i] < b[i]
    ensures NameBefore(a, b)
  {
  }

  lemma BeforeTransitive(a: string, b: string, c: string)
    requires NameBefore(a, b) && NameBefore(b, c)
    ensures NameBefore(a, c)
  {
    var i :| 0 <= i < |a| && i < |b| && a[..i] == b[..i] && a[i] < b[i];
    var j :| 0 <= j < |b| && j < |c| && b[..j] == c[..j] && b[j] < c[j];
    var k := if i < j then i else j;
    assert a[..k] == a[..i][..k] && b[..k] == b[..i][..k] == b[..j][..k] && c[..k] == c[..j][..k];
    if i < j { assert b[..j][i] == c[..j][i]; }
    if j < i { assert a[..i][j] == b[..i][j]; }
    BeforeAt(a, c, k);
  }

  const NAMES: seq<string> := [
    "alternative_required", "blocked_corequisite", "blocked_prerequisite", "course_code_mismatch", "course_retired",
    "missing_corequisite", "missing_prerequisite", "multiple_alternatives_selected", "prerequisite_cycle",
    "requirements_invalid", "requirements_unparsed", "retired_prerequisite", "unknown_course", "unresolved_condition"]

  /** Where each name first differs from the next one. */
  const DIFFERS: seq<nat> := [0, 8, 0, 7, 0, 8, 1, 0, 0, 13, 2, 0, 2]

  lemma NamesRise(k: nat)
    requires k + 1 < |NAMES|
    ensures NameBefore(NAMES[k], NAMES[k + 1])
  {
    BeforeAt(NAMES[k], NAMES[k + 1], DIFFERS[k]);
  }

  lemma {:induction false} NamesInOrder(j: nat, k: nat)
    requires j < k < |NAMES|
    ensures NameBefore(NAMES[j], NAMES[k])
  {
    NamesRise(k - 1);
    if j < k - 1 {
      NamesInOrder(j, k - 1);
      BeforeTransitive(NAMES[j], NAMES[k - 1], NAMES[k]);
    }
  }

  lemma NotBeforeItself(a: string)
    ensures !NameBefore(a, a)
  {
  }

  lemma NameIs(reason: Reason)
    ensures ReasonPlace(reason) < |NAMES| && NameOf(reason) == NAMES[ReasonPlace(reason)]
  {
  }

  /** Blockers are listed with their reasons' names in alphabetical order. */
  lemma ReasonsAreAlphabetical(a: Reason, b: Reason)
    ensures ReasonPlace(a) < ReasonPlace(b) <==> NameBefore(NameOf(a), NameOf(b))
    ensures ReasonPlace(a) == ReasonPlace(b) <==> a == b
  {
    NameIs(a);
    NameIs(b);
    hide NameOf, ReasonPlace, NameBefore;
    var i, j := ReasonPlace(a), ReasonPlace(b);
    NotBeforeItself(NAMES[i]);
    if i < j { NamesInOrder(i, j); }
    if j < i {
      NamesInOrder(j, i);
      if NameBefore(NAMES[i], NAMES[j]) { BeforeTransitive(NAMES[i], NAMES[j], NAMES[i]); }
    }
    SamePlace(a, b);
  }

  lemma SamePlace(a: Reason, b: Reason)
    ensures ReasonPlace(a) == ReasonPlace(b) <==> a == b
  {
  }
}
