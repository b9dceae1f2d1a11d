/** The sequence planner: assess every selected course, bundle corequisites, find cycles, spread
    blocks and layer the rest. */
module SequencePlanner {
  import opened Forest
  import opened Requirements
  import opened RequirementProofs
  import opened RequirementLoops
  import opened Cycles
  import opened Layers
  import opened Blocks

  const MAX_COURSES: nat := 100
  const MAX_SELECTED: nat := 50
  const MAX_COMPLETED: nat := 100

  // ---------------------------------------------------------------- one course

  datatype Assessment = Assessment(blockers: set<Blocker>, hard: bool, prereqs: set<Code>, coreqs: set<Code>)

  predicate OptionWalkable(tree: Option<Req>) { tree.None? || Walkable(tree.value) }

  function Renamed(blockers: seq<Blocker>): seq<Blocker> {
    seq(|blockers|, i requires 0 <= i < |blockers| =>
      if blockers[i].reason.MissingPrerequisite? then blockers[i].(reason := MissingCorequisite) else blockers[i])
  }

  function BlockerSet(blockers: seq<Blocker>): set<Blocker> { set b | b in blockers }

  /** The kinds of requirement that the raw text has and the parsed trees have not, in order. */
  function KindsMissing(names: Names, code: Code, course: Course): Blocker {
    var coreq := if course.rawCorequisite && course.corequisites.None? then [names.corequisite] else [];
    var prereq := if course.rawPrerequisite && course.prerequisites.None? then [names.prerequisite] else [];
    Blocker(code, RequirementsInvalid, coreq + prereq, [], false)
  }

  function GradeUnread(names: Names, code: Code): Blocker {
    Blocker(code, UnresolvedCondition, [names.grade], [], false)
  }

  /** What the planner makes of one known selected course on its own. */
  function Assess(ctx: Context, code: Code): Assessment
    requires code in ctx.courses
  {
    var course := ctx.courses[code];
    if !course.isCurrent then Assessment({Plain(code, CourseRetired)}, true, {}, {})
    else
      var mismatch := if course.code != code then {Plain(code, CodeMismatch)} else {};
      if !OptionWalkable(course.prerequisites) || !OptionWalkable(course.corequisites) then
        Assessment(mismatch + {Plain(code, RequirementsInvalid)}, true, {}, {})
      else match course.status
        case Unparsed => Assessment(mismatch + {Plain(code, RequirementsUnparsed)}, true, {}, {})
        case NoRequisites =>
          var invalid := course.prerequisites.Some? || course.corequisites.Some?
                         || course.rawPrerequisite || course.rawCorequisite;
          var found := mismatch + if invalid then {Plain(code, RequirementsInvalid)} else {};
          Assessment(found, found != {}, {}, {})
        case Parsed =>
          var missing := (course.rawPrerequisite && course.prerequisites.None?)
                         || (course.rawCorequisite && course.corequisites.None?);
          var prereq := EvaluateOption(course.prerequisites, code, ctx);
          var coreq := EvaluateOption(course.corequisites, code, ctx);
          var found := mismatch + (if missing then {KindsMissing(ctx.names, code, course)} else {})
                       + (if course.rawGrade then {GradeUnread(ctx.names, code)} else {})
                       + (if prereq.ready then {} else BlockerSet(prereq.blockers))
                       + (if coreq.ready then {} else BlockerSet(Renamed(coreq.blockers)));
          Assessment(found, course.code != code || missing || course.rawGrade || !prereq.ready || !coreq.ready,
                     prereq.dependencies, coreq.dependencies)
  }

  lemma OptionReady(req: Option<Req>, owner: Code, ctx: Context)
    ensures EvaluateOption(req, owner, ctx).ready <==> EvaluateOption(req, owner, ctx).blockers == []
    ensures EvaluateOption(req, owner, ctx).dependencies <= Choosable(ctx)
  {
    if req.Some? {
      ReadyIffUnblocked(req.value, owner, ctx);
      DependenciesAreSelected(req.value, owner, ctx);
    }
  }

  /** A course is blocked on its own account exactly when there is a blocker to show for it. */
  lemma HardIffBlocker(ctx: Context, code: Code)
    requires code in ctx.courses
    ensures Assess(ctx, code).hard <==> Assess(ctx, code).blockers != {}
  {
    var course := ctx.courses[code];
    OptionReady(course.prerequisites, code, ctx);
    OptionReady(course.corequisites, code, ctx);
    var prereq := EvaluateOption(course.prerequisites, code, ctx);
    var coreq := EvaluateOption(course.corequisites, code, ctx);
    if prereq.blockers != [] {
      assert prereq.blockers[0] in BlockerSet(prereq.blockers);
    }
    if coreq.blockers != [] {
      assert Renamed(coreq.blockers)[0] in BlockerSet(Renamed(coreq.blockers));
    }
  }

  // ---------------------------------------------------------------- the whole selection

  /** The sets and alias tables the planner derives from its input. Which of several selected
      offerings an alias stands for is left open. */
  ghost predicate Prepared(ctx: Context, courses: map<Code, Course>, selected: seq<Code>, completed: seq<Code>,
                           campus: map<Code, set<Code>>)
  {
    && ctx.courses == courses && ctx.campus == campus
    && ctx.completed == (set c | c in completed)
    && ctx.selected == (set c | c in selected) - ctx.completed
    && ctx.completedAliases == (set c, a | c in ctx.completed && c in campus && a in campus[c] && a !in ctx.completed ::
                                a)
    && AliasesFor(ctx.selectedAliases, ctx.selected, campus)
  }

  function Known(ctx: Context): set<Code> { set c | c in ctx.selected && c in ctx.courses }

  function Prereqs(ctx: Context, code: Code): set<Code> {
    if code in ctx.courses then Assess(ctx, code).prereqs * Known(ctx) else {}
  }

  function Coreqs(ctx: Context, code: Code): set<Code> {
    if code in ctx.courses then Assess(ctx, code).coreqs * Known(ctx) else {}
  }

  /** The links that bundle courses: the corequisites among known selected courses. */
  ghost predicate CoreqLinks(ctx: Context, links: Links) {
    forall a, b {:trigger (a, b) in links} :: (a, b) in links <==> a in Known(ctx) && b in Coreqs(ctx, a)
  }

  ghost function KnownLinks(ctx: Context): (links: Links)
    ensures CoreqLinks(ctx, links)
  {
    set a, b | a in Known(ctx) && b in Coreqs(ctx, a) :: (a, b)
  }

  lemma LinksAreKnown(ctx: Context, links: Links)
    requires CoreqLinks(ctx, links)
    ensures links == KnownLinks(ctx)
  {
    forall pair: (Code, Code) ensures pair in links <==> pair in KnownLinks(ctx) {
      assert pair == (pair.0, pair.1);
    }
  }

  /** Each known course's bundle, named by its least member. */
  ghost predicate Bundled(ctx: Context, links: Links, anchor: map<Code, Code>) {
    && CoreqLinks(ctx, links) && anchor.Keys == Known(ctx)
    && forall c <- anchor :: IsAnchor(links, c, anchor[c])
  }

  /** Bundle n needs a prerequisite from bundle d; n and d may be the same bundle. */
  ghost predicate Needs(ctx: Context, anchor: map<Code, Code>, n: Code, d: Code) {
    NeedsVia(ctx, anchor, anchor.Keys, n, d)
  }

  ghost predicate NeedsVia(ctx: Context, anchor: map<Code, Code>, members: set<Code>, n: Code, d: Code) {
    exists c, p :: c in members && c in anchor && p in anchor && anchor[c] == n && anchor[p] == d
        && p in Prereqs(ctx, c)
  }

  /** The prerequisite graph between bundles, with a loop at a bundle that needs itself. */
  ghost predicate IsBundleGraph(ctx: Context, anchor: map<Code, Code>, full: Graph) {
    && IsGraph(full)
    && (forall n {:trigger n in full} :: n in full <==> n in anchor && anchor[n] == n)
    && (forall n, d {:trigger Edge(full, n, d)} :: Edge(full, n, d) <==> Needs(ctx, anchor, n, d))
  }

  ghost predicate HardBundle(ctx: Context, anchor: map<Code, Code>, n: Code) {
    exists c :: c in anchor && anchor[c] == n && c in ctx.courses && Assess(ctx, c).hard
  }

  /** Where blocks start: a course blocked on its own account, or a prerequisite cycle. */
  ghost predicate StartsBlocked(ctx: Context, anchor: map<Code, Code>, full: Graph, n: Code) {
    n in full && (HardBundle(ctx, anchor, n) || OnCycle(full, n))
  }

  /** The blocked bundles: the least set that holds the starts and everything that depends on it. */
  ghost predicate LeastBlocked(ctx: Context, anchor: map<Code, Code>, full: Graph, b: set<Code>) {
    && (forall n <- b :: n in full)
    && (forall n | StartsBlocked(ctx, anchor, full, n) :: n in b)
    && SpreadClosed(full, b)
    && forall c: set<Code> {:trigger SpreadClosed(full, c)} ::
         SpreadClosed(full, c) && (forall n | StartsBlocked(ctx, anchor, full, n) :: n in c) ==> b <= c
  }

  /** A blocker found on a selected course's own account. */
  ghost predicate OwnBlocker(ctx: Context, b: Blocker) {
    exists c :: c in ctx.selected && b in OwnBlockers(ctx, c)
  }

  function OwnBlockers(ctx: Context, c: Code): set<Blocker> {
    if c in ctx.courses then Assess(ctx, c).blockers else {Plain(c, UnknownCourse)}
  }

  function BundleOf(anchor: map<Code, Code>, n: Code): set<Code> { set c | c in anchor && anchor[c] == n }

  /** The blocker that names a member of a bundle on a cycle and lists the whole bundle in order. */
  ghost predicate CycleBlocker(b: Blocker, bundle: set<Code>) {
    b.code in bundle && b == Blocker(b.code, PrerequisiteCycle, b.alternatives, [], false)
        && Lists(b.alternatives, bundle)
  }

  ghost predicate Lists(words: seq<Word>, members: set<Code>) {
    (forall i, j :: 0 <= i < j < |words| ==> words[i] < words[j]) && Members(words) == members
  }

  /** A set has one listing. */
  lemma {:induction false} ListsUnique(a: seq<Word>, b: seq<Word>, members: set<Code>)
    requires Lists(a, members) && Lists(b, members)
    ensures a == b
    decreases |a|
  {
    ListsEmpty(a, members);
    ListsEmpty(b, members);
    if a != [] {
      assert a[0] in Members(b) && b[0] in Members(a);
      ListsTail(a, members);
      ListsTail(b, members);
      ListsUnique(a[1..], b[1..], members - {a[0]});
      assert a == [a[0]] + a[1..] && b == [b[0]] + b[1..];
    }
  }

  lemma ListsEmpty(a: seq<Word>, members: set<Code>)
    requires Lists(a, members)
    ensures a == [] <==> members == {}
  {
    if a != [] { assert a[0] in Members(a); }
  }

  lemma ListsTail(a: seq<Word>, members: set<Code>)
    requires Lists(a, members) && a != []
    ensures Lists(a[1..], members - {a[0]})
    ensures forall c <- members :: a[0] <= c
  {
    assert a == [a[0]] + a[1..];
  }

  lemma ListsCons(least: Word, rest: seq<Word>, members: set<Code>)
    requires least in members && (forall c <- members :: least <= c) && Lists(rest, members - {least})
    ensures Lists([least] + rest, members)
  {
    var words := [least] + rest;
    forall j | 0 <= j < |rest| ensures least < rest[j] { assert rest[j] in Members(rest); }
    forall c ensures c in words <==> c in members {
      assert c in words <==> c == least || c in rest;
      assert c in rest <==> c in Members(rest);
    }
  }

  lemma {:induction false} ListingExists(members: set<Code>) returns (words: seq<Word>)
    ensures Lists(words, members)
    decreases |members|
  {
    if members == {} {
      words := [];
    } else {
      var least := Least(members);
      assert members == {least} + (members - {least});
      words := ListingExists(members - {least});
      ListsCons(least, words, members);
      words := [least] + words;
    }
  }

  /** The place of a reason's name among the names in alphabetical order. */
  function ReasonPlace(reason: Reason): nat {
    match reason
    case AlternativeRequired => 0
    case BlockedCorequisite => 1
    case BlockedPrerequisite => 2
    case CodeMismatch => 3
    case CourseRetired => 4
    case MissingCorequisite => 5
    case MissingPrerequisite => 6
    case MultipleAlternatives => 7
    case PrerequisiteCycle => 8
    case RequirementsInvalid => 9
    case RequirementsUnparsed => 10
    case RetiredPrerequisite => 11
    case UnknownCourse => 12
    case UnresolvedCondition => 13
  }

  /** Blockers are listed by course, reason and alternatives. */
  predicate BlockerLeq(a: Blocker, b: Blocker) {
    var i, j := ReasonPlace(a.reason), ReasonPlace(b.reason);
    a.code < b.code || (a.code == b.code && (i < j || (i == j && LexLeq(a.alternatives, b.alternatives))))
  }

  /** In order, none twice. */
  ghost predicate BlockersOrdered(blockers: seq<Blocker>) {
    forall i, j :: 0 <= i < j < |blockers| ==> BlockerLeq(blockers[i], blockers[j]) && blockers[i] != blockers[j]
  }

  datatype SequencePlan = SequencePlan(stages: seq<seq<Code>>, blockers: seq<Blocker>, complete: bool)

  /** The bundles behind a plan. */
  datatype Layout = Layout(links: Links, anchor: map<Code, Code>, full: Graph, blocked: set<Code>,
                           layers: seq<set<Code>>)

  function Eligible(l: Layout): set<Code> { set n | n in l.full && n !in l.blocked }

  /** The bundle graph without the bundles' dependencies on themselves. */
  ghost function Loopless(full: Graph): Graph { map n | n in full :: full[n] - {n} }

  /** The bundles that the cycle search marks. */
  ghost function Marks(full: Graph): set<Code> {
    if IsGraph(Loopless(full)) then Search(Loopless(full)).marked else {}
  }

  /** A course that needs a course of its own bundle first. */
  ghost predicate NeedsOwnBundle(ctx: Context, anchor: map<Code, Code>, c: Code) {
    c in anchor && exists p :: p in Prereqs(ctx, c) && p in anchor && anchor[p] == anchor[c]
  }

  /** The courses named in cycle blockers: those that need their own bundle, and all of marked bundles. */
  ghost predicate NamedInCycle(ctx: Context, l: Layout, c: Code) {
    c in l.anchor && (NeedsOwnBundle(ctx, l.anchor, c) || l.anchor[c] in Marks(l.full))
  }

  ghost predicate CycleReport(ctx: Context, l: Layout, b: Blocker) {
    NamedInCycle(ctx, l, b.code) && CycleBlocker(b, BundleOf(l.anchor, l.anchor[b.code]))
  }

  /** A blocked course that is not blocked on its own account and whose bundle is not reported as a cycle. */
  ghost predicate BlockedByOthers(ctx: Context, l: Layout, c: Code) {
    && c in l.anchor && l.anchor[c] in l.blocked
    && !(c in ctx.courses && Assess(ctx, c).hard)
    && !Edge(l.full, l.anchor[c], l.anchor[c]) && l.anchor[c] !in Marks(l.full)
  }

  /** The one blocker of such a course: a member of its bundle is blocked on its own account, or else
      something its bundle depends on is blocked. */
  ghost predicate OthersBlocker(ctx: Context, l: Layout, b: Blocker) {
    && BlockedByOthers(ctx, l, b.code)
    && b == Plain(b.code, if HardBundle(ctx, l.anchor, l.anchor[b.code]) then BlockedCorequisite
                          else BlockedPrerequisite)
  }

  /** The reported blockers are exactly the courses' own ones, those of cycles, and one for each course
      that is blocked by others. */
  ghost predicate BlockersOk(ctx: Context, l: Layout, blockers: set<Blocker>) {
    forall b {:trigger b in blockers} ::
      b in blockers <==> OwnBlocker(ctx, b) || CycleReport(ctx, l, b) || OthersBlocker(ctx, l, b)
  }

  /** What the planner promises about its plan. */
  ghost predicate PlanOk(ctx: Context, plan: SequencePlan, l: Layout) {
    && Bundled(ctx, l.links, l.anchor)
    && IsBundleGraph(ctx, l.anchor, l.full)
    && LeastBlocked(ctx, l.anchor, l.full, l.blocked)
    && Layered(l.full, Eligible(l), l.layers)
    && |plan.stages| == |l.layers|
    && (forall k :: 0 <= k < |plan.stages| ==> Lists(plan.stages[k], MembersOf(l.anchor, l.layers[k])))
    && BlockersOk(ctx, l, BlockerSet(plan.blockers)) && BlockersOrdered(plan.blockers)
    && (plan.complete <==> plan.blockers == [])
  }

  function MembersOf(anchor: map<Code, Code>, bundles: set<Code>): set<Code> {
    set c | c in anchor && anchor[c] in bundles
  }

  /** A bundle is named by one of its own members, and members linked as corequisites share it. */
  lemma AnchorsAreRoots(ctx: Context, links: Links, anchor: map<Code, Code>, c: Code)
    requires Bundled(ctx, links, anchor) && c in anchor
    ensures anchor[c] in anchor && anchor[anchor[c]] == anchor[c]
  {
    StaysKnown(ctx, links, c, anchor[c]);
    SameAnchor(ctx, links, anchor, c, anchor[c]);
    ConnectedSelf(links, anchor[c]);
    assert anchor[anchor[c]] <= anchor[c];
    ConnectedTransitive(links, c, anchor[c], anchor[anchor[c]]);
  }

  /** Corequisite links stay among the known courses. */
  lemma StaysKnown(ctx: Context, links: Links, a: Code, b: Code)
    requires CoreqLinks(ctx, links) && a in Known(ctx) && Connected(links, a, b)
    ensures b in Known(ctx)
  {
    var chain :| IsChain(links, chain) && chain[0] == a && chain[|chain| - 1] == b;
    ChainStaysKnown(ctx, links, chain);
  }

  lemma {:induction false} ChainStaysKnown(ctx: Context, links: Links, chain: seq<Code>)
    requires CoreqLinks(ctx, links) && IsChain(links, chain) && chain[0] in Known(ctx)
    ensures chain[|chain| - 1] in Known(ctx)
    decreases |chain|
  {
    if |chain| > 1 {
      assert Linked(links, chain[0], chain[1]);
      ChainStaysKnown(ctx, links, chain[1..]);
    }
  }

  /** Connected courses are in one bundle. */
  lemma SameAnchor(ctx: Context, links: Links, anchor: map<Code, Code>, a: Code, b: Code)
    requires Bundled(ctx, links, anchor) && a in anchor && b in anchor && Connected(links, a, b)
    ensures anchor[a] == anchor[b]
  {
    ConnectedSymmetric(links, a, b);
    ConnectedTransitive(links, b, a, anchor[a]);
    ConnectedTransitive(links, a, b, anchor[b]);
  }
}
