/** Requisite trees: what they mean, how their alternatives are listed, and how the planner
    evaluates them against a selection of courses. */
module Requirements {
  import opened Forest

  datatype Option<+T> = None | Some(value: T)

  /** Course codes and condition texts are both strings; like a code, a string is its place in
      the order of the strings of the input. */
  type Word = Code

  datatype Req = CourseRef(code: Word) | Condition(text: Word) | AllOf(items: seq<Req>) | AnyOf(items: seq<Req>)

  /** A tree holds when the given courses are taken and the given conditions granted. With no
      conditions granted this is the planner's test against completed courses. */
  predicate Holds(req: Req, courses: set<Word>, conditions: set<Word>) {
    match req
    case CourseRef(code) => code in courses
    case Condition(text) => text in conditions
    case AllOf(items) => forall i :: 0 <= i < |items| ==> Holds(items[i], courses, conditions)
    case AnyOf(items) => exists i :: 0 <= i < |items| && Holds(items[i], courses, conditions)
  }

  lemma {:induction false} HoldsMonotone(req: Req, courses: set<Word>, more: set<Word>, conditions: set<Word>)
    requires courses <= more && Holds(req, courses, conditions)
    ensures Holds(req, more, conditions)
    decreases req
  {
    match req
    case CourseRef(_) =>
    case Condition(_) =>
    case AllOf(items) =>
      forall i | 0 <= i < |items| ensures Holds(items[i], more, conditions) {
        HoldsMonotone(items[i], courses, more, conditions);
      }
    case AnyOf(items) =>
      var i :| 0 <= i < |items| && Holds(items[i], courses, conditions);
      HoldsMonotone(items[i], courses, more, conditions);
  }

  // ---------------------------------------------------------------- alternatives as groups

  type Group = seq<Word>

  const MAX_CHOICE_GROUPS: nat := 128

  predicate LexLeq(a: Group, b: Group) {
    if a == [] then true
    else if b == [] then false
    else a[0] < b[0] || (a[0] == b[0] && LexLeq(a[1..], b[1..]))
  }

  /** Sets of groups are kept as their sorted listing without duplicates. */
  ghost predicate Listing(groups: seq<Group>) {
    forall i, j :: 0 <= i < j < |groups| ==> LexLeq(groups[i], groups[j]) && groups[i] != groups[j]
  }

  function Insert(groups: seq<Group>, g: Group): seq<Group> {
    if groups == [] then [g]
    else if groups[0] == g then groups
    else if LexLeq(g, groups[0]) then [g] + groups
    else [groups[0]] + Insert(groups[1..], g)
  }

  /** Add groups one by one; stop, and say so, at the first new one beyond the cap. */
  function AddCapped(groups: seq<Group>, more: seq<Group>): (seq<Group>, bool)
    decreases more
  {
    if more == [] then (groups, false)
    else if more[0] !in groups && |groups| == MAX_CHOICE_GROUPS then (groups, true)
    else AddCapped(Insert(groups, more[0]), more[1..])
  }

  /** Each left group followed by each right group, left by left. */
  function Products(lefts: seq<Group>, rights: seq<Group>): seq<Group> {
    if lefts == [] then []
    else seq(|rights|, i requires 0 <= i < |rights| => lefts[0] + rights[i]) + Products(lefts[1..], rights)
  }

  /** The groups of words that make a tree true, and whether some were left out. */
  function ChoiceGroups(req: Req): (seq<Group>, bool)
    decreases req, 0
  {
    match req
    case CourseRef(code) => ([[code]], false)
    case Condition(text) => ([[text]], false)
    case AnyOf(items) => AnyGroups(items, [], false)
    case AllOf(items) => AllGroups(items, [[]], false)
  }

  function AnyGroups(items: seq<Req>, groups: seq<Group>, truncated: bool): (seq<Group>, bool)
    decreases items, 0
  {
    if items == [] then (groups, truncated)
    else
      var child := ChoiceGroups(items[0]);
      var added := AddCapped(groups, child.0);
      if added.1 then (added.0, true) else AnyGroups(items[1..], added.0, truncated || child.1)
  }

  function AllGroups(items: seq<Req>, groups: seq<Group>, truncated: bool): (seq<Group>, bool)
    decreases items, 0
  {
    if items == [] then (groups, truncated)
    else
      var child := ChoiceGroups(items[0]);
      var combined := AddCapped([], Products(groups, child.0));
      AllGroups(items[1..], combined.0, truncated || child.1 || combined.1)
  }

  // ---------------------------------------------------------------- what the planner knows

  datatype ParseStatus = NoRequisites | Parsed | Unparsed

  /** A course of the atlas. Of its raw requisite text the model keeps what the planner reads off
      it: which kinds of required segment it has, and whether it names a grade. */
  datatype Course = Course(code: Code, isCurrent: bool, status: ParseStatus, prerequisites: Option<Req>,
                           corequisites: Option<Req>, rawPrerequisite: bool, rawCorequisite: bool, rawGrade: bool)

  /** The words with which a blocker names a kind of requirement or an unread grade. */
  datatype Names = Names(corequisite: Word, prerequisite: Word, grade: Word)

  datatype Context = Context(names: Names, selected: set<Code>, completed: set<Code>, courses: map<Code, Course>,
                             completedAliases: set<Code>, selectedAliases: map<Code, Code>,
                             campus: map<Code, set<Code>>)

  /** Each alias of a selected course stands for one of the courses it is an alias of. */
  ghost predicate AliasesFor(aliases: map<Code, Code>, selected: set<Code>, campus: map<Code, set<Code>>) {
    && (forall a <- aliases :: aliases[a] in selected && aliases[a] in campus && a in campus[aliases[a]])
    && (forall c, a | c in selected && c in campus && a in campus[c] :: a in aliases)
  }

  datatype Reason = UnknownCourse | CourseRetired | CodeMismatch | RequirementsInvalid | RequirementsUnparsed
                  | UnresolvedCondition | MissingPrerequisite | MissingCorequisite | RetiredPrerequisite
                  | AlternativeRequired | MultipleAlternatives | PrerequisiteCycle | BlockedCorequisite
                  | BlockedPrerequisite

  datatype Blocker = Blocker(code: Code, reason: Reason, alternatives: seq<Word>, groups: seq<Group>, truncated: bool)

  datatype Evaluation = Evaluation(ready: bool, dependencies: set<Code>, blockers: seq<Blocker>)

  function Plain(code: Code, reason: Reason): Blocker { Blocker(code, reason, [], [], false) }

  function InsertWord(words: seq<Word>, w: Word): seq<Word> {
    if words == [] then [w]
    else if words[0] == w then words
    else if w < words[0] then [w] + words
    else [words[0]] + InsertWord(words[1..], w)
  }

  function AllWords(groups: seq<Group>): seq<Word> {
    if groups == [] || groups[0] == [] then [] else InsertWord(AllWords(groups[1..]), groups[0][0])
  }

  /** The flat list of choices, given only when every path is a single choice. */
  function FlatChoices(groups: seq<Group>, truncated: bool): seq<Word> {
    if !truncated && (forall i :: 0 <= i < |groups| ==> |groups[i]| == 1) then AllWords(groups) else []
  }

  function ChoiceBlocker(owner: Code, reason: Reason, req: Req): Blocker {
    var listed := ChoiceGroups(req);
    Blocker(owner, reason, FlatChoices(listed.0, listed.1), listed.0, listed.1)
  }

  predicate IsChoice(b: Blocker) { b.reason.AlternativeRequired? || b.reason.MultipleAlternatives? }

  function WithoutChoices(blockers: seq<Blocker>): seq<Blocker> {
    if blockers == [] then []
    else (if IsChoice(blockers[0]) then [] else [blockers[0]]) + WithoutChoices(blockers[1..])
  }

  function AllBlockers(results: seq<Evaluation>): seq<Blocker> {
    if results == [] then [] else results[0].blockers + AllBlockers(results[1..])
  }

  function AllDependencies(results: seq<Evaluation>): set<Code> {
    if results == [] then {} else results[0].dependencies + AllDependencies(results[1..])
  }

  function Viable(results: seq<Evaluation>): seq<Evaluation> {
    if results == [] then []
    else (if results[0].ready then [results[0]] else []) + Viable(results[1..])
  }

  // ---------------------------------------------------------------- alternatives that are one course

  /** Both resolved to one course, or to the two campuses' offerings of one course. */
  predicate SameCourse(left: Evaluation, right: Evaluation, campus: map<Code, set<Code>>) {
    && |left.dependencies| == 1 && |right.dependencies| == 1
    && exists l <- left.dependencies, r <- right.dependencies ::
         l == r || (l in campus && r in campus[l])
  }

  /** Put a result into the first group whose first member is the same course. */
  function Place(groups: seq<seq<Evaluation>>, result: Evaluation, campus: map<Code, set<Code>>): seq<seq<Evaluation>> {
    if groups == [] then [[result]]
    else if groups[0] != [] && SameCourse(groups[0][0], result, campus) then [groups[0] + [result]] + groups[1..]
    else [groups[0]] + Place(groups[1..], result, campus)
  }

  function DistinctCourses(results: seq<Evaluation>, campus: map<Code, set<Code>>): seq<seq<Evaluation>> {
    if results == [] then []
    else Place(DistinctCourses(results[..|results| - 1], campus), results[|results| - 1], campus)
  }

  // ---------------------------------------------------------------- evaluation

  function Taken(ctx: Context): set<Code> { ctx.completed + ctx.completedAliases }

  /** The selected course that a requirement for `code` would be met by. */
  function Matched(ctx: Context, code: Code): Option<Code> {
    if code in ctx.selected then Some(code)
    else if code in ctx.selectedAliases then Some(ctx.selectedAliases[code])
    else None
  }

  /** The record of the matched course, or of the other campus's offering the requirement names. */
  function Target(ctx: Context, code: Code, matched: Code): Option<Course> {
    if matched in ctx.courses then Some(ctx.courses[matched])
    else if matched != code && code in ctx.courses then Some(ctx.courses[code])
    else None
  }

  function EvaluateCourse(code: Code, owner: Code, ctx: Context): Evaluation {
    if code in Taken(ctx) then Evaluation(true, {}, [])
    else match Matched(ctx, code)
      case None => Evaluation(false, {}, [Blocker(owner, MissingPrerequisite, [code], [], false)])
      case Some(matched) =>
        match Target(ctx, code, matched)
        case None => Evaluation(false, {}, [Plain(code, UnknownCourse)])
        case Some(target) =>
          if !target.isCurrent then Evaluation(false, {}, [Plain(code, RetiredPrerequisite)])
          else Evaluation(true, {matched}, [])
  }

  function EvaluateAll(req: Req, results: seq<Evaluation>, owner: Code): Evaluation {
    var blockers := AllBlockers(results);
    var merged :=
      if exists i :: 0 <= i < |blockers| && IsChoice(blockers[i]) then
        var reason := if exists i :: 0 <= i < |blockers| && blockers[i].reason.MultipleAlternatives?
                      then MultipleAlternatives else AlternativeRequired;
        WithoutChoices(blockers) + [ChoiceBlocker(owner, reason, req)]
      else blockers;
    Evaluation(forall i :: 0 <= i < |results| ==> results[i].ready, AllDependencies(results), merged)
  }

  function EvaluateAny(req: Req, results: seq<Evaluation>, owner: Code, campus: map<Code, set<Code>>): Evaluation {
    var viable := Viable(results);
    if |viable| == 1 then viable[0]
    else if |viable| > 1 then
      var distinct := DistinctCourses(viable, campus);
      if |distinct| == 1 then Evaluation(true, AllDependencies(distinct[0]), AllBlockers(distinct[0]))
      else Evaluation(false, {}, [ChoiceBlocker(owner, MultipleAlternatives, req)])
    else Evaluation(false, {}, [ChoiceBlocker(owner, AlternativeRequired, req)])
  }

  /** Whether a requirement is met by completed courses or by exactly one way of taking selected
      ones, which selected courses it then depends on, and what stands in its way otherwise. */
  function Evaluate(req: Req, owner: Code, ctx: Context): Evaluation
    decreases req, 0
  {
    match req
    case CourseRef(code) => EvaluateCourse(code, owner, ctx)
    case Condition(text) => Evaluation(false, {}, [Blocker(owner, UnresolvedCondition, [text], [], false)])
    case AllOf(items) => EvaluateAll(req, EvaluateItems(items, owner, ctx), owner)
    case AnyOf(items) =>
      if exists i :: 0 <= i < |items| && Holds(items[i], Taken(ctx), {}) then Evaluation(true, {}, [])
      else EvaluateAny(req, EvaluateItems(items, owner, ctx), owner, ctx.campus)
  }

  function EvaluateItems(items: seq<Req>, owner: Code, ctx: Context): (r: seq<Evaluation>)
    ensures |r| == |items|
    decreases items, 0
  {
    if items == [] then [] else [Evaluate(items[0], owner, ctx)] + EvaluateItems(items[1..], owner, ctx)
  }

  function EvaluateOption(req: Option<Req>, owner: Code, ctx: Context): Evaluation {
    match req
    case None => Evaluation(true, {}, [])
    case Some(tree) => Evaluate(tree, owner, ctx)
  }
}
