/** What the evaluation of a requirement comes to, case by case: when it is ready, on which selected
    courses it then depends, what stands in its way otherwise, and which routes are listed. */
module RequirementMeaning {
  import opened Forest
  import opened Requirements
  import opened RequirementProofs

  // ---------------------------------------------------------------- the routes through a requirement

  /** One way through a requirement: the words to be granted, in the order they are named. */
  ghost predicate Route(req: Req, g: Group)
    decreases req
  {
    match req
    case CourseRef(code) => g == [code]
    case Condition(text) => g == [text]
    case AnyOf(items) => exists item <- items :: Route(item, g)
    case AllOf(items) => RouteThrough(items, g)
  }

  /** A way through all of some requirements, one after the other. */
  ghost predicate RouteThrough(items: seq<Req>, g: Group)
    decreases items
  {
    if items == [] then g == []
    else exists n: nat :: n <= |g| && Route(items[0], g[..n]) && RouteThrough(items[1..], g[n..])
  }

  ghost predicate SomeRoute(items: seq<Req>, g: Group) { exists item <- items :: Route(item, g) }

  /** A listed group, with a route through the rest behind it. */
  ghost predicate Continues(groups: seq<Group>, items: seq<Req>, g: Group) {
    exists n: nat :: n <= |g| && g[..n] in groups && RouteThrough(items, g[n..])
  }

  /** The groups listed for a requirement are its routes, in order and none twice, at most 128 of them,
      and unless the listing says that it was cut short they are all of its routes. */
  lemma {:induction false} ChoiceGroupsAreRoutes(req: Req)
    ensures var r := ChoiceGroups(req);
            && (forall g <- r.0 :: Route(req, g)) && (!r.1 ==> forall g :: Route(req, g) ==> g in r.0)
            && Listing(r.0) && |r.0| <= 128
    decreases req, 1
  {
    ChoiceGroupsMeaning(req, {});
    match req
    case CourseRef(code) =>
    case Condition(text) =>
    case AnyOf(items) =>
      AnyGroupsAreRoutes(items, [], false);
    case AllOf(items) =>
      AllGroupsAreRoutes(items, [[]], false);
      forall g ensures Continues([[]], items, g) <==> RouteThrough(items, g) {
        assert g[..0] == [] && g[0..] == g && g[..0] in [[]];
        if n: nat :| n <= |g| && g[..n] in [[]] && RouteThrough(items, g[n..]) { assert n == 0; }
      }
  }

  lemma {:induction false} AnyGroupsAreRoutes(items: seq<Req>, groups: seq<Group>, truncated: bool)
    requires Listing(groups) && |groups| <= MAX_CHOICE_GROUPS
    ensures var r := AnyGroups(items, groups, truncated);
            && (forall g <- r.0 :: g in groups || SomeRoute(items, g))
            && (!r.1 ==> !truncated && forall g :: g in groups || SomeRoute(items, g) ==> g in r.0)
    decreases items, 0
  {
    if items != [] {
      var child := ChoiceGroups(items[0]);
      ChoiceGroupsAreRoutes(items[0]);
      AddCappedMeaning(groups, child.0);
      var added := AddCapped(groups, child.0);
      forall g ensures SomeRoute(items, g) <==> Route(items[0], g) || SomeRoute(items[1..], g) {
        SomeRouteSplit(items, g);
      }
      hide Route, SomeRoute, AddCapped, ChoiceGroups, Listing;
      if !added.1 { AnyGroupsAreRoutes(items[1..], added.0, truncated || child.1); }
    }
  }

  lemma SomeRouteSplit(items: seq<Req>, g: Group)
    requires items != []
    ensures SomeRoute(items, g) <==> Route(items[0], g) || SomeRoute(items[1..], g)
  {
    assert items == [items[0]] + items[1..];
  }

  lemma {:induction false} AllGroupsAreRoutes(items: seq<Req>, groups: seq<Group>, truncated: bool)
    requires Listing(groups) && |groups| <= MAX_CHOICE_GROUPS
    ensures var r := AllGroups(items, groups, truncated);
            && (forall g <- r.0 :: Continues(groups, items, g))
            && (!r.1 ==> !truncated && forall g :: Continues(groups, items, g) ==> g in r.0)
    decreases items, 0
  {
    if items == [] {
      forall g ensures Continues(groups, items, g) <==> g in groups {
        assert g[..|g|] == g && g[|g|..] == [];
        if n: nat :| n <= |g| && g[..n] in groups && RouteThrough(items, g[n..]) { assert n == |g|; }
      }
    } else {
      var child := ChoiceGroups(items[0]);
      ChoiceGroupsAreRoutes(items[0]);
      var products := Products(groups, child.0);
      AddCappedMeaning([], products);
      var combined := AddCapped([], products);
      AllGroupsAreRoutes(items[1..], combined.0, truncated || child.1 || combined.1);
      forall g | Continues(combined.0, items[1..], g) ensures Continues(groups, items, g) {
        CombinedContinues(groups, items, child.0, combined.0, g);
      }
      if !child.1 && !combined.1 {
        forall g | Continues(groups, items, g) ensures Continues(combined.0, items[1..], g) {
          ContinuesCombined(groups, items, child.0, combined.0, g);
        }
      }
    }
  }

  lemma CombinedContinues(groups: seq<Group>, items: seq<Req>, child: seq<Group>, combined: seq<Group>, g: Group)
    requires items != [] && Continues(combined, items[1..], g)
    requires forall x <- combined :: x in Products(groups, child)
    requires forall x <- child :: Route(items[0], x)
    ensures Continues(groups, items, g)
  {
    var n: nat :| n <= |g| && g[..n] in combined && RouteThrough(items[1..], g[n..]);
    ProductsMembers(groups, child, g[..n]);
    var l, r :| l in groups && r in child && g[..n] == l + r;
    var rest := g[|l|..];
    assert g[..|l|] == l by { assert g[..n][..|l|] == l; }
    assert rest[..|r|] == r by { assert g[..n][|l|..] == r; }
    assert rest[|r|..] == g[n..];
    assert RouteThrough(items, rest);
  }

  lemma ContinuesAt(groups: seq<Group>, items: seq<Req>, g: Group, n: nat)
    requires n <= |g| && g[..n] in groups && RouteThrough(items, g[n..])
    ensures Continues(groups, items, g)
  {
  }

  lemma ContinuesCombined(groups: seq<Group>, items: seq<Req>, child: seq<Group>, combined: seq<Group>, g: Group)
    requires items != [] && Continues(groups, items, g)
    requires forall x <- Products(groups, child) :: x in combined
    requires forall x :: Route(items[0], x) ==> x in child
    ensures Continues(combined, items[1..], g)
  {
    var m: nat :| m <= |g| && g[..m] in groups && RouteThrough(items, g[m..]);
    hide Route, RouteThrough, Products, Continues;
    var n := RouteSplit(items, g[m..]);
    SliceJoin(g, m, n);
    ProductsMembers(groups, child, g[..m] + g[m..][..n]);
    ContinuesAt(combined, items[1..], g, m + n);
  }

  lemma SliceJoin(g: Group, m: nat, n: nat)
    requires m <= |g| && n <= |g[m..]|
    ensures g[..m + n] == g[..m] + g[m..][..n] && g[m + n..] == g[m..][n..]
  {
  }

  lemma RouteSplit(items: seq<Req>, g: Group) returns (n: nat)
    requires items != [] && RouteThrough(items, g)
    ensures n <= |g| && Route(items[0], g[..n]) && RouteThrough(items[1..], g[n..])
  {
    n :| n <= |g| && Route(items[0], g[..n]) && RouteThrough(items[1..], g[n..]);
  }

  /** How many routes there are, counted once for each way to choose. */
  ghost function Routes(req: Req): nat
    decreases req, 1
  {
    match req
    case CourseRef(_) => 1
    case Condition(_) => 1
    case AnyOf(items) => RoutesOfAny(items)
    case AllOf(items) => RoutesOfAll(items, 1)
  }

  ghost function RoutesOfAny(items: seq<Req>): nat
    decreases items, 0
  {
    if items == [] then 0 else Routes(items[0]) + RoutesOfAny(items[1..])
  }

  ghost function RoutesOfAll(items: seq<Req>, before: nat): nat
    decreases items, 0
  {
    if items == [] then before else RoutesOfAll(items[1..], before * Routes(items[0]))
  }

  /** Nowhere on the way are there more routes than the listing has room for. */
  ghost predicate FewRoutes(req: Req)
    decreases req, 1
  {
    match req
    case CourseRef(_) => true
    case Condition(_) => true
    case AnyOf(items) => FewOfAny(items, 0)
    case AllOf(items) => FewOfAll(items, 1)
  }

  ghost predicate FewOfAny(items: seq<Req>, before: nat)
    decreases items, 0
  {
    items != [] ==>
      && FewRoutes(items[0]) && before + Routes(items[0]) <= 128
      && FewOfAny(items[1..], before + Routes(items[0]))
  }

  ghost predicate FewOfAll(items: seq<Req>, before: nat)
    decreases items, 0
  {
    items != [] ==>
      && FewRoutes(items[0]) && before * Routes(items[0]) <= 128
      && FewOfAll(items[1..], before * Routes(items[0]))
  }

  lemma {:induction false} AddCappedFits(groups: seq<Group>, more: seq<Group>)
    requires Listing(groups) && |groups| + |more| <= MAX_CHOICE_GROUPS
    ensures !AddCapped(groups, more).1 && |AddCapped(groups, more).0| <= |groups| + |more|
    decreases more
  {
    if more != [] {
      InsertLength(groups, more[0]);
      InsertKeepsListing(groups, more[0]);
      AddCappedFits(Insert(groups, more[0]), more[1..]);
    }
  }

  lemma {:induction false} ProductsCount(lefts: seq<Group>, rights: seq<Group>)
    ensures |Products(lefts, rights)| == |lefts| * |rights|
  {
    if lefts != [] { ProductsCount(lefts[1..], rights); }
  }

  lemma ProductAtMost(a: nat, b: nat, c: nat, d: nat)
    requires a <= c && b <= d
    ensures a * b <= c * d
  {
    assert a * b <= c * b;
    assert c * b <= c * d;
  }

  /** A listing says that it was cut short only where there are more routes than it has room for. */
  lemma {:induction false} FewRoutesAreListed(req: Req)
    requires FewRoutes(req)
    ensures !ChoiceGroups(req).1 && |ChoiceGroups(req).0| <= Routes(req)
    decreases req, 1
  {
    match req
    case CourseRef(_) =>
    case Condition(_) =>
    case AnyOf(items) => FewAnyListed(items, [], 0);
    case AllOf(items) => FewAllListed(items, [[]], 1);
  }

  lemma {:induction false} FewAnyListed(items: seq<Req>, groups: seq<Group>, before: nat)
    requires FewOfAny(items, before) && Listing(groups) && |groups| <= before && |groups| <= MAX_CHOICE_GROUPS
    ensures !AnyGroups(items, groups, false).1 && |AnyGroups(items, groups, false).0| <= before + RoutesOfAny(items)
    decreases items, 0
  {
    if items != [] {
      var child := ChoiceGroups(items[0]);
      FewRoutesAreListed(items[0]);
      AddCappedFits(groups, child.0);
      AddCappedMeaning(groups, child.0);
      FewAnyListed(items[1..], AddCapped(groups, child.0).0, before + Routes(items[0]));
    }
  }

  lemma {:induction false} FewAllListed(items: seq<Req>, groups: seq<Group>, before: nat)
    requires FewOfAll(items, before) && Listing(groups) && |groups| <= before && |groups| <= MAX_CHOICE_GROUPS
    ensures !AllGroups(items, groups, false).1 && |AllGroups(items, groups, false).0| <= RoutesOfAll(items, before)
    decreases items, 0
  {
    if items != [] {
      var child := ChoiceGroups(items[0]);
      var products := Products(groups, child.0);
      FewRoutesAreListed(items[0]);
      ProductsCount(groups, child.0);
      ProductAtMost(|groups|, |child.0|, before, Routes(items[0]));
      AddCappedFits([], products);
      AddCappedMeaning([], products);
      FewAllListed(items[1..], AddCapped([], products).0, before * Routes(items[0]));
    }
  }

  // ---------------------------------------------------------------- when a requirement is ready

  /** The required course is completed, here or at the other campus. */
  predicate Done(ctx: Context, code: Code) { code in ctx.completed || code in ctx.completedAliases }

  /** The requirement is met by completed courses alone. */
  predicate AllDone(req: Req, ctx: Context)
    decreases req
  {
    match req
    case CourseRef(code) => Done(ctx, code)
    case Condition(_) => false
    case AllOf(items) => forall i :: 0 <= i < |items| ==> AllDone(items[i], ctx)
    case AnyOf(items) => exists i :: 0 <= i < |items| && AllDone(items[i], ctx)
  }

  /** The selected course c is what a requirement for `code` would be met by. */
  predicate StandsFor(ctx: Context, code: Code, c: Code) {
    if code in ctx.selected then c == code else code in ctx.selectedAliases && c == ctx.selectedAliases[code]
  }

  /** What is on record about it: its own record, or else that of the course named. */
  predicate OnRecord(ctx: Context, code: Code, c: Code) { c in ctx.courses || code in ctx.courses }

  predicate IsOffered(ctx: Context, code: Code, c: Code) {
    if c in ctx.courses then ctx.courses[c].isCurrent else code in ctx.courses && ctx.courses[code].isCurrent
  }

  /** Two sets of courses name one course, or one course at two campuses. */
  ghost predicate OneCourse(ctx: Context, a: set<Code>, b: set<Code>) {
    exists x, y :: a == {x} && b == {y} && (x == y || (x in ctx.campus && y in ctx.campus[x]))
  }

  /** A requirement is ready when completed courses and exactly one way of taking selected courses
      meet it; conditions are never ready. */
  ghost predicate IsReady(req: Req, ctx: Context)
    decreases req, 0
  {
    match req
    case CourseRef(code) => Done(ctx, code) || exists c :: StandsFor(ctx, code, c) && IsOffered(ctx, code, c)
    case Condition(_) => false
    case AllOf(items) => forall i :: 0 <= i < |items| ==> IsReady(items[i], ctx)
    case AnyOf(items) => AllDone(req, ctx) || exists i :: FirstOfOneCourse(items, ctx, i)
  }

  /** The first ready alternative, with every other ready one naming the same course. */
  ghost predicate FirstOfOneCourse(items: seq<Req>, ctx: Context, i: int)
    decreases items, 0
  {
    && 0 <= i < |items| && IsReady(items[i], ctx)
    && (forall j :: 0 <= j < i ==> !IsReady(items[j], ctx))
    && (forall j :: i < j < |items| && IsReady(items[j], ctx) ==>
          OneCourse(ctx, NeededBy(items[i], ctx), NeededBy(items[j], ctx)))
  }

  /** The selected courses it depends on. */
  ghost function NeededBy(req: Req, ctx: Context): set<Code>
    decreases req, 1
  {
    match req
    case CourseRef(code) =>
      if Done(ctx, code) then {}
      else if code in ctx.selected then (if IsOffered(ctx, code, code) then {code} else {})
      else if code in ctx.selectedAliases && IsOffered(ctx, code, ctx.selectedAliases[code])
           then {ctx.selectedAliases[code]}
      else {}
    case Condition(_) => {}
    case AllOf(items) => set i, c | 0 <= i < |items| && c in NeededBy(items[i], ctx) :: c
    case AnyOf(items) =>
      if AllDone(req, ctx) || !IsReady(req, ctx) then {}
      else set i, c | 0 <= i < |items| && IsReady(items[i], ctx) && c in NeededBy(items[i], ctx) :: c
  }

  // ---------------------------------------------------------------- what stands in its way

  predicate IsOpenChoice(b: Blocker) { b.reason == AlternativeRequired || b.reason == MultipleAlternatives }

  /** What stands in the way of a requirement of `owner`. An open choice anywhere in an all-of is shown
      as one choice among the routes of the whole. */
  ghost predicate Stops(req: Req, owner: Code, ctx: Context, b: Blocker)
    decreases req, 1
  {
    match req
    case CourseRef(code) =>
      && !Done(ctx, code)
      && if forall c :: !StandsFor(ctx, code, c) then b == Blocker(owner, MissingPrerequisite, [code], [], false)
         else exists c :: StandsFor(ctx, code, c) && !IsOffered(ctx, code, c) && b == NotOffered(ctx, code, c)
    case Condition(text) => b == Blocker(owner, UnresolvedCondition, [text], [], false)
    case AllOf(items) =>
      var reason := if MultipleBelow(items, owner, ctx) then MultipleAlternatives else AlternativeRequired;
      || (!IsOpenChoice(b) && exists i :: 0 <= i < |items| && Stops(items[i], owner, ctx, b))
      || (OpenBelow(items, owner, ctx) && b == ChoiceBlocker(owner, reason, req))
    case AnyOf(items) =>
      var reason := if exists i :: 0 <= i < |items| && IsReady(items[i], ctx) then MultipleAlternatives
                    else AlternativeRequired;
      !IsReady(req, ctx) && b == ChoiceBlocker(owner, reason, req)
  }

  /** The course is no longer offered, or not on record. */
  function NotOffered(ctx: Context, code: Code, c: Code): Blocker {
    Blocker(code, if OnRecord(ctx, code, c) then RetiredPrerequisite else UnknownCourse, [], [], false)
  }

  /** Some requirement of these leaves a choice open. */
  ghost predicate OpenBelow(items: seq<Req>, owner: Code, ctx: Context)
    decreases items, 0
  {
    exists i, x :: 0 <= i < |items| && Stops(items[i], owner, ctx, x) && IsOpenChoice(x)
  }

  /** For some of them several alternatives have been selected. */
  ghost predicate MultipleBelow(items: seq<Req>, owner: Code, ctx: Context)
    decreases items, 0
  {
    exists i, x :: 0 <= i < |items| && Stops(items[i], owner, ctx, x) && x.reason == MultipleAlternatives
  }

  // ---------------------------------------------------------------- the evaluation comes to this

  ghost predicate Agrees(req: Req, owner: Code, ctx: Context, e: Evaluation) {
    && (e.ready <==> IsReady(req, ctx)) && e.dependencies == NeededBy(req, ctx)
    && forall b :: b in e.blockers <==> Stops(req, owner, ctx, b)
  }

  lemma {:induction false} DoneMeaning(req: Req, ctx: Context)
    ensures Holds(req, Taken(ctx), {}) <==> AllDone(req, ctx)
    decreases req
  {
    if req.AllOf? || req.AnyOf? {
      forall i | 0 <= i < |req.items| ensures Holds(req.items[i], Taken(ctx), {}) <==> AllDone(req.items[i], ctx) {
        DoneMeaning(req.items[i], ctx);
      }
    }
  }

  lemma CourseMeaning(code: Code, owner: Code, ctx: Context)
    ensures Agrees(CourseRef(code), owner, ctx, EvaluateCourse(code, owner, ctx))
  {
    var e := EvaluateCourse(code, owner, ctx);
    var matched := Matched(ctx, code);
    forall c: Code ensures StandsFor(ctx, code, c) <==> matched == Some(c) {}
    forall b ensures b in e.blockers <==> Stops(CourseRef(code), owner, ctx, b) {
      if matched.Some? { assert StandsFor(ctx, code, matched.value); }
    }
  }

  lemma {:induction false} AllBlockersMembers(results: seq<Evaluation>, b: Blocker)
    ensures b in AllBlockers(results) <==> exists i :: 0 <= i < |results| && b in results[i].blockers
  {
    if results != [] {
      AllBlockersMembers(results[1..], b);
      if i :| 0 <= i < |results[1..]| && b in results[1..][i].blockers { assert b in results[i + 1].blockers; }
      if i :| 0 <= i < |results| && b in results[i].blockers {
        if i > 0 { assert results[1..][i - 1] == results[i]; }
      }
    }
  }

  lemma {:induction false} WithoutChoicesMembers(blockers: seq<Blocker>, b: Blocker)
    ensures b in WithoutChoices(blockers) <==> b in blockers && !IsChoice(b)
  {
    if blockers != [] {
      WithoutChoicesMembers(blockers[1..], b);
      assert blockers == [blockers[0]] + blockers[1..];
    }
  }

  lemma AllDependenciesIs(results: seq<Evaluation>)
    ensures AllDependencies(results) == set i, c | 0 <= i < |results| && c in results[i].dependencies :: c
  {
    AllDependenciesMembers(results);
  }

  lemma AllMeaning(items: seq<Req>, results: seq<Evaluation>, owner: Code, ctx: Context)
    requires |results| == |items| && forall i :: 0 <= i < |items| ==> Agrees(items[i], owner, ctx, results[i])
    ensures Agrees(AllOf(items), owner, ctx, EvaluateAll(AllOf(items), results, owner))
  {
    var req := AllOf(items);
    var e := EvaluateAll(req, results, owner);
    var blockers := AllBlockers(results);
    AllDependenciesIs(results);
    forall b ensures b in blockers <==> StopsSome(items, owner, ctx, b) { AllBlockersMembers(results, b); }
    assert e.dependencies == NeededBy(req, ctx);
    forall b ensures b in WithoutChoices(blockers) <==> b in blockers && !IsChoice(b) {
      WithoutChoicesMembers(blockers, b);
    }
    MergedBlockers(req, owner, ctx, blockers, e);
  }

  /** The blockers of the items, taken together. */
  ghost predicate StopsSome(items: seq<Req>, owner: Code, ctx: Context, b: Blocker) {
    exists i :: 0 <= i < |items| && Stops(items[i], owner, ctx, b)
  }

  lemma OpenMeaning(items: seq<Req>, owner: Code, ctx: Context, blockers: seq<Blocker>)
    requires forall b :: b in blockers <==> StopsSome(items, owner, ctx, b)
    ensures (exists i :: 0 <= i < |blockers| && IsChoice(blockers[i])) <==> OpenBelow(items, owner, ctx)
    ensures (exists i :: 0 <= i < |blockers| && blockers[i].reason.MultipleAlternatives?)
            <==> MultipleBelow(items, owner, ctx)
  {
    if i :| 0 <= i < |blockers| && IsChoice(blockers[i]) {
      assert StopsSome(items, owner, ctx, blockers[i]);
      var k :| 0 <= k < |items| && Stops(items[k], owner, ctx, blockers[i]);
      assert IsOpenChoice(blockers[i]);
    }
    if i :| 0 <= i < |blockers| && blockers[i].reason.MultipleAlternatives? {
      assert StopsSome(items, owner, ctx, blockers[i]);
      var k :| 0 <= k < |items| && Stops(items[k], owner, ctx, blockers[i]);
    }
    if i, x :| 0 <= i < |items| && Stops(items[i], owner, ctx, x) && IsOpenChoice(x) {
      assert StopsSome(items, owner, ctx, x);
      var k :| 0 <= k < |blockers| && blockers[k] == x;
    }
    if i, x :| 0 <= i < |items| && Stops(items[i], owner, ctx, x) && x.reason == MultipleAlternatives {
      assert StopsSome(items, owner, ctx, x);
      var k :| 0 <= k < |blockers| && blockers[k] == x;
    }
  }

  lemma MergedBlockers(req: Req, owner: Code, ctx: Context, blockers: seq<Blocker>, e: Evaluation)
    requires req.AllOf? && forall b :: b in blockers <==> StopsSome(req.items, owner, ctx, b)
    requires forall b :: b in WithoutChoices(blockers) <==> b in blockers && !IsChoice(b)
    requires var multiple := exists i :: 0 <= i < |blockers| && blockers[i].reason.MultipleAlternatives?;
             e.blockers == if exists i :: 0 <= i < |blockers| && IsChoice(blockers[i])
                           then WithoutChoices(blockers)
                                + [ChoiceBlocker(owner, if multiple then MultipleAlternatives else AlternativeRequired,
                                                 req)]
                           else blockers
    ensures forall b :: b in e.blockers <==> Stops(req, owner, ctx, b)
  {
    OpenMeaning(req.items, owner, ctx, blockers);
    hide ChoiceBlocker, WithoutChoices, MultipleBelow;
    var open := exists i :: 0 <= i < |blockers| && IsChoice(blockers[i]);
    forall b ensures b in e.blockers <==> Stops(req, owner, ctx, b) {
      AllOfStops(req, owner, ctx, b);
      if b in blockers && IsChoice(b) { ChoiceIsThere(blockers, b); }
    }
  }

  lemma ChoiceIsThere(blockers: seq<Blocker>, b: Blocker)
    requires b in blockers && IsChoice(b)
    ensures exists i :: 0 <= i < |blockers| && IsChoice(blockers[i])
  {
    var k :| 0 <= k < |blockers| && blockers[k] == b;
  }

  lemma AllOfStops(req: Req, owner: Code, ctx: Context, b: Blocker)
    requires req.AllOf?
    ensures var reason := if MultipleBelow(req.items, owner, ctx) then MultipleAlternatives else AlternativeRequired;
            Stops(req, owner, ctx, b)
            <==> (!IsOpenChoice(b) && StopsSome(req.items, owner, ctx, b))
                 || (OpenBelow(req.items, owner, ctx) && b == ChoiceBlocker(owner, reason, req))
  {
  }

  // ---------------------------------------------------------------- alternatives

  lemma {:induction false} ViableSplit(results: seq<Evaluation>, i: nat)
    requires i < |results| && results[i].ready && forall j :: 0 <= j < i ==> !results[j].ready
    ensures Viable(results) == [results[i]] + Viable(results[i + 1..])
  {
    if i > 0 {
      assert results[1..][i..] == results[i + 1..] || true;
      ViableSplit(results[1..], i - 1);
      assert results[1..][i..] == results[i + 1..];
    }
  }

  /** The alternatives fall into one group exactly when all name the first one's course. */
  lemma {:induction false} OneGroupMeaning(results: seq<Evaluation>, campus: map<Code, set<Code>>)
    requires results != []
    ensures |DistinctCourses(results, campus)| == 1
            <==> forall k :: 0 < k < |results| ==> SameCourse(results[0], results[k], campus)
    decreases |results|
  {
    var front, last := results[..|results| - 1], results[|results| - 1];
    var groups := DistinctCourses(front, campus);
    if front == [] {
      assert groups == [];
      PlaceMeaning(groups, last, campus);
    } else {
      OneGroupMeaning(front, campus);
      GroupsThere(front, campus);
      if |groups| == 1 { OneGroupIsAll(front, campus); }
      hide DistinctCourses, SameCourse;
      PlaceOne(groups, front, last, campus);
      DistinctStep(results, campus);
      assert forall k :: 0 <= k < |front| ==> front[k] == results[k];
    }
  }

  lemma DistinctStep(results: seq<Evaluation>, campus: map<Code, set<Code>>)
    requires results != []
    ensures DistinctCourses(results, campus)
            == Place(DistinctCourses(results[..|results| - 1], campus), results[|results| - 1], campus)
  {
  }

  lemma GroupsThere(results: seq<Evaluation>, campus: map<Code, set<Code>>)
    requires results != []
    ensures |DistinctCourses(results, campus)| >= 1
  {
    PlaceMeaning(DistinctCourses(results[..|results| - 1], campus), results[|results| - 1], campus);
  }

  lemma PlaceOne(groups: seq<seq<Evaluation>>, front: seq<Evaluation>, last: Evaluation, campus: map<Code, set<Code>>)
    requires front != [] && |groups| >= 1 && (|groups| == 1 ==> groups[0] == front)
    ensures |Place(groups, last, campus)| == 1 <==> |groups| == 1 && SameCourse(front[0], last, campus)
  {
    hide SameCourse;
    PlaceMeaning(groups, last, campus);
    if |groups| == 1 && !SameCourse(front[0], last, campus) {
      assert Place(groups[1..], last, campus) == [[last]];
    }
  }

  lemma SameCourseMeaning(left: Evaluation, right: Evaluation, ctx: Context)
    ensures SameCourse(left, right, ctx.campus) <==> OneCourse(ctx, left.dependencies, right.dependencies)
  {
    if SameCourse(left, right, ctx.campus) {
      var l, r :| l in left.dependencies && r in right.dependencies
                  && (l == r || (l in ctx.campus && r in ctx.campus[l]));
      OnlyMember(left.dependencies, l);
      OnlyMember(right.dependencies, r);
    }
  }

  lemma OnlyMember(s: set<Code>, x: Code)
    requires |s| == 1 && x in s
    ensures s == {x}
  {
    assert |s - {x}| == 0;
  }

  ghost predicate FirstReady(results: seq<Evaluation>, i: nat) {
    i < |results| && results[i].ready && forall j :: 0 <= j < i ==> !results[j].ready
  }

  lemma {:induction false} FirstReadyExists(results: seq<Evaluation>, k: nat) returns (i: nat)
    requires k < |results| && results[k].ready
    ensures FirstReady(results, i)
  {
    i := 0;
    while !results[i].ready
      invariant i <= k && forall j :: 0 <= j < i ==> !results[j].ready
      decreases k - i
    {
      i := i + 1;
    }
  }

  /** All ready ones of these name the course of the first. */
  ghost predicate AllSame(first: Evaluation, results: seq<Evaluation>, campus: map<Code, set<Code>>) {
    forall r <- results :: r.ready ==> SameCourse(first, r, campus)
  }

  lemma SameBehind(first: Evaluation, rest: seq<Evaluation>, campus: map<Code, set<Code>>)
    requires forall r <- rest :: r.ready
    ensures (forall k :: 0 < k < |[first] + rest| ==> SameCourse(first, ([first] + rest)[k], campus))
            <==> AllSame(first, rest, campus)
  {
    hide SameCourse;
    var all := [first] + rest;
    if forall k :: 0 < k < |all| ==> SameCourse(first, all[k], campus) {
      forall r | r in rest ensures SameCourse(first, r, campus) {
        var m :| 0 <= m < |rest| && rest[m] == r;
        assert all[m + 1] == r;
      }
    }
    if AllSame(first, rest, campus) {
      forall k | 0 < k < |all| ensures SameCourse(first, all[k], campus) {
        assert all[k] == rest[k - 1] && rest[k - 1] in rest;
      }
    }
  }

  lemma SameViable(first: Evaluation, results: seq<Evaluation>, campus: map<Code, set<Code>>)
    ensures AllSame(first, Viable(results), campus) <==> AllSame(first, results, campus)
  {
    ViableMembers(results);
    hide SameCourse, Viable;
  }

  lemma SameLater(results: seq<Evaluation>, i: nat, ctx: Context)
    requires i < |results|
    ensures AllSame(results[i], results[i + 1..], ctx.campus)
            <==> forall j :: i < j < |results| && results[j].ready ==>
                   OneCourse(ctx, results[i].dependencies, results[j].dependencies)
  {
    var rest := results[i + 1..];
    forall r ensures SameCourse(results[i], r, ctx.campus)
                     <==> OneCourse(ctx, results[i].dependencies, r.dependencies)
    {
      SameCourseMeaning(results[i], r, ctx);
    }
    hide SameCourse, OneCourse;
    if AllSame(results[i], rest, ctx.campus) {
      forall j | i < j < |results| && results[j].ready
        ensures OneCourse(ctx, results[i].dependencies, results[j].dependencies)
      {
        assert rest[j - i - 1] == results[j] && rest[j - i - 1] in rest;
      }
    }
    if forall j :: i < j < |results| && results[j].ready ==>
         OneCourse(ctx, results[i].dependencies, results[j].dependencies)
    {
      forall r | r in rest && r.ready ensures SameCourse(results[i], r, ctx.campus) {
        var m :| 0 <= m < |rest| && rest[m] == r;
        assert results[i + 1 + m] == r;
      }
    }
  }

  lemma OneViable(results: seq<Evaluation>, ctx: Context, i: nat)
    requires FirstReady(results, i)
    ensures Viable(results) != []
    ensures |Viable(results)| == 1 || |DistinctCourses(Viable(results), ctx.campus)| == 1
            <==> forall j :: i < j < |results| && results[j].ready ==>
                   OneCourse(ctx, results[i].dependencies, results[j].dependencies)
  {
    var viable, rest := Viable(results), results[i + 1..];
    ViableSplit(results, i);
    ViableMembers(rest);
    OneGroupMeaning(viable, ctx.campus);
    SameBehind(results[i], Viable(rest), ctx.campus);
    SameViable(results[i], rest, ctx.campus);
    SameLater(results, i, ctx);
    hide Viable, SameCourse, OneCourse, DistinctCourses, AllSame;
  }

  lemma {:induction false} NoneViable(results: seq<Evaluation>)
    requires forall i :: 0 <= i < |results| ==> !results[i].ready
    ensures Viable(results) == []
  {
    if results != [] { NoneViable(results[1..]); }
  }

  ghost function ReadyDependencies(results: seq<Evaluation>): set<Code> {
    set i, c | 0 <= i < |results| && results[i].ready && c in results[i].dependencies :: c
  }

  lemma ViableDependencies(results: seq<Evaluation>)
    ensures AllDependencies(Viable(results)) == ReadyDependencies(results)
  {
    ViableMembers(results);
    AllDependenciesMembers(Viable(results));
    var all := ReadyDependencies(results);
    forall c | c in AllDependencies(Viable(results)) ensures c in all {
      var k :| 0 <= k < |Viable(results)| && c in Viable(results)[k].dependencies;
      assert Viable(results)[k] in results;
      var i :| 0 <= i < |results| && results[i] == Viable(results)[k];
    }
    forall c | c in all ensures c in AllDependencies(Viable(results)) {
      var i :| 0 <= i < |results| && results[i].ready && c in results[i].dependencies;
      assert results[i] in Viable(results);
    }
  }

  lemma OneDependencies(e: Evaluation)
    ensures AllDependencies([e]) == e.dependencies
  {
    assert [e][1..] == [];
  }

  /** The evaluation of alternatives of which some is ready. */
  lemma SomeViable(items: seq<Req>, results: seq<Evaluation>, owner: Code, ctx: Context, i: nat)
    requires FirstReady(results, i) && ReadyUnblocked(results)
    ensures EvaluateAny(AnyOf(items), results, owner, ctx.campus)
            == if forall j :: i < j < |results| && results[j].ready ==>
                    OneCourse(ctx, results[i].dependencies, results[j].dependencies)
               then Evaluation(true, ReadyDependencies(results), [])
               else Evaluation(false, {}, [ChoiceBlocker(owner, MultipleAlternatives, AnyOf(items))])
  {
    OneViable(results, ctx, i);
    ViableMembers(results);
    ViableDependencies(results);
    ViableUnblocked(results);
    var viable := Viable(results);
    hide OneCourse, ChoiceBlocker, Viable, ReadyDependencies;
    if |viable| == 1 {
      hide DistinctCourses;
      assert viable == [viable[0]] && viable[0] in viable;
      OneDependencies(viable[0]);
      OneBlockers(viable[0]);
    } else if |DistinctCourses(viable, ctx.campus)| == 1 {
      OneGroupIsAll(viable, ctx.campus);
      hide DistinctCourses;
    }
  }

  lemma OneBlockers(e: Evaluation)
    ensures AllBlockers([e]) == e.blockers
  {
    assert [e][1..] == [] && e.blockers + [] == e.blockers;
  }

  /** Alternatives none of which is met by completed courses. */
  lemma AnyMeaning(items: seq<Req>, results: seq<Evaluation>, owner: Code, ctx: Context)
    requires |results| == |items| && forall i :: 0 <= i < |items| ==> Agrees(items[i], owner, ctx, results[i])
    requires ReadyUnblocked(results)
    requires !AllDone(AnyOf(items), ctx)
    ensures Agrees(AnyOf(items), owner, ctx, EvaluateAny(AnyOf(items), results, owner, ctx.campus))
  {
    if k: nat :| k < |results| && results[k].ready {
      var i := FirstReadyExists(results, k);
      SomeViable(items, results, owner, ctx, i);
      FirstMeaning(items, results, owner, ctx, i);
      hide OneCourse, EvaluateAny, ReadyDependencies;
      AnyAgrees(items, results, owner, ctx, EvaluateAny(AnyOf(items), results, owner, ctx.campus));
    } else {
      NoneMeaning(items, results, owner, ctx);
    }
  }

  lemma NoneMeaning(items: seq<Req>, results: seq<Evaluation>, owner: Code, ctx: Context)
    requires |results| == |items| && forall i :: 0 <= i < |items| ==> Agrees(items[i], owner, ctx, results[i])
    requires forall i :: 0 <= i < |results| ==> !results[i].ready
    requires !AllDone(AnyOf(items), ctx)
    ensures Agrees(AnyOf(items), owner, ctx, EvaluateAny(AnyOf(items), results, owner, ctx.campus))
  {
    NoneViable(results);
    forall i | 0 <= i < |items| ensures !IsReady(items[i], ctx) { assert Agrees(items[i], owner, ctx, results[i]); }
    NoneReady(items, owner, ctx);
    var b := ChoiceBlocker(owner, AlternativeRequired, AnyOf(items));
    assert EvaluateAny(AnyOf(items), results, owner, ctx.campus) == Evaluation(false, {}, [b]);
    hide Stops, IsReady, NeededBy, ChoiceBlocker;
  }

  lemma NoneReady(items: seq<Req>, owner: Code, ctx: Context)
    requires !AllDone(AnyOf(items), ctx) && forall i :: 0 <= i < |items| ==> !IsReady(items[i], ctx)
    ensures !IsReady(AnyOf(items), ctx) && NeededBy(AnyOf(items), ctx) == {}
    ensures forall b :: Stops(AnyOf(items), owner, ctx, b)
                    <==> b == ChoiceBlocker(owner, AlternativeRequired, AnyOf(items))
  {
    forall i: int ensures !FirstOfOneCourse(items, ctx, i) {
      if 0 <= i < |items| { assert !IsReady(items[i], ctx); }
    }
    assert !exists i :: 0 <= i < |items| && IsReady(items[i], ctx);
  }

  lemma ViableUnblocked(results: seq<Evaluation>)
    requires ReadyUnblocked(results)
    ensures AllBlockers(Viable(results)) == []
  {
    ViableMembers(results);
    forall k | 0 <= k < |Viable(results)| ensures Viable(results)[k].blockers == [] {
      assert Viable(results)[k] in results;
    }
    AllBlockersEmpty(Viable(results));
  }

  lemma FirstMeaning(items: seq<Req>, results: seq<Evaluation>, owner: Code, ctx: Context, i: nat)
    requires |results| == |items| && forall k :: 0 <= k < |items| ==> Agrees(items[k], owner, ctx, results[k])
    requires FirstReady(results, i) && !AllDone(AnyOf(items), ctx)
    ensures IsReady(AnyOf(items), ctx)
            <==> forall j :: i < j < |results| && results[j].ready ==>
                   OneCourse(ctx, results[i].dependencies, results[j].dependencies)
  {
    hide OneCourse, Stops, AllDone;
    if k :| FirstOfOneCourse(items, ctx, k) { assert k == i; }
    if forall j :: i < j < |results| && results[j].ready ==>
         OneCourse(ctx, results[i].dependencies, results[j].dependencies)
    {
      assert FirstOfOneCourse(items, ctx, i);
    }
  }

  lemma NeededByAny(items: seq<Req>, ctx: Context, c: Code)
    requires IsReady(AnyOf(items), ctx) && !AllDone(AnyOf(items), ctx)
    ensures c in NeededBy(AnyOf(items), ctx)
            <==> exists i :: 0 <= i < |items| && IsReady(items[i], ctx) && c in NeededBy(items[i], ctx)
  {
  }

  ghost predicate ReadyUnblocked(results: seq<Evaluation>) {
    forall i :: 0 <= i < |results| && results[i].ready ==> results[i].blockers == []
  }

  lemma AnyAgrees(items: seq<Req>, results: seq<Evaluation>, owner: Code, ctx: Context, e: Evaluation)
    requires |results| == |items| && forall i :: 0 <= i < |items| ==> Agrees(items[i], owner, ctx, results[i])
    requires !AllDone(AnyOf(items), ctx) && exists i :: 0 <= i < |results| && results[i].ready
    requires IsReady(AnyOf(items), ctx) ==>
               e == Evaluation(true, ReadyDependencies(results), [])
    requires !IsReady(AnyOf(items), ctx) ==>
               e == Evaluation(false, {}, [ChoiceBlocker(owner, MultipleAlternatives, AnyOf(items))])
    ensures Agrees(AnyOf(items), owner, ctx, e)
  {
    assert exists i :: 0 <= i < |items| && IsReady(items[i], ctx);
    if IsReady(AnyOf(items), ctx) {
      forall c ensures c in e.dependencies <==> c in NeededBy(AnyOf(items), ctx) {
        NeededByAny(items, ctx, c);
      }
    }
  }

  /** The evaluation of a requirement, exactly: when it is ready, what it depends on, and what stands
      in its way. */
  lemma {:induction false} EvaluateMeaning(req: Req, owner: Code, ctx: Context)
    ensures Evaluate(req, owner, ctx).ready <==> IsReady(req, ctx)
    ensures Evaluate(req, owner, ctx).dependencies == NeededBy(req, ctx)
    ensures forall b :: b in Evaluate(req, owner, ctx).blockers <==> Stops(req, owner, ctx, b)
    decreases req
  {
    match req
    case CourseRef(code) => CourseMeaning(code, owner, ctx);
    case Condition(_) =>
    case AllOf(items) =>
      ItemsMeaning(items, owner, ctx, req);
      AllMeaning(items, EvaluateItems(items, owner, ctx), owner, ctx);
    case AnyOf(items) =>
      forall i | 0 <= i < |items| ensures Holds(items[i], Taken(ctx), {}) <==> AllDone(items[i], ctx) {
        DoneMeaning(items[i], ctx);
      }
      if !AllDone(req, ctx) {
        var results := EvaluateItems(items, owner, ctx);
        ItemsMeaning(items, owner, ctx, req);
        AnyMeaning(items, results, owner, ctx);
      }
  }

  lemma {:induction false} ItemsMeaning(items: seq<Req>, owner: Code, ctx: Context, req: Req)
    requires req == AllOf(items) || req == AnyOf(items)
    ensures forall i :: 0 <= i < |items| ==> Agrees(items[i], owner, ctx, EvaluateItems(items, owner, ctx)[i])
    ensures ReadyUnblocked(EvaluateItems(items, owner, ctx))
    decreases req, 0
  {
    forall i | 0 <= i < |items|
      ensures Agrees(items[i], owner, ctx, EvaluateItems(items, owner, ctx)[i])
      ensures EvaluateItems(items, owner, ctx)[i].ready ==> EvaluateItems(items, owner, ctx)[i].blockers == []
    {
      ItemResult(items, owner, ctx, i);
      EvaluateMeaning(items[i], owner, ctx);
      ReadyIffUnblocked(items[i], owner, ctx);
    }
  }
}
