/** The planner as the program runs it, step by step over a ledger of blocked courses. */
module PlannerSteps {
  import opened Forest
  import opened Requirements
  import opened RequirementProofs
  import opened RequirementLoops
  import opened Cycles
  import opened Bundles
  import opened Blocks
  import opened SequencePlanner

  // ---------------------------------------------------------------- preparing and assessing

  /** The sets and alias tables of the input. */
  method Prepare(names: Names, courses: map<Code, Course>, selected: seq<Code>, completed: seq<Code>,
                 campus: map<Code, set<Code>>)
      returns (ctx: Context)
    ensures Prepared(ctx, courses, selected, completed, campus) && ctx.names == names
  {
    var done := set c | c in completed;
    var chosen := (set c | c in selected) - done;
    var doneAliases := set c, a | c in done && c in campus && a in campus[c] && a !in done :: a;
    var aliases := FirstOfferings(chosen, campus);
    ctx := Context(names, chosen, done, courses, doneAliases, aliases, campus);
  }

  /** Let each alias stand for the first selected course that has it. */
  method FirstOfferings(selected: set<Code>, campus: map<Code, set<Code>>) returns (aliases: map<Code, Code>)
    ensures AliasesFor(aliases, selected, campus)
  {
    aliases := map[];
    var remaining := selected;
    while remaining != {}
      invariant remaining <= selected && AliasesFor(aliases, selected - remaining, campus)
      decreases |remaining|
    {
      var code :| code in remaining;
      remaining := remaining - {code};
      if code in campus {
        aliases := (map a | a in campus[code] :: code) + aliases;
      }
    }
    assert selected - remaining == selected;
  }

  method CheckTree(tree: Option<Req>) returns (ok: bool)
    ensures ok == OptionWalkable(tree)
  {
    if tree.None? { return true; }
    var walked := Walk(tree.value);
    ok := walked.Some?;
  }

  /** Assess one known selected course. */
  method AssessCourse(ctx: Context, code: Code) returns (found: Assessment)
    requires code in ctx.courses
    ensures found == Assess(ctx, code)
  {
    var course := ctx.courses[code];
    if !course.isCurrent {
      return Assessment({Plain(code, CourseRetired)}, true, {}, {});
    }
    var blockers: set<Blocker> := {};
    if course.code != code { blockers := {Plain(code, CodeMismatch)}; }
    var first := CheckTree(course.prerequisites);
    var second := CheckTree(course.corequisites);
    if !first || !second {
      return Assessment(blockers + {Plain(code, RequirementsInvalid)}, true, {}, {});
    }
    match course.status
    case Unparsed =>
      return Assessment(blockers + {Plain(code, RequirementsUnparsed)}, true, {}, {});
    case NoRequisites =>
      if course.prerequisites.Some?
          || course.corequisites.Some? { blockers := blockers + {Plain(code, RequirementsInvalid)}; }
      if course.rawPrerequisite || course.rawCorequisite { blockers := blockers + {Plain(code, RequirementsInvalid)}; }
      return Assessment(blockers, blockers != {}, {}, {});
    case Parsed =>
      var hard := course.code != code;
      if (course.rawPrerequisite && course.prerequisites.None?)
          || (course.rawCorequisite && course.corequisites.None?) {
        blockers, hard := blockers + {KindsMissing(ctx.names, code, course)}, true;
      }
      if course.rawGrade {
        blockers, hard := blockers + {GradeUnread(ctx.names, code)}, true;
      }
      var prereq := EvaluateOption(course.prerequisites, code, ctx);
      var coreq := EvaluateOption(course.corequisites, code, ctx);
      if !prereq.ready { blockers, hard := blockers + BlockerSet(prereq.blockers), true; }
      if !coreq.ready { blockers, hard := blockers + BlockerSet(Renamed(coreq.blockers)), true; }
      return Assessment(blockers, hard, prereq.dependencies, coreq.dependencies);
  }

  // ---------------------------------------------------------------- blocks the courses start with

  ghost predicate Assessed(ctx: Context, codes: set<Code>, found: map<Code, Assessment>) {
    found.Keys == codes && forall c <- codes :: c in ctx.courses && found[c] == Assess(ctx, c)
  }

  /** What is blocked once the given courses have been looked at. */
  ghost predicate Gathered(ctx: Context, seen: set<Code>, blocked: set<Code>, blockers: set<Blocker>) {
    && (forall c {:trigger c in blocked} :: c in blocked <==> c in seen && (c in ctx.courses ==> Assess(ctx, c).hard))
    && (forall b {:trigger b in blockers} :: b in blockers <==> exists c :: c in seen && b in OwnBlockers(ctx, c))
  }

  lemma GatherOne(ctx: Context, seen: set<Code>, blocked: set<Code>, blockers: set<Blocker>, code: Code)
    requires Gathered(ctx, seen, blocked, blockers)
    ensures var hard := code in ctx.courses ==> Assess(ctx, code).hard;
            Gathered(ctx, seen + {code}, if hard then blocked + {code} else blocked, blockers + OwnBlockers(ctx, code))
  {
    var hard := code in ctx.courses ==> Assess(ctx, code).hard;
    if code in ctx.courses { HardIffBlocker(ctx, code); }
    assert hard || OwnBlockers(ctx, code) == {};
    var now := blockers + OwnBlockers(ctx, code);
    forall b ensures b in now <==> exists c :: c in seen + {code} && b in OwnBlockers(ctx, c) {
      if b in OwnBlockers(ctx, code) { assert code in seen + {code}; }
      if b in blockers {
        var c :| c in seen && b in OwnBlockers(ctx, c);
        assert c in seen + {code};
      }
    }
  }

  method GatherOneCourse(ctx: Context, ghost seen: set<Code>, code: Code, ledger: Ledger, found: map<Code, Assessment>)
      returns (more: map<Code, Assessment>)
    requires ledger.Valid() && Gathered(ctx, seen, ledger.blocked, ledger.blockers)
    requires Assessed(ctx, seen * ctx.courses.Keys, found)
    modifies ledger
    ensures ledger.Valid() && Gathered(ctx, seen + {code}, ledger.blocked, ledger.blockers)
    ensures Assessed(ctx, (seen + {code}) * ctx.courses.Keys, more)
  {
    GatherOne(ctx, seen, ledger.blocked, ledger.blockers, code);
    if code in ctx.courses {
      var course := AssessCourse(ctx, code);
      HardIffBlocker(ctx, code);
      more := found[code := course];
      ledger.Add(if course.hard then {code} else {}, course.blockers);
      assert (seen + {code}) * ctx.courses.Keys == seen * ctx.courses.Keys + {code};
    } else {
      ledger.Block(code, Plain(code, UnknownCourse));
      more := found;
      assert (seen + {code}) * ctx.courses.Keys == seen * ctx.courses.Keys;
    }
  }

  /** Assess every known selected course, and record what is blocked. */
  method Gather(ctx: Context, ledger: Ledger) returns (found: map<Code, Assessment>)
    requires ledger.Valid() && ledger.blocked == {}
    modifies ledger
    ensures ledger.Valid() && Assessed(ctx, Known(ctx), found) && Gathered(ctx, ctx.selected, ledger.blocked,
          ledger.blockers)
  {
    found := map[];
    var remaining := ctx.selected;
    ghost var seen := {};
    while remaining != {}
      invariant ledger.Valid() && remaining + seen == ctx.selected
      invariant Assessed(ctx, seen * ctx.courses.Keys, found)
      invariant Gathered(ctx, seen, ledger.blocked, ledger.blockers)
      decreases |remaining|
    {
      var code :| code in remaining;
      found := GatherOneCourse(ctx, seen, code, ledger, found);
      seen, remaining := seen + {code}, remaining - {code};
    }
    assert seen * ctx.courses.Keys == Known(ctx);
  }

  // ---------------------------------------------------------------- bundles and their dependencies

  ghost predicate LinksFrom(ctx: Context, seen: set<Code>, links: Links) {
    forall a, b {:trigger (a, b) in links} :: (a, b) in links <==> a in seen && a in Known(ctx) && b in Coreqs(ctx, a)
  }

  /** Bundle every known course with its known corequisites. */
  method Bundle(ctx: Context, found: map<Code, Assessment>) returns (anchor: map<Code, Code>)
    requires Assessed(ctx, Known(ctx), found)
    ensures Bundled(ctx, KnownLinks(ctx), anchor)
  {
    var known := Known(ctx);
    var bundler := new Bundler(known);
    var remaining := known;
    while remaining != {}
      invariant bundler.Valid() && bundler.known == known && fresh(bundler) && remaining <= known
      invariant LinksFrom(ctx, known - remaining, bundler.links)
      decreases |remaining|
    {
      var code :| code in remaining;
      assert found[code].coreqs * known == Coreqs(ctx, code);
      bundler.Join(code, found[code].coreqs * known);
      remaining := remaining - {code};
    }
    anchor := bundler.Anchors();
    LinksAreKnown(ctx, bundler.links);
  }

  lemma ListsMore(words: seq<Word>, members: set<Code>, x: Code)
    requires Lists(words, members) && forall w <- words :: w < x
    ensures Lists(words + [x], members + {x})
  {
    var more := words + [x];
    assert Members(more) == Members(words) + {x};
    forall i, j | 0 <= i < j < |more| ensures more[i] < more[j] {
      if j == |words| { assert words[i] in words; }
    }
  }

  /** A set in increasing order. */
  method Sorted(s: set<Code>) returns (words: seq<Word>)
    ensures Lists(words, s)
  {
    words := [];
    var remaining := s;
    while remaining != {}
      invariant remaining <= s && Lists(words, s - remaining)
      invariant forall w <- words, x <- remaining :: w < x
      decreases |remaining|
    {
      var least := LeastOf(remaining);
      ListsMore(words, s - remaining, least);
      assert s - remaining + {least} == s - (remaining - {least});
      words := words + [least];
      remaining := remaining - {least};
    }
  }

  lemma BlockerOrder(a: Blocker, b: Blocker, c: Blocker)
    ensures BlockerLeq(a, b) || BlockerLeq(b, a)
    ensures BlockerLeq(a, b) && BlockerLeq(b, c) ==> BlockerLeq(a, c)
  {
    LexAntisymmetric(a.alternatives, b.alternatives);
    if LexLeq(a.alternatives, b.alternatives) && LexLeq(b.alternatives, c.alternatives) {
      LexTransitive(a.alternatives, b.alternatives, c.alternatives);
    }
  }

  function InsertBlocker(blockers: seq<Blocker>, b: Blocker): seq<Blocker> {
    if blockers == [] then [b]
    else if BlockerLeq(b, blockers[0]) then [b] + blockers
    else [blockers[0]] + InsertBlocker(blockers[1..], b)
  }

  lemma {:induction false} InsertBlockerMembers(blockers: seq<Blocker>, b: Blocker, x: Blocker)
    ensures x in InsertBlocker(blockers, b) <==> x in blockers || x == b
  {
    if blockers != [] && !BlockerLeq(b, blockers[0]) {
      InsertBlockerMembers(blockers[1..], b, x);
      assert blockers == [blockers[0]] + blockers[1..];
    }
  }

  lemma BlockerFirst(b: Blocker, blockers: seq<Blocker>)
    requires BlockersOrdered(blockers) && forall x <- blockers :: BlockerLeq(b, x) && b != x
    ensures BlockersOrdered([b] + blockers)
  {
    hide BlockerLeq;
  }

  lemma {:induction false} InsertBlockerOrdered(blockers: seq<Blocker>, b: Blocker)
    requires BlockersOrdered(blockers) && b !in blockers
    ensures BlockersOrdered(InsertBlocker(blockers, b))
  {
    if blockers != [] {
      hide BlockerLeq;
      BlockerOrder(b, blockers[0], b);
      if BlockerLeq(b, blockers[0]) {
        forall x | x in blockers ensures BlockerLeq(b, x) && b != x {
          var j :| 0 <= j < |blockers| && blockers[j] == x;
          if j > 0 { BlockerOrder(b, blockers[0], x); }
        }
        BlockerFirst(b, blockers);
      } else {
        var rest := InsertBlocker(blockers[1..], b);
        InsertBlockerOrdered(blockers[1..], b);
        forall x | x in rest ensures BlockerLeq(blockers[0], x) && blockers[0] != x {
          InsertBlockerMembers(blockers[1..], b, x);
          if x != b {
            var j :| 0 <= j < |blockers[1..]| && blockers[1..][j] == x;
            assert blockers[j + 1] == x;
          }
        }
        BlockerFirst(blockers[0], rest);
      }
    }
  }

  /** The blockers in the order in which they are reported. */
  method ListBlockers(blockers: set<Blocker>) returns (listed: seq<Blocker>)
    ensures BlockerSet(listed) == blockers && BlockersOrdered(listed)
  {
    hide BlockersOrdered, InsertBlocker;
    listed := [];
    NoBlockers();
    var remaining := blockers;
    while remaining != {}
      invariant remaining <= blockers && BlockersOrdered(listed)
      invariant forall b :: b in listed <==> b in blockers && b !in remaining
      decreases |remaining|
    {
      var b :| b in remaining;
      InsertBlockerOrdered(listed, b);
      forall x ensures x in InsertBlocker(listed, b) <==> x in listed || x == b { InsertBlockerMembers(listed, b, x); }
      listed := InsertBlocker(listed, b);
      remaining := remaining - {b};
    }
  }

  lemma NoBlockers()
    ensures BlockersOrdered([])
  {
  }

  /** The courses of each layer, in order. */
  method ListStages(anchor: map<Code, Code>, layers: seq<set<Code>>) returns (stages: seq<seq<Code>>)
    ensures |stages| == |layers|
    ensures forall k :: 0 <= k < |stages| ==> Lists(stages[k], MembersOf(anchor, layers[k]))
  {
    hide Lists;
    stages := [];
    var k := 0;
    while k < |layers|
      invariant k == |stages| <= |layers|
      invariant forall j :: 0 <= j < k ==> Lists(stages[j], MembersOf(anchor, layers[j]))
    {
      var stage := Sorted(MembersOf(anchor, layers[k]));
      stages := stages + [stage];
      k := k + 1;
    }
  }

  /** The bundles in `nodes` are blocked, the courses in `named` reported, and nothing else changed. */
  ghost predicate CyclesReported(anchor: map<Code, Code>, nodes: set<Code>, named: set<Code>, before: set<Code>,
                                 blocked: set<Code>, known: set<Blocker>, blockers: set<Blocker>)
  {
    && blocked == before + MembersOf(anchor, nodes)
    && (forall b {:trigger b in blockers} :: b in blockers <==> b in known || ReportsOne(anchor, named, b))
  }

  ghost predicate ReportsOne(anchor: map<Code, Code>, named: set<Code>, b: Blocker) {
    b.code in named && b.code in anchor && CycleBlocker(b, BundleOf(anchor, anchor[b.code]))
  }

  lemma ReportsBoth(anchor: map<Code, Code>, n1: set<Code>, c1: set<Code>, n2: set<Code>, c2: set<Code>,
                    a: set<Code>, b: set<Code>, c: set<Code>, x: set<Blocker>, y: set<Blocker>, z: set<Blocker>)
    requires CyclesReported(anchor, n1, c1, a, b, x, y) && CyclesReported(anchor, n2, c2, b, c, y, z)
    ensures CyclesReported(anchor, n1 + n2, c1 + c2, a, c, x, z)
  {
    assert MembersOf(anchor, n1 + n2) == MembersOf(anchor, n1) + MembersOf(anchor, n2);
    forall r ensures r in z <==> r in x || ReportsOne(anchor, c1 + c2, r) {
      assert r in y <==> r in x || ReportsOne(anchor, c1, r);
      assert ReportsOne(anchor, c1 + c2, r) <==> ReportsOne(anchor, c1, r) || ReportsOne(anchor, c2, r);
    }
  }

  lemma NothingReported(anchor: map<Code, Code>, blocked: set<Code>, blockers: set<Blocker>)
    ensures CyclesReported(anchor, {}, {}, blocked, blocked, blockers, blockers)
  {
    assert MembersOf(anchor, {}) == {};
  }

  lemma BundleReported(anchor: map<Code, Code>, n: Code, named: set<Code>, members: seq<Word>, reasons: set<Blocker>,
                       blocked: set<Code>, known: set<Blocker>)
    requires named <= BundleOf(anchor, n) && Lists(members, BundleOf(anchor, n))
    requires reasons == set c | c in named :: Blocker(c, PrerequisiteCycle, members, [], false)
    ensures CyclesReported(anchor, {n}, named, blocked, blocked + BundleOf(anchor, n), known, known + reasons)
  {
    assert MembersOf(anchor, {n}) == BundleOf(anchor, n);
    forall b ensures b in reasons <==> ReportsOne(anchor, named, b) {
      if ReportsOne(anchor, named, b) {
        ListsUnique(b.alternatives, members, BundleOf(anchor, n));
      }
    }
  }

  /** Block a bundle on a cycle, naming some of its members. */
  method BlockBundle(anchor: map<Code, Code>, n: Code, named: set<Code>, ledger: Ledger)
    requires ledger.Valid() && named != {} && named <= BundleOf(anchor, n)
    modifies ledger
    ensures ledger.Valid()
    ensures CyclesReported(anchor, {n}, named, old(ledger.blocked), ledger.blocked, old(ledger.blockers),
                           ledger.blockers)
  {
    var bundle := BundleOf(anchor, n);
    var members := Sorted(bundle);
    var reasons := set c | c in named :: Blocker(c, PrerequisiteCycle, members, [], false);
    var one :| one in named;
    assert Blocker(one, PrerequisiteCycle, members, [], false) in reasons;
    BundleReported(anchor, n, named, members, reasons, ledger.blocked, ledger.blockers);
    ledger.Add(bundle, reasons);
  }

  /** The dependencies found so far between different bundles. */
  ghost predicate EdgesFrom(ctx: Context, anchor: map<Code, Code>, seen: set<Code>, edges: Graph) {
    && (forall n {:trigger n in edges} :: n in edges <==> n in anchor && anchor[n] == n)
    && (forall n, d {:trigger d in edges[n]} | n in edges ::
          d in edges[n] <==> n != d && NeedsVia(ctx, anchor, seen, n, d))
  }

  /** The bundles found so far to need themselves. */
  ghost predicate LoopsFrom(ctx: Context, anchor: map<Code, Code>, seen: set<Code>, loops: set<Code>) {
    forall n {:trigger n in loops} :: n in loops <==> NeedsVia(ctx, anchor, seen, n, n)
  }

  /** The courses found so far to need their own bundle. */
  ghost predicate LoopersFrom(ctx: Context, anchor: map<Code, Code>, seen: set<Code>, named: set<Code>) {
    forall c {:trigger c in named} :: c in named <==> c in seen && NeedsOwnBundle(ctx, anchor, c)
  }

  /** The dependencies, loops and loopers found among the courses seen. */
  ghost predicate LinkedFrom(ctx: Context, anchor: map<Code, Code>, seen: set<Code>, edges: Graph, loops: set<Code>,
                             named: set<Code>) {
    && EdgesFrom(ctx, anchor, seen, edges) && LoopsFrom(ctx, anchor, seen, loops)
        && LoopersFrom(ctx, anchor, seen, named)
  }

  lemma NeedsOneMore(ctx: Context, anchor: map<Code, Code>, seen: set<Code>, code: Code, n: Code, d: Code)
    requires code in anchor
    ensures NeedsVia(ctx, anchor, seen + {code}, n, d)
            <==> NeedsVia(ctx, anchor, seen, n, d) || (n == anchor[code] && d in RootsOf(anchor, Prereqs(ctx, code)))
  {
    if NeedsVia(ctx, anchor, seen + {code}, n, d) {
      var c, p :| c in seen + {code} && c in anchor && p in anchor && anchor[c] == n && anchor[p] == d
          && p in Prereqs(ctx, c);
      if c != code { assert c in seen; }
    }
    if NeedsVia(ctx, anchor, seen, n, d) {
      var c, p :| c in seen && c in anchor && p in anchor && anchor[c] == n && anchor[p] == d && p in Prereqs(ctx, c);
      assert c in seen + {code};
    }
    if n == anchor[code] && d in RootsOf(anchor, Prereqs(ctx, code)) {
      var p :| p in Prereqs(ctx, code) && p in anchor && anchor[p] == d;
      assert code in seen + {code};
    }
  }

  ghost predicate Rooted(anchor: map<Code, Code>) {
    forall c <- anchor :: anchor[c] in anchor && anchor[anchor[c]] == anchor[c]
  }

  function RootsOf(anchor: map<Code, Code>, codes: set<Code>): set<Code> {
    set p | p in codes && p in anchor :: anchor[p]
  }

  lemma LinkedMore(ctx: Context, anchor: map<Code, Code>, seen: set<Code>, edges: Graph, loops: set<Code>,
                   named: set<Code>, code: Code, needed: set<Code>)
    requires LinkedFrom(ctx, anchor, seen, edges, loops, named) && code in anchor && Rooted(anchor)
    requires needed == RootsOf(anchor, Prereqs(ctx, code))
    ensures var root := anchor[code];
            var looping := if root in needed then {root} else {};
            var looper := if root in needed then {code} else {};
            LinkedFrom(ctx, anchor, seen + {code}, edges[root := edges[root] + (needed - {root})], loops + looping,
                       named + looper)
  {
    var root := anchor[code];
    forall n, d ensures NeedsVia(ctx, anchor, seen + {code}, n, d)
                        <==> NeedsVia(ctx, anchor, seen, n, d) || (n == root && d in needed) {
      NeedsOneMore(ctx, anchor, seen, code, n, d);
    }
    assert root in needed <==> NeedsOwnBundle(ctx, anchor, code);
  }

  /** Enter one course's prerequisites as dependencies of its bundle; block the bundle if one of them
      is in it. */
  method LinkCourse(ctx: Context, anchor: map<Code, Code>, ghost seen: set<Code>, code: Code, prereqs: set<Code>,
                    edges: Graph, ghost loops: set<Code>, ghost named: set<Code>, ledger: Ledger)
      returns (more: Graph, ghost looping: set<Code>, ghost looper: set<Code>)
    requires ledger.Valid() && code in anchor && Rooted(anchor)
    requires prereqs * Known(ctx) == Prereqs(ctx, code) && anchor.Keys == Known(ctx)
    requires LinkedFrom(ctx, anchor, seen, edges, loops, named)
    modifies ledger
    ensures ledger.Valid() && LinkedFrom(ctx, anchor, seen + {code}, more, loops + looping, named + looper)
    ensures CyclesReported(anchor, looping, looper, old(ledger.blocked), ledger.blocked, old(ledger.blockers),
                           ledger.blockers)
  {
    var root := anchor[code];
    var needed := RootsOf(anchor, prereqs);
    assert needed == RootsOf(anchor, Prereqs(ctx, code));
    LinkedMore(ctx, anchor, seen, edges, loops, named, code, needed);
    more := edges[root := edges[root] + (needed - {root})];
    if root in needed {
      looping, looper := {root}, {code};
      BlockBundle(anchor, root, {code}, ledger);
    } else {
      looping, looper := {}, {};
      NothingReported(anchor, ledger.blocked, ledger.blockers);
    }
  }

  /** Enter one more course, keeping account of all cycles reported since `before` and `known`. */
  method LinkNext(ctx: Context, anchor: map<Code, Code>, ghost seen: set<Code>, code: Code, prereqs: set<Code>,
                  edges: Graph, ghost loops: set<Code>, ghost named: set<Code>, ghost before: set<Code>,
                  ghost known: set<Blocker>, ledger: Ledger)
      returns (more: Graph, ghost now: set<Code>, ghost names: set<Code>)
    requires ledger.Valid() && code in anchor && Rooted(anchor)
    requires prereqs * Known(ctx) == Prereqs(ctx, code) && anchor.Keys == Known(ctx)
    requires LinkedFrom(ctx, anchor, seen, edges, loops, named)
    requires CyclesReported(anchor, loops, named, before, ledger.blocked, known, ledger.blockers)
    modifies ledger
    ensures ledger.Valid() && LinkedFrom(ctx, anchor, seen + {code}, more, now, names)
    ensures CyclesReported(anchor, now, names, before, ledger.blocked, known, ledger.blockers)
  {
    ghost var looping, looper;
    more, looping, looper := LinkCourse(ctx, anchor, seen, code, prereqs, edges, loops, named, ledger);
    ReportsBoth(anchor, loops, named, looping, looper, before, old(ledger.blocked), ledger.blocked,
                known, old(ledger.blockers), ledger.blockers);
    now, names := loops + looping, named + looper;
  }

  ghost predicate PrereqsFound(ctx: Context, anchor: map<Code, Code>, found: map<Code, Assessment>) {
    forall c <- anchor :: c in found && found[c].prereqs * Known(ctx) == Prereqs(ctx, c)
  }

  /** The bundles without dependencies. */
  function NoEdges(anchor: map<Code, Code>): Graph { map n | n in anchor && anchor[n] == n :: {} }

  lemma NothingLinked(ctx: Context, anchor: map<Code, Code>)
    ensures LinkedFrom(ctx, anchor, {}, NoEdges(anchor), {}, {})
  {
  }

  /** Turn the courses' prerequisites into dependencies between bundles; a bundle that needs itself
      is on a cycle and blocked at once. */
  method LinkBundles(ctx: Context, found: map<Code, Assessment>, anchor: map<Code, Code>, ledger: Ledger)
      returns (edges: Graph, ghost loops: set<Code>, ghost named: set<Code>)
    requires ledger.Valid() && PrereqsFound(ctx, anchor, found) && anchor.Keys == Known(ctx) && Rooted(anchor)
    modifies ledger
    ensures ledger.Valid() && LinkedFrom(ctx, anchor, anchor.Keys, edges, loops, named)
    ensures CyclesReported(anchor, loops, named, old(ledger.blocked), ledger.blocked, old(ledger.blockers),
                           ledger.blockers)
  {
    edges := NoEdges(anchor);
    loops, named := {}, {};
    var remaining := anchor.Keys;
    ghost var seen := {};
    NothingLinked(ctx, anchor);
    NothingReported(anchor, ledger.blocked, ledger.blockers);
    hide LinkedFrom, CyclesReported, Rooted, Prereqs, Known, NoEdges;
    while remaining != {}
      invariant ledger.Valid() && remaining + seen == anchor.Keys
      invariant LinkedFrom(ctx, anchor, seen, edges, loops, named)
      invariant CyclesReported(anchor, loops, named, old(ledger.blocked), ledger.blocked, old(ledger.blockers),
                               ledger.blockers)
      decreases |remaining|
    {
      var code :| code in remaining;
      edges, loops, named :=
        LinkNext(ctx, anchor, seen, code, found[code].prereqs, edges, loops, named, old(ledger.blocked),
                 old(ledger.blockers), ledger);
      OneFewer(anchor.Keys, remaining, seen, code);
      seen, remaining := seen + {code}, remaining - {code};
    }
    assert seen == anchor.Keys;
  }

  /** Block every bundle the cycle search marked, naming all its members. */
  method BlockCycles(anchor: map<Code, Code>, cyclic: set<Code>, ledger: Ledger)
    requires ledger.Valid() && forall n <- cyclic :: n in anchor && anchor[n] == n
    modifies ledger
    ensures ledger.Valid()
    ensures CyclesReported(anchor, cyclic, MembersOf(anchor, cyclic), old(ledger.blocked), ledger.blocked,
                           old(ledger.blockers), ledger.blockers)
  {
    var remaining := cyclic;
    ghost var seen := {};
    assert MembersOf(anchor, {}) == {};
    NothingReported(anchor, ledger.blocked, ledger.blockers);
    while remaining != {}
      invariant ledger.Valid() && remaining + seen == cyclic
      invariant CyclesReported(anchor, seen, MembersOf(anchor, seen), old(ledger.blocked), ledger.blocked,
                               old(ledger.blockers), ledger.blockers)
      decreases |remaining|
    {
      var root := LeastOf(remaining);
      ghost var middle, reported := ledger.blocked, ledger.blockers;
      assert root in BundleOf(anchor, root);
      BlockBundle(anchor, root, BundleOf(anchor, root), ledger);
      ReportsBoth(anchor, seen, MembersOf(anchor, seen), {root}, BundleOf(anchor, root), old(ledger.blocked), middle,
                  ledger.blocked,
                  old(ledger.blockers), reported, ledger.blockers);
      OneFewer(cyclic, remaining, seen, root);
      assert MembersOf(anchor, seen + {root}) == MembersOf(anchor, seen) + BundleOf(anchor, root);
      seen, remaining := seen + {root}, remaining - {root};
    }
    assert seen == cyclic;
  }
}
