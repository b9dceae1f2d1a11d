/** The whole planner, and why what it blocks is exactly what cannot be staged. */
module Planning {
  import opened Forest
  import opened Requirements
  import opened Cycles
  import opened SearchTrees
  import opened Layers
  import opened Blocks
  import opened SequencePlanner
  import opened PlannerSteps

  /** The bundle graph with the self-dependencies put back. */
  ghost function WithLoops(edges: Graph, loops: set<Code>): Graph {
    map n | n in edges :: edges[n] + if n in loops then {n} else {}
  }

  /** Everything known about the bundle graph once all courses are linked. */
  ghost predicate GraphOf(ctx: Context, anchor: map<Code, Code>, edges: Graph, loops: set<Code>) {
    && Rooted(anchor)
    && EdgesFrom(ctx, anchor, anchor.Keys, edges)
    && LoopsFrom(ctx, anchor, anchor.Keys, loops)
  }

  /** Taking the self-dependencies out again gives the graph searched. */
  lemma LooplessEdges(edges: Graph, loops: set<Code>)
    requires forall n <- edges :: n !in edges[n]
    ensures Loopless(WithLoops(edges, loops)) == edges
  {
    var full := WithLoops(edges, loops);
    forall n | n in edges ensures Loopless(full)[n] == edges[n] {}
  }

  lemma MarksFound(ctx: Context, anchor: map<Code, Code>, edges: Graph, loops: set<Code>)
    requires GraphOf(ctx, anchor, edges, loops) && IsGraph(edges)
    ensures Marks(WithLoops(edges, loops)) == Search(edges).marked
  {
    LooplessEdges(edges, loops);
  }

  lemma GraphIsBundleGraph(ctx: Context, anchor: map<Code, Code>, edges: Graph, loops: set<Code>)
    requires GraphOf(ctx, anchor, edges, loops)
    ensures IsGraph(edges) && IsBundleGraph(ctx, anchor, WithLoops(edges, loops))
  {
    var full := WithLoops(edges, loops);
    forall n, d | n in edges && d in edges[n] ensures d in edges {
      assert NeedsVia(ctx, anchor, anchor.Keys, n, d);
    }
    forall n, d ensures Edge(full, n, d) <==> Needs(ctx, anchor, n, d) {
      if Needs(ctx, anchor, n, d) {
        assert NeedsVia(ctx, anchor, anchor.Keys, n, d);
        assert n in edges && d in edges;
        if n == d { assert n in loops; } else { assert d in edges[n]; }
      }
      if Edge(full, n, d) {
        if d in edges[n] { assert n != d; } else { assert n in loops; }
      }
    }
  }

  lemma EdgeKinds(edges: Graph, loops: set<Code>, n: Code, d: Code)
    ensures Edge(WithLoops(edges, loops), n, d) <==> Edge(edges, n, d) || (n == d && n in edges && n in loops)
  {
  }

  /** A closed set that holds a node of a walk holds its start. */
  lemma {:induction false} WalkBack(g: Graph, b: set<Code>, path: seq<Code>, i: nat)
    requires SpreadClosed(g, b) && IsWalk(g, path) && i < |path| && path[i] in b
    ensures path[0] in b
    decreases i
  {
    if i > 0 {
      assert Edge(g, path[i - 1], path[i]);
      WalkBack(g, b, path, i - 1);
    }
  }

  /** A closed set that holds the loops and the marked nodes holds every node on a cycle. */
  lemma CyclesAreBlocked(edges: Graph, loops: set<Code>, order: seq<Code>, cyclic: set<Code>, b: set<Code>, n: Code)
    requires Settled(edges, order, cyclic) && cyclic <= b && loops <= b
    requires SpreadClosed(WithLoops(edges, loops), b) && OnCycle(WithLoops(edges, loops), n)
    ensures n in b
  {
    var full := WithLoops(edges, loops);
    var path :| CycleThrough(full, n, path);
    if i :| 0 <= i < |path| && path[i] in b {
      WalkBack(full, b, path, i);
    } else {
      forall i, j | 0 <= i < |path| && j == i + 1 && j < |path| ensures Edge(edges, path[i], path[j]) {
        assert Edge(full, path[i], path[j]);
        EdgeKinds(edges, loops, path[i], path[j]);
      }
      assert CycleThrough(edges, n, path);
      EveryCycleIsMarked(edges, order, cyclic, n, path);
    }
  }

  lemma ClosedEitherWay(edges: Graph, loops: set<Code>, c: set<Code>)
    ensures SpreadClosed(edges, c) <==> SpreadClosed(WithLoops(edges, loops), c)
  {
    var full := WithLoops(edges, loops);
    if SpreadClosed(edges, c) {
      forall n, d | Edge(full, n, d) && d in c ensures n in c { EdgeKinds(edges, loops, n, d); }
    }
    if SpreadClosed(full, c) {
      forall n, d | Edge(edges, n, d) && d in c ensures n in c { EdgeKinds(edges, loops, n, d); }
    }
  }

  lemma LoopOnCycle(edges: Graph, loops: set<Code>, n: Code)
    requires n in edges && n in loops
    ensures OnCycle(WithLoops(edges, loops), n)
  {
    EdgeKinds(edges, loops, n, n);
    assert CycleThrough(WithLoops(edges, loops), n, [n, n]);
  }

  /** The bundles blocked before blocks spread. */
  ghost predicate StartSet(ctx: Context, anchor: map<Code, Code>, loops: set<Code>, cyclic: set<Code>,
                           start: set<Code>) {
    forall n {:trigger n in start} :: n in start <==> HardBundle(ctx, anchor, n) || n in loops || n in cyclic
  }

  /** Spreading from the courses' own blocks, the loops and the marked nodes reaches exactly the
      least closed set over all nodes on cycles: the search need not mark them all. */
  lemma BlockedIsLeast(ctx: Context, anchor: map<Code, Code>, edges: Graph, loops: set<Code>, order: seq<Code>,
                       cyclic: set<Code>, start: set<Code>, b: set<Code>)
    requires GraphOf(ctx, anchor, edges, loops) && IsGraph(edges) && (forall n <- loops :: n in edges)
    requires Settled(edges, order, cyclic) && AllOnCycles(edges, cyclic)
    requires StartSet(ctx, anchor, loops, cyclic, start)
    requires start <= b && SpreadClosed(edges, b) && SpreadFrom(edges, start, b) && (forall n <- b :: n in edges)
    ensures LeastBlocked(ctx, anchor, WithLoops(edges, loops), b)
  {
    var full := WithLoops(edges, loops);
    ClosedEitherWay(edges, loops, b);
    forall n | StartsBlocked(ctx, anchor, full, n) ensures n in b {
      if HardBundle(ctx, anchor, n) {
        assert n in start;
      } else {
        assert forall x <- cyclic :: x in start;
        assert forall x <- loops :: x in start;
        CyclesAreBlocked(edges, loops, order, cyclic, b, n);
      }
    }
    forall c: set<Code> | SpreadClosed(full, c) && (forall n | StartsBlocked(ctx, anchor, full, n) :: n in c)
      ensures b <= c {
      ClosedEitherWay(edges, loops, c);
      forall n | n in start ensures n in c {
        assert n in b && n in full;
        if n in loops {
          LoopOnCycle(edges, loops, n);
        } else if n in cyclic {
          forall x, y | Edge(edges, x, y) ensures Edge(full, x, y) { EdgeKinds(edges, loops, x, y); }
          OnCycleMore(edges, full, n);
        }
        assert StartsBlocked(ctx, anchor, full, n);
      }
    }
  }

  lemma StartBundles(ctx: Context, anchor: map<Code, Code>, edges: Graph, loops: set<Code>, cyclic: set<Code>,
                     own: set<Code>, ownBlockers: set<Blocker>, blocked: set<Code>)
    requires GraphOf(ctx, anchor, edges, loops) && anchor.Keys == Known(ctx) && forall n <- cyclic :: n in edges
    requires Gathered(ctx, ctx.selected, own, ownBlockers) && blocked == own + MembersOf(anchor, loops + cyclic)
    ensures StartSet(ctx, anchor, loops, cyclic, BlockedBundles(anchor, blocked))
    ensures forall n <- loops :: n in edges
  {
    var start := BlockedBundles(anchor, blocked);
    forall n ensures n in start <==> HardBundle(ctx, anchor, n) || n in loops || n in cyclic {
      if n in start {
        var c :| c in anchor && c in blocked && anchor[c] == n;
      }
      if HardBundle(ctx, anchor, n) {
        var c :| c in anchor && anchor[c] == n && c in ctx.courses && Assess(ctx, c).hard;
        assert c in own;
      }
      if n in loops {
        assert NeedsVia(ctx, anchor, anchor.Keys, n, n);
        var c :| c in anchor && anchor[c] == n;
        assert c in MembersOf(anchor, loops + cyclic);
      }
      if n in cyclic {
        assert n in edges && n in anchor && anchor[n] == n;
        assert n in MembersOf(anchor, loops + cyclic);
      }
    }
    forall n | n in loops ensures n in edges {
      assert NeedsVia(ctx, anchor, anchor.Keys, n, n);
      var c :| c in anchor && anchor[c] == n;
    }
  }

  /** The courses that start blocked: own blocks, bundles that need themselves, and marked bundles. */
  ghost predicate StartsFrom(ctx: Context, l: Layout, loops: set<Code>, named: set<Code>, start: set<Code>,
                             blockers: set<Blocker>) {
    && (forall c <- l.anchor :: c in start <==>
          (c in ctx.courses && Assess(ctx, c).hard) || l.anchor[c] in loops || l.anchor[c] in Marks(l.full))
    && (forall b {:trigger b in blockers} :: b in blockers <==> OwnBlocker(ctx, b) || CycleReport(ctx, l, b))
  }

  lemma CyclesStart(ctx: Context, l: Layout, loops: set<Code>, named: set<Code>, own: set<Code>,
                    ownBlockers: set<Blocker>, start: set<Code>, startBlockers: set<Blocker>)
    requires l.anchor.Keys == Known(ctx) && LoopersFrom(ctx, l.anchor, l.anchor.Keys, named)
    requires Gathered(ctx, ctx.selected, own, ownBlockers)
    requires CyclesReported(l.anchor, loops + Marks(l.full), named + MembersOf(l.anchor, Marks(l.full)),
                            own, start, ownBlockers, startBlockers)
    ensures StartsFrom(ctx, l, loops, named, start, startBlockers)
  {
    hide Assess, CycleBlocker, BundleOf, NeedsOwnBundle, Marks, OwnBlockers;
    var all := named + MembersOf(l.anchor, Marks(l.full));
    forall b ensures b in startBlockers <==> OwnBlocker(ctx, b) || CycleReport(ctx, l, b) {
      assert b in ownBlockers <==> OwnBlocker(ctx, b);
      assert b.code in all <==> NamedInCycle(ctx, l, b.code);
      assert ReportsOne(l.anchor, all, b) <==> CycleReport(ctx, l, b);
    }
  }

  /** Every blocker has its cause, and every cause its blocker. */
  lemma BlockersAreOk(ctx: Context, l: Layout, loops: set<Code>, named: set<Code>, start: set<Code>,
                      startBlockers: set<Blocker>, blocked: set<Code>, blockers: set<Blocker>)
    requires StartsFrom(ctx, l, loops, named, start, startBlockers)
    requires forall n :: n in loops <==> Edge(l.full, n, n)
    requires l.blocked == BlockedBundles(l.anchor, blocked) && WholeBundles(l.anchor, blocked)
    requires Reported(l.anchor, start, blocked, startBlockers, blockers)
    ensures BlockersOk(ctx, l, blockers)
  {
    forall b ensures SpreadBlocker(l.anchor, start, blocked, b) <==> OthersBlocker(ctx, l, b) {
      if b.code in l.anchor { SpreadToOthers(ctx, l, loops, named, start, startBlockers, blocked, b.code); }
    }
  }

  /** The blocks spread exactly to the courses blocked by others, for the reason reported. */
  lemma SpreadToOthers(ctx: Context, l: Layout, loops: set<Code>, named: set<Code>, start: set<Code>,
                       startBlockers: set<Blocker>, blocked: set<Code>, c: Code)
    requires StartsFrom(ctx, l, loops, named, start, startBlockers)
    requires forall n :: n in loops <==> Edge(l.full, n, n)
    requires l.blocked == BlockedBundles(l.anchor, blocked) && WholeBundles(l.anchor, blocked) && c in l.anchor
    ensures BlockedByOthers(ctx, l, c) <==> c in blocked && c !in start
    ensures c !in start ==>
              (l.anchor[c] in BlockedBundles(l.anchor, start) <==> HardBundle(ctx, l.anchor, l.anchor[c]))
  {
    hide Assess, Marks, Edge;
    assert l.anchor[c] in l.blocked <==> c in blocked;
  }

  // ---------------------------------------------------------------- from the blocks to the stages

  lemma Descends(edges: Graph, order: seq<Code>, cyclic: set<Code>, eligible: set<Code>)
    requires Settled(edges, order, cyclic) && forall n <- eligible :: n in edges && n !in cyclic
    ensures Descending(edges, eligible, order)
  {
    forall n, d | n in eligible && d in eligible && Edge(edges, n, d) ensures Before(order, d, n) {
      assert EdgeSettled(order, cyclic, n, d);
    }
  }

  lemma LayeredEitherWay(edges: Graph, loops: set<Code>, eligible: set<Code>, layers: seq<set<Code>>)
    requires Layered(edges, eligible, layers) && eligible !! loops
    ensures Layered(WithLoops(edges, loops), eligible, layers)
  {
    var full := WithLoops(edges, loops);
    forall k: nat | k < |layers| ensures StageOk(full, eligible, layers, k) {
      assert StageOk(edges, eligible, layers, k);
      forall n, d | n in layers[k] && d in eligible && Edge(full, n, d) ensures PlacedBelow(layers, k, d) {
        EdgeKinds(edges, loops, n, d);
      }
      if k > 0 {
        forall n | n in layers[k] ensures RestsOn(full, layers[k - 1], n) {
          assert RestsOn(edges, layers[k - 1], n);
          var d :| d in layers[k - 1] && Edge(edges, n, d);
          EdgeKinds(edges, loops, n, d);
        }
      }
    }
  }

  /** The marks of a finished search, and the order it finished in. */
  method FindCycles(edges: Graph) returns (cyclic: set<Code>, ghost order: seq<Code>)
    requires IsGraph(edges)
    ensures cyclic == Search(edges).marked
    ensures Settled(edges, order, cyclic) && AllOnCycles(edges, cyclic) && forall n <- cyclic :: n in edges
  {
    var finder := new CycleFinder(edges);
    finder.SearchAll();
    cyclic, order := finder.cyclic, finder.tour.finished;
    SearchSettles(edges);
    forall n | n in cyclic ensures n in edges {
      assert OnCycle(edges, n);
      var path :| CycleThrough(edges, n, path);
      assert Edge(edges, path[0], path[1]);
    }
  }

  /** What is known once everything blocked has been found. */
  ghost predicate BlockedFound(ctx: Context, l: Layout, edges: Graph, loops: set<Code>, blockers: set<Blocker>) {
    && IsGraph(edges) && l.full == WithLoops(edges, loops)
    && IsBundleGraph(ctx, l.anchor, l.full)
    && LeastBlocked(ctx, l.anchor, l.full, l.blocked)
    && BlockersOk(ctx, l, blockers)
  }

  /** Find what is blocked: the courses' own blocks, the cycles, and everything that depends on them. */
  method FindBlocked(ctx: Context, found: map<Code, Assessment>, anchor: map<Code, Code>, ghost links: Links,
                     ledger: Ledger)
      returns (edges: Graph, ghost loops: set<Code>, ghost order: seq<Code>, ghost cyclic: set<Code>, ghost l: Layout)
    requires ledger.Valid() && Gathered(ctx, ctx.selected, ledger.blocked, ledger.blockers)
    requires PrereqsFound(ctx, anchor, found) && anchor.Keys == Known(ctx) && Rooted(anchor)
    modifies ledger
    ensures ledger.Valid() && l == Layout(links, anchor, l.full, BlockedBundles(anchor, ledger.blocked), [])
    ensures BlockedFound(ctx, l, edges, loops, ledger.blockers)
    ensures Settled(edges, order, cyclic) && cyclic <= l.blocked && loops <= l.blocked
    ensures forall n <- edges :: n in l.full
  {
    ghost var own, ownBlockers := ledger.blocked, ledger.blockers;
    ghost var named;
    edges, loops, named := LinkBundles(ctx, found, anchor, ledger);
    ghost var middle, middleBlockers := ledger.blocked, ledger.blockers;
    GraphIsBundleGraph(ctx, anchor, edges, loops);
    MarksFound(ctx, anchor, edges, loops);
    var marked;
    marked, order := FindCycles(edges);
    cyclic := marked;
    BlockCycles(anchor, marked, ledger);
    ghost var start, startBlockers := ledger.blocked, ledger.blockers;
    ReportsBoth(anchor, loops, named, cyclic, MembersOf(anchor, cyclic), own, middle, start, ownBlockers,
                middleBlockers, startBlockers);
    StartBundles(ctx, anchor, edges, loops, cyclic, own, ownBlockers, start);
    ledger.Propagate(anchor, edges);
    l := Layout(links, anchor, WithLoops(edges, loops), BlockedBundles(anchor, ledger.blocked), []);
    BlockedIsLeast(ctx, anchor, edges, loops, order, cyclic, BlockedBundles(anchor, start), l.blocked);
    CyclesStart(ctx, l, loops, named, own, ownBlockers, start, startBlockers);
    LoopEdges(ctx, anchor, edges, loops);
    BlockersAreOk(ctx, l, loops, named, start, startBlockers, ledger.blocked, ledger.blockers);
  }

  lemma LoopEdges(ctx: Context, anchor: map<Code, Code>, edges: Graph, loops: set<Code>)
    requires GraphOf(ctx, anchor, edges, loops) && forall n <- loops :: n in edges
    ensures forall n :: n in loops <==> Edge(WithLoops(edges, loops), n, n)
  {
    forall n ensures n in loops <==> Edge(WithLoops(edges, loops), n, n) {
      EdgeKinds(edges, loops, n, n);
    }
  }

  predicate TooLarge(courses: map<Code, Course>, selected: seq<Code>, completed: seq<Code>) {
    |courses| > MAX_COURSES || |selected| > MAX_SELECTED || |completed| > MAX_COMPLETED
  }

  lemma KnownRooted(ctx: Context, links: Links, anchor: map<Code, Code>)
    requires Bundled(ctx, links, anchor)
    ensures Rooted(anchor)
  {
    forall c | c in anchor ensures anchor[c] in anchor && anchor[anchor[c]] == anchor[c] {
      AnchorsAreRoots(ctx, links, anchor, c);
    }
  }

  lemma SameBlockers(ctx: Context, l: Layout, m: Layout, blockers: set<Blocker>)
    requires BlockersOk(ctx, l, blockers)
    requires l.anchor == m.anchor && l.full == m.full && l.blocked == m.blocked
    ensures BlockersOk(ctx, m, blockers)
  {
    forall b ensures CycleReport(ctx, l, b) <==> CycleReport(ctx, m, b) {}
    forall c ensures BlockedByOthers(ctx, l, c) <==> BlockedByOthers(ctx, m, c) {}
  }

  /** Layer the bundles that are not blocked. */
  method LayerRest(ghost l: Layout, edges: Graph, ghost loops: set<Code>, ghost order: seq<Code>,
                   ghost cyclic: set<Code>, blockedRoots: set<Code>) returns (layers: seq<set<Code>>)
    requires IsGraph(edges) && l.full == WithLoops(edges, loops) && l.blocked == blockedRoots
    requires Settled(edges, order, cyclic) && cyclic <= blockedRoots && loops <= blockedRoots
    ensures Layered(l.full, Eligible(l), layers)
  {
    var eligible := set n | n in edges && n !in blockedRoots;
    Descends(edges, order, cyclic, eligible);
    layers := Layer(edges, eligible, order);
    LayeredEitherWay(edges, loops, eligible, layers);
    assert Eligible(l) == eligible;
  }

  /** Lay out the bundles: block, layer, and list each layer's courses. */
  method LayOut(ctx: Context, found: map<Code, Assessment>, anchor: map<Code, Code>, ghost links: Links, ledger: Ledger)
      returns (plan: SequencePlan, ghost l: Layout)
    requires ledger.Valid() && Gathered(ctx, ctx.selected, ledger.blocked, ledger.blockers)
    requires PrereqsFound(ctx, anchor, found) && Bundled(ctx, links, anchor) && Rooted(anchor)
    modifies ledger
    ensures PlanOk(ctx, plan, l)
  {
    var edges, loops, order, cyclic, found0 := FindBlocked(ctx, found, anchor, links, ledger);
    var layers := LayerRest(found0, edges, loops, order, cyclic, BlockedBundles(anchor, ledger.blocked));
    l := found0.(layers := layers);
    SameBlockers(ctx, found0, l, ledger.blockers);
    assert Eligible(l) == Eligible(found0);
    var stages := ListStages(anchor, layers);
    var blockers := ListBlockers(ledger.blockers);
    plan := SequencePlan(stages, blockers, blockers == []);
  }

  /** Plan a selection: assess it, bundle it, find what is blocked, and layer the rest. */
  method PlanSequence(names: Names, courses: map<Code, Course>, selected: seq<Code>, completed: seq<Code>,
                      campus: map<Code, set<Code>>)
      returns (plan: Option<SequencePlan>, ghost ctx: Context, ghost l: Layout)
    ensures plan.None? <==> |courses| > 100 || |selected| > 50 || |completed| > 100
    ensures plan.Some? ==> Prepared(ctx, courses, selected, completed, campus) && ctx.names == names
    ensures plan.Some? ==> PlanOk(ctx, plan.value, l)
  {
    if TooLarge(courses, selected, completed) {
      return None, Context(names, {}, {}, map[], {}, map[], map[]), Layout({}, map[], map[], {}, []);
    }
    var prepared := Prepare(names, courses, selected, completed, campus);
    ctx := prepared;
    var ledger := new Ledger();
    var found := Gather(prepared, ledger);
    var anchor := Bundle(prepared, found);
    ghost var links := KnownLinks(prepared);
    KnownRooted(ctx, links, anchor);
    FoundPrereqs(ctx, anchor, found);
    var planned;
    planned, l := LayOut(prepared, found, anchor, links, ledger);
    plan := Some(planned);
  }

  lemma FoundPrereqs(ctx: Context, anchor: map<Code, Code>, found: map<Code, Assessment>)
    requires Assessed(ctx, Known(ctx), found) && anchor.Keys == Known(ctx)
    ensures PrereqsFound(ctx, anchor, found)
  {
  }
}
