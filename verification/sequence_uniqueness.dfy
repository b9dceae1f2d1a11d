/** The promises about a plan leave no choice: its stages, its blockers and its completeness are
    determined. */
module PlanUniqueness {
  import opened Forest
  import opened Requirements
  import opened Cycles
  import opened Layers
  import opened SequencePlanner
  import opened PlanTheorems

  lemma SameAnchors(ctx: Context, links: Links, a: map<Code, Code>, b: map<Code, Code>)
    requires Bundled(ctx, links, a) && Bundled(ctx, links, b)
    ensures a == b
  {
    forall c | c in a ensures a[c] == b[c] {
      assert IsAnchor(links, c, a[c]) && IsAnchor(links, c, b[c]);
    }
  }

  lemma SameGraph(ctx: Context, anchor: map<Code, Code>, f: Graph, g: Graph)
    requires IsBundleGraph(ctx, anchor, f) && IsBundleGraph(ctx, anchor, g)
    ensures f == g
  {
    assert f.Keys == g.Keys;
    forall n | n in f ensures f[n] == g[n] {
      forall d ensures d in f[n] <==> d in g[n] {
        assert d in f[n] <==> Edge(f, n, d);
        assert d in g[n] <==> Edge(g, n, d);
      }
    }
  }

  lemma SameBlocked(ctx: Context, anchor: map<Code, Code>, full: Graph, b: set<Code>, c: set<Code>)
    requires LeastBlocked(ctx, anchor, full, b) && LeastBlocked(ctx, anchor, full, c)
    ensures b == c
  {
    assert b <= c;
    assert c <= b;
  }

  // ---------------------------------------------------------------- the layering

  lemma StageUnique(g: Graph, eligible: set<Code>, stages: seq<set<Code>>, n: Code, j: nat, k: nat)
    requires StagesOk(g, eligible, stages) && j < |stages| && k < |stages| && n in stages[j] && n in stages[k]
    ensures j == k
  {
    assert StageOk(g, eligible, stages, j) && StageOk(g, eligible, stages, k);
    assert j < k ==> PlacedBelow(stages, k, n);
    assert k < j ==> PlacedBelow(stages, j, n);
  }

  ghost function StageOf(stages: seq<set<Code>>, n: Code): (k: nat)
    requires PlacedBelow(stages, |stages|, n)
    ensures k < |stages| && n in stages[k]
  {
    var k :| 0 <= k < |stages| && n in stages[k];
    k
  }

  /** A layering is a schedule that respects the dependencies. */
  lemma LayersRespect(g: Graph, eligible: set<Code>, stages: seq<set<Code>>) returns (schedule: map<Code, nat>)
    requires Layered(g, eligible, stages)
    ensures Respects(g, eligible, schedule)
    ensures forall n <- eligible :: n in schedule && schedule[n] < |stages| && n in stages[schedule[n]]
  {
    schedule := map n | n in eligible :: StageOf(stages, n);
    forall n, d | n in eligible && d in eligible && Edge(g, n, d) ensures schedule[d] < schedule[n] {
      var k := schedule[n];
      assert StageOk(g, eligible, stages, k);
      assert PlacedBelow(stages, k, d);
      var j :| 0 <= j < k && j < |stages| && d in stages[j];
      StageUnique(g, eligible, stages, d, j, schedule[d]);
    }
  }

  /** No node comes later in one layering than in another. */
  lemma NoLater(g: Graph, eligible: set<Code>, s: seq<set<Code>>, t: seq<set<Code>>, k: nat, n: Code) returns (j: nat)
    requires Layered(g, eligible, s) && Layered(g, eligible, t) && k < |s| && n in s[k]
    ensures k <= j < |t| && n in t[j]
  {
    var schedule := LayersRespect(g, eligible, t);
    StageIsEarliest(g, eligible, s, schedule, k, n);
    j := schedule[n];
  }

  lemma SameStage(g: Graph, eligible: set<Code>, s: seq<set<Code>>, t: seq<set<Code>>, k: nat, n: Code)
    requires Layered(g, eligible, s) && Layered(g, eligible, t) && k < |s| && n in s[k]
    ensures k < |t| && n in t[k]
  {
    var j := NoLater(g, eligible, s, t, k, n);
    var i := NoLater(g, eligible, t, s, j, n);
    StageUnique(g, eligible, s, n, k, i);
  }

  /** There is one layering. */
  lemma SameLayers(g: Graph, eligible: set<Code>, s: seq<set<Code>>, t: seq<set<Code>>)
    requires Layered(g, eligible, s) && Layered(g, eligible, t)
    ensures s == t
  {
    NotLonger(g, eligible, s, t);
    NotLonger(g, eligible, t, s);
    forall k | 0 <= k < |s| ensures s[k] == t[k] {
      forall n ensures n in s[k] <==> n in t[k] {
        if n in s[k] { SameStage(g, eligible, s, t, k, n); }
        if n in t[k] { SameStage(g, eligible, t, s, k, n); }
      }
    }
  }

  lemma NotLonger(g: Graph, eligible: set<Code>, s: seq<set<Code>>, t: seq<set<Code>>)
    requires Layered(g, eligible, s) && Layered(g, eligible, t)
    ensures |s| <= |t|
  {
    if s != [] {
      var k := |s| - 1;
      assert StageOk(g, eligible, s, k);
      var n :| n in s[k];
      SameStage(g, eligible, s, t, k, n);
    }
  }

  /** Everything behind a plan is determined by the input. */
  lemma SameLayout(ctx: Context, p: SequencePlan, l: Layout, q: SequencePlan, m: Layout)
    requires PlanOk(ctx, p, l) && PlanOk(ctx, q, m)
    ensures l == m
  {
    hide BlockersOk, LeastBlocked, IsBundleGraph, Layered;
    LinksAreKnown(ctx, l.links);
    LinksAreKnown(ctx, m.links);
    hide CoreqLinks;
    SameAnchors(ctx, l.links, l.anchor, m.anchor);
    hide Bundled;
    SameGraph(ctx, l.anchor, l.full, m.full);
    SameBlocked(ctx, l.anchor, l.full, l.blocked, m.blocked);
    SameLayers(l.full, Eligible(l), l.layers, m.layers);
  }

  /** Any two plans for one input that keep the promises have the same stages, report the same blockers,
      each as often, and agree on completeness. */
  lemma PlanIsDetermined(ctx: Context, p: SequencePlan, l: Layout, q: SequencePlan, m: Layout)
    requires PlanOk(ctx, p, l) && PlanOk(ctx, q, m)
    ensures p.stages == q.stages && p.complete == q.complete
    ensures multiset(p.blockers) == multiset(q.blockers)
  {
    hide PlanOk;
    SameLayout(ctx, p, l, q, m);
    SameBlockerLists(ctx, p, q, l);
    SameStages(ctx, p, q, l);
    CompleteIffAllStaged(ctx, p, l);
    CompleteIffAllStaged(ctx, q, m);
    hide Staged;
    forall c ensures Staged(p, c) <==> Staged(q, c) { StagedAlike(p, q, c); }
  }

  lemma SameBlockerLists(ctx: Context, p: SequencePlan, q: SequencePlan, l: Layout)
    requires PlanOk(ctx, p, l) && PlanOk(ctx, q, l)
    ensures multiset(p.blockers) == multiset(q.blockers)
  {
    hide OwnBlocker, CycleReport, OthersBlocker, Layered, LeastBlocked, IsBundleGraph, Bundled, BlockerLeq;
    forall b ensures multiset(p.blockers)[b] == multiset(q.blockers)[b] {
      assert b in p.blockers <==> b in BlockerSet(p.blockers);
      assert b in q.blockers <==> b in BlockerSet(q.blockers);
      OnceEach(p.blockers, b);
      OnceEach(q.blockers, b);
    }
  }

  lemma {:induction false} OnceEach(blockers: seq<Blocker>, b: Blocker)
    requires forall i, j :: 0 <= i < j < |blockers| ==> blockers[i] != blockers[j]
    ensures multiset(blockers)[b] == if b in blockers then 1 else 0
  {
    if blockers != [] {
      var last := |blockers| - 1;
      assert blockers == blockers[..last] + [blockers[last]];
      OnceEach(blockers[..last], b);
    }
  }

  lemma StagedAlike(p: SequencePlan, q: SequencePlan, c: Code)
    requires p.stages == q.stages
    ensures Staged(p, c) <==> Staged(q, c)
  {
    if k: nat :| InStage(p, k, c) { assert InStage(q, k, c); }
    if k: nat :| InStage(q, k, c) { assert InStage(p, k, c); }
  }

  lemma SameStages(ctx: Context, p: SequencePlan, q: SequencePlan, l: Layout)
    requires PlanOk(ctx, p, l) && PlanOk(ctx, q, l)
    ensures p.stages == q.stages
  {
    forall k | 0 <= k < |p.stages| ensures p.stages[k] == q.stages[k] {
      ListsUnique(p.stages[k], q.stages[k], MembersOf(l.anchor, l.layers[k]));
    }
  }
}
