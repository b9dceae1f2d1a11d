/** When the search marks every node on a cycle: it does whenever no node has two dependencies that
    lead back to it. */
module CycleMarks {
  import opened Forest
  import opened Cycles
  import opened SearchTrees

  /** A dependency of x from which x is reached again. */
  ghost predicate LeadsBack(g: Graph, x: Code, y: Code) {
    Edge(g, x, y) && exists walk :: LeadsBackBy(g, x, y, walk)
  }

  ghost predicate LeadsBackBy(g: Graph, x: Code, y: Code, walk: seq<Code>) {
    IsWalk(g, walk) && walk[0] == y && walk[|walk| - 1] == x
  }

  /** Cycles do not branch: no node has two dependencies that lead back to it. */
  ghost predicate LoneCycles(g: Graph) {
    forall x, y, z :: LeadsBack(g, x, y) && LeadsBack(g, x, z) ==> y == z
  }

  // ---------------------------------------------------------------- marks come in rings

  /** A ring of marked nodes through n. */
  ghost predicate RingThrough(g: Graph, marked: set<Code>, n: Code, ring: seq<Code>) {
    IsRing(g, ring) && n in ring && Members(ring) <= marked
  }

  ghost predicate OnMarkedRing(g: Graph, marked: set<Code>, n: Code) {
    exists ring :: RingThrough(g, marked, n, ring)
  }

  ghost predicate MarkedInRings(g: Graph, t: Tour) { forall n <- t.marked :: OnMarkedRing(g, t.marked, n) }

  lemma StillOnRing(g: Graph, marked: set<Code>, more: set<Code>, n: Code)
    requires OnMarkedRing(g, marked, n) && marked <= more
    ensures OnMarkedRing(g, more, n)
  {
    var ring :| RingThrough(g, marked, n, ring);
    assert RingThrough(g, more, n, ring);
  }

  lemma MarkedStretchIsRing(g: Graph, path: seq<Code>, d: Code, t: Tour)
    requires IsWalk(g, path) && d in path && Edge(g, path[|path| - 1], d) && MarkedInRings(g, t)
    ensures MarkedInRings(g, t.(marked := t.marked + Stretch(path, d)))
  {
    var from := IndexOf(path, d);
    var marked := t.marked + Stretch(path, d);
    WalkRest(g, path, from);
    forall n | n in marked ensures OnMarkedRing(g, marked, n) {
      if n in t.marked {
        StillOnRing(g, t.marked, marked, n);
      } else {
        assert RingThrough(g, marked, n, path[from..]);
      }
    }
  }

  lemma {:induction false} FollowRings(g: Graph, path: seq<Code>, d: Code, t: Tour)
    requires IsGraph(g) && d in g && TourOk(g, path, t) && (path != [] ==> Edge(g, path[|path| - 1], d))
    requires MarkedInRings(g, t)
    ensures MarkedInRings(g, Follow(g, path, d, t))
    decreases Unfound(g, t), 0, 0
  {
    if d !in t.found {
      FoundOne(g, t, d, path + [d]);
      EnterOk(g, path, d, t);
      ExploreRings(g, path + [d], g[d], Enter(t, d, path + [d]));
    } else if d in path {
      MarkedStretchIsRing(g, path, d, t);
    }
  }

  lemma {:induction false} ExploreRings(g: Graph, path: seq<Code>, todo: set<Code>, t: Tour)
    requires IsGraph(g) && todo <= g.Keys && TourOk(g, path, t) && MarkedInRings(g, t)
    requires path != [] ==> path[|path| - 1] in g && todo <= g[path[|path| - 1]]
    ensures MarkedInRings(g, Explore(g, path, todo, t))
    decreases Unfound(g, t), 1, |todo|
  {
    if todo != {} {
      var d := Least(todo);
      assert todo == {d} + (todo - {d});
      assert path != [] ==> Edge(g, path[|path| - 1], d);
      hide TourOk, IsGraph, MarkedInRings;
      FollowOk(g, path, d, t);
      FollowRings(g, path, d, t);
      ExploreRings(g, path, todo - {d}, Follow(g, path, d, t));
    }
  }

  lemma SearchRings(g: Graph)
    requires IsGraph(g)
    ensures MarkedInRings(g, Search(g))
  {
    NothingFoundOk(g);
    ExploreRings(g, [], g.Keys, NOTHING_FOUND);
  }

  // ---------------------------------------------------------------- going round a cycle

  /** From a node of a ring, the one dependency that leads back is on the ring. */
  lemma StaysOnRing(g: Graph, ring: seq<Code>, x: Code, y: Code)
    requires LoneCycles(g) && IsRing(g, ring) && x in ring && LeadsBack(g, x, y)
    ensures y in ring
  {
    var k := IndexOf(ring, x);
    TurnedRing(g, ring, k);
    var cycle := ring[k..] + ring[..k + 1];
    assert forall z <- cycle :: z in ring;
    StepLeadsBack(g, x, cycle, 0);
  }

  /** Each step of a cycle leads back. */
  lemma StepLeadsBack(g: Graph, n: Code, cycle: seq<Code>, j: nat)
    requires CycleThrough(g, n, cycle) && j + 1 < |cycle|
    ensures LeadsBack(g, cycle[j], cycle[j + 1])
  {
    var walk := cycle[j + 1..] + cycle[1..j + 1];
    var turn := |cycle| - j - 1;
    forall i, k | 0 <= i < |walk| && k == i + 1 && k < |walk| ensures Edge(g, walk[i], walk[k]) {
      if k < turn {
        assert walk[i] == cycle[j + 1 + i] && walk[k] == cycle[j + 1 + k];
      } else if i >= turn {
        assert walk[i] == cycle[1 + i - turn] && walk[k] == cycle[1 + k - turn];
      } else {
        assert walk[i] == cycle[0] && walk[k] == cycle[1];
      }
    }
    assert LeadsBackBy(g, cycle[j], cycle[j + 1], walk);
  }

  /** So a ring that meets a cycle holds its end. */
  lemma {:induction false} RingHoldsCycle(g: Graph, ring: seq<Code>, n: Code, cycle: seq<Code>, i: nat)
    requires LoneCycles(g) && IsRing(g, ring) && CycleThrough(g, n, cycle) && i < |cycle| && cycle[i] in ring
    ensures n in ring
    decreases |cycle| - i
  {
    if i + 1 < |cycle| {
      StepLeadsBack(g, n, cycle, i);
      StaysOnRing(g, ring, cycle[i], cycle[i + 1]);
      RingHoldsCycle(g, ring, n, cycle, i + 1);
    }
  }

  /** Where cycles do not branch, exactly the nodes on cycles are marked, whatever the order of the
      search. */
  lemma LoneCyclesAreMarked(g: Graph, n: Code)
    requires IsGraph(g) && LoneCycles(g)
    ensures n in Search(g).marked <==> OnCycle(g, n)
  {
    SearchSettles(g);
    SearchRings(g);
    var t := Search(g);
    hide Search, LoneCycles, IsRing, Settled;
    if OnCycle(g, n) {
      var cycle :| CycleThrough(g, n, cycle);
      EveryCycleIsMarked(g, t.finished, t.marked, n, cycle);
      var i :| 0 <= i < |cycle| && cycle[i] in t.marked;
      var ring :| RingThrough(g, t.marked, cycle[i], ring);
      RingHoldsCycle(g, ring, n, cycle, i);
      assert n in Members(ring);
    }
  }
}
