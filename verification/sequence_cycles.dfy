/** Dependency graphs between bundles, and the depth-first search that marks cycles. The search
    need not mark every node on a cycle; what it does guarantee is that every dependency finishes
    before its dependent, or both are marked. */
module Cycles {
  import opened Forest

  type Graph = map<Code, set<Code>>

  ghost predicate IsGraph(g: Graph) {
    forall n, d | n in g && d in g[n] :: d in g
  }

  ghost predicate Edge(g: Graph, n: Code, d: Code) { n in g && d in g && d in g[n] }

  /** A path along dependencies. */
  ghost predicate IsWalk(g: Graph, path: seq<Code>) {
    && path != []
    && forall i, j :: 0 <= i < |path| && j == i + 1 && j < |path| ==> Edge(g, path[i], path[j])
  }

  ghost predicate CycleThrough(g: Graph, n: Code, path: seq<Code>) {
    IsWalk(g, path) && |path| >= 2 && path[0] == n && path[|path| - 1] == n
  }

  ghost predicate OnCycle(g: Graph, n: Code) {
    exists path :: CycleThrough(g, n, path)
  }

  /** Position of a node in a finishing order. */
  ghost predicate Before(order: seq<Code>, a: Code, b: Code) {
    exists i, j :: 0 <= i < j < |order| && order[i] == a && order[j] == b
  }

  ghost predicate Distinct(s: seq<Code>) { forall i, j :: 0 <= i < j < |s| ==> s[i] != s[j] }

  /** A dependency either finished first, or both its ends are marked. */
  ghost predicate EdgeSettled(order: seq<Code>, cyclic: set<Code>, n: Code, d: Code) {
    (n in cyclic && d in cyclic) || Before(order, d, n)
  }

  function IndexOf(s: seq<Code>, x: Code): (i: nat)
    requires x in s
    ensures i < |s| && s[i] == x
  {
    if s[0] == x then 0 else 1 + IndexOf(s[1..], x)
  }

  function Members(s: seq<Code>): set<Code> { set x | x in s }

  ghost predicate AllOnCycles(g: Graph, cyclic: set<Code>) { forall n <- cyclic :: OnCycle(g, n) }

  // ---------------------------------------------------------------- the search as a function

  /** What a search has found: each node with the path it was found on, the finishing order, and
      the marks. */
  datatype Tour = Tour(found: map<Code, seq<Code>>, finished: seq<Code>, marked: set<Code>)

  const NOTHING_FOUND := Tour(map[], [], {})

  /** The least of some codes. */
  ghost function Least(codes: set<Code>): (least: Code)
    requires codes != {}
    ensures least in codes && forall c <- codes :: least <= c
    decreases |codes|
  {
    var c :| c in codes;
    if codes == {c} then c
    else
      assert codes == {c} + (codes - {c});
      var rest := Least(codes - {c});
      if c < rest then c else rest
  }

  ghost function Unfound(g: Graph, t: Tour): nat { |g.Keys - t.found.Keys| }

  function Enter(t: Tour, n: Code, path: seq<Code>): Tour { t.(found := t.found[n := path]) }

  function Finish(t: Tour, n: Code): Tour { t.(finished := t.finished + [n]) }

  lemma FoundOne(g: Graph, t: Tour, n: Code, path: seq<Code>)
    requires n in g && n !in t.found
    ensures Unfound(g, Enter(t, n, path)) < Unfound(g, t)
  {
    SmallerDifference(g.Keys, t.found.Keys, n);
    assert t.found[n := path].Keys == t.found.Keys + {n};
  }

  /** The stretch of a path that an edge back to one of its nodes closes. */
  function Stretch(path: seq<Code>, d: Code): set<Code>
    requires d in path
  {
    Members(path[IndexOf(path, d)..])
  }

  /** Follow a dependency of the end of the path: explore it if it is new, mark the stretch it
      closes if it is on the path. */
  ghost function Follow(g: Graph, path: seq<Code>, d: Code, t: Tour): (r: Tour)
    requires IsGraph(g) && d in g
    ensures Unfound(g, r) <= Unfound(g, t)
    decreases Unfound(g, t), 0, 0
  {
    if d !in t.found then
      FoundOne(g, t, d, path + [d]);
      Finish(Explore(g, path + [d], g[d], Enter(t, d, path + [d])), d)
    else if d in path then t.(marked := t.marked + Stretch(path, d))
    else t
  }

  /** Follow some dependencies, least first. */
  ghost function Explore(g: Graph, path: seq<Code>, todo: set<Code>, t: Tour): (r: Tour)
    requires IsGraph(g) && todo <= g.Keys
    ensures Unfound(g, r) <= Unfound(g, t)
    decreases Unfound(g, t), 1, |todo|
  {
    if todo == {} then t
    else
      var d := Least(todo);
      assert todo == {d} + (todo - {d});
      Explore(g, path, todo - {d}, Follow(g, path, d, t))
  }

  /** The search of a whole graph, from every node. */
  ghost function Search(g: Graph): Tour
    requires IsGraph(g)
  {
    Explore(g, [], g.Keys, NOTHING_FOUND)
  }

  lemma ExploreNothing(g: Graph, path: seq<Code>, t: Tour)
    requires IsGraph(g)
    ensures Explore(g, path, {}, t) == t
  {
  }

  lemma ExploreLeast(g: Graph, path: seq<Code>, todo: set<Code>, d: Code, t: Tour)
    requires IsGraph(g) && todo <= g.Keys && d in todo && forall c <- todo :: d <= c
    ensures Explore(g, path, todo, t) == Explore(g, path, todo - {d}, Follow(g, path, d, t))
  {
    assert Least(todo) == d;
  }

  // ---------------------------------------------------------------- the search as it runs

  /** The nodes on the path have colour 1, the other ones found another. */
  ghost predicate Coloured(g: Graph, visiting: seq<Code>, state: map<Code, nat>, t: Tour) {
    && Distinct(visiting) && state.Keys == t.found.Keys
    && (forall n <- visiting :: n in state)
    && (forall n <- state :: n in g && (state[n] == 1 <==> n in visiting))
  }

  lemma EnterColours(g: Graph, visiting: seq<Code>, state: map<Code, nat>, t: Tour, node: Code)
    requires Coloured(g, visiting, state, t) && node in g && node !in state
    ensures Coloured(g, visiting + [node], state[node := 1], Enter(t, node, visiting + [node]))
  {
    assert node !in visiting;
  }

  lemma LeaveColours(g: Graph, visiting: seq<Code>, node: Code, state: map<Code, nat>, t: Tour)
    requires Coloured(g, visiting + [node], state, t)
    ensures Coloured(g, visiting, state[node := 2], Finish(t, node))
  {
    var path := visiting + [node];
    assert path[|visiting|] == node && forall i | 0 <= i < |visiting| :: path[i] == visiting[i];
    assert node !in visiting;
    assert forall n :: n in path <==> n in visiting || n == node;
    assert state[node := 2].Keys == state.Keys;
  }

  class CycleFinder {
    const edges: Graph
    var visiting: seq<Code>
    var state: map<Code, nat>
    var cyclic: set<Code>
    ghost var tour: Tour

    constructor (edges: Graph)
      requires IsGraph(edges)
      ensures this.edges == edges && Valid() && visiting == [] && tour == NOTHING_FOUND
    {
      this.edges := edges;
      visiting, state, cyclic, tour := [], map[], {}, NOTHING_FOUND;
    }

    ghost predicate Valid()
      reads this
    {
      IsGraph(edges) && Coloured(edges, visiting, state, tour) && cyclic == tour.marked
    }

    /** Follow one dependency of the node at the end of the path. */
    method FollowOne(dependency: Code)
      requires Valid() && dependency in edges
      modifies this
      ensures Valid() && visiting == old(visiting)
      ensures tour == Follow(edges, visiting, dependency, old(tour))
      decreases Unfound(edges, tour), 1
    {
      if dependency !in state {
        Visit(dependency);
      } else if state[dependency] == 1 {
        cyclic := cyclic + Members(visiting[IndexOf(visiting, dependency)..]);
        tour := tour.(marked := cyclic);
      }
    }

    method EnterNode(node: Code)
      requires Valid() && node in edges && node !in state
      modifies this
      ensures Valid() && visiting == old(visiting) + [node] && tour == Enter(old(tour), node, visiting)
    {
      EnterColours(edges, visiting, state, tour, node);
      state := state[node := 1];
      visiting := visiting + [node];
      tour := Enter(tour, node, visiting);
    }

    method LeaveNode(ghost rest: seq<Code>, node: Code)
      requires Valid() && visiting == rest + [node]
      modifies this
      ensures Valid() && visiting == rest && tour == Finish(old(tour), node)
    {
      LeaveColours(edges, rest, node, state, tour);
      visiting := visiting[..|visiting| - 1];
      state := state[node := 2];
      tour := Finish(tour, node);
    }

    /** Enter a node, follow all its dependencies, and leave it. */
    method Visit(node: Code)
      requires Valid() && node in edges && node !in tour.found
      modifies this
      ensures Valid() && visiting == old(visiting)
      ensures tour == Follow(edges, visiting, node, old(tour))
      decreases Unfound(edges, tour), 0
    {
      FoundOne(edges, tour, node, visiting + [node]);
      EnterNode(node);
      FollowAll(edges[node]);
      LeaveNode(old(visiting), node);
    }

    /** Follow some dependencies of the node at the end of the path, least first. */
    method FollowAll(dependencies: set<Code>)
      requires Valid() && dependencies <= edges.Keys
      modifies this
      ensures Valid() && visiting == old(visiting)
      ensures tour == Explore(edges, visiting, dependencies, old(tour))
      decreases Unfound(edges, tour), 2
    {
      var remaining := dependencies;
      while remaining != {}
        invariant Valid() && visiting == old(visiting) && remaining <= dependencies
        invariant Explore(edges, visiting, remaining, tour) == Explore(edges, visiting, dependencies, old(tour))
        invariant Unfound(edges, tour) <= Unfound(edges, old(tour))
        decreases |remaining|
      {
        var dependency := LeastOf(remaining);
        ExploreLeast(edges, visiting, remaining, dependency, tour);
        FollowOne(dependency);
        remaining := remaining - {dependency};
      }
    }

    /** Search from every node. */
    method SearchAll()
      requires Valid() && visiting == [] && tour == NOTHING_FOUND
      modifies this
      ensures Valid() && tour == Search(edges)
    {
      FollowAll(edges.Keys);
    }
  }

  method LeastOf(s: set<Code>) returns (least: Code)
    requires s != {}
    ensures least in s && forall x <- s :: least <= x
  {
    least :| least in s;
    var rest := s - {least};
    while rest != {}
      invariant least in s && rest <= s && forall x <- s :: x in rest || least <= x
      decreases |rest|
    {
      var x :| x in rest;
      rest := rest - {x};
      if x < least { least := x; }
    }
  }

  lemma SmallerDifference(all: set<Code>, seen: set<Code>, x: Code)
    requires x in all && x !in seen
    ensures |all - (seen + {x})| < |all - seen|
  {
    assert all - seen == (all - (seen + {x})) + {x};
  }

  lemma AppendDistinct(s: seq<Code>, x: Code)
    requires Distinct(s) && x !in s
    ensures Distinct(s + [x])
  {
  }

  lemma AppendWalk(g: Graph, path: seq<Code>, n: Code)
    requires path != [] ==> IsWalk(g, path) && Edge(g, path[|path| - 1], n)
    ensures IsWalk(g, path + [n])
  {
  }

  lemma BeforeAppend(order: seq<Code>, x: Code, a: Code, b: Code)
    requires Before(order, a, b)
    ensures Before(order + [x], a, b)
  {
    var i, j :| 0 <= i < j < |order| && order[i] == a && order[j] == b;
    assert (order + [x])[i] == a && (order + [x])[j] == b;
  }

  lemma BeforeLast(order: seq<Code>, x: Code, a: Code)
    requires a in order
    ensures Before(order + [x], a, x)
  {
    var i := IndexOf(order, a);
    assert (order + [x])[i] == a && (order + [x])[|order|] == x;
  }

  /** A walk whose end depends on its start. */
  ghost predicate IsRing(g: Graph, ring: seq<Code>) {
    IsWalk(g, ring) && Edge(g, ring[|ring| - 1], ring[0])
  }

  /** A ring can be walked round from any of its nodes. */
  lemma TurnedRing(g: Graph, ring: seq<Code>, k: nat)
    requires IsRing(g, ring) && k < |ring|
    ensures CycleThrough(g, ring[k], ring[k..] + ring[..k + 1])
  {
    var cycle := ring[k..] + ring[..k + 1];
    var turn := |ring| - k;
    forall i, j | 0 <= i < |cycle| && j == i + 1 && j < |cycle| ensures Edge(g, cycle[i], cycle[j]) {
      if j < turn {
        assert cycle[i] == ring[k + i] && cycle[j] == ring[k + j];
      } else if i >= turn {
        assert cycle[i] == ring[i - turn] && cycle[j] == ring[j - turn];
      } else {
        assert cycle[i] == ring[|ring| - 1] && cycle[j] == ring[0];
      }
    }
  }

  lemma WalkRest(g: Graph, path: seq<Code>, from: nat)
    requires IsWalk(g, path) && from < |path|
    ensures IsWalk(g, path[from..])
  {
    var rest := path[from..];
    forall i, j | 0 <= i < |rest| && j == i + 1 && j < |rest| ensures Edge(g, rest[i], rest[j]) {
      assert rest[i] == path[from + i] && rest[j] == path[from + j];
    }
  }

  /** A back edge from the end of a path puts everything behind its target on a cycle. */
  lemma BackEdgeCycle(g: Graph, path: seq<Code>, from: nat, n: Code)
    requires IsWalk(g, path) && from < |path| && n in path[from..]
    requires Edge(g, path[|path| - 1], path[from])
    ensures OnCycle(g, n)
  {
    WalkRest(g, path, from);
    TurnedRing(g, path[from..], IndexOf(path[from..], n));
  }

  lemma OnCycleMore(g: Graph, h: Graph, n: Code)
    requires OnCycle(g, n) && forall a, d {:trigger Edge(g, a, d)} | Edge(g, a, d) :: Edge(h, a, d)
    ensures OnCycle(h, n)
  {
    var path :| CycleThrough(g, n, path);
    forall i, j | 0 <= i < |path| && j == i + 1 && j < |path| ensures Edge(h, path[i], path[j]) {
      assert Edge(g, path[i], path[j]);
    }
    assert CycleThrough(h, n, path);
  }

  // ---------------------------------------------------------------- what the marks achieve

  ghost predicate Settled(g: Graph, order: seq<Code>, cyclic: set<Code>) {
    && Distinct(order)
    && (forall n <- g :: n in order)
    && (forall n, d | n in g && Edge(g, n, d) :: EdgeSettled(order, cyclic, n, d))
  }

  lemma BeforeIndex(order: seq<Code>, a: Code, b: Code)
    requires Distinct(order) && Before(order, a, b)
    ensures a in order && b in order && IndexOf(order, a) < IndexOf(order, b)
  {
    var i, j :| 0 <= i < j < |order| && order[i] == a && order[j] == b;
    assert a in order && b in order;
    var x, y := IndexOf(order, a), IndexOf(order, b);
    assert x == i && y == j;
  }

  /** Along a path without marked nodes the finishing order only goes down. */
  lemma {:induction false} UnmarkedWalkDescends(g: Graph, order: seq<Code>, cyclic: set<Code>, path: seq<Code>)
    requires Settled(g, order, cyclic) && IsWalk(g, path) && |path| >= 2
    requires forall i :: 0 <= i < |path| ==> path[i] !in cyclic
    ensures Before(order, path[|path| - 1], path[0])
    decreases |path|
  {
    assert Edge(g, path[0], path[1]);
    assert EdgeSettled(order, cyclic, path[0], path[1]);
    if |path| > 2 {
      UnmarkedWalkDescends(g, order, cyclic, path[1..]);
      BeforeTransitive(order, path[|path| - 1], path[1], path[0]);
    }
  }

  lemma BeforeTransitive(order: seq<Code>, a: Code, b: Code, c: Code)
    requires Distinct(order) && Before(order, a, b) && Before(order, b, c)
    ensures Before(order, a, c)
  {
    var i, j :| 0 <= i < j < |order| && order[i] == a && order[j] == b;
    var k, l :| 0 <= k < l < |order| && order[k] == b && order[l] == c;
    assert j == k;
  }

  /** Every cycle contains a marked node. */
  lemma EveryCycleIsMarked(g: Graph, order: seq<Code>, cyclic: set<Code>, n: Code, path: seq<Code>)
    requires Settled(g, order, cyclic) && CycleThrough(g, n, path)
    ensures exists i :: 0 <= i < |path| && path[i] in cyclic
  {
    if forall i :: 0 <= i < |path| ==> path[i] !in cyclic {
      UnmarkedWalkDescends(g, order, cyclic, path);
      BeforeIndex(order, n, n);
      assert false;
    }
  }
}
