/** What the depth-first search achieves: a finishing order that respects every dependency but
    those between marked nodes, and marks on exactly the nodes below which the search came back. */
module SearchTrees {
  import opened Forest
  import opened Cycles

  ghost predicate SettledSoFar(g: Graph, finished: seq<Code>, marked: set<Code>) {
    forall n, d {:trigger Edge(g, n, d)} | n in finished && Edge(g, n, d) :: EdgeSettled(finished, marked, n, d)
  }

  /** Each node of the path was found on its part of the path. */
  ghost predicate OnPath(path: seq<Code>, t: Tour) {
    forall i {:trigger path[i]} | 0 <= i < |path| :: path[i] in t.found && t.found[path[i]] == path[..i + 1]
  }

  /** What has been found is on the path or finished. */
  ghost predicate Accounted(g: Graph, path: seq<Code>, t: Tour) {
    && Distinct(path) && Distinct(t.finished)
    && (forall n {:trigger n in t.found} :: n in t.found <==> n in path || n in t.finished)
    && (forall n <- path :: n !in t.finished)
    && (forall n <- t.found :: n in g && EndsIn(t.found[n], n))
  }

  ghost predicate EndsIn(path: seq<Code>, n: Code) { path != [] && path[|path| - 1] == n }

  ghost predicate TourOk(g: Graph, path: seq<Code>, t: Tour) {
    && Accounted(g, path, t) && OnPath(path, t)
    && (path != [] ==> IsWalk(g, path))
    && AllOnCycles(g, t.marked)
    && SettledSoFar(g, t.finished, t.marked)
  }

  /** Nothing is taken back. */
  ghost predicate Extends(t: Tour, r: Tour) {
    && (forall n <- t.found :: n in r.found && r.found[n] == t.found[n])
    && t.finished <= r.finished && t.marked <= r.marked
  }

  /** The dependency of the end of the path is finished, or both are marked. */
  ghost predicate Followed(path: seq<Code>, d: Code, r: Tour) {
    d in r.finished || (path != [] && path[|path| - 1] in r.marked && d in r.marked)
  }

  lemma ExtendsThrough(t: Tour, next: Tour, r: Tour)
    requires Extends(t, next) && Extends(next, r)
    ensures Extends(t, r)
  {
  }

  lemma ExtendsByOne(t: Tour, d: Code, path: seq<Code>, explored: Tour)
    requires d !in t.found && Extends(Enter(t, d, path + [d]), explored)
    ensures Extends(t, Finish(explored, d)) && Followed(path, d, Finish(explored, d))
  {
  }

  lemma FollowedMore(path: seq<Code>, d: Code, t: Tour, r: Tour)
    requires Followed(path, d, t) && Extends(t, r)
    ensures Followed(path, d, r)
  {
  }

  // ---------------------------------------------------------------- one step of the search

  lemma EnterOk(g: Graph, path: seq<Code>, d: Code, t: Tour)
    requires TourOk(g, path, t) && d in g && d !in t.found && (path != [] ==> Edge(g, path[|path| - 1], d))
    ensures TourOk(g, path + [d], Enter(t, d, path + [d]))
  {
    var more, now := path + [d], Enter(t, d, path + [d]);
    assert d !in path;
    AppendDistinct(path, d);
    AppendWalk(g, path, d);
    forall i | 0 <= i < |more| ensures more[i] in now.found && now.found[more[i]] == more[..i + 1] {
      if i < |path| { assert more[i] == path[i] && path[i] in t.found; }
    }
  }

  lemma FinishOk(g: Graph, path: seq<Code>, d: Code, t: Tour)
    requires TourOk(g, path + [d], t) && d in g && forall a <- g[d] :: Followed(path + [d], a, t)
    ensures TourOk(g, path, Finish(t, d))
  {
    var more, now := path + [d], Finish(t, d);
    assert more[|path|] == d && more[..|path|] == path;
    assert forall i | 0 <= i < |path| :: more[i] == path[i];
    assert d in more && d !in path;
    FinishAccounted(g, path, d, t);
    FinishSettled(g, path, d, t);
    forall i | 0 <= i < |path| ensures path[i] in now.found && now.found[path[i]] == path[..i + 1] {
      assert more[i] == path[i] && more[..i + 1] == path[..i + 1];
    }
  }

  lemma FinishAccounted(g: Graph, path: seq<Code>, d: Code, t: Tour)
    requires Accounted(g, path + [d], t) && d !in path
    ensures Accounted(g, path, Finish(t, d))
  {
    var more := path + [d];
    assert forall n :: n in more <==> n in path || n == d;
    assert forall i | 0 <= i < |path| :: more[i] == path[i];
    assert d !in t.finished;
    AppendDistinct(t.finished, d);
  }

  lemma FinishSettled(g: Graph, path: seq<Code>, node: Code, t: Tour)
    requires SettledSoFar(g, t.finished, t.marked) && node in g && forall a <- g[node] :: Followed(path + [node], a, t)
    ensures SettledSoFar(g, t.finished + [node], t.marked)
  {
    forall n, d | n in t.finished + [node] && Edge(g, n, d) ensures EdgeSettled(t.finished + [node], t.marked, n, d) {
      if n in t.finished {
        assert EdgeSettled(t.finished, t.marked, n, d);
        if Before(t.finished, d, n) { BeforeAppend(t.finished, node, d, n); }
      } else if d in t.finished {
        BeforeLast(t.finished, node, d);
      }
    }
  }

  lemma MarkOk(g: Graph, path: seq<Code>, d: Code, t: Tour)
    requires TourOk(g, path, t) && d in path && Edge(g, path[|path| - 1], d)
    ensures var r := t.(marked := t.marked + Stretch(path, d)); TourOk(g, path, r) && Followed(path, d, r)
  {
    var from := IndexOf(path, d);
    forall n | n in Stretch(path, d) ensures OnCycle(g, n) {
      BackEdgeCycle(g, path, from, n);
    }
    assert path[from..][0] == d && path[from..][|path| - 1 - from] == path[|path| - 1];
  }

  lemma {:induction false} FollowOk(g: Graph, path: seq<Code>, d: Code, t: Tour)
    requires IsGraph(g) && d in g && TourOk(g, path, t) && (path != [] ==> Edge(g, path[|path| - 1], d))
    ensures var r := Follow(g, path, d, t); TourOk(g, path, r) && Extends(t, r) && Followed(path, d, r)
    decreases Unfound(g, t), 1, 0
  {
    hide TourOk;
    if d !in t.found {
      FollowNewOk(g, path, d, t);
    } else if d in path {
      MarkOk(g, path, d, t);
    } else {
      FoundIsFinished(g, path, d, t);
    }
  }

  lemma {:induction false} FollowNewOk(g: Graph, path: seq<Code>, d: Code, t: Tour)
    requires IsGraph(g) && d in g && TourOk(g, path, t) && (path != [] ==> Edge(g, path[|path| - 1], d))
    requires d !in t.found
    ensures var r := Follow(g, path, d, t); TourOk(g, path, r) && Extends(t, r) && Followed(path, d, r)
    decreases Unfound(g, t), 0, 0
  {
    hide TourOk, Extends, Followed;
    var entered := Enter(t, d, path + [d]);
    var explored := Explore(g, path + [d], g[d], entered);
    FoundOne(g, t, d, path + [d]);
    EnterOk(g, path, d, t);
    ExploreOk(g, path + [d], g[d], entered);
    FinishOk(g, path, d, explored);
    ExtendsByOne(t, d, path, explored);
  }

  lemma FoundIsFinished(g: Graph, path: seq<Code>, d: Code, t: Tour)
    requires TourOk(g, path, t) && d in t.found && d !in path
    ensures d in t.finished
  {
  }

  lemma {:induction false} ExploreOk(g: Graph, path: seq<Code>, todo: set<Code>, t: Tour)
    requires IsGraph(g) && todo <= g.Keys && TourOk(g, path, t)
    requires path != [] ==> path[|path| - 1] in g && todo <= g[path[|path| - 1]]
    ensures var r := Explore(g, path, todo, t);
            TourOk(g, path, r) && Extends(t, r) && forall d <- todo :: Followed(path, d, r)
    decreases Unfound(g, t), 2, |todo|
  {
    if todo != {} {
      var d := Least(todo);
      var next := Follow(g, path, d, t);
      var r := Explore(g, path, todo - {d}, next);
      assert todo == {d} + (todo - {d});
      assert path != [] ==> Edge(g, path[|path| - 1], d);
      hide TourOk, Extends, Followed, IsGraph, Edge, Unfound;
      FollowOk(g, path, d, t);
      ExploreOk(g, path, todo - {d}, next);
      FollowedMore(path, d, next, r);
      ExtendsThrough(t, next, r);
    }
  }

  lemma NothingFoundOk(g: Graph)
    ensures TourOk(g, [], NOTHING_FOUND)
  {
  }

  lemma WholeSearch(g: Graph)
    requires IsGraph(g)
    ensures TourOk(g, [], Search(g)) && forall n <- g :: n in Search(g).finished
  {
    ExploreOk(g, [], g.Keys, NOTHING_FOUND);
    hide TourOk;
    var t := Search(g);
    forall n | n in g ensures n in t.finished { assert Followed([], n, t); }
  }

  /** The whole search finishes every node, settles every dependency, and marks nodes on cycles only. */
  lemma SearchSettles(g: Graph)
    requires IsGraph(g)
    ensures var t := Search(g);
            Settled(g, t.finished, t.marked) && AllOnCycles(g, t.marked) && t.found.Keys == g.Keys
  {
    WholeSearch(g);
    TourSettles(g, Search(g));
  }

  lemma TourSettles(g: Graph, t: Tour)
    requires TourOk(g, [], t) && forall n <- g :: n in t.finished
    ensures Settled(g, t.finished, t.marked) && AllOnCycles(g, t.marked) && t.found.Keys == g.Keys
  {
  }

  // ---------------------------------------------------------------- which nodes are marked

  /** In the search tree, a node at or below n depends on n or a node above it. */
  ghost predicate Returns(g: Graph, found: map<Code, seq<Code>>, n: Code) {
    n in found && exists u, a :: ReturnsBy(g, found, n, u, a)
  }

  ghost predicate ReturnsBy(g: Graph, found: map<Code, seq<Code>>, n: Code, u: Code, a: Code)
    requires n in found
  {
    u in found && found[n] <= found[u] && a in found[n] && Edge(g, u, a)
  }

  lemma ReturnsMore(g: Graph, t: Tour, r: Tour, n: Code)
    requires Returns(g, t.found, n) && Extends(t, r)
    ensures Returns(g, r.found, n)
  {
    var u, a :| ReturnsBy(g, t.found, n, u, a);
    assert ReturnsBy(g, r.found, n, u, a);
  }

  /** The marks beyond those of `t` are on nodes the search came back to. */
  ghost predicate MarksReturn(g: Graph, t: Tour, r: Tour) {
    forall n <- r.marked :: n in t.marked || Returns(g, r.found, n)
  }

  lemma StretchReturns(g: Graph, path: seq<Code>, d: Code, t: Tour, n: Code)
    requires OnPath(path, t) && d in path && Edge(g, path[|path| - 1], d) && n in Stretch(path, d)
    ensures Returns(g, t.found, n)
  {
    var from := IndexOf(path, d);
    var i :| 0 <= i < |path[from..]| && path[from..][i] == n;
    assert path[from + i] == n && path[|path| - 1] in t.found;
    assert path[..from + i + 1][from] == d;
    assert path[..|path|] == path;
    assert ReturnsBy(g, t.found, n, path[|path| - 1], d);
  }

  lemma {:induction false} FollowReturns(g: Graph, path: seq<Code>, d: Code, t: Tour)
    requires IsGraph(g) && d in g && TourOk(g, path, t) && (path != [] ==> Edge(g, path[|path| - 1], d))
    ensures MarksReturn(g, t, Follow(g, path, d, t))
    decreases Unfound(g, t), 0, 0
  {
    if d !in t.found {
      FoundOne(g, t, d, path + [d]);
      EnterOk(g, path, d, t);
      ExploreReturns(g, path + [d], g[d], Enter(t, d, path + [d]));
    } else if d in path {
      forall n | n in Stretch(path, d) ensures Returns(g, t.found, n) { StretchReturns(g, path, d, t, n); }
    }
  }

  lemma {:induction false} ExploreReturns(g: Graph, path: seq<Code>, todo: set<Code>, t: Tour)
    requires IsGraph(g) && todo <= g.Keys && TourOk(g, path, t)
    requires path != [] ==> path[|path| - 1] in g && todo <= g[path[|path| - 1]]
    ensures MarksReturn(g, t, Explore(g, path, todo, t))
    decreases Unfound(g, t), 1, |todo|
  {
    if todo != {} {
      var d := Least(todo);
      var next := Follow(g, path, d, t);
      assert todo == {d} + (todo - {d});
      assert path != [] ==> Edge(g, path[|path| - 1], d);
      hide TourOk, Returns, IsGraph;
      FollowOk(g, path, d, t);
      FollowReturns(g, path, d, t);
      ExploreOk(g, path, todo - {d}, next);
      ExploreReturns(g, path, todo - {d}, next);
      forall n | n in next.marked && n !in t.marked ensures Returns(g, Explore(g, path, todo - {d}, next).found, n) {
        ReturnsMore(g, next, Explore(g, path, todo - {d}, next), n);
      }
    }
  }

  /** Every dependency of u on its own path has had its stretch marked. */
  ghost predicate Closed(g: Graph, t: Tour, u: Code) {
    u in t.found && forall a | Edge(g, u, a) && a in t.found[u] :: Stretch(t.found[u], a) <= t.marked
  }

  /** So it is for all nodes found since `t`. */
  ghost predicate ClosedSince(g: Graph, t: Tour, r: Tour) {
    forall u <- r.found :: u in t.found || Closed(g, r, u)
  }

  ghost predicate StretchMarked(path: seq<Code>, d: Code, r: Tour) { d in path ==> Stretch(path, d) <= r.marked }

  lemma {:induction false} FollowCloses(g: Graph, path: seq<Code>, d: Code, t: Tour)
    requires IsGraph(g) && d in g && TourOk(g, path, t) && (path != [] ==> Edge(g, path[|path| - 1], d))
    ensures ClosedSince(g, t, Follow(g, path, d, t)) && StretchMarked(path, d, Follow(g, path, d, t))
    decreases Unfound(g, t), 1, 0
  {
    hide TourOk;
    if d !in t.found {
      FollowNewCloses(g, path, d, t);
      OnPathIsFound(g, path, t, d);
    }
  }

  lemma OnPathIsFound(g: Graph, path: seq<Code>, t: Tour, d: Code)
    requires TourOk(g, path, t) && d !in t.found
    ensures d !in path
  {
  }

  lemma {:induction false} FollowNewCloses(g: Graph, path: seq<Code>, d: Code, t: Tour)
    requires IsGraph(g) && d in g && TourOk(g, path, t) && (path != [] ==> Edge(g, path[|path| - 1], d))
    requires d !in t.found
    ensures ClosedSince(g, t, Follow(g, path, d, t))
    decreases Unfound(g, t), 0, 0
  {
    hide TourOk, Closed, ClosedSince, StretchMarked;
    var entered := Enter(t, d, path + [d]);
    var r := Explore(g, path + [d], g[d], entered);
    FoundOne(g, t, d, path + [d]);
    EnterOk(g, path, d, t);
    ExploreOk(g, path + [d], g[d], entered);
    ExploreCloses(g, path + [d], g[d], entered);
    FinishCloses(g, path, d, t, r);
  }

  lemma FinishCloses(g: Graph, path: seq<Code>, d: Code, t: Tour, r: Tour)
    requires d in g && Extends(Enter(t, d, path + [d]), r) && ClosedSince(g, Enter(t, d, path + [d]), r)
    requires forall a <- g[d] :: StretchMarked(path + [d], a, r)
    ensures ClosedSince(g, t, Finish(r, d))
  {
    assert d in Enter(t, d, path + [d]).found;
    assert r.found[d] == path + [d];
    forall u | u in r.found && u !in t.found ensures Closed(g, Finish(r, d), u) {
      if u == d {
        forall a | Edge(g, d, a) && a in r.found[d] ensures Stretch(r.found[d], a) <= r.marked {
          assert StretchMarked(path + [d], a, r);
        }
      } else {
        assert Closed(g, r, u);
      }
    }
  }

  lemma ClosedMore(g: Graph, t: Tour, r: Tour, u: Code)
    requires Closed(g, t, u) && Extends(t, r)
    ensures Closed(g, r, u)
  {
  }

  lemma {:induction false} ExploreCloses(g: Graph, path: seq<Code>, todo: set<Code>, t: Tour)
    requires IsGraph(g) && todo <= g.Keys && TourOk(g, path, t)
    requires path != [] ==> path[|path| - 1] in g && todo <= g[path[|path| - 1]]
    ensures ClosedSince(g, t, Explore(g, path, todo, t))
    ensures forall d <- todo :: StretchMarked(path, d, Explore(g, path, todo, t))
    decreases Unfound(g, t), 2, |todo|
  {
    if todo != {} {
      var d := Least(todo);
      var next := Follow(g, path, d, t);
      assert todo == {d} + (todo - {d});
      assert path != [] ==> Edge(g, path[|path| - 1], d);
      hide TourOk, Closed, StretchMarked, IsGraph;
      FollowOk(g, path, d, t);
      FollowCloses(g, path, d, t);
      ExploreOk(g, path, todo - {d}, next);
      ExploreCloses(g, path, todo - {d}, next);
      var r := Explore(g, path, todo - {d}, next);
      hide Followed;
      forall u | u in r.found && u !in t.found ensures Closed(g, r, u) {
        if u in next.found { ClosedMore(g, next, r, u); }
      }
    }
  }

  lemma FirstOccurrence(s: seq<Code>, x: Code, i: nat)
    requires i < |s| && s[i] == x
    ensures IndexOf(s, x) <= i
  {
    if s[0] != x { FirstOccurrence(s[1..], x, i - 1); }
  }

  /** A node is marked exactly when, in the search tree, it or a node below it depends on it or on a
      node above it. A node on a cycle that is closed only through branches searched earlier is not. */
  lemma MarkedIffReturns(g: Graph, n: Code)
    requires IsGraph(g)
    ensures n in Search(g).marked <==> Returns(g, Search(g).found, n)
  {
    WholeSearch(g);
    NothingFoundOk(g);
    ExploreReturns(g, [], g.Keys, NOTHING_FOUND);
    ExploreCloses(g, [], g.Keys, NOTHING_FOUND);
    assert TourOk(g, [], Search(g)) ==> Accounted(g, [], Search(g));
    hide TourOk, Accounted, ClosedSince, Returns, Explore;
    if Returns(g, Search(g).found, n) { ReturnedIsMarked(g, Search(g), n); }
  }

  lemma ReturnedIsMarked(g: Graph, t: Tour, n: Code)
    requires Accounted(g, [], t) && ClosedSince(g, NOTHING_FOUND, t) && Returns(g, t.found, n)
    ensures n in t.marked
  {
    var u, a :| ReturnsBy(g, t.found, n, u, a);
    assert Closed(g, t, u);
    var own, whole := t.found[n], t.found[u];
    assert EndsIn(own, n);
    hide Accounted, ClosedSince, Returns, Closed;
    EndInStretch(own, whole, n, a);
  }

  /** The end of a path is in the stretch that a node of the path closes on a longer path. */
  lemma EndInStretch(own: seq<Code>, whole: seq<Code>, n: Code, a: Code)
    requires EndsIn(own, n) && own <= whole && a in own
    ensures a in whole && n in Stretch(whole, a)
  {
    var i :| 0 <= i < |own| && own[i] == a;
    assert whole[i] == a;
    FirstOccurrence(whole, a, i);
    var from := IndexOf(whole, a);
    assert whole[from..][|own| - 1 - from] == n;
  }

  // ---------------------------------------------------------------- a node that is not marked

  /** 1 depends on 2 and 3, 2 on 1, and 3 on 2. */
  ghost predicate Detour(g: Graph) { g.Keys == {1, 2, 3} && g[1] == {2, 3} && g[2] == {1} && g[3] == {2} }

  lemma FewLeft()
    ensures {1, 2, 3} - {1} == {2, 3} && {2, 3} - {2} == {3}
    ensures forall d: Code :: {d} - {d} == {}
  {
  }

  lemma DetourFromTwo(g: Graph, t: Tour)
    requires Detour(g) && t == Tour(map[1 := [1], 2 := [1, 2]], [], {})
    ensures Explore(g, [1, 2], {1}, t) == t.(marked := {1, 2})
  {
    ExploreLeast(g, [1, 2], {1}, 1, t);
    FewLeft();
    assert IndexOf([1, 2], 1) == 0 && [1, 2][0..] == [1, 2];
    assert Stretch([1, 2], 1) == {1, 2};
    ExploreNothing(g, [1, 2], t.(marked := {1, 2}));
  }

  lemma DetourFromThree(g: Graph, t: Tour)
    requires Detour(g) && 2 in t.found
    ensures Explore(g, [1, 3], {2}, t) == t
  {
    ExploreLeast(g, [1, 3], {2}, 2, t);
    FewLeft();
    ExploreNothing(g, [1, 3], t);
  }

  lemma FollowTwo(g: Graph, t: Tour)
    requires Detour(g) && t == Tour(map[1 := [1]], [], {})
    ensures Follow(g, [1], 2, t) == Tour(map[1 := [1], 2 := [1, 2]], [2], {1, 2})
  {
    hide Explore;
    assert [1] + [2] == [1, 2] && Enter(t, 2, [1, 2]) == Tour(map[1 := [1], 2 := [1, 2]], [], {});
    DetourFromTwo(g, Enter(t, 2, [1, 2]));
  }

  lemma FollowThree(g: Graph, t: Tour)
    requires Detour(g) && t == Tour(map[1 := [1], 2 := [1, 2]], [2], {1, 2})
    ensures Follow(g, [1], 3, t) == Tour(map[1 := [1], 2 := [1, 2], 3 := [1, 3]], [2, 3], {1, 2})
  {
    hide Explore;
    assert [1] + [3] == [1, 3];
    DetourFromThree(g, Enter(t, 3, [1, 3]));
  }

  lemma DetourFromOne(g: Graph, t: Tour)
    requires Detour(g) && t == Tour(map[1 := [1]], [], {})
    ensures Explore(g, [1], {2, 3}, t) == Tour(map[1 := [1], 2 := [1, 2], 3 := [1, 3]], [2, 3], {1, 2})
  {
    var two := Tour(map[1 := [1], 2 := [1, 2]], [2], {1, 2});
    ExploreLeast(g, [1], {2, 3}, 2, t);
    ExploreLeast(g, [1], {3}, 3, two);
    FewLeft();
    hide Explore, Follow;
    FollowTwo(g, t);
    FollowThree(g, two);
    ExploreNothing(g, [1], Follow(g, [1], 3, two));
  }

  lemma FollowOne(g: Graph, t: Tour)
    requires Detour(g) && t == NOTHING_FOUND
    ensures Follow(g, [], 1, t) == Tour(map[1 := [1], 2 := [1, 2], 3 := [1, 3]], [2, 3, 1], {1, 2})
  {
    hide Explore;
    assert [] + [1] == [1] && Enter(t, 1, [1]) == Tour(map[1 := [1]], [], {});
    DetourFromOne(g, Enter(t, 1, [1]));
  }

  lemma FollowLater(g: Graph, t: Tour, d: Code)
    requires Detour(g) && d in g && d in t.found
    ensures Follow(g, [], d, t) == t
  {
  }

  lemma NothingLater(g: Graph, t: Tour)
    requires Detour(g) && 2 in t.found && 3 in t.found
    ensures Explore(g, [], {2, 3}, t) == t
  {
    FewLeft();
    ExploreLeast(g, [], {2, 3}, 2, t);
    ExploreLeast(g, [], {3}, 3, t);
    hide Explore;
    FollowLater(g, t, 2);
    FollowLater(g, t, 3);
    ExploreNothing(g, [], t);
  }

  lemma SearchOfDetour(g: Graph)
    requires Detour(g)
    ensures Search(g).marked == {1, 2}
  {
    FewLeft();
    ExploreLeast(g, [], {1, 2, 3}, 1, NOTHING_FOUND);
    hide Explore, Follow;
    FollowOne(g, NOTHING_FOUND);
    NothingLater(g, Follow(g, [], 1, NOTHING_FOUND));
  }

  lemma DetourIsCycle(g: Graph)
    requires Detour(g)
    ensures OnCycle(g, 3)
  {
    assert CycleThrough(g, 3, [3, 2, 1, 3]);
  }

  /** On this graph node 3 is on a cycle and not marked. */
  lemma DetourMissesThree(g: Graph)
    requires Detour(g)
    ensures IsGraph(g) && OnCycle(g, 3) && 3 !in Search(g).marked
  {
    hide Search, OnCycle;
    DetourIsCycle(g);
    SearchOfDetour(g);
  }
}
