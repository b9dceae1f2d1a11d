/** Layering an acyclic dependency graph, and why the layering is the shortest there is. */
module Layers {
  import opened Forest
  import opened Cycles

  /** A finishing order in which every eligible node comes after its eligible dependencies. */
  ghost predicate Descending(g: Graph, eligible: set<Code>, order: seq<Code>) {
    && Distinct(order)
    && (forall n <- eligible :: n in g && n in order)
    && (forall n, d {:trigger Edge(g, n, d)} | n in eligible && d in eligible && Edge(g, n, d) :: Before(order, d, n))
  }

  ghost predicate PlacedBelow(stages: seq<set<Code>>, k: nat, d: Code) {
    exists j :: 0 <= j < k && j < |stages| && d in stages[j]
  }

  ghost predicate RestsOn(g: Graph, below: set<Code>, n: Code) {
    exists d :: d in below && Edge(g, n, d)
  }

  /** What every finished stage satisfies. */
  ghost predicate StageOk(g: Graph, eligible: set<Code>, stages: seq<set<Code>>, k: nat)
    requires k < |stages|
  {
    && stages[k] != {} && stages[k] <= eligible
    && (forall n <- stages[k] :: !PlacedBelow(stages, k, n))
    && (forall n, d {:trigger Edge(g, n, d)} | n in stages[k] && d in eligible && Edge(g, n, d) ::
        PlacedBelow(stages, k, d))
    && (k > 0 ==> forall n <- stages[k] :: RestsOn(g, stages[k - 1], n))
  }

  ghost predicate StagesOk(g: Graph, eligible: set<Code>, stages: seq<set<Code>>) {
    forall k: nat | k < |stages| :: StageOk(g, eligible, stages, k)
  }

  /** The layering: sound stages that hold every eligible node. */
  ghost predicate Layered(g: Graph, eligible: set<Code>, stages: seq<set<Code>>) {
    StagesOk(g, eligible, stages) && forall n <- eligible :: PlacedBelow(stages, |stages|, n)
  }

  /** What is left to place, with the dependencies that are left. */
  ghost predicate Remains(g: Graph, eligible: set<Code>, stages: seq<set<Code>>, remaining: map<Code, set<Code>>) {
    && (forall n {:trigger n in remaining} :: n in remaining <==> n in eligible && !PlacedBelow(stages, |stages|, n))
    && (forall n, d {:trigger d in remaining[n]} | n in remaining ::
          d in remaining[n] <==> d in eligible && Edge(g, n, d) && !PlacedBelow(stages, |stages|, d))
    && (stages != [] ==> forall n <- remaining :: remaining[n] == {} ==> RestsOn(g, stages[|stages| - 1], n))
  }

  lemma NothingBeforeFirst(order: seq<Code>, d: Code)
    requires order != [] && Distinct(order)
    ensures !Before(order, d, order[0])
  {
  }

  lemma {:induction false} LeastInOrder(order: seq<Code>, s: set<Code>) returns (least: Code)
    requires s != {} && forall n <- s :: n in order
    ensures least in s && forall d :: Distinct(order) && Before(order, d, least) ==> d !in s
    decreases |order|
  {
    if order[0] in s {
      least := order[0];
      forall d ensures Distinct(order) && Before(order, d, least) ==> d !in s {
        if Distinct(order) { NothingBeforeFirst(order, d); }
      }
    } else {
      forall n | n in s ensures n in order[1..] {
        assert order == [order[0]] + order[1..];
      }
      least := LeastInOrder(order[1..], s);
      forall d | Before(order, d, least) && Distinct(order) ensures d !in s {
        var i, j :| 0 <= i < j < |order| && order[i] == d && order[j] == least;
        if i > 0 {
          assert order[1..][i - 1] == d && order[1..][j - 1] == least;
          assert Before(order[1..], d, least);
        }
      }
    }
  }

  /** While anything is left, something is ready: the defensive exit is dead code. */
  lemma SomeReady(g: Graph, eligible: set<Code>, order: seq<Code>, stages: seq<set<Code>>,
                  remaining: map<Code, set<Code>>)
      returns (least: Code)
    requires Descending(g, eligible, order) && Remains(g, eligible, stages, remaining) && remaining != map[]
    ensures least in remaining && remaining[least] == {}
  {
    forall n | n in remaining.Keys ensures n in order {
      assert n in remaining;
    }
    least := LeastInOrder(order, remaining.Keys);
    assert least in remaining;
    assert forall d :: d in remaining[least] ==> d in eligible && Edge(g, least, d) && d in remaining;
    assert remaining[least] == {};
  }

  lemma PlacedGrows(stages: seq<set<Code>>, ready: set<Code>, n: Code)
    ensures PlacedBelow(stages + [ready], |stages| + 1, n) <==> PlacedBelow(stages, |stages|, n) || n in ready
    ensures forall k | 0 <= k <= |stages| :: PlacedBelow(stages + [ready], k, n) <==> PlacedBelow(stages, k, n)
  {
    var more := stages + [ready];
    if n in ready { assert n in more[|stages|]; }
    if PlacedBelow(stages, |stages|, n) {
      var j :| 0 <= j < |stages| && n in stages[j];
      assert n in more[j];
    }
    forall k | 0 <= k <= |stages| ensures PlacedBelow(more, k, n) <==> PlacedBelow(stages, k, n) {
      if PlacedBelow(stages, k, n) {
        var j :| 0 <= j < k && j < |stages| && n in stages[j];
        assert n in more[j];
      }
      if PlacedBelow(more, k, n) {
        var j :| 0 <= j < k && j < |more| && n in more[j];
        assert n in stages[j];
      }
    }
  }

  lemma StageAdded(g: Graph, eligible: set<Code>, stages: seq<set<Code>>, remaining: map<Code, set<Code>>,
                   ready: set<Code>)
    requires StagesOk(g, eligible, stages) && Remains(g, eligible, stages, remaining) && ready != {}
    requires forall n :: n in ready <==> n in remaining && remaining[n] == {}
    ensures StagesOk(g, eligible, stages + [ready])
  {
    var more := stages + [ready];
    forall k: nat | k < |more| ensures StageOk(g, eligible, more, k) {
      forall n ensures PlacedBelow(more, k, n) <==> PlacedBelow(stages, k, n) { PlacedGrows(stages, ready, n); }
      if k < |stages| {
        assert StageOk(g, eligible, stages, k);
        assert more[k] == stages[k];
        assert k > 0 ==> more[k - 1] == stages[k - 1];
      } else {
        assert more[k] == ready;
        forall n, d | n in ready && d in eligible && Edge(g, n, d) ensures PlacedBelow(stages, k, d) {
          assert d !in remaining[n];
        }
      }
    }
  }

  lemma RemainsAfter(g: Graph, eligible: set<Code>, stages: seq<set<Code>>, remaining: map<Code, set<Code>>,
                     ready: set<Code>, after: map<Code, set<Code>>)
    requires Remains(g, eligible, stages, remaining)
    requires forall n :: n in ready <==> n in remaining && remaining[n] == {}
    requires forall n {:trigger n in after} :: n in after <==> n in remaining && n !in ready
    requires forall n <- after :: after[n] == remaining[n] - ready
    ensures Remains(g, eligible, stages + [ready], after)
  {
    var more := stages + [ready];
    forall n ensures n in after <==> n in eligible && !PlacedBelow(more, |more|, n) {
      PlacedGrows(stages, ready, n);
    }
    forall n, d | n in after
      ensures d in after[n] <==> d in eligible && Edge(g, n, d) && !PlacedBelow(more, |more|, d)
    {
      PlacedGrows(stages, ready, d);
      assert d in remaining[n] <==> d in eligible && Edge(g, n, d) && !PlacedBelow(stages, |stages|, d);
    }
    forall n | n in after && after[n] == {} ensures RestsOn(g, more[|more| - 1], n) {
      var d :| d in remaining[n];
      assert d in ready && Edge(g, n, d);
    }
  }

  /** Take off the nodes without remaining dependencies, stage by stage. */
  method Layer(g: Graph, eligible: set<Code>, ghost order: seq<Code>) returns (stages: seq<set<Code>>)
    requires IsGraph(g) && Descending(g, eligible, order)
    ensures Layered(g, eligible, stages)
  {
    var remaining := map n | n in eligible :: g[n] * eligible;
    stages := [];
    while remaining != map[]
      invariant StagesOk(g, eligible, stages) && Remains(g, eligible, stages, remaining)
      decreases |remaining|
    {
      ghost var least := SomeReady(g, eligible, order, stages, remaining);
      var ready := set n | n in remaining && remaining[n] == {};
      assert least in ready;
      StageAdded(g, eligible, stages, remaining, ready);
      var after := map n | n in remaining && n !in ready :: remaining[n] - ready;
      RemainsAfter(g, eligible, stages, remaining, ready, after);
      assert after.Keys == remaining.Keys - ready && ready <= remaining.Keys;
      stages := stages + [ready];
      remaining := after;
    }
    forall n | n in eligible ensures PlacedBelow(stages, |stages|, n) {
      assert n !in remaining;
    }
  }

  // ---------------------------------------------------------------- the shortest schedule

  /** A schedule that puts every eligible node after its eligible dependencies. */
  ghost predicate Respects(g: Graph, eligible: set<Code>, schedule: map<Code, nat>) {
    && (forall n <- eligible :: n in schedule)
    && (forall n, d {:trigger Edge(g, n, d)} | n in eligible && d in eligible && Edge(g, n, d) ::
        schedule[d] < schedule[n])
  }

  /** No schedule reaches a node before its stage. */
  lemma {:induction false} StageIsEarliest(g: Graph, eligible: set<Code>, stages: seq<set<Code>>,
                                           schedule: map<Code, nat>, k: nat, n: Code)
    requires Layered(g, eligible, stages) && Respects(g, eligible, schedule)
    requires k < |stages| && n in stages[k]
    ensures n in eligible && schedule[n] >= k
    decreases k
  {
    assert StageOk(g, eligible, stages, k);
    if k > 0 {
      assert RestsOn(g, stages[k - 1], n);
      var d :| d in stages[k - 1] && Edge(g, n, d);
      StageIsEarliest(g, eligible, stages, schedule, k - 1, d);
    }
  }

  /** A chain of eligible dependencies, as long as the node's stage is high. */
  lemma {:induction false} LongestChain(g: Graph, eligible: set<Code>, stages: seq<set<Code>>, k: nat, n: Code)
      returns (chain: seq<Code>)
    requires Layered(g, eligible, stages) && k < |stages| && n in stages[k]
    ensures IsWalk(g, chain) && chain[0] == n && |chain| == k + 1 && forall x <- chain :: x in eligible
    decreases k
  {
    assert StageOk(g, eligible, stages, k);
    if k == 0 {
      chain := [n];
    } else {
      assert RestsOn(g, stages[k - 1], n);
      var d :| d in stages[k - 1] && Edge(g, n, d);
      var rest := LongestChain(g, eligible, stages, k - 1, d);
      chain := [n] + rest;
    }
  }

  /** And no chain of eligible dependencies is longer. */
  lemma {:induction false} NoLongerChain(g: Graph, eligible: set<Code>, stages: seq<set<Code>>, k: nat,
                                         chain: seq<Code>)
    requires Layered(g, eligible, stages) && k < |stages|
    requires IsWalk(g, chain) && chain[0] in stages[k] && forall x <- chain :: x in eligible
    ensures |chain| <= k + 1
    decreases k
  {
    if |chain| > 1 {
      assert StageOk(g, eligible, stages, k);
      assert Edge(g, chain[0], chain[1]) && chain[1] in eligible;
      assert PlacedBelow(stages, k, chain[1]);
      var j :| 0 <= j < k && j < |stages| && chain[1] in stages[j];
      forall x | x in chain[1..] ensures x in eligible {
        assert x in chain;
      }
      NoLongerChain(g, eligible, stages, j, chain[1..]);
    }
  }
}
