/** What is blocked, and how blocks spread: through a bundle, and to whatever depends on it. */
module Blocks {
  import opened Forest
  import opened Cycles
  import opened Requirements

  /** Every member of a blocked bundle's dependents is blocked. */
  ghost predicate SpreadClosed(g: Graph, b: set<Code>) {
    forall n, d {:trigger Edge(g, n, d)} | Edge(g, n, d) && d in b :: n in b
  }

  /** The bundles with a blocked member. */
  function BlockedBundles(anchor: map<Code, Code>, blocked: set<Code>): set<Code> {
    set c | c in anchor && c in blocked :: anchor[c]
  }

  /** Blocking one member blocks the bundle. */
  ghost predicate WholeBundles(anchor: map<Code, Code>, blocked: set<Code>) {
    forall c <- anchor :: anchor[c] in BlockedBundles(anchor, blocked) ==> c in blocked
  }

  /** The blocked bundles lie within every set that is closed under spreading and held the blocks
      they spread from. */
  ghost predicate SpreadFrom(g: Graph, start: set<Code>, b: set<Code>) {
    forall c: set<Code> {:trigger SpreadClosed(g, c)} :: SpreadClosed(g, c) && start <= c ==> b <= c
  }

  /** Why a block spreads to a course: through its bundle when some member was blocked already, and
      otherwise from what the bundle depends on. */
  function SpreadReason(anchor: map<Code, Code>, blocked: set<Code>, c: Code): Reason
    requires c in anchor
  {
    if anchor[c] in BlockedBundles(anchor, blocked) then BlockedCorequisite else BlockedPrerequisite
  }

  /** The one blocker of a course to which a block spread. */
  ghost predicate SpreadBlocker(anchor: map<Code, Code>, before: set<Code>, after: set<Code>, b: Blocker) {
    && b.code in anchor && b.code in after && b.code !in before
    && b == Plain(b.code, SpreadReason(anchor, before, b.code))
  }

  /** Exactly the courses that became blocked are reported, each once. */
  ghost predicate Reported(anchor: map<Code, Code>, before: set<Code>, after: set<Code>, known: set<Blocker>,
                           blockers: set<Blocker>) {
    && before <= after <= before + anchor.Keys
    && forall b {:trigger b in blockers} :: b in blockers <==> b in known || SpreadBlocker(anchor, before, after, b)
  }

  /** Reports of two stretches of spreading join: once bundles are whole, blocks reach new courses only
      from what their bundles depend on. */
  lemma ReportedOn(anchor: map<Code, Code>, start: set<Code>, before: set<Code>, after: set<Code>,
                   known: set<Blocker>, middle: set<Blocker>, blockers: set<Blocker>)
    requires Reported(anchor, start, before, known, middle) && Reported(anchor, before, after, middle, blockers)
    requires before == start || WholeBundles(anchor, before)
    ensures Reported(anchor, start, after, known, blockers)
  {
    assert BlockedBundles(anchor, start) <= BlockedBundles(anchor, before);
    forall c | c in anchor && c !in before ensures SpreadReason(anchor, before, c) == SpreadReason(anchor, start, c) {}
    forall b ensures SpreadBlocker(anchor, start, after, b)
                     <==> SpreadBlocker(anchor, start, before, b) || SpreadBlocker(anchor, before, after, b) {}
  }

  /** Exactly the codes that were not blocked before have been reported, for the reason given. */
  ghost predicate PlainAdded(codes: set<Code>, before: set<Code>, reason: Reason, known: set<Blocker>,
                             blockers: set<Blocker>) {
    forall b {:trigger b in blockers} :: b in blockers <==>
      b in known || (b == Plain(b.code, reason) && b.code in codes && b.code !in before)
  }

  lemma PlainAddedMore(codes: set<Code>, x: Code, before: set<Code>, reason: Reason, known: set<Blocker>,
                       blockers: set<Blocker>)
    requires PlainAdded(codes, before, reason, known, blockers)
    ensures x in before + codes ==> PlainAdded(codes + {x}, before, reason, known, blockers)
    ensures x !in before + codes ==> PlainAdded(codes + {x}, before, reason, known, blockers + {Plain(x, reason)})
  {
  }

  lemma AddedOne(before: set<Code>, seen: set<Code>, x: Code)
    ensures before + (seen + {x}) == if x in before + seen then before + seen else before + seen + {x}
    ensures seen + {x} <= before <==> seen <= before && x in before
  {
  }

  lemma AddedSome(before: set<Code>, seen: set<Code>)
    ensures before + seen == before <==> seen <= before
  {
    if before + seen == before { assert seen <= before + seen; }
  }

  lemma OneFewer(all: set<Code>, remaining: set<Code>, seen: set<Code>, x: Code)
    requires remaining + seen == all && x in remaining
    ensures (remaining - {x}) + (seen + {x}) == all
  {
  }

  class Ledger {
    var blocked: set<Code>
    var blockers: set<Blocker>

    ghost predicate Valid()
      reads this
    {
      blocked == {} <==> blockers == {}
    }

    constructor ()
      ensures Valid() && blocked == {} && blockers == {}
    {
      blocked, blockers := {}, {};
    }

    /** Block one code, with its reason. */
    method Block(code: Code, blocker: Blocker)
      modifies this
      ensures Valid() && blocked == old(blocked) + {code} && blockers == old(blockers) + {blocker}
    {
      blocked := blocked + {code};
      blockers := blockers + {blocker};
      assert code in blocked && blocker in blockers;
    }

    /** Record codes to block together with the blockers that say why. */
    method Add(codes: set<Code>, reasons: set<Blocker>)
      requires Valid() && (codes == {} <==> reasons == {})
      modifies this
      ensures Valid() && blocked == old(blocked) + codes && blockers == old(blockers) + reasons
    {
      blocked := blocked + codes;
      blockers := blockers + reasons;
    }

    /** Block a code unless it is blocked already. */
    method BlockOne(code: Code, reason: Reason) returns (added: bool)
      requires Valid()
      modifies this
      ensures Valid() && blocked == old(blocked) + {code} && (added <==> code !in old(blocked))
      ensures blockers == if added then old(blockers) + {Plain(code, reason)} else old(blockers)
    {
      added := code !in blocked;
      if added { Block(code, Plain(code, reason)); }
    }

    /** Block every code of a set not blocked already. */
    method BlockAll(codes: set<Code>, reason: Reason) returns (changed: bool)
      requires Valid()
      modifies this
      ensures Valid() && blocked == old(blocked) + codes && (changed <==> blocked != old(blocked))
      ensures PlainAdded(codes, old(blocked), reason, old(blockers), blockers)
    {
      changed := false;
      var remaining := codes;
      ghost var seen, before, known := {}, blocked, blockers;
      while remaining != {}
        invariant Valid() && remaining + seen == codes && (changed <==> !(seen <= before))
        invariant blocked == before + seen && PlainAdded(seen, before, reason, known, blockers)
        decreases |remaining|
      {
        var code :| code in remaining;
        PlainAddedMore(seen, code, before, reason, known, blockers);
        AddedOne(before, seen, code);
        var added := BlockOne(code, reason);
        changed := changed || added;
        OneFewer(codes, remaining, seen, code);
        seen, remaining := seen + {code}, remaining - {code};
      }
      AddedSome(before, seen);
    }

    /** One round: the rest of each blocked bundle, then the bundles that depend on one. */
    method Round(anchor: map<Code, Code>, edges: Graph) returns (changed: bool)
      requires Valid() && forall c <- anchor :: anchor[c] in edges
      modifies this
      ensures Valid() && Reported(anchor, old(blocked), blocked, old(blockers), blockers)
      ensures changed <==> blocked != old(blocked)
      ensures WholeBundles(anchor, blocked)
      ensures forall c <- anchor :: c in blocked && c !in old(blocked) ==>
                anchor[c] in BlockedBundles(anchor, old(blocked))
                || exists d :: d in BlockedBundles(anchor, old(blocked)) && d in edges[anchor[c]]
      ensures !changed ==> forall c <- anchor, d | d in edges[anchor[c]] && d in BlockedBundles(anchor, blocked) ::
              c in blocked
    {
      var roots := BlockedBundles(anchor, blocked);
      var members := set c | c in anchor && anchor[c] in roots;
      ghost var before, known := blocked, blockers;
      var first := BlockAll(members, BlockedCorequisite);
      ghost var middle := blockers;
      var dependents := set c | c in anchor && anchor[c] !in roots && edges[anchor[c]] * roots != {};
      var second := BlockAll(dependents, BlockedPrerequisite);
      changed := first || second;
      RoundReports(anchor, before, members, dependents, known, middle, blockers);
      RoundIsWhole(anchor, edges, before, members, dependents);
      forall c | c in anchor && c in blocked && c !in before
        ensures anchor[c] in roots || exists d :: d in roots && d in edges[anchor[c]]
      {
        if c in dependents {
          var d :| d in edges[anchor[c]] * roots;
        }
      }
      if !changed {
        forall c, d | c in anchor && d in edges[anchor[c]] && d in roots ensures c in blocked {
          assert d in edges[anchor[c]] * roots;
          assert c in members || c in dependents;
        }
      }
    }

    /** Spread blocks until nothing changes: the least set closed under bundles and dependents, each
        course reported once and for its one reason. */
    method Propagate(anchor: map<Code, Code>, edges: Graph)
      requires Valid() && IsGraph(edges) && forall c <- anchor :: anchor[c] in edges
      requires forall n <- edges :: n in anchor && anchor[n] == n
      modifies this
      ensures Valid() && Reported(anchor, old(blocked), blocked, old(blockers), blockers)
      ensures WholeBundles(anchor, blocked)
      ensures SpreadClosed(edges, BlockedBundles(anchor, blocked))
      ensures BlockedBundles(anchor, old(blocked)) <= BlockedBundles(anchor, blocked)
      ensures SpreadFrom(edges, BlockedBundles(anchor, old(blocked)), BlockedBundles(anchor, blocked))
    {
      var changed := true;
      while changed
        invariant Valid() && Reported(anchor, old(blocked), blocked, old(blockers), blockers)
        invariant blocked == old(blocked) || WholeBundles(anchor, blocked)
        invariant SpreadFrom(edges, BlockedBundles(anchor, old(blocked)), BlockedBundles(anchor, blocked))
        invariant !changed ==> WholeBundles(anchor, blocked)
        invariant !changed ==> forall c <- anchor, d | d in edges[anchor[c]] && d in BlockedBundles(anchor, blocked) ::
                  c in blocked
        decreases |anchor.Keys - blocked|, changed
      {
        ghost var before, middle := blocked, blockers;
        changed := Round(anchor, edges);
        RoundSpreads(edges, anchor, BlockedBundles(anchor, old(blocked)), before, blocked);
        ReportedOn(anchor, old(blocked), before, blocked, old(blockers), middle, blockers);
        if changed {
          FewerLeft(anchor.Keys, before, blocked);
        } else {
          assert blocked == before;
        }
      }
      forall n, d | Edge(edges, n, d) && d in BlockedBundles(anchor, blocked)
        ensures n in BlockedBundles(anchor, blocked)
      {
        assert n in anchor && anchor[n] == n;
        assert n in blocked;
      }
    }
  }

  /** The two halves of a round report every course they block, for different reasons. */
  lemma RoundReports(anchor: map<Code, Code>, before: set<Code>, members: set<Code>, dependents: set<Code>,
                     known: set<Blocker>, middle: set<Blocker>, blockers: set<Blocker>)
    requires members == set c | c in anchor && anchor[c] in BlockedBundles(anchor, before)
    requires dependents <= anchor.Keys && forall c <- dependents :: anchor[c] !in BlockedBundles(anchor, before)
    requires PlainAdded(members, before, BlockedCorequisite, known, middle)
    requires PlainAdded(dependents, before + members, BlockedPrerequisite, middle, blockers)
    ensures Reported(anchor, before, before + members + dependents, known, blockers)
  {
  }

  lemma RoundIsWhole(anchor: map<Code, Code>, edges: Graph, before: set<Code>, members: set<Code>,
                     dependents: set<Code>)
    requires forall c <- anchor :: anchor[c] in edges
    requires members == set c | c in anchor && anchor[c] in BlockedBundles(anchor, before)
    requires dependents == set c | c in anchor && anchor[c] !in BlockedBundles(anchor, before)
                                   && edges[anchor[c]] * BlockedBundles(anchor, before) != {}
    ensures WholeBundles(anchor, before + members + dependents)
  {
    var after := before + members + dependents;
    forall c | c in anchor && anchor[c] in BlockedBundles(anchor, after) ensures c in after {
      var x :| x in anchor && x in after && anchor[x] == anchor[c];
      if x in before { assert anchor[c] in BlockedBundles(anchor, before); }
    }
  }

  lemma RoundSpreads(edges: Graph, anchor: map<Code, Code>, start: set<Code>, before: set<Code>, after: set<Code>)
    requires IsGraph(edges) && forall c <- anchor :: anchor[c] in edges
    requires SpreadFrom(edges, start, BlockedBundles(anchor, before))
    requires forall c <- anchor :: c in after && c !in before ==>
               anchor[c] in BlockedBundles(anchor, before)
               || exists d :: d in BlockedBundles(anchor, before) && d in edges[anchor[c]]
    ensures SpreadFrom(edges, start, BlockedBundles(anchor, after))
  {
    forall b: set<Code> | SpreadClosed(edges, b) && start <= b ensures BlockedBundles(anchor, after) <= b {
      assert BlockedBundles(anchor, before) <= b;
      forall r | r in BlockedBundles(anchor, after) ensures r in b {
        var c :| c in anchor && c in after && anchor[c] == r;
        if c in before {
          assert r in BlockedBundles(anchor, before);
        } else if r !in BlockedBundles(anchor, before) {
          var d :| d in BlockedBundles(anchor, before) && d in edges[r];
          assert Edge(edges, r, d);
        }
      }
    }
  }

  lemma FewerLeft(all: set<Code>, before: set<Code>, after: set<Code>)
    requires before <= after && after <= before + all && before != after
    ensures |all - after| < |all - before|
  {
    var x :| x in after && x !in before;
    assert all - after < all - before by {
      assert x in all - before;
    }
    StrictSubsetCount(all - after, all - before);
  }

  lemma StrictSubsetCount(a: set<Code>, b: set<Code>)
    requires a < b
    ensures |a| < |b|
  {
    var x :| x in b && x !in a;
    assert b == (b - a) + a;
  }
}
