/** Disjoint sets as a parent map in which no link leads to a greater code. Codes are compared
    as strings in the program; only their order matters, so a code is its place among the strings of
    the input in that order. */
module Forest {

  type Code = nat

  type Links = set<(Code, Code)>

  ghost predicate IsForest(parent: map<Code, Code>) {
    forall x {:trigger parent[x]} | x in parent :: parent[x] in parent && parent[x] <= x
  }

  /** The representative that following links from `x` ends in. */
  ghost function Root(parent: map<Code, Code>, x: Code): (r: Code)
    requires IsForest(parent) && x in parent
    ensures r in parent && parent[r] == r && r <= x
    decreases x
  {
    if parent[x] == x then x else Root(parent, parent[x])
  }

  /** A chain of links, each usable in both directions. */
  ghost predicate IsChain(links: Links, chain: seq<Code>) {
    && chain != []
    && forall i, j :: 0 <= i < |chain| && j == i + 1 && j < |chain| ==> Linked(links, chain[i], chain[j])
  }

  ghost predicate Linked(links: Links, a: Code, b: Code) { (a, b) in links || (b, a) in links }

  ghost predicate Connected(links: Links, a: Code, b: Code) {
    exists chain :: IsChain(links, chain) && chain[0] == a && chain[|chain| - 1] == b
  }

  lemma ConnectedSelf(links: Links, a: Code)
    ensures Connected(links, a, a)
  {
    assert IsChain(links, [a]);
  }

  lemma ConnectedLink(links: Links, a: Code, b: Code)
    requires (a, b) in links
    ensures Connected(links, a, b)
  {
    var chain := [a, b];
    assert IsChain(links, chain) && chain[0] == a && chain[|chain| - 1] == b;
  }

  lemma ConnectedSymmetric(links: Links, a: Code, b: Code)
    requires Connected(links, a, b)
    ensures Connected(links, b, a)
  {
    var chain :| IsChain(links, chain) && chain[0] == a && chain[|chain| - 1] == b;
    var back := seq(|chain|, i requires 0 <= i < |chain| => chain[|chain| - 1 - i]);
    forall i, j | 0 <= i < |back| && j == i + 1 && j < |back| ensures Linked(links, back[i], back[j]) {
      assert back[i] == chain[|chain| - 1 - i] && back[j] == chain[|chain| - 2 - i];
      assert Linked(links, chain[|chain| - 2 - i], chain[|chain| - 1 - i]);
    }
    assert IsChain(links, back) && back[0] == b && back[|back| - 1] == a;
  }

  lemma ConnectedTransitive(links: Links, a: Code, b: Code, c: Code)
    requires Connected(links, a, b) && Connected(links, b, c)
    ensures Connected(links, a, c)
  {
    var left :| IsChain(links, left) && left[0] == a && left[|left| - 1] == b;
    var right :| IsChain(links, right) && right[0] == b && right[|right| - 1] == c;
    var chain := left + right[1..];
    forall i, j | 0 <= i < |chain| && j == i + 1 && j < |chain| ensures Linked(links, chain[i], chain[j]) {
      if i >= |left| - 1 {
        assert chain[i] == right[i - |left| + 1] && chain[j] == right[j - |left| + 1];
      }
    }
    assert IsChain(links, chain) && chain[0] == a && chain[|chain| - 1] == c;
  }

  lemma ConnectedMonotone(links: Links, more: Links, a: Code, b: Code)
    requires links <= more && Connected(links, a, b)
    ensures Connected(more, a, b)
  {
    var chain :| IsChain(links, chain) && chain[0] == a && chain[|chain| - 1] == b;
    assert IsChain(more, chain);
  }

  ghost predicate LinksUp(parent: map<Code, Code>, links: Links, x: Code)
    requires x in parent
  {
    Connected(links, x, parent[x])
  }

  ghost predicate Agree(parent: map<Code, Code>, a: Code, b: Code)
    requires IsForest(parent)
  {
    a in parent && b in parent && Root(parent, a) == Root(parent, b)
  }

  /** The forest represents exactly the components of the links processed so far. */
  ghost predicate Represents(parent: map<Code, Code>, links: Links) {
    && IsForest(parent)
    && (forall x {:trigger LinksUp(parent, links, x)} | x in parent :: LinksUp(parent, links, x))
    && (forall a, b {:trigger Agree(parent, a, b)} | (a, b) in links :: Agree(parent, a, b))
  }

  lemma {:induction false} ConnectedToRoot(parent: map<Code, Code>, links: Links, x: Code)
    requires Represents(parent, links) && x in parent
    ensures Connected(links, x, Root(parent, x))
    decreases x
  {
    if parent[x] == x {
      ConnectedSelf(links, x);
    } else {
      assert LinksUp(parent, links, x);
      ConnectedToRoot(parent, links, parent[x]);
      ConnectedTransitive(links, x, parent[x], Root(parent, x));
    }
  }

  lemma {:induction false} ChainKeepsRoot(parent: map<Code, Code>, links: Links, chain: seq<Code>)
    requires Represents(parent, links) && IsChain(links, chain) && chain[0] in parent
    ensures chain[|chain| - 1] in parent && Root(parent, chain[|chain| - 1]) == Root(parent, chain[0])
    decreases |chain|
  {
    if |chain| > 1 {
      assert Linked(links, chain[0], chain[1]);
      assert (chain[0], chain[1]) in links ==> Agree(parent, chain[0], chain[1]);
      assert (chain[1], chain[0]) in links ==> Agree(parent, chain[1], chain[0]);
      var rest := chain[1..];
      ChainKeepsRoot(parent, links, rest);
    }
  }

  /** Two codes share a representative exactly when links connect them. */
  lemma RootsAreComponents(parent: map<Code, Code>, links: Links, a: Code, b: Code)
    requires Represents(parent, links) && a in parent && b in parent
    ensures Root(parent, a) == Root(parent, b) <==> Connected(links, a, b)
  {
    if Root(parent, a) == Root(parent, b) {
      ConnectedToRoot(parent, links, a);
      ConnectedToRoot(parent, links, b);
      ConnectedSymmetric(links, b, Root(parent, b));
      ConnectedTransitive(links, a, Root(parent, a), b);
    }
    if Connected(links, a, b) {
      var chain :| IsChain(links, chain) && chain[0] == a && chain[|chain| - 1] == b;
      ChainKeepsRoot(parent, links, chain);
    }
  }

  /** The least code of a component. */
  ghost predicate IsAnchor(links: Links, x: Code, anchor: Code) {
    Connected(links, x, anchor) && forall y :: Connected(links, x, y) ==> anchor <= y
  }

  /** The representative is the least code of the component. */
  lemma RootIsAnchor(parent: map<Code, Code>, links: Links, x: Code)
    requires Represents(parent, links) && x in parent
    ensures IsAnchor(links, x, Root(parent, x))
  {
    ConnectedToRoot(parent, links, x);
    forall y | Connected(links, x, y) ensures Root(parent, x) <= y {
      var chain :| IsChain(links, chain) && chain[0] == x && chain[|chain| - 1] == y;
      ChainKeepsRoot(parent, links, chain);
    }
  }

  lemma AnchorUnique(links: Links, x: Code, a: Code, b: Code)
    requires IsAnchor(links, x, a) && IsAnchor(links, x, b)
    ensures a == b
  {
  }

  // ---------------------------------------------------------------- the updates the programs make

  ghost predicate SameRoot(parent: map<Code, Code>, after: map<Code, Code>, y: Code)
    requires IsForest(parent) && IsForest(after)
  {
    y in parent && y in after && Root(after, y) == Root(parent, y)
  }

  /** Every code keeps its representative. */
  ghost predicate KeepsRoots(parent: map<Code, Code>, after: map<Code, Code>)
    requires IsForest(parent)
  {
    && IsForest(after)
    && forall y {:trigger SameRoot(parent, after, y)} | y in parent :: SameRoot(parent, after, y)
  }

  lemma KeepsRootsSelf(parent: map<Code, Code>)
    requires IsForest(parent)
    ensures KeepsRoots(parent, parent)
  {
  }

  lemma KeepsRootsTransitive(a: map<Code, Code>, b: map<Code, Code>, c: map<Code, Code>)
    requires IsForest(a) && KeepsRoots(a, b) && KeepsRoots(b, c)
    ensures KeepsRoots(a, c)
  {
    forall y | y in a ensures SameRoot(a, c, y) {
      assert SameRoot(a, b, y);
      assert SameRoot(b, c, y);
    }
  }

  /** Pointing a code at any later stop on its way keeps every representative. */
  lemma {:induction false} ShortcutKeepsRoots(parent: map<Code, Code>, x: Code, target: Code, y: Code)
    requires IsForest(parent) && x in parent && target in parent && y in parent
    requires target <= x && Root(parent, target) == Root(parent, x) && (target == x ==> parent[x] == x)
    ensures IsForest(parent[x := target])
    ensures Root(parent[x := target], y) == Root(parent, y)
    decreases y
  {
    var after := parent[x := target];
    if y == x {
      if target != x { ShortcutKeepsRoots(parent, x, target, target); }
    } else if parent[y] != y {
      ShortcutKeepsRoots(parent, x, target, parent[y]);
    }
  }

  lemma ShortcutAll(parent: map<Code, Code>, x: Code, target: Code)
    requires IsForest(parent) && x in parent && target in parent
    requires target <= x && Root(parent, target) == Root(parent, x) && (target == x ==> parent[x] == x)
    ensures KeepsRoots(parent, parent[x := target])
  {
    ShortcutKeepsRoots(parent, x, target, x);
    forall y | y in parent ensures SameRoot(parent, parent[x := target], y) {
      ShortcutKeepsRoots(parent, x, target, y);
    }
  }

  lemma ShortcutRepresents(parent: map<Code, Code>, links: Links, x: Code, target: Code)
    requires Represents(parent, links) && x in parent && target in parent
    requires target <= x && Root(parent, target) == Root(parent, x) && (target == x ==> parent[x] == x)
    ensures Represents(parent[x := target], links) && KeepsRoots(parent, parent[x := target])
  {
    ShortcutAll(parent, x, target);
    RootsAreComponents(parent, links, x, target);
    UpStays(parent, links, x, target);
    AgreeStays(parent, parent[x := target], links);
  }

  lemma UpStays(parent: map<Code, Code>, links: Links, x: Code, target: Code)
    requires forall y {:trigger LinksUp(parent, links, y)} | y in parent :: LinksUp(parent, links, y)
    requires Connected(links, x, target)
    ensures forall y {:trigger LinksUp(parent[x := target], links, y)} | y in parent[x := target] ::
              LinksUp(parent[x := target], links, y)
  {
    var after := parent[x := target];
    forall y | y in after ensures LinksUp(after, links, y) {
      if y != x { assert LinksUp(parent, links, y); }
    }
  }

  lemma AgreeStays(parent: map<Code, Code>, after: map<Code, Code>, links: Links)
    requires Represents(parent, links) && KeepsRoots(parent, after)
    ensures forall a, b {:trigger Agree(after, a, b)} | (a, b) in links :: Agree(after, a, b)
  {
    forall a, b | (a, b) in links ensures Agree(after, a, b) {
      assert Agree(parent, a, b);
      assert SameRoot(parent, after, a) && SameRoot(parent, after, b);
    }
  }

  /** Hanging one representative under a smaller one. */
  lemma {:induction false} HangRoots(parent: map<Code, Code>, high: Code, low: Code, y: Code)
    requires IsForest(parent) && high in parent && low in parent && y in parent
    requires parent[high] == high && parent[low] == low && low < high
    ensures IsForest(parent[high := low])
    ensures Root(parent[high := low], y) == if Root(parent, y) == high then low else Root(parent, y)
    decreases y
  {
    var after := parent[high := low];
    if y == high {
      assert Root(after, low) == low;
    } else if parent[y] != y {
      HangRoots(parent, high, low, parent[y]);
    }
  }

  ghost predicate Hung(parent: map<Code, Code>, after: map<Code, Code>, high: Code, low: Code, y: Code)
    requires IsForest(parent) && IsForest(after)
  {
    y in parent && y in after && Root(after, y) == if Root(parent, y) == high then low else Root(parent, y)
  }

  lemma HangAll(parent: map<Code, Code>, high: Code, low: Code)
    requires IsForest(parent) && high in parent && low in parent
    requires parent[high] == high && parent[low] == low && low < high
    ensures IsForest(parent[high := low])
    ensures forall y {:trigger Hung(parent, parent[high := low], high, low, y)} | y in parent ::
              Hung(parent, parent[high := low], high, low, y)
  {
    HangRoots(parent, high, low, high);
    forall y | y in parent ensures Hung(parent, parent[high := low], high, low, y) {
      HangRoots(parent, high, low, y);
    }
  }

  lemma RootsConnected(parent: map<Code, Code>, links: Links, a: Code, b: Code)
    requires Represents(parent, links) && a in parent && b in parent
    ensures Connected(links + {(a, b)}, Root(parent, a), Root(parent, b))
    ensures Connected(links + {(a, b)}, Root(parent, b), Root(parent, a))
  {
    var more := links + {(a, b)};
    ConnectedToRoot(parent, links, a);
    ConnectedToRoot(parent, links, b);
    ConnectedMonotone(links, more, a, Root(parent, a));
    ConnectedMonotone(links, more, b, Root(parent, b));
    ConnectedLink(more, a, b);
    ConnectedSymmetric(more, a, Root(parent, a));
    ConnectedTransitive(more, Root(parent, a), a, b);
    ConnectedTransitive(more, Root(parent, a), b, Root(parent, b));
    ConnectedSymmetric(more, Root(parent, a), Root(parent, b));
  }

  lemma UpJoined(parent: map<Code, Code>, links: Links, more: Links, high: Code, low: Code, x: Code)
    requires links <= more && Connected(more, high, low)
    requires x in parent && x != high ==> LinksUp(parent, links, x)
    requires x in parent || x == high
    ensures LinksUp(parent[high := low], more, x)
  {
    if x != high { ConnectedMonotone(links, more, x, parent[x]); }
  }

  lemma AgreeJoined(parent: map<Code, Code>, after: map<Code, Code>, high: Code, low: Code, c: Code, d: Code)
    requires IsForest(parent) && IsForest(after) && c in parent && d in parent
    requires Hung(parent, after, high, low, c) && Hung(parent, after, high, low, d)
    requires Root(parent, c) == Root(parent, d)
             || (Root(parent, c) in {high, low} && Root(parent, d) in {high, low})
    ensures Agree(after, c, d)
  {
  }

  /** Joining the representatives of two codes records the link between them. */
  lemma JoinRepresents(parent: map<Code, Code>, links: Links, a: Code, b: Code, high: Code, low: Code)
    requires Represents(parent, links) && a in parent && b in parent && low < high
    requires (Root(parent, a) == high && Root(parent, b) == low) || (Root(parent, a) == low && Root(parent, b) == high)
    ensures Represents(parent[high := low], links + {(a, b)})
  {
    var after := parent[high := low];
    var more := links + {(a, b)};
    HangAll(parent, high, low);
    RootsConnected(parent, links, a, b);
    hide Connected, Hung;
    forall x | x in after ensures LinksUp(after, more, x) {
      UpJoined(parent, links, more, high, low, x);
    }
    forall c, d | (c, d) in more ensures Agree(after, c, d) {
      assert (c, d) in links ==> Agree(parent, c, d);
      AgreeJoined(parent, after, high, low, c, d);
    }
  }

  lemma LinksUpMore(parent: map<Code, Code>, links: Links, more: Links)
    requires links <= more
    requires forall x {:trigger LinksUp(parent, links, x)} | x in parent :: LinksUp(parent, links, x)
    ensures forall x {:trigger LinksUp(parent, more, x)} | x in parent :: LinksUp(parent, more, x)
  {
    forall x | x in parent ensures LinksUp(parent, more, x) {
      assert LinksUp(parent, links, x);
      ConnectedMonotone(links, more, x, parent[x]);
    }
  }

  lemma SameRootRepresents(parent: map<Code, Code>, links: Links, a: Code, b: Code)
    requires Represents(parent, links) && Agree(parent, a, b)
    ensures Represents(parent, links + {(a, b)})
  {
    LinksUpMore(parent, links, links + {(a, b)});
  }

  /** A code nobody has mentioned yet is a component of its own. */
  lemma FreshRepresents(parent: map<Code, Code>, links: Links, x: Code)
    requires Represents(parent, links) && x !in parent
    ensures Represents(parent[x := x], links) && KeepsRoots(parent, parent[x := x])
  {
    var after := parent[x := x];
    ConnectedSelf(links, x);
    forall y | y in parent ensures SameRoot(parent, after, y) {
      FreshKeepsRoots(parent, x, y);
    }
    forall y | y in after ensures LinksUp(after, links, y) {
      if y != x { assert LinksUp(parent, links, y); }
    }
    AgreeStays(parent, after, links);
  }

  lemma {:induction false} FreshKeepsRoots(parent: map<Code, Code>, x: Code, y: Code)
    requires IsForest(parent) && x !in parent && y in parent
    ensures Root(parent[x := x], y) == Root(parent, y)
    decreases y
  {
    if parent[y] != y { FreshKeepsRoots(parent, x, parent[y]); }
  }
}
