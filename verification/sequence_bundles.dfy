/** Corequisite bundles: union-find with path halving over the known selected courses. */
module Bundles {
  import opened Forest

  ghost predicate HasDomain(parent: map<Code, Code>, known: set<Code>) {
    forall x {:trigger x in parent} :: x in parent <==> x in known
  }

  /** One step of the path halving: skip a generation, then go on from there. */
  lemma HalvingStep(before: map<Code, Code>, parent: map<Code, Code>, links: Links, code: Code)
    requires IsForest(before) && Represents(parent, links) && KeepsRoots(before, parent)
    requires code in parent && parent[code] != code
    ensures parent[code] in parent
    ensures var target := parent[parent[code]];
            && target in parent && target < code
            && Represents(parent[code := target], links) && KeepsRoots(before, parent[code := target])
            && Root(parent[code := target], target) == Root(parent, code)
  {
    var middle := parent[code];
    assert middle in parent && middle <= code;
    var target := parent[middle];
    assert target in parent && target <= middle;
    assert Root(parent, code) == Root(parent, middle) == Root(parent, target);
    ShortcutRepresents(parent, links, code, target);
    KeepsRootsTransitive(before, parent, parent[code := target]);
    assert SameRoot(parent, parent[code := target], target);
  }

  class Bundler {
    const known: set<Code>
    var parent: map<Code, Code>
    ghost var links: Links

    ghost predicate Valid()
      reads this
    {
      Represents(parent, links) && HasDomain(parent, known)
    }

    constructor (known: set<Code>)
      ensures Valid() && this.known == known && links == {}
    {
      this.known := known;
      parent := map c | c in known :: c;
      links := {};
      new;
      forall x | x in parent ensures LinksUp(parent, links, x) { ConnectedSelf(links, x); }
    }

    /** The representative of a code, halving the path to it on the way. */
    method Find(start: Code) returns (root: Code)
      requires Valid() && start in known
      modifies this`parent
      ensures Valid() && KeepsRoots(old(parent), parent) && start in parent && root == Root(parent, start)
    {
      root := start;
      KeepsRootsSelf(parent);
      assert root in parent;
      while parent[root] != root
        invariant Valid() && KeepsRoots(old(parent), parent)
        invariant root in parent && Root(parent, root) == Root(old(parent), start)
        decreases root
      {
        root := Halve(root, old(parent));
      }
      assert SameRoot(old(parent), parent, start);
    }

    /** Skip a generation on the way up from a code. */
    method Halve(code: Code, ghost before: map<Code, Code>) returns (next: Code)
      requires Valid() && IsForest(before) && KeepsRoots(before, parent) && code in parent && parent[code] != code
      modifies this`parent
      ensures Valid() && KeepsRoots(before, parent)
      ensures next in parent && next < code && Root(parent, next) == Root(old(parent), code)
    {
      hide Represents, KeepsRoots, Root;
      HalvingStep(before, parent, links, code);
      parent := parent[code := parent[parent[code]]];
      next := parent[code];
    }

    /** Record a link between two codes whose representatives are known. */
    method Merge(left: Code, right: Code, a: Code, b: Code)
      requires Valid() && left in parent && right in parent && a == Root(parent, left) && b == Root(parent, right)
      modifies this
      ensures Valid() && links == old(links) + {(left, right)}
    {
      if a != b {
        var high := if a < b then b else a;
        var low := if a < b then a else b;
        JoinRepresents(parent, links, left, right, high, low);
        parent := parent[high := low];
      } else {
        assert Agree(parent, left, right);
        SameRootRepresents(parent, links, left, right);
      }
      links := links + {(left, right)};
    }

    /** Put two courses into one bundle. */
    method Union(left: Code, right: Code)
      requires Valid() && left in known && right in known
      modifies this
      ensures Valid() && links == old(links) + {(left, right)}
    {
      var a := Find(left);
      ghost var middle := parent;
      var b := Find(right);
      assert SameRoot(middle, parent, left);
      Merge(left, right, a, b);
    }

    /** Join a course with each known course it is taken together with. */
    method Join(code: Code, companions: set<Code>)
      requires Valid() && code in known && companions <= known
      modifies this
      ensures Valid()
      ensures forall a, b {:trigger (a, b) in links} ::
                (a, b) in links <==> (a, b) in old(links) || (a == code && b in companions)
    {
      var remaining := companions;
      while remaining != {}
        invariant Valid() && remaining <= companions
        invariant forall a, b {:trigger (a, b) in links} ::
                    (a, b) in links <==> (a, b) in old(links) || (a == code && b in companions && b !in remaining)
        decreases |remaining|
      {
        var companion :| companion in remaining;
        remaining := remaining - {companion};
        Union(code, companion);
      }
    }

    /** The least course of the bundle that a course is in. */
    method AnchorOf(code: Code) returns (anchor: Code)
      requires Valid() && code in known
      modifies this`parent
      ensures Valid() && IsAnchor(links, code, anchor)
    {
      anchor := Find(code);
      RootIsAnchor(parent, links, code);
    }

    /** The representative of every course: the least course of its bundle. */
    method Anchors() returns (anchor: map<Code, Code>)
      requires Valid()
      modifies this`parent
      ensures Valid() && anchor.Keys == known
      ensures forall c <- known :: IsAnchor(links, c, anchor[c])
    {
      hide IsAnchor, Represents;
      anchor := map[];
      var remaining := known;
      while remaining != {}
        invariant Valid() && remaining <= known && anchor.Keys == known - remaining
        invariant forall c <- anchor :: IsAnchor(links, c, anchor[c])
        decreases |remaining|
      {
        var code :| code in remaining;
        var root := AnchorOf(code);
        anchor := anchor[code := root];
        remaining := remaining - {code};
      }
    }
  }
}
