/** Rows hold a tree exactly when they pass the checks and spell it out without repeating a node. */
module CatalogMeaning {
  import opened Requirements
  import opened RequirementLoops
  import opened CatalogTrees
  import opened CatalogProofs

  // ---------------------------------------------------------------- distinct rows

  lemma {:induction false} DistinctCount(a: seq<Row>)
    requires DistinctIds(a)
    ensures |IdSet(a)| == |a|
  {
    if a != [] {
      var last := |a| - 1;
      DistinctCount(a[..last]);
      assert a == a[..last] + [a[last]];
      assert IdSet(a) == IdSet(a[..last]) + {a[last].id};
    }
  }

  lemma SubsetOfSameSize(a: set<Id>, b: set<Id>)
    requires a <= b && |a| == |b|
    ensures a == b
  {
    assert b == a + (b - a);
  }

  lemma SameRows(a: seq<Row>, b: seq<Row>)
    requires DistinctIds(a) && DistinctIds(b) && |a| == |b| && forall r <- a :: r in b
    ensures multiset(a) == multiset(b)
  {
    DistinctCount(a);
    DistinctCount(b);
    SubsetOfSameSize(IdSet(a), IdSet(b));
    forall r ensures multiset(a)[r] == multiset(b)[r] {
      if r in b {
        assert r.id in IdSet(a);
        var s :| s in a && s.id == r.id;
        assert s == r;
        var i :| 0 <= i < |a| && a[i] == r;
        var j :| 0 <= j < |b| && b[j] == r;
        OnceMeansOnce(a, i);
        OnceMeansOnce(b, j);
      } else {
        assert r !in multiset(a) && r !in multiset(b);
      }
    }
  }

  // ---------------------------------------------------------------- rows that spell out a tree

  lemma {:induction false} RowsOfAllHas(children: Children, kids: seq<Row>, items: seq<Req>, i: nat, r: Row)
    requires |kids| == |items| && i < |items| && r in RowsOf(children, kids[i], items[i])
    ensures r in RowsOfAll(children, kids, items)
  {
    var rest := RowsOfPrefix(children, kids, items, i);
  }

  lemma {:induction false} FollowIn(children: Children, row: Row, tree: Req, q: Path)
    requires Encodes(children, row, tree) && NodeAt(tree, q).Some?
    ensures Follow(children, row, q) in RowsOf(children, row, tree)
    ensures q != [] ==> q[0] < |Items(tree)| == |Kids(children, row.id)|
                        && Follow(children, row, q) in RowsOf(children, Kids(children, row.id)[q[0]], Items(tree)[q[0]])
    decreases q
  {
    RowsOfItems(children, row, tree);
    if q != [] {
      FollowIn(children, Kids(children, row.id)[q[0]], Items(tree)[q[0]], q[1..]);
      RowsOfAllHas(children, Kids(children, row.id), Items(tree), q[0], Follow(children, row, q));
    }
  }

  lemma DistinctParts(a: seq<Row>, b: seq<Row>, rest: seq<Row>)
    requires DistinctIds((a + b) + rest)
    ensures DistinctIds(a) && DistinctIds(b) && forall x <- a, y <- b :: x.id != y.id
  {
    var all := (a + b) + rest;
    forall i, j | 0 <= i < j < |a| ensures a[i].id != a[j].id { assert all[i] == a[i] && all[j] == a[j]; }
    forall i, j | 0 <= i < j < |b| ensures b[i].id != b[j].id { assert all[|a| + i] == b[i] && all[|a| + j] == b[j]; }
    forall x, y | x in a && y in b ensures x.id != y.id {
      var i :| 0 <= i < |a| && a[i] == x;
      var j :| 0 <= j < |b| && b[j] == y;
      assert all[i] == x && all[|a| + j] == y;
    }
  }

  lemma RowIsNew(children: Children, row: Row, tree: Req)
    requires DistinctIds(RowsOf(children, row, tree))
    ensures DistinctIds(RowsOfAll(children, Kids(children, row.id), Items(tree)))
    ensures forall r <- RowsOfAll(children, Kids(children, row.id), Items(tree)) :: r.id != row.id
  {
    RowsOfItems(children, row, tree);
    var below := RowsOfAll(children, Kids(children, row.id), Items(tree));
    assert ([row] + below) + [] == [row] + below;
    DistinctParts([row], below, []);
    assert row in [row];
  }

  /** Without repeated ids no two positions lead to the same id. */
  lemma {:induction false} FollowDistinct(children: Children, row: Row, tree: Req, p: Path, q: Path)
    requires Encodes(children, row, tree) && DistinctIds(RowsOf(children, row, tree))
    requires NodeAt(tree, p).Some? && NodeAt(tree, q).Some?
    requires Follow(children, row, p).id == Follow(children, row, q).id
    ensures p == q
    decreases |p| + |q|
  {
    RowIsNew(children, row, tree);
    if p != [] && q != [] {
      if p[0] == q[0] {
        FollowSame(children, row, tree, p, q);
      } else if p[0] < q[0] {
        FollowApart(children, row, tree, p, q);
      } else {
        FollowApart(children, row, tree, q, p);
      }
    } else if p != [] {
      FollowBelow(children, row, tree, p);
    } else if q != [] {
      FollowBelow(children, row, tree, q);
    }
  }

  lemma FollowBelow(children: Children, row: Row, tree: Req, q: Path)
    requires Encodes(children, row, tree) && DistinctIds(RowsOf(children, row, tree))
    requires NodeAt(tree, q).Some? && q != []
    ensures Follow(children, row, q).id != row.id
  {
    FollowIn(children, row, tree, q);
    RowIsNew(children, row, tree);
    RowsOfAllHas(children, Kids(children, row.id), Items(tree), q[0], Follow(children, row, q));
  }

  lemma FollowApart(children: Children, row: Row, tree: Req, p: Path, q: Path)
    requires Encodes(children, row, tree) && DistinctIds(RowsOf(children, row, tree))
    requires NodeAt(tree, p).Some? && NodeAt(tree, q).Some? && p != [] && q != [] && p[0] < q[0]
    ensures Follow(children, row, p).id != Follow(children, row, q).id
  {
    FollowIn(children, row, tree, p);
    FollowIn(children, row, tree, q);
    RowIsNew(children, row, tree);
    var kids, items := Kids(children, row.id), Items(tree);
    var front := RowsOfAll(children, kids[..q[0]], items[..q[0]]);
    var back := RowsOf(children, kids[q[0]], items[q[0]]);
    RowsOfAllHas(children, kids[..q[0]], items[..q[0]], p[0], Follow(children, row, p));
    var rest := RowsOfPrefix(children, kids, items, q[0]);
    DistinctParts(front, back, rest);
  }

  lemma {:induction false} FollowSame(children: Children, row: Row, tree: Req, p: Path, q: Path)
    requires Encodes(children, row, tree) && DistinctIds(RowsOf(children, row, tree))
    requires NodeAt(tree, p).Some? && NodeAt(tree, q).Some? && p != [] && q != [] && p[0] == q[0]
    requires Follow(children, row, p).id == Follow(children, row, q).id
    ensures p == q
    decreases |p| + |q|, 0
  {
    RowIsNew(children, row, tree);
    var kids, items, i := Kids(children, row.id), Items(tree), p[0];
    var rest := RowsOfPrefix(children, kids, items, i);
    DistinctParts(RowsOfAll(children, kids[..i], items[..i]), RowsOf(children, kids[i], items[i]), rest);
    FollowDistinct(children, kids[i], items[i], p[1..], q[1..]);
    assert p == [i] + p[1..] && q == [i] + q[1..];
  }

  ghost predicate AllIn(some: seq<Row>, rows: seq<Row>) { forall i :: 0 <= i < |some| ==> some[i] in rows }

  lemma {:induction false} RowsOfStay(rows: seq<Row>, children: Children, row: Row, tree: Req)
    requires ChildrenOk(rows, children) && row in rows && Encodes(children, row, tree)
    ensures AllIn(RowsOf(children, row, tree), rows)
    decreases tree, 1
  {
    match tree
    case AllOf(items) => KidsStay(rows, children, row.id); RowsOfAllStay(rows, children, Kids(children, row.id), items);
    case AnyOf(items) => KidsStay(rows, children, row.id); RowsOfAllStay(rows, children, Kids(children, row.id), items);
    case _ =>
  }

  lemma KidsStay(rows: seq<Row>, children: Children, p: Id)
    requires ChildrenOk(rows, children)
    ensures AllIn(Kids(children, p), rows)
  {
    assert IsKids(rows, p, Kids(children, p));
  }

  lemma FrontAndLast(children: Children, kids: seq<Row>, items: seq<Req>, rows: seq<Row>)
    requires items != [] && EncodesEach(children, kids, items) && AllIn(kids, rows)
    ensures var last := |items| - 1;
            && EncodesEach(children, kids[..last], items[..last]) && AllIn(kids[..last], rows)
            && Encodes(children, kids[last], items[last]) && kids[last] in rows
  {
  }

  lemma {:induction false} RowsOfAllStay(rows: seq<Row>, children: Children, kids: seq<Row>, items: seq<Req>)
    requires ChildrenOk(rows, children) && AllIn(kids, rows) && EncodesEach(children, kids, items)
    ensures AllIn(RowsOfAll(children, kids, items), rows)
    decreases items, 0
  {
    if items != [] {
      var last := |items| - 1;
      var front, kid := kids[..last], kids[last];
      FrontAndLast(children, kids, items, rows);
      RowsOfAllStay(rows, children, front, items[..last]);
      RowsOfStay(rows, children, kid, items[last]);
    }
  }

  lemma CheckedLinked(rows: seq<Row>, children: Children, kind: Kind)
    requires ChildrenOk(rows, children) && forall r <- rows :: r.kind == kind
    ensures KidsLinked(children, kind)
  {
    forall p: Id, i: nat | i < |Kids(children, p)|
      ensures Kids(children, p)[i].parent == Some(p) && Kids(children, p)[i].position == i
              && Kids(children, p)[i].kind == kind
    {
      assert IsKids(rows, p, Kids(children, p));
    }
  }

  lemma SpelledInjective(children: Children, root: Row, tree: Req, kind: Kind, id: Path -> Id)
    requires Encodes(children, root, tree) && DistinctIds(RowsOf(children, root, tree))
    requires forall q {:trigger id(q)} :: id(q) == Follow(children, root, q).id
    ensures InjectiveOn(tree, id) && WritesBelow(children, root, tree, kind, id, [])
  {
    forall p, q | NodeAt(tree, p).Some? && NodeAt(tree, q).Some? && id(p) == id(q) ensures p == q {
      FollowDistinct(children, root, tree, p, q);
    }
    forall q | NodeAt(tree, q).Some? ensures id([] + q) == Follow(children, root, q).id {
      assert [] + q == q;
    }
  }

  /** Checked rows that spell out a tree, all of them and none twice, are that tree written out. */
  lemma SpelledIsWritten(rows: seq<Row>, children: Children, root: Row, tree: Req)
    requires OneKind(rows) && DistinctIds(rows) && ChildrenOk(rows, children)
    requires IsRoot(rows, root) && root.position == 0 && Encodes(children, root, tree)
    requires DistinctIds(RowsOf(children, root, tree)) && |RowsOf(children, root, tree)| == |rows|
    ensures Flattens(rows, tree)
  {
    var id := (q: Path) => Follow(children, root, q).id;
    var spelled := RowsOf(children, root, tree);
    assert OneKind(rows) ==> forall r <- rows :: r.kind == root.kind;
    SpelledInjective(children, root, tree, root.kind, id);
    hide Encodes, ChildrenOk, RowsOf, DistinctIds, InjectiveOn, WritesBelow, Follow, KidsLinked;
    CheckedLinked(rows, children, root.kind);
    EncodedIsWritten(children, root, tree, root.kind, id, []);
    RowsOfStay(rows, children, root, tree);
    AllAreRows(spelled, rows);
    assert FlattensAs(rows, tree, root.kind, id);
  }

  lemma AllAreRows(spelled: seq<Row>, rows: seq<Row>)
    requires AllIn(spelled, rows) && DistinctIds(spelled) && DistinctIds(rows) && |spelled| == |rows|
    ensures multiset(spelled) == multiset(rows)
  {
    forall r | r in spelled ensures r in rows {
      var i :| 0 <= i < |spelled| && spelled[i] == r;
    }
    SameRows(spelled, rows);
  }

  lemma FollowStep(rows: seq<Row>, children: Children, tree: Req, kind: Kind, id: Path -> Id, p: Path, q: Path)
    requires FlattensAs(rows, tree, kind, id) && ChildrenOk(rows, children) && NodeAt(tree, p).Some?
    requires q != [] && NodeAt(NodeAt(tree, p).value, q).Some?
    ensures NodeAt(tree, p + [q[0]]) == Some(Items(NodeAt(tree, p).value)[q[0]])
    ensures Follow(children, At(tree, kind, id, p), q) == Follow(children, At(tree, kind, id, p + [q[0]]), q[1..])
  {
    AtIs(tree, kind, id, p);
    KidsAreWritten(rows, children, tree, kind, id, p);
    KidAt(tree, kind, id, p, q[0]);
  }

  /** Following positions in written rows leads to the rows written there. */
  lemma {:induction false} WrittenFollow(rows: seq<Row>, children: Children, tree: Req, kind: Kind, id: Path -> Id,
                                         p: Path, q: Path)
    requires FlattensAs(rows, tree, kind, id) && ChildrenOk(rows, children)
    requires NodeAt(tree, p).Some? && NodeAt(NodeAt(tree, p).value, q).Some?
    ensures NodeAt(tree, p + q).Some? && Follow(children, At(tree, kind, id, p), q) == At(tree, kind, id, p + q)
    decreases q
  {
    if q == [] {
      assert p + q == p;
    } else {
      assert p + [q[0]] + q[1..] == p + q;
      FollowStep(rows, children, tree, kind, id, p, q);
      WrittenFollow(rows, children, tree, kind, id, p + [q[0]], q[1..]);
    }
  }

  lemma WrittenLinked(rows: seq<Row>, children: Children, tree: Req, kind: Kind, id: Path -> Id)
    requires FlattensAs(rows, tree, kind, id) && ChildrenOk(rows, children)
    ensures KidsLinked(children, kind)
  {
    forall p: Id, i: nat | i < |Kids(children, p)|
      ensures Kids(children, p)[i].parent == Some(p) && Kids(children, p)[i].position == i
              && Kids(children, p)[i].kind == kind
    {
      assert IsKids(rows, p, Kids(children, p));
      WrittenParents(rows, tree, kind, id, Kids(children, p)[i]);
    }
  }

  lemma WrittenBelow(rows: seq<Row>, children: Children, tree: Req, kind: Kind, id: Path -> Id)
    requires FlattensAs(rows, tree, kind, id) && ChildrenOk(rows, children)
    ensures WritesBelow(children, At(tree, kind, id, []), tree, kind, id, [])
  {
    var root := At(tree, kind, id, []);
    forall q | NodeAt(tree, q).Some? ensures id([] + q) == Follow(children, root, q).id {
      WrittenFollow(rows, children, tree, kind, id, [], q);
      assert [] + q == q;
      AtIs(tree, kind, id, q);
    }
  }

  /** Rows written for a tree spell it out, all of them and none twice. */
  lemma WrittenIsSpelled(rows: seq<Row>, children: Children, tree: Req, kind: Kind, id: Path -> Id)
    requires FlattensAs(rows, tree, kind, id) && ChildrenOk(rows, children)
    ensures var root := At(tree, kind, id, []);
            && Encodes(children, root, tree)
            && DistinctIds(RowsOf(children, root, tree)) && |RowsOf(children, root, tree)| == |rows|
  {
    var root := At(tree, kind, id, []);
    WrittenEncodes(rows, children, tree, kind, id, []);
    WrittenPasses(rows, tree, kind, id);
    WrittenLinked(rows, children, tree, kind, id);
    WrittenBelow(rows, children, tree, kind, id);
    AtIs(tree, kind, id, []);
    EncodedIsWritten(children, root, tree, kind, id, []);
    PermutedDistinct(RowsOf(children, root, tree), rows);
  }
}
