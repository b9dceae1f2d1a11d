/** Written rows and the rows that spell out a tree are the same thing. */
module CatalogProofs {
  import opened Requirements
  import opened RequirementLoops
  import opened CatalogTrees

  // ---------------------------------------------------------------- what is written

  /** The row written for the node at a path. */
  function RowAt(tree: Req, kind: Kind, id: Path -> Id, parent: Option<Id>, path: Path, position: nat, q: Path): Row
    requires NodeAt(tree, q).Some?
  {
    if q == [] then RowFor(tree, id(path), kind, parent, position)
    else RowFor(NodeAt(tree, q).value, id(path + q), kind, Some(id(path + q[..|q| - 1])), q[|q| - 1])
  }

  lemma EmitItems(tree: Req, kind: Kind, id: Path -> Id, parent: Option<Id>, path: Path, position: nat)
    ensures Emit(tree, kind, id, parent, path, position)
            == [RowFor(tree, id(path), kind, parent, position)] + EmitAll(Items(tree), kind, id, path)
  {
  }

  lemma PathStep(path: Path, i: nat, rest: Path)
    ensures var q := [i] + rest;
            && q[0] == i && q[1..] == rest && path + q == (path + [i]) + rest
            && path + q[..|q| - 1] == (if rest == [] then path else (path + [i]) + rest[..|rest| - 1])
            && q[|q| - 1] == (if rest == [] then i else rest[|rest| - 1])
            && (rest == [] ==> path + q == path + [i])
  {
    var q := [i] + rest;
    if rest != [] { assert q[..|q| - 1] == [i] + rest[..|rest| - 1]; }
  }

  /** The row at a path below a child is the same seen from the child. */
  lemma RowAtStep(tree: Req, kind: Kind, id: Path -> Id, parent: Option<Id>, path: Path, position: nat, i: nat,
                  rest: Path)
    requires i < |Items(tree)| && NodeAt(Items(tree)[i], rest).Some?
    ensures NodeAt(tree, [i] + rest) == NodeAt(Items(tree)[i], rest)
    ensures RowAt(tree, kind, id, parent, path, position, [i] + rest)
            == RowAt(Items(tree)[i], kind, id, Some(id(path)), path + [i], i, rest)
  {
    PathStep(path, i, rest);
    var q := [i] + rest;
    assert NodeAt(tree, q) == NodeAt(Items(tree)[i], rest);
  }

  lemma {:induction false} EmitHas(tree: Req, kind: Kind, id: Path -> Id, parent: Option<Id>, path: Path, position: nat,
                                   q: Path)
    requires NodeAt(tree, q).Some?
    ensures RowAt(tree, kind, id, parent, path, position, q) in Emit(tree, kind, id, parent, path, position)
    decreases q
  {
    EmitItems(tree, kind, id, parent, path, position);
    if q != [] {
      var i, rest := q[0], q[1..];
      assert q == [i] + rest;
      RowAtStep(tree, kind, id, parent, path, position, i, rest);
      EmitHas(Items(tree)[i], kind, id, Some(id(path)), path + [i], i, rest);
      EmitAllHas(Items(tree), kind, id, path, i, RowAt(tree, kind, id, parent, path, position, q));
    }
  }

  lemma {:induction false} EmitAllHas(items: seq<Req>, kind: Kind, id: Path -> Id, path: Path, i: nat, r: Row)
    requires i < |items| && r in Emit(items[i], kind, id, Some(id(path)), path + [i], i)
    ensures r in EmitAll(items, kind, id, path)
    decreases items
  {
    var last := |items| - 1;
    if i < last { EmitAllHas(items[..last], kind, id, path, i, r); }
  }

  lemma {:induction false} EmitOnly(tree: Req, kind: Kind, id: Path -> Id, parent: Option<Id>, path: Path,
                                    position: nat, r: Row)
      returns (q: Path)
    requires r in Emit(tree, kind, id, parent, path, position)
    ensures NodeAt(tree, q).Some? && r == RowAt(tree, kind, id, parent, path, position, q)
    decreases tree
  {
    EmitItems(tree, kind, id, parent, path, position);
    if r == RowFor(tree, id(path), kind, parent, position) {
      q := [];
    } else {
      var i := EmitAllOnly(Items(tree), kind, id, path, r);
      var rest := EmitOnly(Items(tree)[i], kind, id, Some(id(path)), path + [i], i, r);
      RowAtStep(tree, kind, id, parent, path, position, i, rest);
      q := [i] + rest;
    }
  }

  lemma {:induction false} EmitAllOnly(items: seq<Req>, kind: Kind, id: Path -> Id, path: Path, r: Row) returns (i: nat)
    requires r in EmitAll(items, kind, id, path)
    ensures i < |items| && r in Emit(items[i], kind, id, Some(id(path)), path + [i], i)
    decreases items
  {
    var last := |items| - 1;
    if r in Emit(items[last], kind, id, Some(id(path)), path + [last], last) {
      i := last;
    } else {
      i := EmitAllOnly(items[..last], kind, id, path, r);
    }
  }

  /** Written rows have the id of a node's path. */
  lemma EmittedId(tree: Req, kind: Kind, id: Path -> Id, parent: Option<Id>, path: Path, position: nat, r: Row)
        returns (q: Path)
    requires r in Emit(tree, kind, id, parent, path, position)
    ensures NodeAt(tree, q).Some? && r.id == id(path + q)
  {
    q := EmitOnly(tree, kind, id, parent, path, position, r);
    assert q == [] ==> path + q == path;
  }

  lemma ChildId(tree: Req, kind: Kind, id: Path -> Id, path: Path, i: nat, r: Row) returns (p: Path)
    requires i < |Items(tree)| && r in Emit(Items(tree)[i], kind, id, Some(id(path)), path + [i], i)
    ensures NodeAt(tree, p).Some? && p != [] && p[0] == i && r.id == id(path + p)
  {
    var rest := EmittedId(Items(tree)[i], kind, id, Some(id(path)), path + [i], i, r);
    p := [i] + rest;
    assert p[1..] == rest && path + [i] + rest == path + p;
  }

  ghost predicate InjectiveBelow(tree: Req, id: Path -> Id, path: Path) {
    forall p, q | NodeAt(tree, p).Some? && NodeAt(tree, q).Some? && id(path + p) == id(path + q) :: p == q
  }

  lemma InjectiveInto(tree: Req, id: Path -> Id, path: Path, i: nat)
    requires InjectiveBelow(tree, id, path) && i < |Items(tree)|
    ensures InjectiveBelow(Items(tree)[i], id, path + [i])
  {
    var child := Items(tree)[i];
    forall p, q | NodeAt(child, p).Some? && NodeAt(child, q).Some? && id(path + [i] + p) == id(path + [i] + q)
      ensures p == q {
      assert ([i] + p)[1..] == p && ([i] + q)[1..] == q;
      assert path + ([i] + p) == path + [i] + p && path + ([i] + q) == path + [i] + q;
      assert [i] + p == [i] + q;
    }
  }

  /** Distinct node ids make distinct rows. */
  lemma {:induction false} EmitDistinct(tree: Req, kind: Kind, id: Path -> Id, parent: Option<Id>, path: Path,
                                        position: nat)
    requires InjectiveBelow(tree, id, path)
    ensures DistinctIds(Emit(tree, kind, id, parent, path, position))
    decreases tree, 1
  {
    EmitItems(tree, kind, id, parent, path, position);
    var below := EmitAll(Items(tree), kind, id, path);
    if tree.AllOf? || tree.AnyOf? {
      EmitAllDistinct(tree, tree.items, kind, id, path);
    }
    forall j | 0 <= j < |below| ensures below[j].id != id(path) {
      assert below[j] in below;
      var i := EmitAllOnly(Items(tree), kind, id, path, below[j]);
      var p := ChildId(tree, kind, id, path, i, below[j]);
      assert path + [] == path && NodeAt(tree, []).Some?;
    }
  }

  lemma {:induction false} EmitAllDistinct(tree: Req, items: seq<Req>, kind: Kind, id: Path -> Id, path: Path)
    requires InjectiveBelow(tree, id, path) && items <= Items(tree)
    ensures DistinctIds(EmitAll(items, kind, id, path))
    decreases items, 0
  {
    if items != [] {
      var last := |items| - 1;
      EmitAllDistinct(tree, items[..last], kind, id, path);
      assert items[last] == Items(tree)[last];
      InjectiveInto(tree, id, path, last);
      EmitDistinct(items[last], kind, id, Some(id(path)), path + [last], last);
      var front := EmitAll(items[..last], kind, id, path);
      var back := Emit(items[last], kind, id, Some(id(path)), path + [last], last);
      forall a, b | a in front && b in back ensures a.id != b.id {
        SiblingsDiffer(tree, items, kind, id, path, a, b);
      }
    }
  }

  lemma SiblingsDiffer(tree: Req, items: seq<Req>, kind: Kind, id: Path -> Id, path: Path, a: Row, b: Row)
    requires InjectiveBelow(tree, id, path) && items <= Items(tree) && items != []
    requires a in EmitAll(items[..|items| - 1], kind, id, path)
    requires b in Emit(items[|items| - 1], kind, id, Some(id(path)), path + [|items| - 1], |items| - 1)
    ensures a.id != b.id
  {
    var last := |items| - 1;
    var i := EmitAllOnly(items[..last], kind, id, path, a);
    var p := ChildId(tree, kind, id, path, i, a);
    var q := ChildId(tree, kind, id, path, last, b);
  }

  // ---------------------------------------------------------------- written rows pass the checks

  /** The row written for the node at a path of the whole tree. */
  function At(tree: Req, kind: Kind, id: Path -> Id, q: Path): Row
    requires NodeAt(tree, q).Some?
  {
    RowFor(NodeAt(tree, q).value, id(q), kind, if q == [] then None else Some(id(q[..|q| - 1])),
           if q == [] then 0 else q[|q| - 1])
  }

  lemma AtIsRowAt(tree: Req, kind: Kind, id: Path -> Id, q: Path)
    requires NodeAt(tree, q).Some?
    ensures RowAt(tree, kind, id, None, [], 0, q) == At(tree, kind, id, q)
  {
    assert [] + q == q;
    if q != [] { assert [] + q[..|q| - 1] == q[..|q| - 1]; }
  }

  lemma AtIs(tree: Req, kind: Kind, id: Path -> Id, q: Path)
    requires NodeAt(tree, q).Some?
    ensures var row := At(tree, kind, id, q);
            && row == RowFor(NodeAt(tree, q).value, id(q), kind, row.parent, row.position)
            && row.id == id(q) && row.kind == kind
            && row.parent == (if q == [] then None else Some(id(q[..|q| - 1])))
            && row.position == if q == [] then 0 else q[|q| - 1]
  {
  }

  lemma WrittenRow(rows: seq<Row>, tree: Req, kind: Kind, id: Path -> Id, r: Row) returns (q: Path)
    requires FlattensAs(rows, tree, kind, id) && r in rows
    ensures NodeAt(tree, q).Some? && r == At(tree, kind, id, q)
  {
    assert r in multiset(rows);
    q := EmitOnly(tree, kind, id, None, [], 0, r);
    AtIsRowAt(tree, kind, id, q);
  }

  lemma WrittenHas(rows: seq<Row>, tree: Req, kind: Kind, id: Path -> Id, q: Path)
    requires FlattensAs(rows, tree, kind, id) && NodeAt(tree, q).Some?
    ensures At(tree, kind, id, q) in rows
  {
    EmitHas(tree, kind, id, None, [], 0, q);
    AtIsRowAt(tree, kind, id, q);
    assert At(tree, kind, id, q) in multiset(Emit(tree, kind, id, None, [], 0));
  }

  /** The nodes below a node are its members. */
  lemma {:induction false} NodeAtAppend(tree: Req, p: Path, i: nat)
    ensures NodeAt(tree, p + [i])
            == if NodeAt(tree, p).Some? && i < |Items(NodeAt(tree, p).value)| then Some(Items(NodeAt(tree, p).value)[i])
                else None
    decreases p
  {
    if p == [] {
      assert p + [i] == [i] && [i][1..] == [];
    } else {
      assert (p + [i])[1..] == p[1..] + [i];
      if p[0] < |Items(tree)| { NodeAtAppend(Items(tree)[p[0]], p[1..], i); }
    }
  }

  function KidsAt(tree: Req, kind: Kind, id: Path -> Id, p: Path): seq<Row>
    requires NodeAt(tree, p).Some?
  {
    var items := Items(NodeAt(tree, p).value);
    seq(|items|, i requires 0 <= i < |items| => RowFor(items[i], id(p + [i]), kind, Some(id(p)), i))
  }

  lemma KidAt(tree: Req, kind: Kind, id: Path -> Id, p: Path, i: nat)
    requires NodeAt(tree, p).Some? && i < |Items(NodeAt(tree, p).value)|
    ensures NodeAt(tree, p + [i]) == Some(Items(NodeAt(tree, p).value)[i])
    ensures At(tree, kind, id, p + [i]) == KidsAt(tree, kind, id, p)[i]
  {
    NodeAtAppend(tree, p, i);
    AtIs(tree, kind, id, p + [i]);
    assert (p + [i])[..|p|] == p;
  }

  lemma KidLinks(tree: Req, kind: Kind, id: Path -> Id, p: Path, i: nat)
    requires NodeAt(tree, p).Some? && i < |Items(NodeAt(tree, p).value)|
    ensures KidsAt(tree, kind, id, p)[i].parent == Some(id(p)) && KidsAt(tree, kind, id, p)[i].position == i
  {
    var item := Items(NodeAt(tree, p).value)[i];
    assert KidsAt(tree, kind, id, p)[i] == RowFor(item, id(p + [i]), kind, Some(id(p)), i);
  }

  /** A written row below p is one of the rows of its members. */
  lemma WrittenKid(rows: seq<Row>, tree: Req, kind: Kind, id: Path -> Id, p: Path, r: Row)
    requires FlattensAs(rows, tree, kind, id) && NodeAt(tree, p).Some?
    requires r in rows && r.parent == Some(id(p))
    ensures r in KidsAt(tree, kind, id, p)
  {
    var q := WrittenRow(rows, tree, kind, id, r);
    AtIs(tree, kind, id, q);
    var front, i := q[..|q| - 1], q[|q| - 1];
    assert q == front + [i];
    NodeAtAppend(tree, front, i);
    assert front == p;
    KidAt(tree, kind, id, p, i);
    assert r == KidsAt(tree, kind, id, p)[i];
  }

  lemma WrittenKids(rows: seq<Row>, tree: Req, kind: Kind, id: Path -> Id, p: Path)
    requires FlattensAs(rows, tree, kind, id) && NodeAt(tree, p).Some?
    ensures IsKids(rows, id(p), KidsAt(tree, kind, id, p))
  {
    var kids := KidsAt(tree, kind, id, p);
    hide FlattensAs, NodeAt;
    forall i | 0 <= i < |kids| ensures kids[i] in rows && kids[i].parent == Some(id(p)) && kids[i].position == i {
      KidLinks(tree, kind, id, p, i);
      KidAt(tree, kind, id, p, i);
      WrittenHas(rows, tree, kind, id, p + [i]);
    }
    forall r | r in rows && r.parent == Some(id(p)) ensures r in kids {
      WrittenKid(rows, tree, kind, id, p, r);
    }
  }

  lemma KidsUnique(rows: seq<Row>, p: Id, a: seq<Row>, b: seq<Row>)
    requires IsKids(rows, p, a) && IsKids(rows, p, b)
    ensures a == b
  {
    if a != [] { assert a[|a| - 1] in b; }
    if b != [] { assert b[|b| - 1] in a; }
    forall i | 0 <= i < |a| ensures a[i] == b[i] { assert a[i] in b; }
  }

  lemma WrittenHasKids(rows: seq<Row>, tree: Req, kind: Kind, id: Path -> Id, p: Id)
    requires FlattensAs(rows, tree, kind, id)
    ensures HasKids(rows, p)
  {
    if r :| r in rows && r.parent == Some(p) {
      var q := WrittenRow(rows, tree, kind, id, r);
      AtIs(tree, kind, id, q);
      var front, i := q[..|q| - 1], q[|q| - 1];
      assert q == front + [i];
      NodeAtAppend(tree, front, i);
      WrittenKids(rows, tree, kind, id, front);
    } else {
      assert IsKids(rows, p, []);
    }
  }

  lemma WrittenParents(rows: seq<Row>, tree: Req, kind: Kind, id: Path -> Id, r: Row)
    requires FlattensAs(rows, tree, kind, id) && r in rows
    ensures r.kind == kind && r.position >= 0
    ensures r.parent.None? ==> r == At(tree, kind, id, [])
    ensures r.parent.Some? ==> r.parent.value in IdSet(rows)
  {
    var q := WrittenRow(rows, tree, kind, id, r);
    AtIs(tree, kind, id, q);
    if q != [] {
      var front := q[..|q| - 1];
      assert q == front + [q[|q| - 1]];
      NodeAtAppend(tree, front, q[|q| - 1]);
      AtIs(tree, kind, id, front);
      WrittenHas(rows, tree, kind, id, front);
    }
  }

  lemma PermutedDistinct(a: seq<Row>, b: seq<Row>)
    requires multiset(a) == multiset(b) && DistinctIds(b)
    ensures DistinctIds(a) && |a| == |b|
  {
    assert |multiset(a)| == |a| && |multiset(b)| == |b|;
    forall i, j | 0 <= i < j < |a| ensures a[i].id != a[j].id {
      if a[i].id == a[j].id {
        assert a[i] in multiset(b) && a[j] in multiset(b);
        var k :| 0 <= k < |b| && b[k] == a[i];
        var m :| 0 <= m < |b| && b[m] == a[j];
        assert k == m;
        TwiceMeansTwice(a, i, j);
        OnceMeansOnce(b, k);
      }
    }
  }

  lemma TwiceMeansTwice(a: seq<Row>, i: nat, j: nat)
    requires i < j < |a| && a[i] == a[j]
    ensures multiset(a)[a[i]] >= 2
  {
    assert a == a[..j] + [a[j]] + a[j + 1..];
    assert a[..j][i] == a[i];
    assert a[i] in multiset(a[..j]);
  }

  lemma OnceMeansOnce(b: seq<Row>, k: nat)
    requires DistinctIds(b) && k < |b|
    ensures multiset(b)[b[k]] == 1
  {
    var front, back := b[..k], b[k + 1..];
    assert b == front + [b[k]] + back;
    assert b[k] !in front && b[k] !in back;
    assert multiset(b) == multiset(front) + multiset{b[k]} + multiset(back);
    assert b[k] !in multiset(front) && b[k] !in multiset(back);
  }

  /** The rows written for a tree pass every check made before they are read. */
  lemma WrittenPasses(rows: seq<Row>, tree: Req, kind: Kind, id: Path -> Id)
    requires FlattensAs(rows, tree, kind, id)
    ensures OneKind(rows) && DistinctIds(rows) && ParentsPresent(rows)
    ensures IsRoot(rows, At(tree, kind, id, [])) && |rows| == |Emit(tree, kind, id, None, [], 0)|
    ensures forall r <- rows :: r.position >= 0
    ensures forall p: Id :: HasKids(rows, p)
  {
    assert InjectiveBelow(tree, id, []) by {
      forall p, q | NodeAt(tree, p).Some? && NodeAt(tree, q).Some? && id([] + p) == id([] + q) ensures p == q {
        assert [] + p == p && [] + q == q;
      }
    }
    EmitDistinct(tree, kind, id, None, [], 0);
    PermutedDistinct(rows, Emit(tree, kind, id, None, [], 0));
    WrittenHas(rows, tree, kind, id, []);
    AtIs(tree, kind, id, []);
    forall r | r in rows
      ensures r.kind == kind && r.position >= 0 && (r.parent.None? ==> r == At(tree, kind, id, []))
              && (r.parent.Some? ==> r.parent.value in IdSet(rows))
    {
      WrittenParents(rows, tree, kind, id, r);
    }
    forall p: Id ensures HasKids(rows, p) { WrittenHasKids(rows, tree, kind, id, p); }
  }

  // ---------------------------------------------------------------- and spell out their tree

  lemma KidsAreWritten(rows: seq<Row>, children: Children, tree: Req, kind: Kind, id: Path -> Id, p: Path)
    requires FlattensAs(rows, tree, kind, id) && ChildrenOk(rows, children) && NodeAt(tree, p).Some?
    ensures Kids(children, id(p)) == KidsAt(tree, kind, id, p)
  {
    WrittenKids(rows, tree, kind, id, p);
    KidsUnique(rows, id(p), Kids(children, id(p)), KidsAt(tree, kind, id, p));
  }

  lemma EncodesWhen(children: Children, row: Row, tree: Req, kids: seq<Row>)
    requires row == RowFor(tree, row.id, row.kind, row.parent, row.position) && Kids(children, row.id) == kids
    requires |kids| == |Items(tree)| && forall i :: 0 <= i < |kids| ==> Encodes(children, kids[i], Items(tree)[i])
    ensures Encodes(children, row, tree)
  {
  }

  /** Rows written for a tree spell it out. */
  lemma {:induction false} WrittenEncodes(rows: seq<Row>, children: Children, tree: Req, kind: Kind, id: Path -> Id,
                                          p: Path)
    requires FlattensAs(rows, tree, kind, id) && ChildrenOk(rows, children) && NodeAt(tree, p).Some?
    ensures Encodes(children, At(tree, kind, id, p), NodeAt(tree, p).value)
    decreases NodeAt(tree, p).value
  {
    var node, kids := NodeAt(tree, p).value, KidsAt(tree, kind, id, p);
    AtIs(tree, kind, id, p);
    KidsAreWritten(rows, children, tree, kind, id, p);
    forall i | 0 <= i < |kids| ensures Encodes(children, kids[i], Items(node)[i]) {
      KidAt(tree, kind, id, p, i);
      WrittenEncodes(rows, children, tree, kind, id, p + [i]);
    }
    EncodesWhen(children, At(tree, kind, id, p), node, kids);
  }

  /** What is written from a path on, when the rows below a row spell the node there out. */
  ghost predicate WritesBelow(children: Children, row: Row, tree: Req, kind: Kind, id: Path -> Id, path: Path) {
    forall q {:trigger NodeAt(tree, q)} | NodeAt(tree, q).Some? :: id(path + q) == Follow(children, row, q).id
  }

  /** The row reached by following child positions. */
  ghost function Follow(children: Children, row: Row, q: Path): Row
    decreases q
  {
    if q == [] then row
    else if q[0] < |Kids(children, row.id)| then Follow(children, Kids(children, row.id)[q[0]], q[1..]) else row
  }

  ghost predicate KidsLinked(children: Children, kind: Kind) {
    forall p: Id, i: nat {:trigger Kids(children, p)[i]} | i < |Kids(children, p)| ::
      && Kids(children, p)[i].parent == Some(p) && Kids(children, p)[i].position == i
          && Kids(children, p)[i].kind == kind
  }

  lemma WritesInto(children: Children, row: Row, tree: Req, kind: Kind, id: Path -> Id, path: Path, i: nat)
    requires WritesBelow(children, row, tree, kind, id, path) && i < |Items(tree)| == |Kids(children, row.id)|
    ensures WritesBelow(children, Kids(children, row.id)[i], Items(tree)[i], kind, id, path + [i])
  {
    var kid, child := Kids(children, row.id)[i], Items(tree)[i];
    forall q | NodeAt(child, q).Some? ensures id((path + [i]) + q) == Follow(children, kid, q).id {
      PathStep(path, i, q);
      assert NodeAt(tree, [i] + q) == NodeAt(child, q);
      assert Follow(children, row, [i] + q) == Follow(children, kid, q);
    }
  }

  /** Rows that spell out a tree are the rows written for it, named by where they are. */
  lemma {:induction false} EncodedIsWritten(children: Children, row: Row, tree: Req, kind: Kind, id: Path -> Id,
                                            path: Path)
    requires Encodes(children, row, tree) && KidsLinked(children, kind) && row.kind == kind && row.position >= 0
    requires WritesBelow(children, row, tree, kind, id, path)
    ensures RowsOf(children, row, tree) == Emit(tree, kind, id, row.parent, path, row.position)
    decreases tree, 1
  {
    assert NodeAt(tree, []).Some? && path + [] == path;
    assert id(path) == row.id;
    RowsOfItems(children, row, tree);
    EmitItems(tree, kind, id, row.parent, path, row.position);
    if tree.AllOf? || tree.AnyOf? {
      assert Items(tree) == tree.items && Kids(children, row.id)[..|tree.items|] == Kids(children, row.id);
      EncodedAllWritten(children, row, tree, tree.items, kind, id, path);
    }
  }

  lemma {:induction false} EncodedAllWritten(children: Children, row: Row, tree: Req, items: seq<Req>, kind: Kind,
                                             id: Path -> Id, path: Path)
    requires Encodes(children, row, tree) && KidsLinked(children, kind)
    requires WritesBelow(children, row, tree, kind, id, path) && id(path) == row.id
    requires items <= Items(tree)
    ensures RowsOfAll(children, Kids(children, row.id)[..|items|], items) == EmitAll(items, kind, id, path)
    decreases items, 0
  {
    if items != [] {
      var last := |items| - 1;
      var kids := Kids(children, row.id)[..|items|];
      EncodedAllWritten(children, row, tree, items[..last], kind, id, path);
      assert kids[..last] == Kids(children, row.id)[..last];
      assert kids[last] == Kids(children, row.id)[last] && items[last] == Items(tree)[last];
      WritesInto(children, row, tree, kind, id, path, last);
      hide WritesBelow, NodeAt, Encodes, RowsOf, Emit;
      EncodedIsWritten(children, kids[last], items[last], kind, id, path + [last]);
    }
  }
}
