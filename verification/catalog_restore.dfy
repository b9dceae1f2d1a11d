/** Storing a tree node by node, and reading rows back as a tree or rejecting them. */
module CatalogRestore {
  import opened Requirements
  import opened RequirementLoops
  import opened CatalogTrees
  import opened CatalogProofs
  import opened CatalogMeaning

  // ---------------------------------------------------------------- writing

  lemma EmitAllNext(items: seq<Req>, kind: Kind, id: Path -> Id, path: Path, index: nat)
    requires index < |items|
    ensures EmitAll(items[..index + 1], kind, id, path)
            == EmitAll(items[..index], kind, id, path) + Emit(items[index], kind, id, Some(id(path)), path + [index],
                                                              index)
  {
    assert items[..index + 1][..index] == items[..index];
  }

  lemma Regroup(a: seq<Row>, b: seq<Row>, c: seq<Row>)
    ensures (a + b) + c == a + (b + c)
  {
  }

  class NodeStore {
    var rows: seq<Row>

    constructor ()
      ensures rows == []
    {
      rows := [];
    }

    /** Append the row of a node, then those of its members in order. */
    method WriteNode(node: Req, kind: Kind, id: Path -> Id, parent: Option<Id>, path: Path, position: nat)
      modifies this
      ensures rows == old(rows) + Emit(node, kind, id, parent, path, position)
      decreases node, 1
    {
      rows := rows + [RowFor(node, id(path), kind, parent, position)];
      if node.AllOf? || node.AnyOf? {
        WriteMembers(node.items, kind, id, path);
      }
    }

    method WriteMembers(items: seq<Req>, kind: Kind, id: Path -> Id, path: Path)
      modifies this
      ensures rows == old(rows) + EmitAll(items, kind, id, path)
      decreases items, 0
    {
      var index := 0;
      ghost var written := [];
      assert items[..0] == [] && rows + written == rows;
      while index < |items|
        invariant index <= |items| && rows == old(rows) + written && written == EmitAll(items[..index], kind, id, path)
      {
        EmitAllNext(items, kind, id, path, index);
        WriteNode(items[index], kind, id, Some(id(path)), path + [index], index);
        ghost var more := Emit(items[index], kind, id, Some(id(path)), path + [index], index);
        Regroup(old(rows), written, more);
        written := written + more;
        index := index + 1;
      }
      assert items[..index] == items;
    }

    /** Append the rows of a tree. */
    method InsertNodes(kind: Kind, tree: Req, id: Path -> Id)
      modifies this
      ensures rows == old(rows) + Emit(tree, kind, id, None, [], 0)
    {
      WriteNode(tree, kind, id, None, [], 0);
    }
  }

  // ---------------------------------------------------------------- checks before reading

  lemma {:induction false} CountDistinct(a: seq<Row>)
    ensures |IdSet(a)| <= |a|
    ensures |IdSet(a)| == |a| <==> DistinctIds(a)
  {
    if a != [] {
      var last := |a| - 1;
      var front := a[..last];
      CountDistinct(front);
      assert a == front + [a[last]];
      assert IdSet(a) == IdSet(front) + {a[last].id};
      if DistinctIds(a) {
        DistinctCount(a);
      } else if a[last].id in IdSet(front) {
        assert IdSet(a) == IdSet(front);
      } else {
        assert !DistinctIds(front);
      }
    }
  }

  function Roots(rows: seq<Row>): seq<Row> {
    if rows == [] then []
    else Roots(rows[..|rows| - 1]) + if rows[|rows| - 1].parent.None? then [rows[|rows| - 1]] else []
  }

  lemma {:induction false} RootsMembers(rows: seq<Row>, r: Row)
    ensures r in Roots(rows) <==> r in rows && r.parent.None?
  {
    if rows != [] {
      RootsMembers(rows[..|rows| - 1], r);
      assert rows == rows[..|rows| - 1] + [rows[|rows| - 1]];
    }
  }

  lemma {:induction false} RootsDistinct(rows: seq<Row>)
    requires DistinctIds(rows)
    ensures DistinctIds(Roots(rows))
  {
    if rows != [] {
      var front := rows[..|rows| - 1];
      RootsDistinct(front);
      forall r | r in Roots(front) ensures r.id != rows[|rows| - 1].id {
        RootsMembers(front, r);
      }
    }
  }

  /** There is exactly one root row when the filter finds exactly one. */
  lemma OneRoot(rows: seq<Row>, root: Row)
    requires DistinctIds(rows)
    ensures IsRoot(rows, root) <==> Roots(rows) == [root]
  {
    RootsDistinct(rows);
    forall r ensures r in Roots(rows) <==> r in rows && r.parent.None? { RootsMembers(rows, r); }
    if IsRoot(rows, root) {
      var roots := Roots(rows);
      assert root in roots;
      forall i | 0 <= i < |roots| ensures roots[i] == root { assert roots[i] in roots; }
      assert IdSet(roots) == {root.id};
      DistinctCount(roots);
    }
    if Roots(rows) == [root] {
      assert root in Roots(rows);
      forall r | r in rows && r.parent.None? ensures r == root { assert r in Roots(rows); }
    }
  }

  function ChildRows(rows: seq<Row>, p: Id): seq<Row> {
    if rows == [] then []
    else ChildRows(rows[..|rows| - 1], p) + if rows[|rows| - 1].parent == Some(p) then [rows[|rows| - 1]] else []
  }

  lemma {:induction false} ChildRowsMembers(rows: seq<Row>, p: Id, r: Row)
    ensures r in ChildRows(rows, p) <==> r in rows && r.parent == Some(p)
  {
    if rows != [] {
      ChildRowsMembers(rows[..|rows| - 1], p, r);
      assert rows == rows[..|rows| - 1] + [rows[|rows| - 1]];
    }
  }

  lemma {:induction false} ChildRowsDistinct(rows: seq<Row>, p: Id)
    requires DistinctIds(rows)
    ensures DistinctIds(ChildRows(rows, p))
  {
    if rows != [] {
      var front := rows[..|rows| - 1];
      ChildRowsDistinct(front, p);
      forall r | r in ChildRows(front, p) ensures r.id != rows[|rows| - 1].id {
        ChildRowsMembers(front, p, r);
      }
    }
  }

  ghost predicate Grouped(children: Children, rows: seq<Row>) {
    forall p: Id {:trigger Kids(children, p)} :: Kids(children, p) == ChildRows(rows, p)
  }

  predicate Placeable(ids: set<Id>, r: Row) { r.position >= 0 && (r.parent.Some? ==> r.parent.value in ids) }

  lemma GroupOne(children: Children, rows: seq<Row>, i: nat)
    requires i < |rows| && Grouped(children, rows[..i])
    ensures rows[i].parent.None? ==> Grouped(children, rows[..i + 1])
    ensures rows[i].parent.Some? ==>
              Grouped(children[rows[i].parent.value := Kids(children, rows[i].parent.value) + [rows[i]]], rows[..i + 1])
  {
    assert rows[..i + 1][..i] == rows[..i];
    forall p: Id ensures ChildRows(rows[..i + 1], p) == Kids(children, p) + if rows[i].parent == Some(p) then [rows[i]]
        else [] {
      assert Kids(children, p) == ChildRows(rows[..i], p);
    }
  }

  /** Group the rows by parent, rejecting negative positions and unknown parents. */
  method GroupByParent(rows: seq<Row>) returns (grouped: Option<Children>)
    ensures grouped.Some? <==> forall i :: 0 <= i < |rows| ==> Placeable(IdSet(rows), rows[i])
    ensures grouped.Some? ==> Grouped(grouped.value, rows)
  {
    var children: Children := map[];
    var ids := IdSet(rows);
    var i := 0;
    while i < |rows|
      invariant i <= |rows|
      invariant forall j :: 0 <= j < i ==> Placeable(ids, rows[j])
      invariant Grouped(children, rows[..i])
    {
      if !Placeable(ids, rows[i]) { return None; }
      GroupOne(children, rows, i);
      if rows[i].parent.Some? {
        var p := rows[i].parent.value;
        children := children[p := Kids(children, p) + [rows[i]]];
      }
      i := i + 1;
    }
    assert rows[..i] == rows;
    grouped := Some(children);
  }

  // ---------------------------------------------------------------- children in order

  predicate RowLeq(a: Row, b: Row) { a.position < b.position || (a.position == b.position && a.id <= b.id) }

  function InsertRow(sorted: seq<Row>, r: Row): seq<Row> {
    if sorted == [] then [r]
    else if RowLeq(r, sorted[0]) then [r] + sorted
    else [sorted[0]] + InsertRow(sorted[1..], r)
  }

  function SortRows(rows: seq<Row>): seq<Row> {
    if rows == [] then [] else InsertRow(SortRows(rows[1..]), rows[0])
  }

  ghost predicate Ordered(rows: seq<Row>) {
    forall i, j :: 0 <= i < j < |rows| ==> rows[i].position <= rows[j].position
  }

  lemma {:induction false} InsertRowKeeps(sorted: seq<Row>, r: Row)
    ensures multiset(InsertRow(sorted, r)) == multiset(sorted) + multiset{r}
  {
    if sorted != [] && !RowLeq(r, sorted[0]) {
      InsertRowKeeps(sorted[1..], r);
      assert sorted == [sorted[0]] + sorted[1..];
    }
  }

  lemma {:induction false} InsertRowMembers(sorted: seq<Row>, r: Row, x: Row)
    requires x in InsertRow(sorted, r)
    ensures x in sorted || x == r
  {
    InsertRowKeeps(sorted, r);
    assert x in multiset(InsertRow(sorted, r));
  }

  lemma {:induction false} InsertRowOrdered(sorted: seq<Row>, r: Row)
    requires Ordered(sorted)
    ensures Ordered(InsertRow(sorted, r))
  {
    if sorted != [] && !RowLeq(r, sorted[0]) {
      var rest := InsertRow(sorted[1..], r);
      InsertRowOrdered(sorted[1..], r);
      forall j | 0 <= j < |rest| ensures sorted[0].position <= rest[j].position {
        InsertRowMembers(sorted[1..], r, rest[j]);
        if rest[j] != r {
          var k :| 0 <= k < |sorted[1..]| && sorted[1..][k] == rest[j];
          assert sorted[k + 1] == rest[j];
        }
      }
    }
  }

  lemma {:induction false} SortRowsMeaning(rows: seq<Row>)
    ensures multiset(SortRows(rows)) == multiset(rows) && Ordered(SortRows(rows))
  {
    if rows != [] {
      SortRowsMeaning(rows[1..]);
      InsertRowKeeps(SortRows(rows[1..]), rows[0]);
      InsertRowOrdered(SortRows(rows[1..]), rows[0]);
      assert rows == [rows[0]] + rows[1..];
    }
  }

  predicate Counts(rows: seq<Row>) { forall i :: 0 <= i < |rows| ==> rows[i].position == i }

  lemma SamePosition(kids: seq<Row>)
    requires Counts(kids)
    ensures forall a, b | a in kids && b in kids && a.position == b.position :: a == b
  {
  }

  /** Sorted children that are the ones at positions 0, 1, ... count up from 0. */
  lemma {:induction false} SortedCount(sorted: seq<Row>, kids: seq<Row>, i: nat)
    requires DistinctIds(sorted) && Ordered(sorted) && i < |sorted| && Counts(kids)
    requires (forall r <- sorted :: r in kids) && forall r <- kids :: r in sorted
    ensures sorted[i].position == i
    decreases i
  {
    var row := sorted[i];
    assert row in sorted;
    var m :| 0 <= m < |kids| && kids[m] == row;
    SamePosition(kids);
    if m < i {
      SortedCount(sorted, kids, m);
    } else {
      assert kids[i] in sorted;
      var k :| 0 <= k < |sorted| && sorted[k] == kids[i];
      if k < i { SortedCount(sorted, kids, k); }
    }
  }

  /** Sorting a parent's rows and finding positions 0, 1, ... is finding its children in order. */
  lemma SortedAreKids(rows: seq<Row>, p: Id, sorted: seq<Row>)
    requires DistinctIds(rows) && sorted == SortRows(ChildRows(rows, p))
    ensures Counts(sorted) ==> IsKids(rows, p, sorted)
    ensures HasKids(rows, p) ==> Counts(sorted)
  {
    SortRowsMeaning(ChildRows(rows, p));
    ChildRowsDistinct(rows, p);
    PermutedDistinct(sorted, ChildRows(rows, p));
    forall r ensures r in sorted <==> r in rows && r.parent == Some(p) {
      ChildRowsMembers(rows, p, r);
      assert r in sorted <==> r in multiset(sorted);
      assert r in ChildRows(rows, p) <==> r in multiset(ChildRows(rows, p));
    }
    if Counts(sorted) {
      forall i | 0 <= i < |sorted|
        ensures sorted[i] in rows && sorted[i].parent == Some(p) { assert sorted[i] in sorted; }
    }
    if kids :| IsKids(rows, p, kids) {
      forall r | r in kids ensures r in sorted { assert r in rows; }
      forall i | 0 <= i < |sorted| ensures sorted[i].position == i { SortedCount(sorted, kids, i); }
    }
  }

  /** Sort each parent's rows, rejecting gaps and repeats in their positions. */
  method SortChildren(rows: seq<Row>, grouped: Children) returns (children: Option<Children>)
    requires DistinctIds(rows) && Grouped(grouped, rows)
    ensures children.Some? ==> ChildrenOk(rows, children.value)
    ensures children.None? ==> exists p: Id :: !HasKids(rows, p)
  {
    var sorted: Children := map[];
    var remaining := grouped.Keys;
    while remaining != {}
      invariant remaining <= grouped.Keys && forall p <- sorted :: p in grouped
      invariant forall p <- grouped :: p in remaining || (p in sorted && IsKids(rows, p, sorted[p]))
      decreases |remaining|
    {
      var p :| p in remaining;
      remaining := remaining - {p};
      assert Kids(grouped, p) == ChildRows(rows, p);
      var values := SortRows(grouped[p]);
      SortedAreKids(rows, p, values);
      if !Counts(values) { return None; }
      sorted := sorted[p := values];
    }
    forall p: Id ensures IsKids(rows, p, Kids(sorted, p)) {
      if p !in grouped {
        assert Kids(grouped, p) == [];
        forall r | r in rows && r.parent == Some(p) ensures r in Kids(sorted, p) { ChildRowsMembers(rows, p, r); }
      }
    }
    children := Some(sorted);
  }
}
