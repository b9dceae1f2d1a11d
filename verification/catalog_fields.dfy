/** Stored requisites field by field: which row stands for which node of a tree, and which trees may be
    restored. */
module CatalogFields {
  import opened Requirements
  import opened RequirementLoops
  import opened TreeSizes
  import opened CatalogTrees
  import opened CatalogProofs

  // ---------------------------------------------------------------- one row for each node

  /** What a row keeps of the node itself. */
  predicate Keeps(row: Row, node: Req) {
    match node
    case CourseRef(code) => row.nodeType == CourseNode && row.target == Some(code) && row.text == None
    case Condition(text) => row.nodeType == ConditionNode && row.target == None && row.text == Some(text)
    case AllOf(_) => row.nodeType == AllNode && row.target == None && row.text == None
    case AnyOf(_) => row.nodeType == AnyNode && row.target == None && row.text == None
  }

  /** The row stands for the node at this path: under its own identifier, below its parent's, and at its
      place among the children. */
  ghost predicate StandsFor(row: Row, tree: Req, kind: Kind, id: Path -> Id, q: Path) {
    && NodeAt(tree, q).Some? && Keeps(row, NodeAt(tree, q).value)
    && row.id == id(q) && row.kind == kind
    && if q == [] then row.parent == None && row.position == 0
       else row.parent == Some(id(q[..|q| - 1])) && row.position == q[|q| - 1]
  }

  ghost predicate SomeNode(row: Row, tree: Req, kind: Kind, id: Path -> Id) {
    exists q :: StandsFor(row, tree, kind, id, q)
  }

  ghost predicate SomeRow(rows: seq<Row>, tree: Req, kind: Kind, id: Path -> Id, q: Path) {
    exists row <- rows :: StandsFor(row, tree, kind, id, q)
  }

  ghost predicate Apart(rows: seq<Row>) { forall i, j :: 0 <= i < j < |rows| ==> rows[i] != rows[j] }

  /** One row for each node of the tree, and no other rows. */
  ghost predicate HoldsRows(rows: seq<Row>, tree: Req, kind: Kind, id: Path -> Id) {
    && (forall q | NodeAt(tree, q).Some? :: SomeRow(rows, tree, kind, id, q))
    && (forall row <- rows :: SomeNode(row, tree, kind, id))
    && Apart(rows)
  }

  lemma StandsForOne(row: Row, tree: Req, kind: Kind, id: Path -> Id, q: Path)
    requires NodeAt(tree, q).Some?
    ensures StandsFor(row, tree, kind, id, q) <==> row == RowAt(tree, kind, id, None, [], 0, q)
  {
    hide NodeAt, Keeps, RowFor;
    assert [] + q == q;
    if q == [] {
      TopNode(tree);
      KeepsMeaning(row, tree, id(q), kind, None, 0);
    } else {
      assert [] + q[..|q| - 1] == q[..|q| - 1];
      KeepsMeaning(row, NodeAt(tree, q).value, id(q), kind, Some(id(q[..|q| - 1])), q[|q| - 1]);
    }
  }

  lemma TopNode(tree: Req)
    ensures NodeAt(tree, []) == Some(tree)
  {
  }

  lemma KeepsMeaning(row: Row, node: Req, id: Id, kind: Kind, parent: Option<Id>, position: int)
    ensures row == RowFor(node, id, kind, parent, position)
            <==> Keeps(row, node) && row.id == id && row.kind == kind && row.parent == parent
                 && row.position == position
  {
  }

  lemma WrittenRows(tree: Req, kind: Kind, id: Path -> Id, row: Row)
    ensures row in Emit(tree, kind, id, None, [], 0) <==> SomeNode(row, tree, kind, id)
  {
    if row in Emit(tree, kind, id, None, [], 0) {
      var q := EmitOnly(tree, kind, id, None, [], 0, row);
      StandsForOne(row, tree, kind, id, q);
    }
    if q :| StandsFor(row, tree, kind, id, q) {
      EmitHas(tree, kind, id, None, [], 0, q);
      StandsForOne(row, tree, kind, id, q);
    }
  }

  lemma {:induction false} OnceEach(rows: seq<Row>, row: Row)
    requires Apart(rows)
    ensures multiset(rows)[row] == if row in rows then 1 else 0
  {
    if rows != [] {
      var last := |rows| - 1;
      assert rows == rows[..last] + [rows[last]];
      OnceEach(rows[..last], row);
    }
  }

  lemma SameMultiset(a: seq<Row>, b: seq<Row>)
    requires Apart(a)
    requires Apart(b)
    requires forall row :: row in a <==> row in b
    ensures multiset(a) == multiset(b)
  {
    forall row ensures multiset(a)[row] == multiset(b)[row] {
      OnceEach(a, row);
      OnceEach(b, row);
    }
  }

  lemma WrittenApart(tree: Req, kind: Kind, id: Path -> Id)
    requires InjectiveOn(tree, id)
    ensures Apart(Emit(tree, kind, id, None, [], 0))
  {
    forall p, q | NodeAt(tree, p).Some? && NodeAt(tree, q).Some? && id([] + p) == id([] + q) ensures p == q {
      assert [] + p == p && [] + q == q;
    }
    EmitDistinct(tree, kind, id, None, [], 0);
  }

  lemma {:induction false} ManyOfOne(rows: seq<Row>, i: nat, j: nat)
    requires i < j < |rows| && rows[i] == rows[j]
    ensures multiset(rows)[rows[i]] >= 2
  {
    assert rows == rows[..j] + [rows[j]] + rows[j + 1..];
    assert rows[..j][i] == rows[i] && rows[i] in rows[..j];
  }

  /** The rows of a tree, in any order, are one row for each of its nodes. */
  lemma FlattensMeaning(rows: seq<Row>, tree: Req, kind: Kind, id: Path -> Id)
    ensures FlattensAs(rows, tree, kind, id)
            <==> kind != UnknownKind && InjectiveOn(tree, id) && HoldsRows(rows, tree, kind, id)
  {
    if InjectiveOn(tree, id) {
      var written := Emit(tree, kind, id, None, [], 0);
      WrittenApart(tree, kind, id);
      hide StandsFor, Emit, InjectiveOn, Apart;
      forall row ensures row in written <==> SomeNode(row, tree, kind, id) {
        WrittenRows(tree, kind, id, row);
      }
      if multiset(rows) == multiset(written) { RowsHold(rows, written, tree, kind, id); }
      if HoldsRows(rows, tree, kind, id) { HeldAreWritten(rows, written, tree, kind, id); }
    }
  }

  lemma RowsHold(rows: seq<Row>, written: seq<Row>, tree: Req, kind: Kind, id: Path -> Id)
    requires multiset(rows) == multiset(written)
    requires Apart(written)
    requires forall row :: row in written <==> SomeNode(row, tree, kind, id)
    ensures HoldsRows(rows, tree, kind, id)
  {
    forall row ensures row in rows <==> row in written {
      assert row in rows <==> row in multiset(rows);
      assert row in written <==> row in multiset(written);
    }
    forall q | NodeAt(tree, q).Some? ensures SomeRow(rows, tree, kind, id, q) {
      var row := RowAt(tree, kind, id, None, [], 0, q);
      StandsForOne(row, tree, kind, id, q);
      assert row in written;
    }
    forall i, j | 0 <= i < j < |rows| ensures rows[i] != rows[j] {
      OnceEach(written, rows[i]);
      if rows[i] == rows[j] { ManyOfOne(rows, i, j); }
    }
  }

  lemma HeldAreWritten(rows: seq<Row>, written: seq<Row>, tree: Req, kind: Kind, id: Path -> Id)
    requires HoldsRows(rows, tree, kind, id)
    requires Apart(written)
    requires forall row :: row in written <==> SomeNode(row, tree, kind, id)
    ensures multiset(rows) == multiset(written)
  {
    hide Apart;
    forall row ensures row in rows <==> row in written {
      if row in written { HeldRow(rows, tree, kind, id, row); }
    }
    SameMultiset(rows, written);
  }

  lemma HeldRow(rows: seq<Row>, tree: Req, kind: Kind, id: Path -> Id, row: Row)
    requires HoldsRows(rows, tree, kind, id) && SomeNode(row, tree, kind, id)
    ensures row in rows
  {
    var q :| StandsFor(row, tree, kind, id, q);
    assert SomeRow(rows, tree, kind, id, q);
    var other :| other in rows && StandsFor(other, tree, kind, id, q);
    StandsForOne(row, tree, kind, id, q);
    StandsForOne(other, tree, kind, id, q);
  }

  // ---------------------------------------------------------------- the trees that may be restored

  /** A node that may stand in a restored tree: a leaf that is not blank, a group of two or more. */
  ghost predicate SoundNode(node: Req, blank: Word -> bool) {
    match node
    case CourseRef(code) => !blank(code)
    case Condition(text) => !blank(text)
    case AllOf(items) => |items| >= 2
    case AnyOf(items) => |items| >= 2
  }

  /** Every node of the tree is sound, and none is deeper than there is room for. */
  ghost predicate SoundWithin(tree: Req, room: int, blank: Word -> bool) {
    forall q | NodeAt(tree, q).Some? :: |q| < room && SoundNode(NodeAt(tree, q).value, blank)
  }

  lemma ItemNode(tree: Req, i: nat, rest: Path)
    requires i < |Items(tree)|
    ensures NodeAt(tree, [i] + rest) == NodeAt(Items(tree)[i], rest)
  {
    assert ([i] + rest)[0] == i && ([i] + rest)[1..] == rest;
  }

  lemma SoundItems(tree: Req, room: int, blank: Word -> bool)
    ensures SoundWithin(tree, room, blank)
            <==> && room > 0 && SoundNode(tree, blank)
                 && forall i: nat | i < |Items(tree)| :: SoundWithin(Items(tree)[i], room - 1, blank)
  {
    if SoundWithin(tree, room, blank) {
      assert NodeAt(tree, []) == Some(tree);
      forall i: nat | i < |Items(tree)| ensures SoundWithin(Items(tree)[i], room - 1, blank) {
        forall q | NodeAt(Items(tree)[i], q).Some?
          ensures |q| < room - 1 && SoundNode(NodeAt(Items(tree)[i], q).value, blank)
        {
          ItemNode(tree, i, q);
        }
      }
    }
    if room > 0 && SoundNode(tree, blank)
       && forall i: nat | i < |Items(tree)| :: SoundWithin(Items(tree)[i], room - 1, blank)
    {
      forall q | NodeAt(tree, q).Some? ensures |q| < room && SoundNode(NodeAt(tree, q).value, blank) {
        if q != [] {
          assert q == [q[0]] + q[1..];
          ItemNode(tree, q[0], q[1..]);
          assert SoundWithin(Items(tree)[q[0]], room - 1, blank);
        }
      }
    }
  }

  lemma FitsItems(tree: Req, room: nat, blank: Word -> bool)
    ensures Fits(tree, room, blank)
            <==> && room > 0 && SoundNode(tree, blank)
                 && forall i: nat | i < |Items(tree)| :: Fits(Items(tree)[i], room - 1, blank)
  {
    if Fits(tree, room, blank) {
      forall i: nat | i < |Items(tree)| ensures Fits(Items(tree)[i], room - 1, blank) {
        assert tree.items[i] == Items(tree)[i];
      }
    }
    if room > 0 && forall i: nat | i < |Items(tree)| :: Fits(Items(tree)[i], room - 1, blank) {
      forall i | 0 <= i < |Items(tree)| ensures Fits(tree.items[i], room - 1, blank) {
        assert tree.items[i] == Items(tree)[i];
      }
    }
  }

  lemma {:induction false} FitsIsSound(tree: Req, room: nat, blank: Word -> bool)
    ensures Fits(tree, room, blank) <==> SoundWithin(tree, room, blank)
    decreases tree
  {
    SoundItems(tree, room, blank);
    FitsItems(tree, room, blank);
    hide SoundWithin, Fits;
    if room > 0 {
      forall i: nat | i < |Items(tree)|
        ensures Fits(Items(tree)[i], room - 1, blank) <==> SoundWithin(Items(tree)[i], room - 1, blank)
      {
        FitsIsSound(Items(tree)[i], room - 1, blank);
      }
    }
  }

  /** The trees that may be restored: at most 64 levels and 2000 nodes, groups of two or more, and no
      blank leaf. */
  lemma RestorableMeaning(tree: Req, blank: Word -> bool)
    ensures Restorable(tree, blank) <==> SoundWithin(tree, 64, blank) && Nodes(tree) <= 2000
  {
    FitsIsSound(tree, 64, blank);
    PreorderNodes(tree);
  }
}
