/** Requisite trees as stored rows: how a tree is written, one row per node, and what it means for
    rows to hold a tree. */
module CatalogTrees {
  import opened Requirements
  import opened RequirementLoops

  type Id = nat

  /** A node's place in its tree: the child positions on the way to it. */
  type Path = seq<nat>

  datatype Kind = Prerequisite | Corequisite | Recommended | UnknownKind

  datatype NodeType = CourseNode | ConditionNode | AllNode | AnyNode | UnknownNode

  datatype Row = Row(id: Id, kind: Kind, parent: Option<Id>, position: int, nodeType: NodeType,
                     target: Option<Word>, text: Option<Word>)

  /** The row of a tree's top node. */
  function RowFor(tree: Req, id: Id, kind: Kind, parent: Option<Id>, position: int): Row {
    match tree
    case CourseRef(code) => Row(id, kind, parent, position, CourseNode, Some(code), None)
    case Condition(text) => Row(id, kind, parent, position, ConditionNode, None, Some(text))
    case AllOf(_) => Row(id, kind, parent, position, AllNode, None, None)
    case AnyOf(_) => Row(id, kind, parent, position, AnyNode, None, None)
  }

  /** The rows written for a tree; a node's id is derived from its path. */
  function Emit(tree: Req, kind: Kind, id: Path -> Id, parent: Option<Id>, path: Path, position: nat): seq<Row>
    decreases tree, 0
  {
    match tree
    case AllOf(items) => [RowFor(tree, id(path), kind, parent, position)] + EmitAll(items, kind, id, path)
    case AnyOf(items) => [RowFor(tree, id(path), kind, parent, position)] + EmitAll(items, kind, id, path)
    case _ => [RowFor(tree, id(path), kind, parent, position)]
  }

  function EmitAll(items: seq<Req>, kind: Kind, id: Path -> Id, path: Path): seq<Row>
    decreases items, 0
  {
    if items == [] then []
    else
      var last := |items| - 1;
      EmitAll(items[..last], kind, id, path) + Emit(items[last], kind, id, Some(id(path)), path + [last], last)
  }

  /** The subtree at a path. */
  function NodeAt(tree: Req, path: Path): Option<Req>
    decreases path
  {
    if path == [] then Some(tree)
    else if path[0] < |Items(tree)| then NodeAt(Items(tree)[path[0]], path[1..]) else None
  }

  /** No two nodes of the tree get the same id. */
  ghost predicate InjectiveOn(tree: Req, id: Path -> Id) {
    forall p, q | NodeAt(tree, p).Some? && NodeAt(tree, q).Some? && id(p) == id(q) :: p == q
  }

  /** The rows, in any order, are those written for the tree under some naming of its nodes. */
  ghost predicate Flattens(rows: seq<Row>, tree: Req) {
    exists kind: Kind, id: Path -> Id :: FlattensAs(rows, tree, kind, id)
  }

  ghost predicate FlattensAs(rows: seq<Row>, tree: Req, kind: Kind, id: Path -> Id) {
    && !kind.UnknownKind? && InjectiveOn(tree, id)
    && multiset(rows) == multiset(Emit(tree, kind, id, None, [], 0))
  }

  const MAX_TREE_NODES: nat := 2000
  const MAX_TREE_DEPTH: nat := 64

  /** No path is longer than `room` nodes, groups have two members or more, no leaf is blank. */
  predicate Fits(tree: Req, room: nat, blank: Word -> bool)
    decreases tree
  {
    room > 0 &&
    match tree
    case CourseRef(code) => !blank(code)
    case Condition(text) => !blank(text)
    case AllOf(items) => |items| >= 2 && forall i :: 0 <= i < |items| ==> Fits(items[i], room - 1, blank)
    case AnyOf(items) => |items| >= 2 && forall i :: 0 <= i < |items| ==> Fits(items[i], room - 1, blank)
  }

  /** The trees that can be restored. */
  predicate Restorable(tree: Req, blank: Word -> bool) {
    Fits(tree, MAX_TREE_DEPTH, blank) && |Preorder(tree)| <= MAX_TREE_NODES
  }

  // ---------------------------------------------------------------- reading rows as a tree

  type Children = map<Id, seq<Row>>

  function Kids(children: Children, id: Id): seq<Row> { if id in children then children[id] else [] }

  /** The row and the rows below it spell out the tree. */
  ghost predicate Encodes(children: Children, row: Row, tree: Req)
    decreases tree
  {
    && row == RowFor(tree, row.id, row.kind, row.parent, row.position)
    && |Kids(children, row.id)| == |Items(tree)|
    && forall i :: 0 <= i < |Items(tree)| ==> Encodes(children, Kids(children, row.id)[i], Items(tree)[i])
  }

  /** The rows that spell out a tree, each before those below it. */
  ghost function RowsOf(children: Children, row: Row, tree: Req): seq<Row>
    decreases tree, 0
  {
    match tree
    case AllOf(items) => [row] + RowsOfAll(children, Kids(children, row.id), items)
    case AnyOf(items) => [row] + RowsOfAll(children, Kids(children, row.id), items)
    case _ => [row]
  }

  ghost function RowsOfAll(children: Children, kids: seq<Row>, items: seq<Req>): seq<Row>
    decreases items, 0
  {
    if kids == [] || items == [] then []
    else
      RowsOfAll(children, kids[..|kids| - 1], items[..|items| - 1])
      + RowsOf(children, kids[|kids| - 1], items[|items| - 1])
  }

  ghost predicate DistinctIds(rows: seq<Row>) { forall i, j :: 0 <= i < j < |rows| ==> rows[i].id != rows[j].id }

  function IdSet(rows: seq<Row>): set<Id> { set r | r in rows :: r.id }

  /** Rows spell out at most one tree. */
  lemma {:induction false} EncodesUnique(children: Children, row: Row, s: Req, t: Req)
    requires Encodes(children, row, s) && Encodes(children, row, t)
    ensures s == t
    decreases s
  {
    forall i | 0 <= i < |Items(s)| ensures Items(s)[i] == Items(t)[i] {
      EncodesUnique(children, Kids(children, row.id)[i], Items(s)[i], Items(t)[i]);
    }
    assert Items(s) == Items(t);
  }

  lemma RowsOfItems(children: Children, row: Row, tree: Req)
    ensures RowsOf(children, row, tree) == [row] + RowsOfAll(children, Kids(children, row.id), Items(tree))
  {
  }

  /** The rows of the first members and the next one come first. */
  lemma {:induction false} RowsOfPrefix(children: Children, kids: seq<Row>, items: seq<Req>, i: nat)
        returns (rest: seq<Row>)
    requires |kids| == |items| && i < |items|
    ensures RowsOfAll(children, kids, items)
            == (RowsOfAll(children, kids[..i], items[..i]) + RowsOf(children, kids[i], items[i])) + rest
    decreases |items|
  {
    var last := |items| - 1;
    if i == last {
      rest := [];
    } else {
      var before := RowsOfPrefix(children, kids[..last], items[..last], i);
      assert kids[..last][..i] == kids[..i] && items[..last][..i] == items[..i];
      rest := before + RowsOf(children, kids[last], items[last]);
    }
  }

  lemma {:induction false} RowsOfCount(children: Children, row: Row, tree: Req)
    requires Encodes(children, row, tree)
    ensures |RowsOf(children, row, tree)| == |Preorder(tree)|
    decreases tree, 1
  {
    match tree
    case AllOf(items) => RowsOfAllCount(children, Kids(children, row.id), items);
    case AnyOf(items) => RowsOfAllCount(children, Kids(children, row.id), items);
    case _ =>
  }

  ghost predicate EncodesEach(children: Children, kids: seq<Row>, items: seq<Req>) {
    |kids| == |items| && forall i :: 0 <= i < |items| ==> Encodes(children, kids[i], items[i])
  }

  lemma {:induction false} RowsOfAllCount(children: Children, kids: seq<Row>, items: seq<Req>)
    requires EncodesEach(children, kids, items)
    ensures |RowsOfAll(children, kids, items)| == |PreorderAll(items)|
    decreases items, 0
  {
    if items != [] {
      var last := |items| - 1;
      var front, kid := kids[..last], kids[last];
      assert Encodes(children, kid, items[last]);
      assert EncodesEach(children, front, items[..last]);
      RowsOfAllCount(children, front, items[..last]);
      RowsOfCount(children, kid, items[last]);
      CountLast(children, kids, items);
    }
  }

  lemma CountLast(children: Children, kids: seq<Row>, items: seq<Req>)
    requires |kids| == |items| && items != []
    ensures var last := |items| - 1;
            && |RowsOfAll(children, kids, items)|
               == |RowsOfAll(children, kids[..last], items[..last])| + |RowsOf(children, kids[last], items[last])|
            && |PreorderAll(items)| == |PreorderAll(items[..last])| + |Preorder(items[last])|
  {
    var last := |items| - 1;
    PreorderAllAppend(items[..last], items[last]);
    assert items == items[..last] + [items[last]];
  }

  lemma {:induction false} PreorderAllAppend(items: seq<Req>, item: Req)
    ensures |PreorderAll(items + [item])| == |PreorderAll(items)| + |Preorder(item)|
  {
    if items != [] {
      assert (items + [item])[1..] == items[1..] + [item];
      PreorderAllAppend(items[1..], item);
    } else {
      assert ([item])[1..] == [];
    }
  }

  // ---------------------------------------------------------------- what is checked before reading

  /** The rows below `p` in order, with positions counting from 0. */
  ghost predicate IsKids(rows: seq<Row>, p: Id, kids: seq<Row>) {
    && (forall i :: 0 <= i < |kids| ==> kids[i] in rows && kids[i].parent == Some(p) && kids[i].position == i)
    && (forall r <- rows :: r.parent == Some(p) ==> r in kids)
  }

  ghost predicate HasKids(rows: seq<Row>, p: Id) { exists kids :: IsKids(rows, p, kids) }

  ghost predicate ChildrenOk(rows: seq<Row>, children: Children) {
    forall p: Id {:trigger Kids(children, p)} :: IsKids(rows, p, Kids(children, p))
  }

  predicate IsRoot(rows: seq<Row>, root: Row) {
    root in rows && root.parent.None? && forall r <- rows :: r.parent.None? ==> r == root
  }

  predicate OneKind(rows: seq<Row>) {
    rows != [] && !rows[0].kind.UnknownKind? && forall r <- rows :: r.kind == rows[0].kind
  }

  predicate ParentsPresent(rows: seq<Row>) {
    forall r <- rows :: r.parent.Some? ==> r.parent.value in IdSet(rows)
  }
}
