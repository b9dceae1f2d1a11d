/** Reading checked rows as a tree, and the whole of restoring. */
module CatalogReader {
  import opened Requirements
  import opened RequirementLoops
  import opened CatalogTrees
  import opened CatalogProofs
  import opened CatalogMeaning
  import opened CatalogRestore

  /** The rows from `row` down spell out a tree that fits, and repeat nothing and nothing visited. */
  ghost predicate Readable(children: Children, row: Row, tree: Req, room: nat, blank: Word -> bool, visited: set<Id>) {
    && Encodes(children, row, tree) && Fits(tree, room, blank)
    && DistinctIds(RowsOf(children, row, tree)) && IdSet(RowsOf(children, row, tree)) !! visited
  }

  ghost predicate FitsEach(items: seq<Req>, room: nat, blank: Word -> bool) {
    forall i :: 0 <= i < |items| ==> Fits(items[i], room, blank)
  }

  ghost predicate MembersReadable(children: Children, kids: seq<Row>, items: seq<Req>, room: nat, blank: Word -> bool,
                                  visited: set<Id>) {
    && EncodesEach(children, kids, items) && FitsEach(items, room, blank)
    && DistinctIds(RowsOfAll(children, kids, items)) && IdSet(RowsOfAll(children, kids, items)) !! visited
  }

  lemma DistinctConcat(a: seq<Row>, b: seq<Row>)
    ensures IdSet(a + b) == IdSet(a) + IdSet(b)
    ensures DistinctIds(a + b) <==> DistinctIds(a) && DistinctIds(b) && IdSet(a) !! IdSet(b)
  {
    if DistinctIds(a + b) {
      assert (a + b) + [] == a + b;
      DistinctParts(a, b, []);
    }
    if DistinctIds(a) && DistinctIds(b) && IdSet(a) !! IdSet(b) {
      forall i, j | 0 <= i < j < |a + b| ensures (a + b)[i].id != (a + b)[j].id {
        if i < |a| <= j {
          assert a[i].id in IdSet(a) && b[j - |a|].id in IdSet(b);
        }
      }
    }
  }

  lemma GroupRows(children: Children, row: Row, items: seq<Req>, visited: set<Id>)
    ensures var below := RowsOfAll(children, Kids(children, row.id), items);
            && IdSet([row] + below) == {row.id} + IdSet(below)
            && (DistinctIds([row] + below) && IdSet([row] + below) !! visited
                <==> row.id !in visited && DistinctIds(below) && IdSet(below) !! visited + {row.id})
  {
    var below := RowsOfAll(children, Kids(children, row.id), items);
    DistinctConcat([row], below);
    assert IdSet([row]) == {row.id};
  }

  lemma GroupParts(children: Children, row: Row, tree: Req, room: nat, blank: Word -> bool)
    requires IsCompound(tree) && room > 0
    ensures Encodes(children, row, tree)
            <==> row == RowFor(tree, row.id, row.kind, row.parent, row.position)
                 && EncodesEach(children, Kids(children, row.id), tree.items)
    ensures Fits(tree, room, blank) <==> |tree.items| >= 2 && FitsEach(tree.items, room - 1, blank)
    ensures RowsOf(children, row, tree) == [row] + RowsOfAll(children, Kids(children, row.id), tree.items)
  {
    assert Items(tree) == tree.items;
  }

  /** A group is readable when its row fits and its members are readable in one step less room. */
  lemma GroupReadable(children: Children, row: Row, tree: Req, room: nat, blank: Word -> bool, visited: set<Id>)
    requires IsCompound(tree) && room > 0
    ensures Readable(children, row, tree, room, blank, visited)
            <==> row == RowFor(tree, row.id, row.kind, row.parent, row.position) && |tree.items| >= 2
                 && row.id !in visited
                 && MembersReadable(children, Kids(children, row.id), tree.items, room - 1, blank, visited + {row.id})
    ensures IdSet(RowsOf(children, row, tree)) == {row.id}
            + IdSet(RowsOfAll(children, Kids(children, row.id), tree.items))
  {
    GroupParts(children, row, tree, room, blank);
    GroupRows(children, row, tree.items, visited);
  }

  lemma LeafUnreadable(children: Children, row: Row, tree: Req, room: nat, blank: Word -> bool, visited: set<Id>)
    requires !IsCompound(tree) && (row.nodeType.AllNode? || row.nodeType.AnyNode?)
    ensures !Readable(children, row, tree, room, blank, visited)
  {
  }

  lemma AppendMember(children: Children, kids: seq<Row>, items: seq<Req>, i: nat, item: Req, room: nat,
                     blank: Word -> bool)
    requires i < |kids| && EncodesEach(children, kids[..i], items) && FitsEach(items, room, blank)
    requires Encodes(children, kids[i], item) && Fits(item, room, blank)
    ensures EncodesEach(children, kids[..i + 1], items + [item]) && FitsEach(items + [item], room, blank)
    ensures RowsOfAll(children, kids[..i + 1], items + [item]) == RowsOfAll(children, kids[..i], items)
            + RowsOf(children, kids[i], item)
  {
    hide Encodes, Fits, RowsOf;
    assert kids[..i + 1][..i] == kids[..i] && (items + [item])[..i] == items;
  }

  lemma MembersCount(children: Children, kids: seq<Row>, items: seq<Req>, room: nat, blank: Word -> bool,
                     visited: set<Id>)
    requires MembersReadable(children, kids, items, room, blank, visited)
    ensures |items| == |kids|
  {
  }

  lemma MembersMore(children: Children, kids: seq<Row>, items: seq<Req>, i: nat, item: Req, room: nat,
                    blank: Word -> bool, visited: set<Id>)
    requires i < |kids| && MembersReadable(children, kids[..i], items, room, blank, visited)
    requires Readable(children, kids[i], item, room, blank, visited + IdSet(RowsOfAll(children, kids[..i], items)))
    ensures MembersReadable(children, kids[..i + 1], items + [item], room, blank, visited)
    ensures IdSet(RowsOfAll(children, kids[..i + 1], items + [item]))
            == IdSet(RowsOfAll(children, kids[..i], items)) + IdSet(RowsOf(children, kids[i], item))
  {
    AppendMember(children, kids, items, i, item, room, blank);
    DistinctConcat(RowsOfAll(children, kids[..i], items), RowsOf(children, kids[i], item));
  }

  lemma MembersSame(children: Children, kids: seq<Row>, items: seq<Req>, i: nat, all: seq<Req>)
    requires i < |kids| && EncodesEach(children, kids[..i], items) && EncodesEach(children, kids, all)
    ensures all[..i] == items
  {
    forall j | 0 <= j < i ensures all[j] == items[j] {
      assert Encodes(children, kids[..i][j], items[j]);
      EncodesUnique(children, kids[j], all[j], items[j]);
    }
  }

  lemma MemberReadable(children: Children, kids: seq<Row>, items: seq<Req>, i: nat, all: seq<Req>, room: nat,
                       blank: Word -> bool, visited: set<Id>)
    requires i < |kids| && MembersReadable(children, kids[..i], items, room, blank, visited)
    requires MembersReadable(children, kids, all, room, blank, visited)
    ensures Readable(children, kids[i], all[i], room, blank, visited + IdSet(RowsOfAll(children, kids[..i], items)))
  {
    MembersSame(children, kids, items, i, all);
    var before, here := RowsOfAll(children, kids[..i], items), RowsOf(children, kids[i], all[i]);
    var rest := RowsOfPrefix(children, kids, all, i);
    DistinctParts(before, here, rest);
    DistinctConcat(before + here, rest);
    DistinctConcat(before, here);
  }

  ghost function Room(depth: nat): nat { if depth > MAX_TREE_DEPTH then 0 else MAX_TREE_DEPTH + 1 - depth }

  class TreeBuilder {
    const children: Children
    const blank: Word -> bool
    var visited: set<Id>

    constructor (children: Children, blank: Word -> bool)
      ensures this.children == children && this.blank == blank && visited == {}
    {
      this.children := children;
      this.blank := blank;
      visited := {};
    }

    /** Read the members of a group, in order. */
    method BuildMembers(kids: seq<Row>, depth: nat) returns (items: Option<seq<Req>>)
      modifies this
      ensures items.Some? ==> MembersReadable(children, kids, items.value, Room(depth), blank, old(visited))
      ensures items.Some? ==> visited == old(visited) + IdSet(RowsOfAll(children, kids, items.value))
      ensures items.None? ==> forall all :: !MembersReadable(children, kids, all, Room(depth), blank, old(visited))
      decreases Room(depth), 1
    {
      var built: seq<Req> := [];
      var i := 0;
      while i < |kids|
        invariant i <= |kids|
        invariant MembersReadable(children, kids[..i], built, Room(depth), blank, old(visited))
        invariant visited == old(visited) + IdSet(RowsOfAll(children, kids[..i], built))
      {
        ghost var before := visited;
        var item := Build(kids[i], depth);
        if item.None? {
          forall all ensures !MembersReadable(children, kids, all, Room(depth), blank, old(visited)) {
            if MembersReadable(children, kids, all, Room(depth), blank, old(visited)) {
              MemberReadable(children, kids, built, i, all, Room(depth), blank, old(visited));
            }
          }
          return None;
        }
        MembersMore(children, kids, built, i, item.value, Room(depth), blank, old(visited));
        built := built + [item.value];
        i := i + 1;
      }
      assert kids[..i] == kids;
      items := Some(built);
    }

    /** Read the tree below a row. */
    method Build(row: Row, depth: nat) returns (tree: Option<Req>)
      modifies this
      ensures tree.Some? ==> Readable(children, row, tree.value, Room(depth), blank, old(visited))
      ensures tree.Some? ==> visited == old(visited) + IdSet(RowsOf(children, row, tree.value))
      ensures tree.None? ==> forall t :: !Readable(children, row, t, Room(depth), blank, old(visited))
      decreases Room(depth), 0
    {
      if depth > MAX_TREE_DEPTH { return None; }
      if row.id in visited {
        assert forall t :: row in RowsOf(children, row, t) && row.id in IdSet(RowsOf(children, row, t));
        return None;
      }
      ghost var seen := visited;
      visited := visited + {row.id};
      var kids := Kids(children, row.id);
      match row.nodeType
      case CourseNode =>
        if row.target.None? || blank(row.target.value) || row.text.Some? || kids != [] { return None; }
        return Some(CourseRef(row.target.value));
      case ConditionNode =>
        if row.text.None? || blank(row.text.value) || row.target.Some? || kids != [] { return None; }
        return Some(Condition(row.text.value));
      case UnknownNode =>
        return None;
      case _ =>
        if row.target.Some? || row.text.Some? || |kids| < 2 { return None; }
        tree := BuildGroup(row, kids, depth, seen);
    }

    /** Read a group: its members, joined by its type. */
    method BuildGroup(row: Row, kids: seq<Row>, depth: nat, ghost seen: set<Id>) returns (tree: Option<Req>)
      requires depth <= MAX_TREE_DEPTH && kids == Kids(children, row.id) && |kids| >= 2
      requires (row.nodeType.AllNode? || row.nodeType.AnyNode?) && row.target.None? && row.text.None?
      requires row.id !in seen && visited == seen + {row.id}
      modifies this
      ensures tree.Some? ==> Readable(children, row, tree.value, Room(depth), blank, seen)
      ensures tree.Some? ==> visited == seen + IdSet(RowsOf(children, row, tree.value))
      ensures tree.None? ==> forall t :: !Readable(children, row, t, Room(depth), blank, seen)
      decreases Room(depth + 1), 2
    {
      hide Readable, MembersReadable, RowsOf, RowsOfAll;
      var items := BuildMembers(kids, depth + 1);
      if items.None? {
        forall t ensures !Readable(children, row, t, Room(depth), blank, seen) {
          if IsCompound(t) {
            GroupReadable(children, row, t, Room(depth), blank, seen);
          } else {
            LeafUnreadable(children, row, t, Room(depth), blank, seen);
          }
        }
        return None;
      }
      MembersCount(children, kids, items.value, Room(depth + 1), blank, seen + {row.id});
      var built := if row.nodeType.AllNode? then AllOf(items.value) else AnyOf(items.value);
      GroupReadable(children, row, built, Room(depth), blank, seen);
      tree := Some(built);
    }
  }

  // ---------------------------------------------------------------- restoring

  lemma {:induction false} EmitCount(tree: Req, kind: Kind, id: Path -> Id, parent: Option<Id>, path: Path,
                                     position: nat)
    ensures |Emit(tree, kind, id, parent, path, position)| == |Preorder(tree)|
    decreases tree, 1
  {
    match tree
    case AllOf(items) => EmitAllCount(items, kind, id, path);
    case AnyOf(items) => EmitAllCount(items, kind, id, path);
    case _ =>
  }

  lemma {:induction false} EmitAllCount(items: seq<Req>, kind: Kind, id: Path -> Id, path: Path)
    ensures |EmitAll(items, kind, id, path)| == |PreorderAll(items)|
    decreases items, 0
  {
    if items != [] {
      var last := |items| - 1;
      EmitAllCount(items[..last], kind, id, path);
      EmitCount(items[last], kind, id, Some(id(path)), path + [last], last);
      PreorderAllAppend(items[..last], items[last]);
      assert items == items[..last] + [items[last]];
    }
  }

  /** Every check that comes before the tree is read. */
  ghost predicate Checked(rows: seq<Row>) {
    && |rows| <= MAX_TREE_NODES && OneKind(rows) && DistinctIds(rows)
    && |Roots(rows)| == 1 && Roots(rows)[0].position == 0
    && (forall i :: 0 <= i < |rows| ==> Placeable(IdSet(rows), rows[i]))
    && forall p: Id :: HasKids(rows, p)
  }

  lemma WrittenIsChecked(rows: seq<Row>, tree: Req)
    requires Flattens(rows, tree) && |Preorder(tree)| <= MAX_TREE_NODES
    ensures Checked(rows)
  {
    var kind: Kind, id: Path -> Id :| FlattensAs(rows, tree, kind, id);
    WrittenPasses(rows, tree, kind, id);
    EmitCount(tree, kind, id, None, [], 0);
    OneRoot(rows, At(tree, kind, id, []));
    AtIs(tree, kind, id, []);
    forall i | 0 <= i < |rows| ensures Placeable(IdSet(rows), rows[i]) { assert rows[i] in rows; }
  }

  lemma FlattensIsSpelled(rows: seq<Row>, children: Children, root: Row, tree: Req)
    requires Flattens(rows, tree) && ChildrenOk(rows, children) && IsRoot(rows, root)
    ensures Encodes(children, root, tree)
    ensures DistinctIds(RowsOf(children, root, tree)) && |RowsOf(children, root, tree)| == |rows|
  {
    var kind: Kind, id: Path -> Id :| FlattensAs(rows, tree, kind, id);
    WrittenIsSpelled(rows, children, tree, kind, id);
    WrittenHas(rows, tree, kind, id, []);
    AtIs(tree, kind, id, []);
    assert At(tree, kind, id, []) == root;
  }

  lemma FlattensIsReadable(rows: seq<Row>, children: Children, root: Row, tree: Req, blank: Word -> bool)
    requires Flattens(rows, tree) && Restorable(tree, blank) && ChildrenOk(rows, children) && IsRoot(rows, root)
    ensures Readable(children, root, tree, MAX_TREE_DEPTH, blank, {})
    ensures |IdSet(RowsOf(children, root, tree))| == |rows|
  {
    FlattensIsSpelled(rows, children, root, tree);
    DistinctCount(RowsOf(children, root, tree));
  }

  lemma ReadIsFlattened(rows: seq<Row>, children: Children, root: Row, tree: Req, blank: Word -> bool)
    requires Checked(rows) && ChildrenOk(rows, children) && Roots(rows) == [root]
    requires Readable(children, root, tree, MAX_TREE_DEPTH, blank, {}) && |IdSet(RowsOf(children, root, tree))|
             == |rows|
    ensures Restorable(tree, blank) && Flattens(rows, tree)
  {
    OneRoot(rows, root);
    DistinctCount(RowsOf(children, root, tree));
    RowsOfCount(children, root, tree);
    SpelledIsWritten(rows, children, root, tree);
  }

  /** Rows that were written for some restorable tree are read back as it, and all others rejected. */
  method RestoreTree(rows: seq<Row>, blank: Word -> bool) returns (result: Option<Req>)
    ensures forall tree :: result == Some(tree) <==> Restorable(tree, blank) && Flattens(rows, tree)
  {
    forall tree | Restorable(tree, blank) && Flattens(rows, tree) ensures Checked(rows) {
      WrittenIsChecked(rows, tree);
    }
    if rows == [] || |rows| > MAX_TREE_NODES || !OneKind(rows) { return None; }
    CountDistinct(rows);
    if |IdSet(rows)| != |rows| { return None; }
    var roots := Roots(rows);
    if |roots| != 1 { return None; }
    var grouped := GroupByParent(rows);
    if grouped.None? { return None; }
    var children := SortChildren(rows, grouped.value);
    if children.None? || roots[0].position != 0 { return None; }
    OneRoot(rows, roots[0]);
    AllHaveKids(rows, children.value);
    result := ReadChecked(rows, children.value, roots[0], blank);
  }

  lemma AllHaveKids(rows: seq<Row>, children: Children)
    requires ChildrenOk(rows, children)
    ensures forall p: Id :: HasKids(rows, p)
  {
    forall p: Id ensures HasKids(rows, p) { assert IsKids(rows, p, Kids(children, p)); }
  }

  /** Read the tree below the root; every tree that is readable there is the one found. */
  method ReadRoot(children: Children, root: Row, blank: Word -> bool) returns (result: Option<Req>, count: nat)
    ensures forall t :: Readable(children, root, t, MAX_TREE_DEPTH, blank, {}) <==> result == Some(t)
    ensures result.Some? ==> count == |IdSet(RowsOf(children, root, result.value))|
  {
    var builder := new TreeBuilder(children, blank);
    ghost var before := builder.visited;
    result := builder.Build(root, 1);
    count := |builder.visited|;
    if result.None? {
      forall t ensures !Readable(children, root, t, MAX_TREE_DEPTH, blank, {}) {
        var readable := Readable(builder.children, root, t, Room(1), builder.blank, before);
        assert !readable;
        assert before == {} && Room(1) == MAX_TREE_DEPTH;
      }
    } else {
      forall t | Readable(children, root, t, MAX_TREE_DEPTH, blank, {}) ensures t == result.value {
        EncodesUnique(children, root, t, result.value);
      }
    }
  }

  method ReadChecked(rows: seq<Row>, children: Children, root: Row, blank: Word -> bool) returns (result: Option<Req>)
    requires Checked(rows) && ChildrenOk(rows, children) && IsRoot(rows, root) && Roots(rows) == [root]
    ensures forall tree :: result == Some(tree) <==> Restorable(tree, blank) && Flattens(rows, tree)
  {
    var found, count := ReadRoot(children, root, blank);
    forall tree | Restorable(tree, blank) && Flattens(rows, tree) ensures found == Some(tree) && count == |rows| {
      FlattensIsReadable(rows, children, root, tree, blank);
    }
    if found.None? || count != |rows| { return None; }
    assert Readable(children, root, found.value, MAX_TREE_DEPTH, blank, {});
    ReadIsFlattened(rows, children, root, found.value, blank);
    result := found;
  }

  ghost function KidsOf(rows: seq<Row>, p: Id): (kids: seq<Row>)
    requires HasKids(rows, p)
    ensures IsKids(rows, p, kids)
  {
    var kids :| IsKids(rows, p, kids);
    kids
  }

  /** Rows are written for at most one tree, restorable or not. */
  lemma FlattensUnique(rows: seq<Row>, s: Req, t: Req)
    requires Flattens(rows, s) && Flattens(rows, t)
    ensures s == t
  {
    var kind: Kind, id: Path -> Id :| FlattensAs(rows, s, kind, id);
    WrittenPasses(rows, s, kind, id);
    var root := At(s, kind, id, []);
    var children: Children := map p | p in IdSet(rows) :: KidsOf(rows, p);
    forall p: Id ensures IsKids(rows, p, Kids(children, p)) {
    }
    FlattensIsSpelled(rows, children, root, s);
    FlattensIsSpelled(rows, children, root, t);
    EncodesUnique(children, root, s, t);
  }

  /** Whatever order the stored rows come back in, a restorable tree comes back unchanged, and any
      other is rejected rather than altered. */
  method RoundTrip(tree: Req, kind: Kind, id: Path -> Id, rows: seq<Row>, blank: Word -> bool)
        returns (result: Option<Req>)
    requires !kind.UnknownKind? && InjectiveOn(tree, id)
    requires multiset(rows) == multiset(Emit(tree, kind, id, None, [], 0))
    ensures result == if Restorable(tree, blank) then Some(tree) else None
  {
    result := RestoreTree(rows, blank);
    assert FlattensAs(rows, tree, kind, id);
    if result.Some? { FlattensUnique(rows, tree, result.value); }
  }
}
