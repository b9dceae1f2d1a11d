/** The bounded walk that a requisite tree must survive before it is evaluated, and the two loops
    that list and group alternatives. */
module RequirementLoops {
  import opened Forest
  import opened Requirements

  const MAX_REQ_NODES: nat := 2000
  const MAX_REQ_DEPTH: nat := 64

  // ---------------------------------------------------------------- the walk

  /** A tree's nodes, each before its children. */
  function Preorder(req: Req): seq<Req>
    decreases req, 0
  {
    match req
    case CourseRef(_) => [req]
    case Condition(_) => [req]
    case AllOf(items) => [req] + PreorderAll(items)
    case AnyOf(items) => [req] + PreorderAll(items)
  }

  function PreorderAll(items: seq<Req>): seq<Req>
    decreases items, 0
  {
    if items == [] then [] else Preorder(items[0]) + PreorderAll(items[1..])
  }

  /** No path is longer than `room` nodes and no compound is empty. */
  predicate FitsDepth(req: Req, room: nat)
    decreases req
  {
    room > 0 &&
    match req
    case CourseRef(_) => true
    case Condition(_) => true
    case AllOf(items) => items != [] && forall i :: 0 <= i < |items| ==> FitsDepth(items[i], room - 1)
    case AnyOf(items) => items != [] && forall i :: 0 <= i < |items| ==> FitsDepth(items[i], room - 1)
  }

  /** The trees the planner is willing to evaluate. */
  predicate Walkable(req: Req) {
    FitsDepth(req, MAX_REQ_DEPTH) && |Preorder(req)| <= MAX_REQ_NODES
  }

  type Stack = seq<(Req, nat)>

  function Items(req: Req): seq<Req> {
    match req
    case AllOf(items) => items
    case AnyOf(items) => items
    case _ => []
  }

  predicate IsCompound(req: Req) { req.AllOf? || req.AnyOf? }

  /** Everything still to be visited, in visiting order; the top of the stack is its end. */
  ghost function Pending(stack: Stack): seq<Req> {
    if stack == [] then [] else Preorder(stack[|stack| - 1].0) + Pending(stack[..|stack| - 1])
  }

  ghost predicate PendingFit(stack: Stack) {
    forall i :: 0 <= i < |stack| ==>
      stack[i].1 <= MAX_REQ_DEPTH && FitsDepth(stack[i].0, MAX_REQ_DEPTH + 1 - stack[i].1)
  }

  function Reversed(items: seq<Req>, depth: nat): Stack {
    seq(|items|, i requires 0 <= i < |items| => (items[|items| - 1 - i], depth))
  }

  lemma PendingTop(front: Stack, top: (Req, nat))
    ensures Pending(front + [top]) == Preorder(top.0) + Pending(front)
  {
    assert (front + [top])[..|front|] == front;
  }

  lemma {:induction false} PendingPush(stack: Stack, items: seq<Req>, depth: nat)
    ensures Pending(stack + Reversed(items, depth)) == PreorderAll(items) + Pending(stack)
    decreases |items|
  {
    if items == [] {
      assert stack + Reversed(items, depth) == stack;
    } else {
      var front, last := Reversed(items[1..], depth), [(items[0], depth)];
      hide Reversed, Pending, Preorder;
      ReversedFirst(items, depth);
      JoinAssociates(stack, front, last);
      PendingTop(stack + front, (items[0], depth));
      PendingPush(stack, items[1..], depth);
      JoinAssociates(Preorder(items[0]), PreorderAll(items[1..]), Pending(stack));
    }
  }

  lemma JoinAssociates<T>(a: seq<T>, b: seq<T>, c: seq<T>)
    ensures a + (b + c) == (a + b) + c
  {
  }

  lemma ReversedFirst(items: seq<Req>, depth: nat)
    requires items != []
    ensures Reversed(items, depth) == Reversed(items[1..], depth) + [(items[0], depth)]
  {
  }

  lemma PreorderStep(req: Req)
    ensures Preorder(req) == [req] + PreorderAll(Items(req))
  {
  }

  lemma PushFits(stack: Stack, req: Req, depth: nat)
    requires 1 <= depth <= MAX_REQ_DEPTH && IsCompound(req)
    ensures Items(req) != [] && PendingFit(stack + Reversed(Items(req), depth + 1))
            <==> PendingFit(stack) && FitsDepth(req, MAX_REQ_DEPTH + 1 - depth)
  {
    var items := Items(req);
    var pushed := Reversed(items, depth + 1);
    var all := stack + pushed;
    if PendingFit(all) && items != [] {
      forall i | 0 <= i < |stack|
        ensures stack[i].1 <= MAX_REQ_DEPTH && FitsDepth(stack[i].0, MAX_REQ_DEPTH + 1 - stack[i].1)
      {
        assert all[i] == stack[i];
      }
      forall i | 0 <= i < |items| ensures depth + 1 <= MAX_REQ_DEPTH && FitsDepth(items[i], MAX_REQ_DEPTH - depth) {
        assert all[|stack| + |items| - 1 - i] == (items[i], depth + 1);
      }
    }
    if PendingFit(stack) && FitsDepth(req, MAX_REQ_DEPTH + 1 - depth) {
      assert FitsDepth(items[0], MAX_REQ_DEPTH - depth);
      forall i | 0 <= i < |all|
        ensures all[i].1 <= MAX_REQ_DEPTH && FitsDepth(all[i].0, MAX_REQ_DEPTH + 1 - all[i].1)
      {
        if i >= |stack| { assert all[i] == (items[|items| - 1 - (i - |stack|)], depth + 1); }
      }
    }
  }

  lemma PopFits(stack: Stack)
    requires stack != []
    ensures var top := stack[|stack| - 1];
            PendingFit(stack) <==> PendingFit(stack[..|stack| - 1])
                                   && top.1 <= MAX_REQ_DEPTH && FitsDepth(top.0, MAX_REQ_DEPTH + 1 - top.1)
  {
    assert stack == stack[..|stack| - 1] + [stack[|stack| - 1]];
  }

  /** How far a walk has come: what was output, and what is pending, make up the tree, and the
      depth of the tree is decided by what is pending. */
  ghost predicate Walking(req: Req, output: seq<Req>, stack: Stack) {
    && output + Pending(stack) == Preorder(req)
    && (PendingFit(stack) <==> FitsDepth(req, MAX_REQ_DEPTH))
    && forall i :: 0 <= i < |stack| ==> stack[i].1 >= 1
  }

  lemma WalkTop(req: Req, output: seq<Req>, stack: Stack)
    requires Walking(req, output, stack) && stack != []
    ensures var top, rest := stack[|stack| - 1], stack[..|stack| - 1];
            && (output + [top.0]) + (PreorderAll(Items(top.0)) + Pending(rest)) == Preorder(req)
            && |Pending(stack)| == 1 + |PreorderAll(Items(top.0))| + |Pending(rest)|
  {
    var top, rest := stack[|stack| - 1], stack[..|stack| - 1];
    PreorderStep(top.0);
    var later := PreorderAll(Items(top.0)) + Pending(rest);
    assert Pending(stack) == [top.0] + later;
    assert output + ([top.0] + later) == (output + [top.0]) + later;
  }

  lemma WalkInto(req: Req, output: seq<Req>, stack: Stack)
    requires Walking(req, output, stack) && stack != []
    requires stack[|stack| - 1].1 <= MAX_REQ_DEPTH && IsCompound(stack[|stack| - 1].0)
    ensures var top, rest := stack[|stack| - 1], stack[..|stack| - 1];
            if Items(top.0) == [] then !FitsDepth(req, MAX_REQ_DEPTH)
            else Walking(req, output + [top.0], rest + Reversed(Items(top.0), top.1 + 1))
                 && |Pending(rest + Reversed(Items(top.0), top.1 + 1))| < |Pending(stack)|
  {
    var top, rest := stack[|stack| - 1], stack[..|stack| - 1];
    WalkTop(req, output, stack);
    PopFits(stack);
    PushFits(rest, top.0, top.1);
    PendingPush(rest, Items(top.0), top.1 + 1);
  }

  lemma WalkPast(req: Req, output: seq<Req>, stack: Stack)
    requires Walking(req, output, stack) && stack != []
    requires stack[|stack| - 1].1 <= MAX_REQ_DEPTH && !IsCompound(stack[|stack| - 1].0)
    ensures Walking(req, output + [stack[|stack| - 1].0], stack[..|stack| - 1])
    ensures |Pending(stack[..|stack| - 1])| < |Pending(stack)|
  {
    WalkTop(req, output, stack);
    PopFits(stack);
    assert PreorderAll([]) + Pending(stack[..|stack| - 1]) == Pending(stack[..|stack| - 1]);
  }

  /** Visit the tree with an explicit stack. It succeeds exactly on the walkable trees, and then
      returns their nodes in preorder. */
  method Walk(req: Req) returns (result: Option<seq<Req>>)
    ensures result == if Walkable(req) then Some(Preorder(req)) else None
  {
    var output: seq<Req> := [];
    var stack: Stack := [(req, 1)];
    PendingTop([], (req, 1));
    assert [] + [(req, 1)] == stack && Preorder(req) + [] == Preorder(req);
    while stack != []
      invariant Walking(req, output, stack) && |output| <= MAX_REQ_NODES
      decreases |Pending(stack)|
    {
      var current, depth := stack[|stack| - 1].0, stack[|stack| - 1].1;
      PopFits(stack);
      if depth > MAX_REQ_DEPTH { return None; }
      WalkTop(req, output, stack);
      if |output| + 1 > MAX_REQ_NODES { return None; }
      if IsCompound(current) {
        WalkInto(req, output, stack);
        if Items(current) == [] { return None; }
        stack := stack[..|stack| - 1] + Reversed(Items(current), depth + 1);
      } else {
        WalkPast(req, output, stack);
        stack := stack[..|stack| - 1];
      }
      output := output + [current];
    }
    assert output + [] == output;
    result := Some(output);
  }

  // ---------------------------------------------------------------- listing alternatives

  /** Add groups to a set until a new one would exceed the cap. */
  method AddUpToCap(groups: seq<Group>, more: seq<Group>) returns (added: seq<Group>, overflow: bool)
    ensures (added, overflow) == AddCapped(groups, more)
  {
    added := groups;
    var k := 0;
    while k < |more|
      invariant k <= |more| && AddCapped(added, more[k..]) == AddCapped(groups, more)
    {
      assert more[k..][0] == more[k] && more[k..][1..] == more[k + 1..];
      if more[k] !in added && |added| == MAX_CHOICE_GROUPS { return added, true; }
      added := Insert(added, more[k]);
      k := k + 1;
    }
    overflow := false;
  }

  function Row(left: Group, rights: seq<Group>): (row: seq<Group>)
    ensures |row| == |rights|
  {
    seq(|rights|, i requires 0 <= i < |rights| => left + rights[i])
  }

  lemma RowStep(left: Group, rights: seq<Group>, k: nat, rest: seq<Group>)
    requires k < |rights|
    ensures Row(left, rights)[k..] + rest == [left + rights[k]] + (Row(left, rights)[k + 1..] + rest)
  {
  }

  lemma ProductsStep(lefts: seq<Group>, i: nat, rights: seq<Group>)
    requires i < |lefts|
    ensures Products(lefts[i..], rights) == Row(lefts[i], rights)[0..] + Products(lefts[i + 1..], rights)
  {
    assert lefts[i..][0] == lefts[i] && lefts[i..][1..] == lefts[i + 1..];
  }

  lemma AddOneCapped(groups: seq<Group>, group: Group, more: seq<Group>)
    ensures AddCapped(groups, [group] + more)
            == if group !in groups && |groups| == MAX_CHOICE_GROUPS then (groups, true)
                else AddCapped(Insert(groups, group), more)
  {
    assert ([group] + more)[1..] == more;
  }

  /** Combine every left group with every right group, up to the cap. */
  method CombineUpToCap(lefts: seq<Group>, rights: seq<Group>) returns (combined: seq<Group>, overflow: bool)
    ensures (combined, overflow) == AddCapped([], Products(lefts, rights))
  {
    combined := [];
    var i := 0;
    while i < |lefts|
      invariant i <= |lefts|
      invariant AddCapped(combined, Products(lefts[i..], rights)) == AddCapped([], Products(lefts, rights))
    {
      ProductsStep(lefts, i, rights);
      ghost var rest := Products(lefts[i + 1..], rights);
      hide AddCapped, Products, Row, Insert;
      var k := 0;
      while k < |rights|
        invariant k <= |rights| == |Row(lefts[i], rights)|
        invariant AddCapped(combined, Row(lefts[i], rights)[k..] + rest) == AddCapped([], Products(lefts, rights))
      {
        var group := lefts[i] + rights[k];
        RowStep(lefts[i], rights, k, rest);
        AddOneCapped(combined, group, Row(lefts[i], rights)[k + 1..] + rest);
        if group !in combined && |combined| == MAX_CHOICE_GROUPS { return combined, true; }
        combined := Insert(combined, group);
        k := k + 1;
      }
      assert Row(lefts[i], rights)[k..] + rest == rest;
      i := i + 1;
    }
    overflow := false;
  }

  /** Describe the alternatives of a tree by the program's loops. */
  method ListChoiceGroups(req: Req) returns (groups: seq<Group>, truncated: bool)
    ensures (groups, truncated) == ChoiceGroups(req)
    decreases req
  {
    match req
    case CourseRef(code) =>
      groups, truncated := [[code]], false;
    case Condition(text) =>
      groups, truncated := [[text]], false;
    case AnyOf(items) =>
      groups, truncated := [], false;
      var i := 0;
      while i < |items|
        invariant i <= |items| && AnyGroups(items[i..], groups, truncated) == AnyGroups(items, [], false)
      {
        assert items[i..][0] == items[i] && items[i..][1..] == items[i + 1..];
        var childGroups, childTruncated := ListChoiceGroups(items[i]);
        var added, overflow := AddUpToCap(groups, childGroups);
        if overflow { return added, true; }
        groups, truncated := added, truncated || childTruncated;
        i := i + 1;
      }
    case AllOf(items) =>
      groups, truncated := [[]], false;
      var i := 0;
      while i < |items|
        invariant i <= |items| && AllGroups(items[i..], groups, truncated) == AllGroups(items, [[]], false)
      {
        assert items[i..][0] == items[i] && items[i..][1..] == items[i + 1..];
        var childGroups, childTruncated := ListChoiceGroups(items[i]);
        var combined, overflow := CombineUpToCap(groups, childGroups);
        groups, truncated := combined, truncated || childTruncated || overflow;
        i := i + 1;
      }
  }

  /** Put a result into the first group that names its course, or into a group of its own. */
  method PlaceInto(groups: seq<seq<Evaluation>>, result: Evaluation, campus: map<Code, set<Code>>)
      returns (placed: seq<seq<Evaluation>>)
    ensures placed == Place(groups, result, campus)
  {
    hide SameCourse;
    var k := 0;
    while k < |groups|
      invariant k <= |groups|
      invariant Place(groups, result, campus) == groups[..k] + Place(groups[k..], result, campus)
    {
      assert groups[k..][0] == groups[k] && groups[k..][1..] == groups[k + 1..];
      if groups[k] != [] && SameCourse(groups[k][0], result, campus) {
        placed := groups[..k] + ([groups[k] + [result]] + groups[k + 1..]);
        return;
      }
      assert groups[..k] + ([groups[k]] + Place(groups[k + 1..], result, campus))
          == groups[..k + 1] + Place(groups[k + 1..], result, campus);
      k := k + 1;
    }
    assert groups[..k] == groups && groups[k..] == [];
    placed := groups + [[result]];
  }

  /** Group evaluated alternatives by the course they name. */
  method GroupAlternatives(results: seq<Evaluation>, campus: map<Code, set<Code>>)
        returns (groups: seq<seq<Evaluation>>)
    ensures groups == DistinctCourses(results, campus)
  {
    groups := [];
    var i := 0;
    while i < |results|
      invariant i <= |results| && groups == DistinctCourses(results[..i], campus)
    {
      assert results[..i + 1][..i] == results[..i];
      groups := PlaceInto(groups, results[i], campus);
      i := i + 1;
    }
    assert results[..|results|] == results;
  }
}
