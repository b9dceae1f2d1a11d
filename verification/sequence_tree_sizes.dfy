/** How large a requisite tree is: its levels and its nodes. */
module TreeSizes {
  import opened Requirements
  import opened RequirementLoops

  /** How many levels a tree has. */
  ghost function Levels(req: Req): nat
    decreases req, 1
  {
    1 + if req.AllOf? || req.AnyOf? then MostLevels(req.items) else 0
  }

  ghost function MostLevels(items: seq<Req>): nat
    decreases items, 0
  {
    if items == [] then 0
    else if Levels(items[0]) > MostLevels(items[1..]) then Levels(items[0])
    else MostLevels(items[1..])
  }

  /** How many nodes it has. */
  ghost function Nodes(req: Req): nat
    decreases req, 1
  {
    1 + if req.AllOf? || req.AnyOf? then NodesOf(req.items) else 0
  }

  ghost function NodesOf(items: seq<Req>): nat
    decreases items, 0
  {
    if items == [] then 0 else Nodes(items[0]) + NodesOf(items[1..])
  }

  /** Nothing in it is an all-of or any-of of nothing. */
  ghost predicate NothingEmpty(req: Req)
    decreases req
  {
    req.AllOf? || req.AnyOf? ==> req.items != [] && forall item <- req.items :: NothingEmpty(item)
  }

  lemma {:induction false} PreorderNodes(req: Req)
    ensures |Preorder(req)| == Nodes(req)
    decreases req, 1
  {
    if req.AllOf? || req.AnyOf? { PreorderAllNodes(req.items); }
  }

  lemma {:induction false} PreorderAllNodes(items: seq<Req>)
    ensures |PreorderAll(items)| == NodesOf(items)
    decreases items, 0
  {
    if items != [] {
      PreorderNodes(items[0]);
      PreorderAllNodes(items[1..]);
    }
  }

  lemma {:induction false} LevelsBound(items: seq<Req>, room: int)
    ensures MostLevels(items) <= room <==> room >= 0 && forall i :: 0 <= i < |items| ==> Levels(items[i]) <= room
  {
    if items != [] {
      LevelsBound(items[1..], room);
      if MostLevels(items) <= room {
        forall i | 0 <= i < |items| ensures Levels(items[i]) <= room {
          if i > 0 { assert items[1..][i - 1] == items[i]; }
        }
      }
      if room >= 0 && forall i :: 0 <= i < |items| ==> Levels(items[i]) <= room {
        assert forall i :: 0 <= i < |items[1..]| ==> items[1..][i] == items[i + 1];
      }
    }
  }

  lemma {:induction false} FitsMeaning(req: Req, room: nat)
    ensures FitsDepth(req, room) <==> Levels(req) <= room && NothingEmpty(req)
    decreases req
  {
    if (req.AllOf? || req.AnyOf?) && room > 0 {
      forall i | 0 <= i < |req.items|
        ensures FitsDepth(req.items[i], room - 1) <==> Levels(req.items[i]) <= room - 1 && NothingEmpty(req.items[i])
      {
        FitsMeaning(req.items[i], room - 1);
      }
      LevelsBound(req.items, room - 1);
      hide FitsDepth, Levels, NothingEmpty, MostLevels;
      ItemsFit(req, room);
    }
  }

  lemma ItemsFit(req: Req, room: nat)
    requires (req.AllOf? || req.AnyOf?) && room > 0
    requires forall i :: 0 <= i < |req.items| ==>
               (FitsDepth(req.items[i], room - 1) <==> Levels(req.items[i]) <= room - 1 && NothingEmpty(req.items[i]))
    requires MostLevels(req.items) <= room - 1
             <==> room - 1 >= 0 && forall i :: 0 <= i < |req.items| ==> Levels(req.items[i]) <= room - 1
    ensures FitsDepth(req, room) <==> Levels(req) <= room && NothingEmpty(req)
  {
    assert NothingEmpty(req) <==> req.items != [] && forall i :: 0 <= i < |req.items| ==> NothingEmpty(req.items[i]);
  }
}
