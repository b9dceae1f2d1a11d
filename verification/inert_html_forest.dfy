/** Markup is properly nested exactly when it is a forest of elements written out. */
module InertForest {
  import opened InertHtml

  datatype Node = Element(tag: string, attrs: Attributes, children: seq<Node>) | Leaf(markup: Markup)

  function Written(node: Node): seq<Markup>
    decreases node, 0
  {
    match node
    case Element(tag, attrs, children) => [Open(tag, attrs)] + WrittenAll(children) + [Close(tag)]
    case Leaf(m) => [m]
  }

  function WrittenAll(nodes: seq<Node>): seq<Markup>
    decreases nodes, 0
  {
    if nodes == [] then [] else WrittenAll(nodes[..|nodes| - 1]) + Written(nodes[|nodes| - 1])
  }

  /** Elements have content; leaves are text and elements that have none. */
  ghost predicate Proper(rules: Rules, node: Node)
    decreases node
  {
    match node
    case Element(tag, _, children) =>
      tag !in rules.empty && forall i :: 0 <= i < |children| ==> Proper(rules, children[i])
    case Leaf(m) => m.Text? || (m.Open? && m.tag in rules.empty)
  }

  ghost predicate ProperAll(rules: Rules, nodes: seq<Node>) { forall i :: 0 <= i < |nodes| ==> Proper(rules, nodes[i]) }

  ghost predicate IsForest(rules: Rules, output: seq<Markup>) {
    exists nodes :: ProperAll(rules, nodes) && WrittenAll(nodes) == output
  }

  /** An element still open: what came before it, and its start tag. */
  datatype Frame = Frame(before: seq<Node>, tag: string, attrs: Attributes)

  function WrittenFrames(frames: seq<Frame>): seq<Markup> {
    if frames == [] then []
    else
      var last := frames[|frames| - 1];
      WrittenFrames(frames[..|frames| - 1]) + WrittenAll(last.before) + [Open(last.tag, last.attrs)]
  }

  function Tags(frames: seq<Frame>): seq<string> { seq(|frames|, i requires 0 <= i < |frames| => frames[i].tag) }

  ghost predicate ProperFrames(rules: Rules, frames: seq<Frame>) {
    forall i :: 0 <= i < |frames| ==> frames[i].tag !in rules.empty && ProperAll(rules, frames[i].before)
  }

  lemma WrittenAppend(nodes: seq<Node>, node: Node)
    ensures WrittenAll(nodes + [node]) == WrittenAll(nodes) + Written(node)
  {
    assert (nodes + [node])[..|nodes|] == nodes;
  }

  lemma FramesAppend(frames: seq<Frame>, frame: Frame)
    ensures WrittenFrames(frames + [frame]) == WrittenFrames(frames) + WrittenAll(frame.before)
            + [Open(frame.tag, frame.attrs)]
    ensures Tags(frames + [frame]) == Tags(frames) + [frame.tag]
  {
    assert (frames + [frame])[..|frames|] == frames;
  }

  lemma CloseFrame(front: seq<Markup>, before: seq<Markup>, open: Markup, inside: seq<Markup>, close: Markup)
    ensures (((front + before) + [open]) + inside) + [close] == front + (before + (([open] + inside) + [close]))
  {
  }

  lemma LastTag(frames: seq<Frame>)
    ensures |Tags(frames)| == |frames|
    ensures frames != [] ==> Tags(frames)[|frames| - 1] == frames[|frames| - 1].tag
  {
  }

  /** Closing the innermost element makes it a node of the one around it. */
  lemma Closed(rules: Rules, frames: seq<Frame>, inside: seq<Node>, tag: string)
        returns (outer: seq<Frame>, nodes: seq<Node>)
    requires ProperFrames(rules, frames) && ProperAll(rules, inside)
    requires frames != [] && frames[|frames| - 1].tag == tag
    ensures ProperFrames(rules, outer) && ProperAll(rules, nodes)
    ensures Tags(outer) == Tags(frames)[..|frames| - 1]
    ensures (WrittenFrames(frames) + WrittenAll(inside)) + [Close(tag)] == WrittenFrames(outer) + WrittenAll(nodes)
  {
    var last := frames[|frames| - 1];
    outer := frames[..|frames| - 1];
    assert frames == outer + [last];
    FramesAppend(outer, last);
    var element := Element(last.tag, last.attrs, inside);
    nodes := last.before + [element];
    WrittenAppend(last.before, element);
    CloseFrame(WrittenFrames(outer), WrittenAll(last.before), Open(last.tag, last.attrs), WrittenAll(inside),
               Close(tag));
  }

  /** Markup that nests so far, as what is written for the open elements and what is inside the last. */
  ghost predicate Spelled(rules: Rules, output: seq<Markup>, frames: seq<Frame>, inside: seq<Node>) {
    && ProperFrames(rules, frames) && ProperAll(rules, inside)
    && Opened(rules, output) == Some(Tags(frames))
    && output == WrittenFrames(frames) + WrittenAll(inside)
  }

  lemma LeafSpelled(rules: Rules, output: seq<Markup>, frames: seq<Frame>, inside: seq<Node>, m: Markup)
    requires Spelled(rules, output, frames, inside) && (m.Text? || (m.Open? && m.tag in rules.empty))
    ensures Spelled(rules, output + [m], frames, inside + [Leaf(m)])
  {
    OpenedAppend(rules, output, m);
    WrittenAppend(inside, Leaf(m));
    assert WrittenFrames(frames) + (WrittenAll(inside) + [m]) == output + [m];
  }

  lemma OpenSpelled(rules: Rules, output: seq<Markup>, frames: seq<Frame>, inside: seq<Node>, m: Markup)
    requires Spelled(rules, output, frames, inside) && m.Open? && m.tag !in rules.empty
    ensures Spelled(rules, output + [m], frames + [Frame(inside, m.tag, m.attrs)], [])
  {
    OpenedAppend(rules, output, m);
    FramesAppend(frames, Frame(inside, m.tag, m.attrs));
    assert output + [m] + [] == output + [m];
  }

  lemma CloseSpelled(rules: Rules, output: seq<Markup>, frames: seq<Frame>, inside: seq<Node>, tag: string)
      returns (outer: seq<Frame>, nodes: seq<Node>)
    requires Spelled(rules, output, frames, inside) && Opened(rules, output + [Close(tag)]).Some?
    ensures Spelled(rules, output + [Close(tag)], outer, nodes)
  {
    OpenedAppend(rules, output, Close(tag));
    LastTag(frames);
    outer, nodes := Closed(rules, frames, inside, tag);
  }

  /** Markup that nests so far can be spelled out. */
  lemma {:induction false} NestedIsWritten(rules: Rules, output: seq<Markup>)
        returns (frames: seq<Frame>, inside: seq<Node>)
    requires Opened(rules, output).Some?
    ensures Spelled(rules, output, frames, inside)
    decreases |output|
  {
    if output == [] {
      frames, inside := [], [];
      assert Tags([]) == [];
    } else {
      var front, m := output[..|output| - 1], output[|output| - 1];
      assert output == front + [m];
      frames, inside := NestedIsWritten(rules, front);
      hide Spelled, Opened;
      if m.Text? || (m.Open? && m.tag in rules.empty) {
        LeafSpelled(rules, front, frames, inside, m);
        inside := inside + [Leaf(m)];
      } else if m.Open? {
        OpenSpelled(rules, front, frames, inside, m);
        frames, inside := frames + [Frame(inside, m.tag, m.attrs)], [];
      } else {
        frames, inside := CloseSpelled(rules, front, frames, inside, m.tag);
      }
    }
  }

  lemma Regroup(a: seq<Markup>, b: seq<Markup>, c: seq<Markup>)
    ensures a + (b + c) == (a + b) + c
  {
  }

  /** Writing out a node leaves open what was open before it. */
  lemma {:induction false} WrittenNests(rules: Rules, output: seq<Markup>, node: Node)
    requires Opened(rules, output).Some? && Proper(rules, node)
    ensures Opened(rules, output + Written(node)) == Opened(rules, output)
    decreases node, 1
  {
    match node
    case Leaf(m) => OpenedAppend(rules, output, m);
    case Element(tag, attrs, children) =>
      var start := output + [Open(tag, attrs)];
      OpenedAppend(rules, output, Open(tag, attrs));
      WrittenAllNests(rules, start, children);
      OpenedAppend(rules, start + WrittenAll(children), Close(tag));
      assert output + Written(node) == (start + WrittenAll(children)) + [Close(tag)];
  }

  lemma {:induction false} WrittenAllNests(rules: Rules, output: seq<Markup>, nodes: seq<Node>)
    requires Opened(rules, output).Some? && ProperAll(rules, nodes)
    ensures Opened(rules, output + WrittenAll(nodes)) == Opened(rules, output)
    decreases nodes, 0
  {
    if nodes == [] {
      assert output + [] == output;
    } else {
      var front, last := nodes[..|nodes| - 1], nodes[|nodes| - 1];
      WrittenAllNests(rules, output, front);
      WrittenNests(rules, output + WrittenAll(front), last);
      Regroup(output, WrittenAll(front), Written(last));
    }
  }

  /** Every end tag ends the innermost open element, and none stays open, exactly for forests. */
  lemma NestedIffForest(rules: Rules, output: seq<Markup>)
    ensures Opened(rules, output) == Some([]) <==> IsForest(rules, output)
  {
    if Opened(rules, output) == Some([]) {
      var frames, inside := NestedIsWritten(rules, output);
      LastTag(frames);
      assert WrittenFrames([]) + WrittenAll(inside) == WrittenAll(inside);
      assert ProperAll(rules, inside) && WrittenAll(inside) == output;
    }
    if nodes :| ProperAll(rules, nodes) && WrittenAll(nodes) == output {
      WrittenAllNests(rules, [], nodes);
      assert [] + WrittenAll(nodes) == output;
    }
  }

  /** Rendered markup is a forest of allowed elements. */
  lemma RenderIsForest(rules: Rules, events: seq<Event>, output: seq<Markup>)
    requires Render(rules, events) == Some(output)
    ensures IsForest(rules, output) && AllInert(rules, output)
  {
    RenderIsInert(rules, events, output);
    NestedIffForest(rules, output);
  }
}
