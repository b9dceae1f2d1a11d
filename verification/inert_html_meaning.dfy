/** What rendered markup is, said from the events alone: which elements come out with which
    attributes, and inside which elements each of them and each text stands. */
module InertMeaning {
  import opened InertHtml

  // ---------------------------------------------------------------- attributes

  /** The attribute is the first of its name with a value, and the rules keep it. */
  predicate Copied(rules: Rules, tag: string, attrs: seq<(string, Option<string>)>, i: nat)
    requires i < |attrs|
  {
    && attrs[i].1.Some? && rules.keeps(tag, attrs[i].0, attrs[i].1.value)
    && forall j :: 0 <= j < i && attrs[j].0 == attrs[i].0 ==> attrs[j].1.None?
  }

  /** The copied ones among the first n attributes, in order. */
  function Kept(rules: Rules, tag: string, attrs: seq<(string, Option<string>)>, n: nat): Attributes
    requires n <= |attrs|
  {
    if n == 0 then []
    else Kept(rules, tag, attrs, n - 1)
         + if Copied(rules, tag, attrs, n - 1) then [(attrs[n - 1].0, attrs[n - 1].1.value)] else []
  }

  ghost predicate SeenIn(attrs: seq<(string, Option<string>)>, i: nat, seen: set<string>)
    requires i <= |attrs|
  {
    forall key :: key in seen <==> exists j :: 0 <= j < i && attrs[j].0 == key && attrs[j].1.Some?
  }

  lemma SeenMore(attrs: seq<(string, Option<string>)>, i: nat, seen: set<string>)
    requires i < |attrs| && SeenIn(attrs, i, seen)
    ensures SeenIn(attrs, i + 1, if attrs[i].1.Some? then seen + {attrs[i].0} else seen)
  {
  }

  lemma {:induction false} CleanIsKept(rules: Rules, tag: string, attrs: seq<(string, Option<string>)>, i: nat,
                                       seen: set<string>)
    requires i <= |attrs| && SeenIn(attrs, i, seen)
    ensures Kept(rules, tag, attrs, i) + CleanAttrs(rules, tag, attrs[i..], seen) == Kept(rules, tag, attrs, |attrs|)
    decreases |attrs| - i
  {
    if i < |attrs| {
      var (key, value) := attrs[i];
      var rest := attrs[i..];
      assert rest[0] == attrs[i] && rest[1..] == attrs[i + 1..];
      SeenMore(attrs, i, seen);
      var now := if value.Some? then seen + {key} else seen;
      CleanIsKept(rules, tag, attrs, i + 1, now);
      assert Copied(rules, tag, attrs, i) <==> key !in seen && value.Some? && rules.keeps(tag, key, value.value);
      if key in seen { assert seen + {key} == seen; }
    }
  }

  // ---------------------------------------------------------------- open elements

  /** The elements around the innermost open `tag`. */
  ghost function Around(open: seq<string>, tag: string): seq<string>
    requires tag in open
  {
    LastExists(open, tag);
    var k: nat :| k < |open| && open[k] == tag && tag !in open[k + 1..];
    open[..k]
  }

  lemma {:induction false} LastExists(open: seq<string>, tag: string)
    requires tag in open
    ensures exists k: nat :: k < |open| && open[k] == tag && tag !in open[k + 1..]
    decreases |open|
  {
    var last := |open| - 1;
    if open[last] == tag {
      assert open[last + 1..] == [];
    } else {
      var front := open[..last];
      assert open == front + [open[last]];
      LastExists(front, tag);
      var k: nat :| k < |front| && front[k] == tag && tag !in front[k + 1..];
      StillLast(front, open[last], tag, k);
    }
  }

  lemma StillLast(front: seq<string>, next: string, tag: string, k: nat)
    requires k < |front| && front[k] == tag && tag !in front[k + 1..] && next != tag
    ensures (front + [next])[k] == tag && tag !in (front + [next])[k + 1..]
  {
    assert (front + [next])[k + 1..] == front[k + 1..] + [next];
  }

  lemma LaterIn(open: seq<string>, i: nat, j: nat)
    requires i < j < |open|
    ensures open[j] in open[i + 1..]
  {
    assert open[i + 1..][j - i - 1] == open[j];
  }

  lemma AroundIs(open: seq<string>, tag: string, k: nat)
    requires k < |open| && open[k] == tag && tag !in open[k + 1..]
    ensures Around(open, tag) == open[..k]
  {
    LastExists(open, tag);
    forall j: nat | j < |open| && open[j] == tag && tag !in open[j + 1..] ensures j == k {
      if j < k { LaterIn(open, j, k); }
      if k < j { LaterIn(open, k, j); }
    }
  }

  /** Closing out to an element leaves exactly what is around it. */
  lemma {:induction false} CloseToLeaves(open: seq<string>, tag: string)
    requires tag in open
    ensures CloseTo(open, tag).1 == Around(open, tag)
    decreases |open|
  {
    var last := |open| - 1;
    if open[last] == tag {
      assert open[last + 1..] == [];
      AroundIs(open, tag, last);
    } else {
      var front := open[..last];
      assert open == front + [open[last]];
      CloseToLeaves(front, tag);
      LastExists(front, tag);
      var k: nat :| k < |front| && front[k] == tag && tag !in front[k + 1..];
      AroundIs(front, tag, k);
      assert open[k + 1..] == front[k + 1..] + [open[last]] && open[..k] == front[..k];
      AroundIs(open, tag, k);
    }
  }

  /** An element that comes out where nothing is being dropped. */
  predicate ComesOut(rules: Rules, tag: string) { tag in rules.allowed && tag !in rules.dropped }

  /** What an event does to the open elements: an end tag cuts them off just before the innermost one
      of its name. */
  ghost function OpenStep(rules: Rules, open: seq<string>, hidden: seq<string>, e: Event): seq<string> {
    if hidden != [] then open
    else match e
      case StartTag(tag, _) => if ComesOut(rules, tag) && tag !in rules.empty then open + [tag] else open
      case EndTag(tag) => if tag in open then Around(open, tag) else open
      case _ => open
  }

  /** The elements open after the events. */
  ghost function OpenAfter(rules: Rules, events: seq<Event>): seq<string> {
    if events == [] then []
    else
      var front := events[..|events| - 1];
      OpenStep(rules, OpenAfter(rules, front), Hidden(rules, front), events[|events| - 1])
  }

  ghost predicate AllComeOut(rules: Rules, open: seq<string>) {
    forall tag <- open :: ComesOut(rules, tag) && tag !in rules.empty
  }

  lemma {:induction false} OpenComesOut(rules: Rules, events: seq<Event>)
    ensures AllComeOut(rules, OpenAfter(rules, events))
    decreases |events|
  {
    if events != [] {
      var front, e := events[..|events| - 1], events[|events| - 1];
      OpenComesOut(rules, front);
      var open := OpenAfter(rules, front);
      if e.EndTag? && e.tag in open { LastExists(open, e.tag); }
    }
  }

  lemma OpenTakes(rules: Rules, p: Parser, e: Event)
    requires AllComeOut(rules, p.open) && Dropping(rules, p.suppressed) && Take(rules, p, e).Some?
    ensures Take(rules, p, e).value.open == OpenStep(rules, p.open, p.suppressed, e)
  {
    match e
    case StartTag(tag, attrs) =>
    case StartEndTag(tag, attrs) => StartEndLeaves(rules, p, tag, attrs);
    case EndTag(tag) => if tag in p.open { CloseToLeaves(p.open, tag); }
    case Data(text) =>
  }

  lemma StartEndLeaves(rules: Rules, p: Parser, tag: string, attrs: seq<(string, Option<string>)>)
    requires AllComeOut(rules, p.open) && Dropping(rules, p.suppressed) && Start(rules, p, tag, attrs).Some?
    ensures End(Start(rules, p, tag, attrs).value, tag).open == p.open
  {
    var q := Start(rules, p, tag, attrs).value;
    if q.suppressed == [] && tag in q.open {
      if q.open != p.open {
        CloseToLeaves(q.open, tag);
        assert q.open[|p.open| + 1..] == [] && q.open[..|p.open|] == p.open;
        AroundIs(q.open, tag, |p.open|);
      }
    }
  }

  // ---------------------------------------------------------------- what comes out, and where

  /** A piece of markup, and the elements it stands in. */
  datatype Place = Place(piece: Markup, inside: seq<string>)

  /** The elements and texts of markup, each with the elements open where it stands. */
  ghost function Places(rules: Rules, output: seq<Markup>): seq<Place> {
    if output == [] then []
    else
      var front, last := output[..|output| - 1], output[|output| - 1];
      Places(rules, front)
      + if last.Close? then []
        else [Place(last, if Opened(rules, front).Some? then Opened(rules, front).value else [])]
  }

  /** What an event brings out: its element with the attributes kept, or its text, unless hidden. */
  ghost function Brings(rules: Rules, open: seq<string>, hidden: seq<string>, e: Event): seq<Place> {
    if hidden != [] then []
    else match e
      case StartTag(tag, attrs) =>
        if ComesOut(rules, tag) then [Place(Open(tag, Kept(rules, tag, attrs, |attrs|)), open)] else []
      case StartEndTag(tag, attrs) =>
        if ComesOut(rules, tag) then [Place(Open(tag, Kept(rules, tag, attrs, |attrs|)), open)] else []
      case EndTag(_) => []
      case Data(text) => [Place(Text(text), open)]
  }

  ghost function Expected(rules: Rules, events: seq<Event>): seq<Place> {
    if events == [] then []
    else
      var front := events[..|events| - 1];
      Expected(rules, front)
      + Brings(rules, OpenAfter(rules, front), Hidden(rules, front), events[|events| - 1])
  }

  lemma PlacesOne(rules: Rules, output: seq<Markup>, m: Markup, open: seq<string>)
    requires Opened(rules, output) == Some(open)
    ensures Places(rules, output + [m]) == Places(rules, output) + if m.Close? then [] else [Place(m, open)]
  {
    assert (output + [m])[..|output|] == output;
  }

  lemma {:induction false} PlacesClosing(rules: Rules, output: seq<Markup>, closing: seq<Markup>)
    requires forall m <- closing :: m.Close?
    ensures Places(rules, output + closing) == Places(rules, output)
    decreases |closing|
  {
    if closing == [] {
      assert output + closing == output;
    } else {
      var front := closing[..|closing| - 1];
      assert output + closing == (output + front) + [closing[|closing| - 1]];
      assert ((output + front) + [closing[|closing| - 1]])[..|output + front|] == output + front;
      PlacesClosing(rules, output, front);
    }
  }

  lemma {:induction false} OnlyCloses(open: seq<string>, tag: string)
    ensures tag in open ==> forall m <- CloseTo(open, tag).0 :: m.Close?
    ensures forall m <- CloseAll(open) :: m.Close?
    decreases |open|
  {
    if open != [] {
      OnlyCloses(open[..|open| - 1], tag);
    }
  }

  lemma EndPlaces(rules: Rules, p: Parser, tag: string)
    ensures Places(rules, End(p, tag).output) == Places(rules, p.output)
  {
    if p.suppressed == [] && tag in p.open {
      OnlyCloses(p.open, tag);
      PlacesClosing(rules, p.output, CloseTo(p.open, tag).0);
    }
  }

  lemma StartPlaces(rules: Rules, p: Parser, tag: string, attrs: seq<(string, Option<string>)>)
    requires Opened(rules, p.output) == Some(p.open) && Start(rules, p, tag, attrs).Some?
    ensures Places(rules, Start(rules, p, tag, attrs).value.output)
            == Places(rules, p.output)
               + if p.suppressed == [] && ComesOut(rules, tag)
                 then [Place(Open(tag, Kept(rules, tag, attrs, |attrs|)), p.open)] else []
  {
    if p.suppressed == [] && ComesOut(rules, tag) {
      CleanIsKept(rules, tag, attrs, 0, {});
      assert attrs[0..] == attrs && [] + CleanAttrs(rules, tag, attrs, {}) == CleanAttrs(rules, tag, attrs, {});
      PlacesOne(rules, p.output, Open(tag, CleanAttrs(rules, tag, attrs, {})), p.open);
    } else {
      assert Places(rules, p.output) + [] == Places(rules, p.output);
    }
  }

  lemma TakePlaces(rules: Rules, p: Parser, e: Event)
    requires Opened(rules, p.output) == Some(p.open) && Take(rules, p, e).Some?
    ensures Places(rules, Take(rules, p, e).value.output)
            == Places(rules, p.output) + Brings(rules, p.open, p.suppressed, e)
  {
    match e
    case StartTag(tag, attrs) => StartPlaces(rules, p, tag, attrs);
    case StartEndTag(tag, attrs) =>
      StartPlaces(rules, p, tag, attrs);
      EndPlaces(rules, Start(rules, p, tag, attrs).value, tag);
    case EndTag(tag) => EndPlaces(rules, p, tag);
    case Data(text) => if p.suppressed == [] { PlacesOne(rules, p.output, Text(text), p.open); }
  }

  /** After every event the open elements are those the events leave open, and what has come out so far
      is what the events bring out, each piece inside exactly the elements then open. */
  lemma {:induction false} FeedMeaning(rules: Rules, events: seq<Event>)
    requires Feed(rules, events).Some?
    ensures Opened(rules, Feed(rules, events).value.output) == Some(OpenAfter(rules, events))
    ensures Feed(rules, events).value.open == OpenAfter(rules, events)
    ensures Places(rules, Feed(rules, events).value.output) == Expected(rules, events)
    decreases |events|
  {
    FeedGood(rules, events);
    if events != [] {
      var front, e := events[..|events| - 1], events[|events| - 1];
      var p := Feed(rules, front).value;
      FeedMeaning(rules, front);
      FeedGood(rules, front);
      OpenComesOut(rules, front);
      hide Places, Expected, Brings, Opened, Take, OpenStep, Visible;
      OpenTakes(rules, p, e);
      TakePlaces(rules, p, e);
      ExpectedStep(rules, events);
    }
  }

  lemma ExpectedStep(rules: Rules, events: seq<Event>)
    requires events != []
    ensures var front := events[..|events| - 1];
            Expected(rules, events) == Expected(rules, front)
              + Brings(rules, OpenAfter(rules, front), Hidden(rules, front), events[|events| - 1])
  {
  }

  /** Rendered markup holds exactly the elements and texts that the events bring out, in order, each
      inside exactly the elements that were open, and ends with all of them closed. */
  lemma RenderMeaning(rules: Rules, events: seq<Event>, output: seq<Markup>)
    requires Render(rules, events) == Some(output)
    ensures Places(rules, output) == Expected(rules, events) && Opened(rules, output) == Some([])
  {
    FeedMeaning(rules, events);
    RenderIsInert(rules, events, output);
    var p := Feed(rules, events).value;
    OnlyCloses(p.open, "");
    PlacesClosing(rules, p.output, CloseAll(p.open));
  }

  // ---------------------------------------------------------------- and that is all there is to it

  /** The elements open right after the last of some pieces. */
  ghost function AfterLast(rules: Rules, places: seq<Place>): seq<string> {
    if places == [] then []
    else
      var last := places[|places| - 1];
      if last.piece.Open? && last.piece.tag !in rules.empty then last.inside + [last.piece.tag] else last.inside
  }

  /** What is open is what was open after the last piece, less what end tags have closed since. */
  lemma {:induction false} OpenSinceLast(rules: Rules, output: seq<Markup>)
    requires Opened(rules, output).Some?
    ensures var after := AfterLast(rules, Places(rules, output));
            && Opened(rules, output).value <= after
            && (Opened(rules, output).value == after <==> output == [] || !output[|output| - 1].Close?)
    decreases |output|
  {
    if output != [] {
      var front, last := output[..|output| - 1], output[|output| - 1];
      OpenSinceLast(rules, front);
    }
  }

  lemma ClosingStep(rules: Rules, output: seq<Markup>, open: seq<string>)
    requires Opened(rules, output) == Some(open) && output != [] && output[|output| - 1].Close?
    ensures var front, tag := output[..|output| - 1], output[|output| - 1].tag;
            var after := AfterLast(rules, Places(rules, output));
            && Opened(rules, front) == Some(open + [tag]) && Places(rules, front) == Places(rules, output)
            && |open| < |after| && after[|open|] == tag
  {
    var front := output[..|output| - 1];
    OpenSinceLast(rules, front);
    var was := Opened(rules, front).value;
    assert was == open + [was[|was| - 1]];
  }

  lemma PieceStep(rules: Rules, output: seq<Markup>)
    requires Opened(rules, output).Some? && output != [] && !output[|output| - 1].Close?
    ensures var front := output[..|output| - 1];
            && Opened(rules, front).Some?
            && Places(rules, output)
               == Places(rules, front) + [Place(output[|output| - 1], Opened(rules, front).value)]
  {
  }

  lemma SameLast<T>(a: seq<T>, x: T, b: seq<T>, y: T)
    requires a + [x] == b + [y]
    ensures a == b && x == y
  {
    assert |a + [x]| == |b + [y]|;
    assert (a + [x])[..|a|] == a && (b + [y])[..|b|] == b;
    assert (a + [x])[|a|] == x && (b + [y])[|b|] == y;
  }

  /** Properly nested markup is determined by its pieces and where they stand. */
  lemma {:induction false} PlacesDetermine(rules: Rules, a: seq<Markup>, b: seq<Markup>)
    requires Opened(rules, a).Some? && Opened(rules, a) == Opened(rules, b)
    requires Places(rules, a) == Places(rules, b)
    ensures a == b
    decreases |a|
  {
    if a == [] {
      OpenSinceLast(rules, a);
      NoPieces(rules, b);
    } else {
      SameEnd(rules, a, b);
      hide Places, Opened;
      var frontA, frontB := a[..|a| - 1], b[..|b| - 1];
      PlacesDetermine(rules, frontA, frontB);
      assert a == frontA + [a[|a| - 1]] && b == frontB + [b[|b| - 1]];
    }
  }

  /** They end alike, and what comes before the end agrees as well. */
  lemma SameEnd(rules: Rules, a: seq<Markup>, b: seq<Markup>)
    requires Opened(rules, a).Some? && Opened(rules, a) == Opened(rules, b)
    requires Places(rules, a) == Places(rules, b) && a != []
    ensures b != [] && a[|a| - 1] == b[|b| - 1]
    ensures var frontA, frontB := a[..|a| - 1], b[..|b| - 1];
            && Opened(rules, frontA).Some? && Opened(rules, frontA) == Opened(rules, frontB)
            && Places(rules, frontA) == Places(rules, frontB)
  {
    OpenSinceLast(rules, a);
    OpenSinceLast(rules, b);
    hide Places, Opened, AfterLast;
    if a[|a| - 1].Close? {
      ClosingStep(rules, a, Opened(rules, a).value);
      ClosingStep(rules, b, Opened(rules, b).value);
    } else {
      PieceStep(rules, a);
      PieceIsLast(rules, a, b);
      PieceStep(rules, b);
      var frontA, frontB := a[..|a| - 1], b[..|b| - 1];
      SameLast(Places(rules, frontA), Place(a[|a| - 1], Opened(rules, frontA).value),
               Places(rules, frontB), Place(b[|b| - 1], Opened(rules, frontB).value));
    }
  }

  lemma PieceIsLast(rules: Rules, a: seq<Markup>, b: seq<Markup>)
    requires Opened(rules, a).Some? && Opened(rules, a) == Opened(rules, b) && Places(rules, a) == Places(rules, b)
    requires a != [] && !a[|a| - 1].Close?
    ensures b != [] && !b[|b| - 1].Close?
  {
    OpenSinceLast(rules, a);
    OpenSinceLast(rules, b);
    PieceStep(rules, a);
    assert Places(rules, a) != [];
  }

  lemma NoPieces(rules: Rules, output: seq<Markup>)
    requires Opened(rules, output) == Some([]) && Places(rules, output) == []
    ensures output == []
  {
    OpenSinceLast(rules, output);
  }

  /** There is one rendering of the events: the properly nested markup of what they bring out. */
  lemma RenderIsDetermined(rules: Rules, events: seq<Event>, output: seq<Markup>, other: seq<Markup>)
    requires Render(rules, events) == Some(output)
    requires Opened(rules, other) == Some([]) && Places(rules, other) == Expected(rules, events)
    ensures other == output
  {
    RenderMeaning(rules, events, output);
    PlacesDetermine(rules, output, other);
  }
}
