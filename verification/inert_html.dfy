/** Turning parsed HTML events into inert markup: what comes out is properly nested, keeps exactly
    the text outside dropped elements, and is left alone when rendered again. */
module InertHtml {

  datatype Option<+T> = None | Some(value: T)

  /** Which elements are kept, which are dropped with their content, which dropped ones and which
      kept ones have no content, and which attributes survive on an element. */
  datatype Rules = Rules(allowed: set<string>, dropped: set<string>, bare: set<string>, empty: set<string>,
                         keeps: (string, string, string) -> bool)

  type Attributes = seq<(string, string)>

  datatype Event = StartTag(tag: string, attrs: seq<(string, Option<string>)>)
                 | StartEndTag(tag: string, attrs: seq<(string, Option<string>)>)
                 | EndTag(tag: string)
                 | Data(text: string)

  datatype Markup = Open(tag: string, attrs: Attributes) | Close(tag: string) | Text(text: string)

  datatype Parser = Parser(output: seq<Markup>, suppressed: seq<string>, open: seq<string>, nodes: nat)

  const MAX_ELEMENTS: nat := 20000

  const ALLOWED: set<string> := {
    "h1", "h2", "h3", "h4", "h5", "h6", "p", "blockquote", "pre", "code", "table", "thead", "tbody", "tfoot",
    "tr", "th", "td", "caption", "ul", "ol", "li", "dl", "dt", "dd", "div", "span", "b", "strong", "em", "i", "u",
    "small", "mark", "sub", "sup", "br", "hr", "details", "summary", "figure", "figcaption", "img"}

  const DROPPED: set<string> := {
    "script", "style", "iframe", "frame", "frameset", "object", "embed", "portal", "template", "noscript", "svg",
        "math"}

  const ATTRIBUTES: set<string> := {
    "id", "class", "title", "lang", "dir", "role", "style", "colspan", "rowspan", "scope", "start", "reversed",
    "open", "alt", "width", "height"}

  /** An attribute is kept when it is listed, an aria- one, or the source of an accepted inline image. */
  predicate KeepsAttribute(attributes: set<string>, image: string -> bool, tag: string, key: string, value: string) {
    key in attributes || "aria-" <= key || (tag == "img" && key == "src" && image(value))
  }

  function ListedRules(allowed: set<string>, dropped: set<string>, attributes: set<string>,
                       image: string -> bool): Rules {
    Rules(allowed, dropped, {"embed", "frame"}, {"br", "hr", "img"},
          (tag, key, value) => KeepsAttribute(attributes, image, tag, key, value))
  }

  /** The program's rules; `image` says which sources are inline images it accepts. */
  function HtmlRules(image: string -> bool): Rules { ListedRules(ALLOWED, DROPPED, ATTRIBUTES, image) }

  // ---------------------------------------------------------------- the parser's steps

  function Fresh(): Parser { Parser([], [], [], 0) }

  /** The attributes copied: the first of each name that has a value, if the rules keep it. */
  function CleanAttrs(rules: Rules, tag: string, attrs: seq<(string, Option<string>)>, seen: set<string>): Attributes
    decreases attrs
  {
    if attrs == [] then []
    else
      var (key, value) := attrs[0];
      if key in seen || value.None? then CleanAttrs(rules, tag, attrs[1..], seen)
      else (if rules.keeps(tag, key, value.value) then [(key, value.value)] else [])
           + CleanAttrs(rules, tag, attrs[1..], seen + {key})
  }

  /** Open an element, start dropping, or pass it over; counting every element. */
  function Start(rules: Rules, p: Parser, tag: string, attrs: seq<(string, Option<string>)>): Option<Parser> {
    if p.nodes + 1 > MAX_ELEMENTS then None
    else
      var counted := p.(nodes := p.nodes + 1);
      if tag in rules.dropped then
        Some(if tag in rules.bare then counted else counted.(suppressed := p.suppressed + [tag]))
      else if p.suppressed != [] || tag !in rules.allowed then Some(counted)
      else
        var grown := counted.(output := p.output + [Open(tag, CleanAttrs(rules, tag, attrs, {}))]);
        Some(if tag in rules.empty then grown else grown.(open := p.open + [tag]))
  }

  /** The closing markup of the open elements from the innermost out to `tag`. */
  function CloseTo(open: seq<string>, tag: string): (seq<Markup>, seq<string>)
    requires tag in open
    decreases |open|
  {
    var last := open[|open| - 1];
    if last == tag then ([Close(last)], open[..|open| - 1])
    else
      var rest := CloseTo(open[..|open| - 1], tag);
      ([Close(last)] + rest.0, rest.1)
  }

  function End(p: Parser, tag: string): Parser {
    if p.suppressed != [] then
      if p.suppressed[|p.suppressed| - 1] == tag then p.(suppressed := p.suppressed[..|p.suppressed| - 1]) else p
    else if tag in p.open then
      var closed := CloseTo(p.open, tag);
      p.(output := p.output + closed.0, open := closed.1)
    else p
  }

  function PutText(p: Parser, text: string): Parser {
    if p.suppressed != [] then p else p.(output := p.output + [Text(text)])
  }

  function Take(rules: Rules, p: Parser, event: Event): Option<Parser> {
    match event
    case StartTag(tag, attrs) => Start(rules, p, tag, attrs)
    case StartEndTag(tag, attrs) =>
      var started := Start(rules, p, tag, attrs);
      if started.None? then None else Some(End(started.value, tag))
    case EndTag(tag) => Some(End(p, tag))
    case Data(text) => Some(PutText(p, text))
  }

  function Feed(rules: Rules, events: seq<Event>): Option<Parser> {
    if events == [] then Some(Fresh())
    else
      var before := Feed(rules, events[..|events| - 1]);
      if before.None? then None else Take(rules, before.value, events[|events| - 1])
  }

  function CloseAll(open: seq<string>): seq<Markup> {
    if open == [] then [] else [Close(open[|open| - 1])] + CloseAll(open[..|open| - 1])
  }

  /** The inert markup of a parsed document, unless it has too many elements. */
  function Render(rules: Rules, events: seq<Event>): Option<seq<Markup>> {
    var fed := Feed(rules, events);
    if fed.None? then None else Some(fed.value.output + CloseAll(fed.value.open))
  }

  // ---------------------------------------------------------------- proper nesting

  /** The elements left open by markup, if every end tag ends the innermost open element. */
  function Opened(rules: Rules, output: seq<Markup>): Option<seq<string>> {
    if output == [] then Some([])
    else
      var before := Opened(rules, output[..|output| - 1]);
      if before.None? then None else Bracket(rules, before.value, output[|output| - 1])
  }

  function Bracket(rules: Rules, open: seq<string>, m: Markup): Option<seq<string>> {
    match m
    case Text(_) => Some(open)
    case Open(tag, _) => if tag in rules.empty then Some(open) else Some(open + [tag])
    case Close(tag) => if open != [] && open[|open| - 1] == tag then Some(open[..|open| - 1]) else None
  }

  lemma OpenedAppend(rules: Rules, output: seq<Markup>, m: Markup)
    ensures Opened(rules, output + [m])
            == if Opened(rules, output).None? then None else Bracket(rules, Opened(rules, output).value, m)
  {
    assert (output + [m])[..|output|] == output;
  }

  lemma {:induction false} CloseToNested(rules: Rules, output: seq<Markup>, open: seq<string>, tag: string)
    requires Opened(rules, output) == Some(open) && tag in open
    ensures var closed := CloseTo(open, tag); Opened(rules, output + closed.0) == Some(closed.1)
    decreases |open|
  {
    var last, rest := open[|open| - 1], open[..|open| - 1];
    OpenedAppend(rules, output, Close(last));
    if last != tag {
      assert tag in rest;
      CloseToNested(rules, output + [Close(last)], rest, tag);
      assert output + ([Close(last)] + CloseTo(rest, tag).0) == (output + [Close(last)]) + CloseTo(rest, tag).0;
    }
  }

  lemma {:induction false} CloseAllNested(rules: Rules, output: seq<Markup>, open: seq<string>)
    requires Opened(rules, output) == Some(open)
    ensures Opened(rules, output + CloseAll(open)) == Some([])
    decreases |open|
  {
    if open == [] {
      assert output + [] == output;
    } else {
      var last, rest := open[|open| - 1], open[..|open| - 1];
      OpenedAppend(rules, output, Close(last));
      CloseAllNested(rules, output + [Close(last)], rest);
      assert output + ([Close(last)] + CloseAll(rest)) == (output + [Close(last)]) + CloseAll(rest);
    }
  }

  // ---------------------------------------------------------------- what may come out

  function Valued(attrs: Attributes): seq<(string, Option<string>)> {
    seq(|attrs|, i requires 0 <= i < |attrs| => (attrs[i].0, Some(attrs[i].1)))
  }

  /** Each name once, and every attribute one the rules keep. */
  ghost predicate GoodAttrs(rules: Rules, tag: string, attrs: Attributes) {
    && (forall i :: 0 <= i < |attrs| ==> rules.keeps(tag, attrs[i].0, attrs[i].1))
    && (forall i, j :: 0 <= i < j < |attrs| ==> attrs[i].0 != attrs[j].0)
  }

  /** Markup of allowed elements with kept attributes. */
  ghost predicate Inert(rules: Rules, m: Markup) {
    match m
    case Open(tag, attrs) => tag in rules.allowed && tag !in rules.dropped && GoodAttrs(rules, tag, attrs)
    case Close(tag) => tag in rules.allowed && tag !in rules.empty
    case Text(_) => true
  }

  ghost predicate AllInert(rules: Rules, output: seq<Markup>) {
    forall i :: 0 <= i < |output| ==> Inert(rules, output[i])
  }

  ghost predicate KeptOpen(rules: Rules, open: seq<string>) {
    forall i :: 0 <= i < |open| ==> open[i] in rules.allowed && open[i] !in rules.empty
  }

  function Keys(attrs: Attributes): set<string> { set a | a in attrs :: a.0 }

  lemma {:induction false} CleanAttrsGood(rules: Rules, tag: string, attrs: seq<(string, Option<string>)>,
                                          seen: set<string>)
    ensures GoodAttrs(rules, tag, CleanAttrs(rules, tag, attrs, seen))
    ensures Keys(CleanAttrs(rules, tag, attrs, seen)) !! seen
    decreases attrs
  {
    if attrs != [] {
      var (key, value) := attrs[0];
      if key in seen || value.None? {
        CleanAttrsGood(rules, tag, attrs[1..], seen);
      } else {
        var rest := CleanAttrs(rules, tag, attrs[1..], seen + {key});
        CleanAttrsGood(rules, tag, attrs[1..], seen + {key});
        forall i | 0 <= i < |rest| ensures rest[i].0 != key && rest[i].0 !in seen { assert rest[i].0 in Keys(rest); }
      }
    }
  }

  /** Attributes that were cleaned once are not changed by cleaning again. */
  lemma {:induction false} CleanAttrsAgain(rules: Rules, tag: string, attrs: Attributes, seen: set<string>)
    requires GoodAttrs(rules, tag, attrs) && Keys(attrs) !! seen
    ensures CleanAttrs(rules, tag, Valued(attrs), seen) == attrs
    decreases attrs
  {
    if attrs != [] {
      var key := attrs[0].0;
      assert attrs[0] in attrs && Valued(attrs)[1..] == Valued(attrs[1..]);
      forall a | a in attrs[1..] ensures a.0 != key && a.0 !in seen {
        var i :| 0 <= i < |attrs[1..]| && attrs[1..][i] == a;
        assert attrs[i + 1] == a && a in attrs;
        assert a.0 in Keys(attrs);
      }
      assert key in Keys(attrs);
      CleanAttrsAgain(rules, tag, attrs[1..], seen + {key});
    }
  }

  lemma {:induction false} CloseToInert(rules: Rules, open: seq<string>, tag: string)
    requires KeptOpen(rules, open) && tag in open
    ensures AllInert(rules, CloseTo(open, tag).0) && KeptOpen(rules, CloseTo(open, tag).1)
    decreases |open|
  {
    if open[|open| - 1] != tag { CloseToInert(rules, open[..|open| - 1], tag); }
  }

  lemma {:induction false} CloseAllInert(rules: Rules, open: seq<string>)
    requires KeptOpen(rules, open)
    ensures AllInert(rules, CloseAll(open))
    decreases |open|
  {
    if open != [] { CloseAllInert(rules, open[..|open| - 1]); }
  }

  /** Elements opened in the markup. */
  function Elements(output: seq<Markup>): nat {
    if output == [] then 0 else Elements(output[..|output| - 1]) + if output[|output| - 1].Open? then 1 else 0
  }

  lemma {:induction false} ElementsAppend(a: seq<Markup>, b: seq<Markup>)
    ensures Elements(a + b) == Elements(a) + Elements(b)
    decreases |b|
  {
    if b == [] {
      assert a + b == a;
    } else {
      ElementsAppend(a, b[..|b| - 1]);
      assert (a + b)[..|a + b| - 1] == a + b[..|b| - 1];
    }
  }

  lemma {:induction false} ClosingHasNoElements(open: seq<string>, tag: string)
    ensures tag in open ==> Elements(CloseTo(open, tag).0) == 0
    ensures Elements(CloseAll(open)) == 0
    decreases |open|
  {
    if open != [] {
      var last, rest := open[|open| - 1], open[..|open| - 1];
      ClosingHasNoElements(rest, tag);
      ElementsAppend([Close(last)], CloseAll(rest));
      assert [Close(last)][..0] == [];
      if tag in open && last != tag {
        assert tag in rest;
        ElementsAppend([Close(last)], CloseTo(rest, tag).0);
      }
    }
  }

  // ---------------------------------------------------------------- the text that is kept

  /** What an event does to the dropped elements that are open. */
  function HideStep(rules: Rules, hidden: seq<string>, e: Event): seq<string> {
    match e
    case StartTag(tag, _) => if tag in rules.dropped && tag !in rules.bare then hidden + [tag] else hidden
    case EndTag(tag) => if hidden != [] && hidden[|hidden| - 1] == tag then hidden[..|hidden| - 1] else hidden
    case _ => hidden
  }

  /** The dropped elements open after the events: only these hide text. */
  function Hidden(rules: Rules, events: seq<Event>): seq<string> {
    if events == [] then [] else HideStep(rules, Hidden(rules, events[..|events| - 1]), events[|events| - 1])
  }

  /** The text outside dropped elements, in order. */
  function Visible(rules: Rules, events: seq<Event>): seq<string> {
    if events == [] then []
    else
      var front := events[..|events| - 1];
      Visible(rules, front)
      + match events[|events| - 1]
        case Data(text) => if Hidden(rules, front) == [] then [text] else []
        case _ => []
  }

  function Texts(output: seq<Markup>): seq<string> {
    if output == [] then []
    else Texts(output[..|output| - 1]) + if output[|output| - 1].Text? then [output[|output| - 1].text] else []
  }

  lemma {:induction false} TextsAppend(a: seq<Markup>, b: seq<Markup>)
    ensures Texts(a + b) == Texts(a) + Texts(b)
    decreases |b|
  {
    if b == [] {
      assert a + b == a;
    } else {
      TextsAppend(a, b[..|b| - 1]);
      assert (a + b)[..|a + b| - 1] == a + b[..|b| - 1];
    }
  }

  lemma {:induction false} ClosingHasNoText(open: seq<string>, tag: string)
    ensures tag in open ==> Texts(CloseTo(open, tag).0) == []
    ensures Texts(CloseAll(open)) == []
    decreases |open|
  {
    if open != [] {
      var last, rest := open[|open| - 1], open[..|open| - 1];
      ClosingHasNoText(rest, tag);
      TextsAppend([Close(last)], CloseAll(rest));
      assert [Close(last)][..0] == [];
      if tag in open && last != tag {
        assert tag in rest;
        TextsAppend([Close(last)], CloseTo(rest, tag).0);
      }
    }
  }

  // ---------------------------------------------------------------- what every event keeps

  /** Markup and open elements, apart from what is being dropped. */
  ghost predicate Tidy(rules: Rules, p: Parser, texts: seq<string>) {
    && Opened(rules, p.output) == Some(p.open)
    && AllInert(rules, p.output) && KeptOpen(rules, p.open)
    && Elements(p.output) <= p.nodes <= MAX_ELEMENTS
    && Texts(p.output) == texts
  }

  ghost predicate Dropping(rules: Rules, suppressed: seq<string>) {
    forall i :: 0 <= i < |suppressed| ==> suppressed[i] in rules.dropped && suppressed[i] !in rules.bare
  }

  ghost predicate Good(rules: Rules, events: seq<Event>, p: Parser) {
    Tidy(rules, p, Visible(rules, events)) && Dropping(rules, p.suppressed) && p.suppressed == Hidden(rules, events)
  }

  lemma HiddenAppend(rules: Rules, events: seq<Event>, e: Event)
    ensures Hidden(rules, events + [e]) == HideStep(rules, Hidden(rules, events), e)
  {
    assert (events + [e])[..|events|] == events;
  }

  lemma VisibleAppend(rules: Rules, events: seq<Event>, e: Event)
    ensures Visible(rules, events + [e])
            == Visible(rules, events) + if e.Data? && Hidden(rules, events) == [] then [e.text] else []
  {
    assert (events + [e])[..|events|] == events;
  }

  lemma AppendInert(rules: Rules, output: seq<Markup>, more: seq<Markup>)
    requires AllInert(rules, output) && AllInert(rules, more)
    ensures AllInert(rules, output + more)
  {
  }

  lemma ElementsOne(output: seq<Markup>, m: Markup)
    ensures Elements(output + [m]) == Elements(output) + if m.Open? then 1 else 0
  {
    assert (output + [m])[..|output|] == output;
  }

  lemma TextsOne(output: seq<Markup>, m: Markup)
    ensures Texts(output + [m]) == Texts(output) + if m.Text? then [m.text] else []
  {
    assert (output + [m])[..|output|] == output;
  }

  /** One more piece of markup, with the open elements and the count it leaves. */
  lemma GrowTidy(rules: Rules, p: Parser, m: Markup, q: Parser, texts: seq<string>)
    requires Tidy(rules, p, texts) && Inert(rules, m) && q.output == p.output + [m]
    requires Bracket(rules, p.open, m) == Some(q.open) && KeptOpen(rules, q.open)
    requires p.nodes + (if m.Open? then 1 else 0) <= q.nodes <= MAX_ELEMENTS
    ensures Tidy(rules, q, texts + if m.Text? then [m.text] else [])
  {
    OpenedAppend(rules, p.output, m);
    ElementsOne(p.output, m);
    TextsOne(p.output, m);
    AppendInert(rules, p.output, [m]);
  }

  lemma CountTidy(rules: Rules, p: Parser, q: Parser, texts: seq<string>)
    requires Tidy(rules, p, texts) && q.output == p.output && q.open == p.open && p.nodes <= q.nodes <= MAX_ELEMENTS
    ensures Tidy(rules, q, texts)
  {
  }

  lemma DropMore(rules: Rules, suppressed: seq<string>, tag: string)
    requires Dropping(rules, suppressed) && tag in rules.dropped && tag !in rules.bare
    ensures Dropping(rules, suppressed + [tag])
  {
  }

  lemma DropLess(rules: Rules, suppressed: seq<string>)
    requires Dropping(rules, suppressed) && suppressed != []
    ensures Dropping(rules, suppressed[..|suppressed| - 1])
  {
  }

  lemma KeepOpenMore(rules: Rules, open: seq<string>, tag: string)
    requires KeptOpen(rules, open) && tag in rules.allowed && tag !in rules.empty
    ensures KeptOpen(rules, open + [tag])
  {
  }

  lemma OpenTidy(rules: Rules, p: Parser, tag: string, attrs: seq<(string, Option<string>)>, texts: seq<string>)
    requires Tidy(rules, p, texts) && p.nodes + 1 <= MAX_ELEMENTS
    requires tag !in rules.dropped && tag in rules.allowed && p.suppressed == []
    ensures Tidy(rules, Start(rules, p, tag, attrs).value, texts)
  {
    CleanAttrsGood(rules, tag, attrs, {});
    if tag !in rules.empty { KeepOpenMore(rules, p.open, tag); }
    GrowTidy(rules, p, Open(tag, CleanAttrs(rules, tag, attrs, {})), Start(rules, p, tag, attrs).value, texts);
    assert texts + [] == texts;
  }

  lemma StartTidy(rules: Rules, p: Parser, tag: string, attrs: seq<(string, Option<string>)>, texts: seq<string>)
    requires Tidy(rules, p, texts) && Dropping(rules, p.suppressed) && Start(rules, p, tag, attrs).Some?
    ensures var q := Start(rules, p, tag, attrs).value;
            && Tidy(rules, q, texts) && Dropping(rules, q.suppressed)
            && q.suppressed == if tag in rules.dropped && tag !in rules.bare then p.suppressed + [tag] else p.suppressed
  {
    var q := Start(rules, p, tag, attrs).value;
    if tag !in rules.dropped && p.suppressed == [] && tag in rules.allowed {
      OpenTidy(rules, p, tag, attrs, texts);
    } else {
      CountTidy(rules, p, q, texts);
      if tag in rules.dropped && tag !in rules.bare { DropMore(rules, p.suppressed, tag); }
    }
  }

  lemma CloseTidy(rules: Rules, p: Parser, tag: string, texts: seq<string>)
    requires Tidy(rules, p, texts) && p.suppressed == [] && tag in p.open
    ensures Tidy(rules, End(p, tag), texts)
  {
    var closed := CloseTo(p.open, tag);
    CloseToNested(rules, p.output, p.open, tag);
    CloseToInert(rules, p.open, tag);
    ClosingHasNoElements(p.open, tag);
    ClosingHasNoText(p.open, tag);
    ElementsAppend(p.output, closed.0);
    TextsAppend(p.output, closed.0);
    AppendInert(rules, p.output, closed.0);
    assert texts + [] == texts;
  }

  lemma EndTidy(rules: Rules, p: Parser, tag: string, texts: seq<string>)
    requires Tidy(rules, p, texts) && Dropping(rules, p.suppressed)
    ensures Tidy(rules, End(p, tag), texts) && Dropping(rules, End(p, tag).suppressed)
    ensures End(p, tag).nodes == p.nodes
  {
    if p.suppressed == [] && tag in p.open {
      CloseTidy(rules, p, tag, texts);
    } else {
      CountTidy(rules, p, End(p, tag), texts);
      if p.suppressed != [] { DropLess(rules, p.suppressed); }
    }
  }

  lemma TextTidy(rules: Rules, p: Parser, text: string, texts: seq<string>)
    requires Tidy(rules, p, texts)
    ensures Tidy(rules, PutText(p, text), texts + if p.suppressed == [] then [text] else [])
  {
    assert texts + [] == texts;
    if p.suppressed == [] { GrowTidy(rules, p, Text(text), PutText(p, text), texts); }
  }

  /** Every event keeps the markup nested and inert, and the text exactly what is visible. */
  lemma TakeGood(rules: Rules, events: seq<Event>, p: Parser, e: Event)
    requires Good(rules, events, p) && Take(rules, p, e).Some?
    ensures Good(rules, events + [e], Take(rules, p, e).value)
  {
    hide Tidy, Dropping, Hidden, Visible, Start, CloseTo;
    var texts := Visible(rules, events);
    HiddenAppend(rules, events, e);
    VisibleAppend(rules, events, e);
    assert texts + [] == texts;
    match e
    case StartTag(tag, attrs) => StartTidy(rules, p, tag, attrs, texts);
    case StartEndTag(tag, attrs) =>
      StartTidy(rules, p, tag, attrs, texts);
      EndTidy(rules, Start(rules, p, tag, attrs).value, tag, texts);
    case EndTag(tag) => EndTidy(rules, p, tag, texts);
    case Data(text) => TextTidy(rules, p, text, texts);
  }

  lemma {:induction false} FeedGood(rules: Rules, events: seq<Event>)
    requires Feed(rules, events).Some?
    ensures Good(rules, events, Feed(rules, events).value)
    decreases |events|
  {
    if events != [] {
      var front, last := events[..|events| - 1], events[|events| - 1];
      FeedGood(rules, front);
      TakeGood(rules, front, Feed(rules, front).value, last);
      assert events == front + [last];
    }
  }

  /** Rendered markup is properly nested and inert, and its text is exactly the visible text. */
  lemma RenderIsInert(rules: Rules, events: seq<Event>, output: seq<Markup>)
    requires Render(rules, events) == Some(output)
    ensures Opened(rules, output) == Some([]) && AllInert(rules, output)
    ensures Texts(output) == Visible(rules, events)
    ensures Elements(output) <= MAX_ELEMENTS
  {
    var p := Feed(rules, events).value;
    FeedGood(rules, events);
    CloseAllNested(rules, p.output, p.open);
    CloseAllInert(rules, p.open);
    AppendInert(rules, p.output, CloseAll(p.open));
    ClosingHasNoElements(p.open, "");
    ClosingHasNoText(p.open, "");
    ElementsAppend(p.output, CloseAll(p.open));
    TextsAppend(p.output, CloseAll(p.open));
  }

  /** Markup of listed elements with listed attributes; end tags only of elements that have content. */
  ghost predicate Listed(allowed: set<string>, dropped: set<string>, attributes: set<string>, image: string -> bool,
                         m: Markup) {
    match m
    case Open(tag, attrs) =>
      tag in allowed && tag !in dropped && forall a <- attrs :: KeepsAttribute(attributes, image, tag, a.0, a.1)
    case Close(tag) => tag in allowed && tag !in {"br", "hr", "img"}
    case Text(_) => true
  }

  lemma InertIsListed(allowed: set<string>, dropped: set<string>, attributes: set<string>, image: string -> bool,
                      m: Markup)
    requires Inert(ListedRules(allowed, dropped, attributes, image), m)
    ensures Listed(allowed, dropped, attributes, image, m)
  {
    if m.Open? {
      forall a | a in m.attrs ensures KeepsAttribute(attributes, image, m.tag, a.0, a.1) {
        var i :| 0 <= i < |m.attrs| && m.attrs[i] == a;
      }
    }
  }

  lemma OutputIsListed(allowed: set<string>, dropped: set<string>, attributes: set<string>, image: string -> bool,
                       events: seq<Event>, output: seq<Markup>)
    requires Render(ListedRules(allowed, dropped, attributes, image), events) == Some(output)
    ensures forall m <- output :: Listed(allowed, dropped, attributes, image, m)
  {
    RenderIsInert(ListedRules(allowed, dropped, attributes, image), events, output);
    hide Render, Opened, Texts, Visible, Elements, ListedRules, Listed, Inert;
    forall m | m in output ensures Listed(allowed, dropped, attributes, image, m) {
      var i :| 0 <= i < |output| && output[i] == m;
      InertIsListed(allowed, dropped, attributes, image, m);
    }
  }

  /** Under the program's own rules only its listed elements come out, with only its listed attributes,
      aria- ones, and sources of accepted images. */
  lemma ProgramKeepsItsLists(image: string -> bool, events: seq<Event>, output: seq<Markup>)
    requires Render(HtmlRules(image), events) == Some(output)
    ensures forall m <- output :: Listed(ALLOWED, DROPPED, ATTRIBUTES, image, m)
  {
    hide Render, Listed, ListedRules;
    OutputIsListed(ALLOWED, DROPPED, ATTRIBUTES, image, events, output);
  }

  // ---------------------------------------------------------------- the element limit

  function Starts(events: seq<Event>): nat {
    if events == [] then 0
    else Starts(events[..|events| - 1]) + if events[|events| - 1].StartTag? || events[|events| - 1].StartEndTag? then 1
        else 0
  }

  /** Rendering fails exactly when there are more elements than the limit. */
  lemma {:induction false} FailsIffTooMany(rules: Rules, events: seq<Event>)
    ensures Feed(rules, events).None? <==> Starts(events) > 20000
    ensures Feed(rules, events).Some? ==> Feed(rules, events).value.nodes == Starts(events)
    decreases |events|
  {
    if events != [] { FailsIffTooMany(rules, events[..|events| - 1]); }
  }

  // ---------------------------------------------------------------- rendering again changes nothing

  function EventOf(m: Markup): Event {
    match m
    case Open(tag, attrs) => StartTag(tag, Valued(attrs))
    case Close(tag) => EndTag(tag)
    case Text(text) => Data(text)
  }

  /** The events that parsing the markup gives. */
  function EventsOf(output: seq<Markup>): seq<Event> {
    seq(|output|, i requires 0 <= i < |output| => EventOf(output[i]))
  }

  lemma CloseAgain(p: Parser, tag: string)
    requires p.suppressed == [] && p.open != [] && p.open[|p.open| - 1] == tag
    ensures End(p, tag) == p.(output := p.output + [Close(tag)], open := p.open[..|p.open| - 1])
  {
    assert tag in p.open;
    assert CloseTo(p.open, tag) == ([Close(tag)], p.open[..|p.open| - 1]);
  }

  /** One piece of inert markup, parsed again, is put out as it was. */
  lemma TakeAgain(rules: Rules, p: Parser, m: Markup)
    requires p.suppressed == [] && p.nodes == Elements(p.output) && Inert(rules, m)
    requires Elements(p.output + [m]) <= MAX_ELEMENTS && Bracket(rules, p.open, m).Some?
    ensures Take(rules, p, EventOf(m)) == Some(Parser(p.output + [m], [], Bracket(rules, p.open, m).value,
                                                      Elements(p.output + [m])))
  {
    hide Elements, CleanAttrs, CloseTo;
    ElementsOne(p.output, m);
    match m
    case Open(tag, attrs) => CleanAttrsAgain(rules, tag, attrs, {});
    case Close(tag) => CloseAgain(p, tag);
    case Text(_) =>
  }

  lemma {:induction false} FeedAgain(rules: Rules, output: seq<Markup>)
    requires Opened(rules, output).Some? && AllInert(rules, output) && Elements(output) <= MAX_ELEMENTS
    ensures Feed(rules, EventsOf(output)) == Some(Parser(output, [], Opened(rules, output).value, Elements(output)))
    decreases |output|
  {
    if output != [] {
      var front, last := output[..|output| - 1], output[|output| - 1];
      assert output == front + [last];
      assert EventsOf(output)[..|output| - 1] == EventsOf(front);
      FeedAgain(rules, front);
      hide EventOf, Bracket, Take, Inert;
      TakeAgain(rules, Feed(rules, EventsOf(front)).value, last);
    }
  }

  /** Rendered markup, parsed and rendered again, comes out the same. */
  lemma RenderIsIdempotent(rules: Rules, events: seq<Event>, output: seq<Markup>)
    requires Render(rules, events) == Some(output)
    ensures Render(rules, EventsOf(output)) == Some(output)
  {
    RenderIsInert(rules, events, output);
    FeedAgain(rules, output);
    assert output + CloseAll([]) == output;
  }

  // ---------------------------------------------------------------- the parser, updated in place

  class InertParser {
    const rules: Rules
    var output: seq<Markup>
    var suppressed: seq<string>
    var openTags: seq<string>
    var nodes: nat

    ghost function View(): Parser
      reads this
    {
      Parser(output, suppressed, openTags, nodes)
    }

    constructor (rules: Rules)
      ensures this.rules == rules && View() == Fresh()
    {
      this.rules := rules;
      output, suppressed, openTags, nodes := [], [], [], 0;
    }

    /** Copy the attributes that may stay. */
    method CopyAttributes(tag: string, attrs: seq<(string, Option<string>)>) returns (clean: Attributes)
      ensures clean == CleanAttrs(rules, tag, attrs, {})
    {
      clean := [];
      var seen: set<string> := {};
      var i := 0;
      while i < |attrs|
        invariant i <= |attrs| && clean + CleanAttrs(rules, tag, attrs[i..], seen) == CleanAttrs(rules, tag, attrs, {})
      {
        assert attrs[i..][0] == attrs[i] && attrs[i..][1..] == attrs[i + 1..];
        var (key, value) := attrs[i];
        if !(key in seen || value.None?) {
          seen := seen + {key};
          if rules.keeps(tag, key, value.value) { clean := clean + [(key, value.value)]; }
        }
        i := i + 1;
      }
      assert clean + [] == clean;
    }

    method HandleStartTag(tag: string, attrs: seq<(string, Option<string>)>) returns (ok: bool)
      modifies this
      ensures if ok then Start(rules, old(View()), tag, attrs) == Some(View())
              else Start(rules, old(View()), tag, attrs) == None
    {
      nodes := nodes + 1;
      if nodes > MAX_ELEMENTS { return false; }
      ok := true;
      if suppressed != [] {
        if tag in rules.dropped && tag !in rules.bare { suppressed := suppressed + [tag]; }
        return;
      }
      if tag in rules.dropped {
        if tag !in rules.bare { suppressed := suppressed + [tag]; }
        return;
      }
      if tag !in rules.allowed { return; }
      var clean := CopyAttributes(tag, attrs);
      output := output + [Open(tag, clean)];
      if tag !in rules.empty { openTags := openTags + [tag]; }
    }

    method HandleEndTag(tag: string)
      modifies this
      ensures View() == End(old(View()), tag)
    {
      if suppressed != [] {
        if suppressed[|suppressed| - 1] == tag { suppressed := suppressed[..|suppressed| - 1]; }
        return;
      }
      if tag in openTags {
        ghost var whole := CloseTo(openTags, tag);
        ghost var before := output;
        var last := openTags[|openTags| - 1];
        openTags := openTags[..|openTags| - 1];
        output := output + [Close(last)];
        while last != tag
          invariant suppressed == old(suppressed) && nodes == old(nodes)
          invariant last == tag ==> output == before + whole.0 && openTags == whole.1
          invariant last != tag ==> tag in openTags && before + whole.0 == output + CloseTo(openTags, tag).0
                                    && whole.1 == CloseTo(openTags, tag).1
          decreases |openTags|, last != tag
        {
          last := openTags[|openTags| - 1];
          openTags := openTags[..|openTags| - 1];
          output := output + [Close(last)];
        }
      }
    }

    method HandleStartEndTag(tag: string, attrs: seq<(string, Option<string>)>) returns (ok: bool)
      modifies this
      ensures if ok then Take(rules, old(View()), StartEndTag(tag, attrs)) == Some(View())
              else Take(rules, old(View()), StartEndTag(tag, attrs)) == None
    {
      ok := HandleStartTag(tag, attrs);
      if ok { HandleEndTag(tag); }
    }

    method HandleData(text: string)
      modifies this
      ensures View() == PutText(old(View()), text)
    {
      if suppressed == [] { output := output + [Text(text)]; }
    }

    method HandleEvent(event: Event) returns (ok: bool)
      modifies this
      ensures if ok then Take(rules, old(View()), event) == Some(View()) else Take(rules, old(View()), event) == None
    {
      match event
      case StartTag(tag, attrs) => ok := HandleStartTag(tag, attrs);
      case StartEndTag(tag, attrs) => ok := HandleStartEndTag(tag, attrs);
      case EndTag(tag) => HandleEndTag(tag); ok := true;
      case Data(text) => HandleData(text); ok := true;
    }

    /** Close what is still open. */
    method FinishDocument() returns (markup: seq<Markup>)
      modifies this
      ensures markup == old(output) + CloseAll(old(openTags))
    {
      while openTags != []
        invariant output + CloseAll(openTags) == old(output) + CloseAll(old(openTags))
        decreases |openTags|
      {
        var last := openTags[|openTags| - 1];
        assert output + ([Close(last)] + CloseAll(openTags[..|openTags| - 1]))
            == (output + [Close(last)]) + CloseAll(openTags[..|openTags| - 1]);
        output := output + [Close(last)];
        openTags := openTags[..|openTags| - 1];
      }
      markup := output;
    }
  }

  /** Render parsed events as inert markup. */
  method RenderInertMarkup(rules: Rules, events: seq<Event>) returns (markup: Option<seq<Markup>>)
    ensures markup == Render(rules, events)
    ensures markup.Some? ==> Opened(rules, markup.value) == Some([]) && AllInert(rules, markup.value)
                             && Texts(markup.value) == Visible(rules, events)
  {
    var parser := new InertParser(rules);
    var i := 0;
    while i < |events|
      invariant i <= |events| && parser.rules == rules && fresh(parser)
      invariant Feed(rules, events[..i]) == Some(parser.View())
    {
      assert events[..i + 1][..i] == events[..i];
      var ok := parser.HandleEvent(events[i]);
      if !ok {
        FeedFails(rules, events, i + 1);
        return None;
      }
      i := i + 1;
    }
    assert events[..i] == events;
    var finished := parser.FinishDocument();
    markup := Some(finished);
    RenderIsInert(rules, events, finished);
  }

  lemma {:induction false} FeedFails(rules: Rules, events: seq<Event>, n: nat)
    requires n <= |events| && Feed(rules, events[..n]).None?
    ensures Feed(rules, events).None?
    decreases |events|
  {
    if n < |events| {
      var front := events[..|events| - 1];
      assert front[..n] == events[..n];
      FeedFails(rules, front, n);
    } else {
      assert events[..n] == events;
    }
  }
}
