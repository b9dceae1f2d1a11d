/** The size of a page as the size of a text: the page written out as JSON and encoded in UTF-8. */
module PageJson {
  import opened TranscriptPager

  // ---------------------------------------------------------------- writing a page out

  /** A character in UTF-8. */
  function Utf8(c: char): seq<nat> {
    var code := c as int;
    if code < 0x80 then [code]
    else if code < 0x800 then [0xC0 + code / 0x40, 0x80 + code % 0x40]
    else if code < 0x10000 then [0xE0 + code / 0x1000, 0x80 + code / 0x40 % 0x40, 0x80 + code % 0x40]
    else [0xF0 + code / 0x40000, 0x80 + code / 0x1000 % 0x40, 0x80 + code / 0x40 % 0x40, 0x80 + code % 0x40]
  }

  function Encode(text: string): seq<nat> {
    if text == [] then [] else Utf8(text[0]) + Encode(text[1..])
  }

  const HEX: string := "0123456789abcdef"

  /** A character inside a JSON string: quotes, backslashes and control characters are escaped. */
  function Escaped(c: char): string {
    var code := c as int;
    if c == '"' then ['\\', '"']
    else if c == '\\' then ['\\', '\\']
    else if code == 8 then ['\\', 'b']
    else if code == 9 then ['\\', 't']
    else if code == 10 then ['\\', 'n']
    else if code == 12 then ['\\', 'f']
    else if code == 13 then ['\\', 'r']
    else if code < 0x20 then ['\\', 'u', '0', '0', HEX[code / 16], HEX[code % 16]]
    else [c]
  }

  function EscapedText(text: string): string {
    if text == [] then [] else EscapedText(text[..|text| - 1]) + Escaped(text[|text| - 1])
  }

  function Quoted(text: string): string { ['"'] + EscapedText(text) + ['"'] }

  /** A number in decimal. */
  function Decimal(n: nat): string { if n < 10 then [HEX[n]] else Decimal(n / 10) + [HEX[n % 10]] }

  function RoleName(role: Role): string { if role == User then "user" else "assistant" }

  /** A key with its colon. */
  function Key(name: string): string { "\"" + name + "\":" }

  function Member(name: string, value: string): string { Key(name) + value }

  /** An entry with its keys in alphabetical order and no spaces. */
  function EntryJson(e: Entry): string {
    "{" + Member("complete", if e.complete then "true" else "false")
    + ("," + Member("role", "\"" + RoleName(e.role) + "\""))
    + ("," + Member("sequence", Decimal(e.sequence)))
    + ("," + Member("text", Quoted(e.text)))
    + ("," + Member("text_offset", Decimal(e.offset)))
    + "}"
  }

  /** Entries with commas between them. */
  function EntriesJson(page: seq<Entry>): string {
    if page == [] then []
    else if |page| == 1 then EntryJson(page[0])
    else EntriesJson(page[..|page| - 1]) + "," + EntryJson(page[|page| - 1])
  }

  function PageText(page: seq<Entry>): string { "[" + EntriesJson(page) + "]" }

  // ---------------------------------------------------------------- and counting its bytes

  lemma {:induction false} EncodeAppend(a: string, b: string)
    ensures |Encode(a + b)| == |Encode(a)| + |Encode(b)|
  {
    if a == [] {
      assert a + b == b;
    } else {
      assert (a + b)[1..] == a[1..] + b;
      EncodeAppend(a[1..], b);
    }
  }

  ghost predicate Ascii(text: string) { forall c <- text :: c as int < 0x80 }

  lemma {:induction false} AsciiBytes(text: string)
    requires Ascii(text)
    ensures |Encode(text)| == |text|
  {
    if text != [] {
      forall c | c in text[1..] ensures c in text {}
      assert text[0] in text;
      AsciiBytes(text[1..]);
    }
  }

  lemma EscapedBytes(c: char)
    ensures |Encode(Escaped(c))| == CharBytes(c)
  {
    var text := Escaped(c);
    if |text| > 1 {
      AsciiBytes(text);
    } else {
      assert text[1..] == [] && Encode(text[1..]) == [];
    }
  }

  lemma {:induction false} EscapedTextBytes(text: string)
    ensures |Encode(EscapedText(text))| == TextBytes(text, |text|)
  {
    if text != [] {
      var front, last := text[..|text| - 1], text[|text| - 1];
      EscapedTextBytes(front);
      EscapedBytes(last);
      EncodeAppend(EscapedText(front), Escaped(last));
      TextBytesPrefix(text, |front|, |front|);
    }
  }

  lemma {:induction false} DecimalBytes(n: nat)
    ensures |Encode(Decimal(n))| == Digits(n)
  {
    var last := [HEX[if n < 10 then n else n % 10]];
    AsciiBytes(last);
    if n >= 10 {
      DecimalBytes(n / 10);
      EncodeAppend(Decimal(n / 10), last);
    }
  }

  lemma QuotedBytes(text: string)
    ensures |Encode(Quoted(text))| == TextBytes(text, |text|) + 2
  {
    EscapedTextBytes(text);
    AsciiBytes(['"']);
    EncodeAppend(['"'] + EscapedText(text), ['"']);
    EncodeAppend(['"'], EscapedText(text));
  }

  lemma OneByte(c: char)
    requires c as int < 0x80
    ensures |Encode([c])| == 1
  {
    AsciiBytes([c]);
  }

  lemma MemberBytes(name: string, value: string)
    requires Ascii(name)
    ensures |Encode(Member(name, value))| == |name| + 3 + |Encode(value)|
    ensures |Encode("," + Member(name, value))| == |name| + 4 + |Encode(value)|
  {
    EncodeAppend(Key(name), value);
    EncodeAppend("\"" + name, "\":");
    EncodeAppend("\"", name);
    AsciiBytes(name);
    AsciiBytes("\"");
    AsciiBytes("\":");
    AsciiBytes(",");
    EncodeAppend(",", Member(name, value));
  }

  lemma FlagBytes(complete: bool)
    ensures |Encode(Member("complete", if complete then "true" else "false"))| == 11 + if complete then 4 else 5
  {
    MemberBytes("complete", if complete then "true" else "false");
    AsciiBytes(if complete then "true" else "false");
  }

  lemma RoleMemberBytes(role: Role)
    ensures |Encode("," + Member("role", "\"" + RoleName(role) + "\""))| == 10 + RoleBytes(role)
  {
    MemberBytes("role", "\"" + RoleName(role) + "\"");
    AsciiBytes(RoleName(role));
    AsciiBytes("\"");
    EncodeAppend("\"" + RoleName(role), "\"");
    EncodeAppend("\"", RoleName(role));
  }

  lemma NumberBytes(sequence: nat, offset: nat)
    ensures |Encode("," + Member("sequence", Decimal(sequence)))| == 12 + Digits(sequence)
    ensures |Encode("," + Member("text_offset", Decimal(offset)))| == 15 + Digits(offset)
  {
    hide Encode, Digits, Decimal, Member;
    MemberBytes("sequence", Decimal(sequence));
    MemberBytes("text_offset", Decimal(offset));
    DecimalBytes(sequence);
    DecimalBytes(offset);
  }

  lemma TextMemberBytes(text: string)
    ensures |Encode("," + Member("text", Quoted(text)))| == 10 + TextBytes(text, |text|)
  {
    hide Encode, Quoted, Member, TextBytes;
    MemberBytes("text", Quoted(text));
    QuotedBytes(text);
  }

  lemma SevenBytes(a: string, b: string, c: string, d: string, e: string, f: string, g: string)
    ensures |Encode(a + b + c + d + e + f + g)|
            == |Encode(a)| + |Encode(b)| + |Encode(c)| + |Encode(d)| + |Encode(e)| + |Encode(f)| + |Encode(g)|
  {
    hide Encode;
    EncodeAppend(a + b + c + d + e + f, g);
    EncodeAppend(a + b + c + d + e, f);
    EncodeAppend(a + b + c + d, e);
    EncodeAppend(a + b + c, d);
    EncodeAppend(a + b, c);
    EncodeAppend(a, b);
  }

  lemma EntryJsonBytes(e: Entry)
    ensures |Encode(EntryJson(e))| == EntryBytes(e)
  {
    OneByte('{');
    OneByte('}');
    hide Encode, Member, Decimal, Quoted, Digits, TextBytes;
    FlagBytes(e.complete);
    RoleMemberBytes(e.role);
    NumberBytes(e.sequence, e.offset);
    TextMemberBytes(e.text);
    SevenBytes("{", Member("complete", if e.complete then "true" else "false"),
             "," + Member("role", "\"" + RoleName(e.role) + "\""), "," + Member("sequence", Decimal(e.sequence)),
             "," + Member("text", Quoted(e.text)), "," + Member("text_offset", Decimal(e.offset)), "}");
  }

  lemma EntriesStep(front: seq<Entry>, last: Entry)
    ensures EntriesJson(front + [last])
            == if front == [] then EntryJson(last) else EntriesJson(front) + "," + EntryJson(last)
  {
    hide EntryJson;
    assert (front + [last])[..|front|] == front;
  }

  lemma JoinedBytes(a: string, b: string)
    ensures |Encode(a + "," + b)| == |Encode(a)| + 1 + |Encode(b)|
  {
    OneByte(',');
    hide Encode;
    EncodeAppend(a + ",", b);
    EncodeAppend(a, ",");
  }

  lemma {:induction false} EntriesBytes(page: seq<Entry>)
    ensures |Encode(EntriesJson(page))| + 2 == PageBytes(page)
  {
    if page != [] {
      var front, last := page[..|page| - 1], page[|page| - 1];
      hide Encode, EntryJson, EntryBytes, PageBytes, EntriesJson;
      assert page == front + [last];
      EntriesBytes(front);
      EntryJsonBytes(last);
      PageBytesAppend(front, last);
      EntriesStep(front, last);
      JoinedBytes(EntriesJson(front), EntryJson(last));
      if front == [] { NoBytes(); }
    }
  }

  lemma NoBytes()
    ensures PageBytes([]) == 2
  {
  }

  /** The size of a page is the number of bytes of its JSON text in UTF-8. */
  lemma PageBytesAreWritten(page: seq<Entry>)
    ensures PageBytes(page) == |Encode(PageText(page))|
  {
    EntriesBytes(page);
    OneByte('[');
    OneByte(']');
    hide Encode, EntriesJson, PageBytes;
    EncodeAppend("[" + EntriesJson(page), "]");
    EncodeAppend("[", EntriesJson(page));
  }
}
