/** Reading a saved conversation page by page: every page is small, and nothing is lost between pages. */
module TranscriptPager {

  datatype Option<+T> = None | Some(value: T)

  datatype Role = User | Assistant

  datatype Turn = Turn(sequence: nat, role: Role, text: string)

  datatype Entry = Entry(sequence: nat, role: Role, text: string, offset: nat, complete: bool)

  /** Where reading goes on: a turn, and a character offset into it. */
  datatype Cursor = Cursor(sequence: nat, offset: nat)

  const MAX_PAGE_BYTES: nat := 6000
  const MAX_PAGE_TURNS: nat := 6
  const FETCHED_TURNS: nat := 7

  // ---------------------------------------------------------------- serialized size

  /** Bytes of one character in a JSON string that escapes only what it must, in UTF-8. */
  function CharBytes(c: char): (n: nat)
    ensures 1 <= n <= 6
  {
    var code := c as int;
    if c == '"' || c == '\\' then 2
    else if code == 8 || code == 9 || code == 10 || code == 12 || code == 13 then 2
    else if code < 0x20 then 6
    else if code < 0x80 then 1
    else if code < 0x800 then 2
    else if code < 0x10000 then 3
    else 4
  }

  /** Bytes of the first n characters. */
  function TextBytes(text: string, n: nat): nat
    requires n <= |text|
  {
    if n == 0 then 0 else TextBytes(text, n - 1) + CharBytes(text[n - 1])
  }

  function Digits(n: nat): nat { if n < 10 then 1 else 1 + Digits(n / 10) }

  function RoleBytes(role: Role): nat { if role.User? then 4 else 9 }

  /** The keys, quotes, colons, commas and braces of one entry. */
  const ENTRY_FRAME: nat := 60

  function EntryBytes(e: Entry): nat {
    ENTRY_FRAME + (if e.complete then 4 else 5) + RoleBytes(e.role) + Digits(e.sequence) + TextBytes(e.text, |e.text|)
        + Digits(e.offset)
  }

  /** A JSON list: brackets, the first n entries, and a comma between each two. */
  function ListBytes(page: seq<Entry>, n: nat): nat
    requires n <= |page|
  {
    if n == 0 then 2 else ListBytes(page, n - 1) + EntryBytes(page[n - 1]) + if n == 1 then 0 else 1
  }

  function PageBytes(page: seq<Entry>): nat { ListBytes(page, |page|) }

  lemma {:induction false} ListBytesPrefix(page: seq<Entry>, e: Entry, n: nat)
    requires n <= |page|
    ensures ListBytes(page + [e], n) == ListBytes(page, n)
  {
    if n > 0 { ListBytesPrefix(page, e, n - 1); }
  }

  lemma PageBytesAppend(page: seq<Entry>, e: Entry)
    ensures PageBytes(page + [e]) == PageBytes(page) + EntryBytes(e) + if page == [] then 0 else 1
  {
    ListBytesPrefix(page, e, |page|);
  }

  /** The part of a turn from `start` that has the given length. */
  function Slice(turn: Turn, start: nat, rest: string, length: nat): Entry
    requires length <= |rest|
  {
    Entry(turn.sequence, turn.role, rest[..length], start, length == |rest|)
  }

  lemma {:induction false} TextBytesPrefix(text: string, m: nat, n: nat)
    requires n <= m <= |text|
    ensures TextBytes(text[..m], n) == TextBytes(text, n)
  {
    if n > 0 { TextBytesPrefix(text, m, n - 1); }
  }

  lemma {:induction false} TextBytesGrows(text: string, n: nat, m: nat)
    requires n <= m <= |text|
    ensures TextBytes(text, m) >= TextBytes(text, n) + (m - n)
    decreases m - n
  {
    if n < m { TextBytesGrows(text, n, m - 1); }
  }

  /** A longer slice is never smaller, although the flag shrinks by a byte when the turn is done. */
  lemma SliceGrows(turn: Turn, start: nat, rest: string, n: nat, m: nat)
    requires n <= m <= |rest|
    ensures EntryBytes(Slice(turn, start, rest, n)) <= EntryBytes(Slice(turn, start, rest, m))
    ensures EntryBytes(Slice(turn, start, rest, m)) >= m
  {
    TextBytesPrefix(rest, n, n);
    TextBytesPrefix(rest, m, m);
    TextBytesGrows(rest, n, m);
    TextBytesGrows(rest, 0, m);
  }

  /** The longest slice that still fits on the page. */
  method LongestSlice(page: seq<Entry>, turn: Turn, start: nat, rest: string) returns (low: nat)
    requires PageBytes(page + [Slice(turn, start, rest, 0)]) <= MAX_PAGE_BYTES
    ensures low <= |rest| && PageBytes(page + [Slice(turn, start, rest, low)]) <= MAX_PAGE_BYTES
    ensures forall n :: low < n <= |rest| ==> PageBytes(page + [Slice(turn, start, rest, n)]) > MAX_PAGE_BYTES
  {
    low := 0;
    var high := if |rest| < MAX_PAGE_BYTES then |rest| else MAX_PAGE_BYTES;
    forall n | high < n <= |rest| ensures PageBytes(page + [Slice(turn, start, rest, n)]) > MAX_PAGE_BYTES {
      SliceGrows(turn, start, rest, 0, n);
      PageBytesAppend(page, Slice(turn, start, rest, n));
    }
    while low < high
      invariant low <= high <= |rest|
      invariant PageBytes(page + [Slice(turn, start, rest, low)]) <= MAX_PAGE_BYTES
      invariant forall n :: high < n <= |rest| ==> PageBytes(page + [Slice(turn, start, rest, n)]) > MAX_PAGE_BYTES
    {
      var middle := (low + high + 1) / 2;
      if PageBytes(page + [Slice(turn, start, rest, middle)]) <= MAX_PAGE_BYTES {
        low := middle;
      } else {
        forall n | middle <= n <= high ensures PageBytes(page + [Slice(turn, start, rest, n)]) > MAX_PAGE_BYTES {
          SliceGrows(turn, start, rest, middle, n);
          PageBytesAppend(page, Slice(turn, start, rest, middle));
          PageBytesAppend(page, Slice(turn, start, rest, n));
        }
        high := middle - 1;
      }
    }
  }

  // ---------------------------------------------------------------- what is read

  /** Everything a reader learns, in order: each character with its place, and where a turn ends. */
  datatype Token = Letter(sequence: nat, role: Role, offset: nat, c: char)
                 | EndOfTurn(sequence: nat, role: Role, length: nat)

  /** The first n characters. */
  function Letters(sequence: nat, role: Role, offset: nat, text: string, n: nat): seq<Token>
    requires n <= |text|
  {
    if n == 0 then []
    else Letters(sequence, role, offset, text, n - 1) + [Letter(sequence, role, offset + n - 1, text[n - 1])]
  }

  function EntryTokens(e: Entry): seq<Token> {
    Letters(e.sequence, e.role, e.offset, e.text, |e.text|)
    + if e.complete then [EndOfTurn(e.sequence, e.role, e.offset + |e.text|)] else []
  }

  /** What the first n entries read. */
  function ListTokens(page: seq<Entry>, n: nat): seq<Token>
    requires n <= |page|
  {
    if n == 0 then [] else ListTokens(page, n - 1) + EntryTokens(page[n - 1])
  }

  function PageTokens(page: seq<Entry>): seq<Token> { ListTokens(page, |page|) }

  lemma {:induction false} ListTokensPrefix(page: seq<Entry>, e: Entry, n: nat)
    requires n <= |page|
    ensures ListTokens(page + [e], n) == ListTokens(page, n)
  {
    if n > 0 { ListTokensPrefix(page, e, n - 1); }
  }

  lemma PageTokensAppend(page: seq<Entry>, e: Entry)
    ensures PageTokens(page + [e]) == PageTokens(page) + EntryTokens(e)
  {
    ListTokensPrefix(page, e, |page|);
  }

  function Rest(turn: Turn, start: nat): string { if start <= |turn.text| then turn.text[start..] else [] }

  function TurnTokens(turn: Turn, start: nat): seq<Token> {
    var rest := Rest(turn, start);
    Letters(turn.sequence, turn.role, start, rest, |rest|) + [EndOfTurn(turn.sequence, turn.role, start + |rest|)]
  }

  /** The i-th turn from `start`, those after it whole. */
  function TokensFrom(turns: seq<Turn>, i: nat, start: nat): seq<Token>
    decreases |turns| - i
  {
    if i >= |turns| then [] else TurnTokens(turns[i], start) + TokensFrom(turns, i + 1, 0)
  }

  /** The place of the first turn at or after a sequence number. */
  function FirstAt(transcript: seq<Turn>, sequence: nat, i: nat): (first: nat)
    requires i <= |transcript|
    ensures i <= first <= |transcript|
    ensures first < |transcript| ==> transcript[first].sequence >= sequence
    ensures forall k :: i <= k < first ==> transcript[k].sequence < sequence
    decreases |transcript| - i
  {
    if i == |transcript| || transcript[i].sequence >= sequence then i else FirstAt(transcript, sequence, i + 1)
  }

  function StartOf(turn: Turn, cursor: Cursor): nat { if turn.sequence == cursor.sequence then cursor.offset else 0 }

  /** Everything unread from the i-th turn on, which is begun where the cursor says. */
  function Ahead(transcript: seq<Turn>, cursor: Cursor, i: nat): seq<Token> {
    TokensFrom(transcript, i, if i < |transcript| then StartOf(transcript[i], cursor) else 0)
  }

  /** Everything still unread at a cursor. */
  function Unread(transcript: seq<Turn>, cursor: Cursor): seq<Token> {
    Ahead(transcript, cursor, FirstAt(transcript, cursor.sequence, 0))
  }

  const BIGINT_LIMIT: nat := 0x8000_0000_0000_0000

  /** Stored turns: numbered upwards, in the range of the database's integers. */
  ghost predicate ValidTranscript(transcript: seq<Turn>) {
    && (forall i :: 0 <= i < |transcript| ==>
          0 < transcript[i].sequence < BIGINT_LIMIT && |transcript[i].text| < BIGINT_LIMIT)
    && (forall i, j :: 0 <= i < j < |transcript| ==> transcript[i].sequence < transcript[j].sequence)
  }

  // ---------------------------------------------------------------- one page

  /** What is promised about a page and the cursor after it. */
  ghost predicate IsPage(transcript: seq<Turn>, cursor: Cursor, page: seq<Entry>, next: Option<Cursor>) {
    && |page| <= 6 && PageBytes(page) <= 6000
    && (match next
        case None => PageTokens(page) == Unread(transcript, cursor)
        case Some(at) => PageTokens(page) + Unread(transcript, at) == Unread(transcript, cursor))
    && |page| <= |PageTokens(page)|
    && (next.Some? ==> page != [] && next.value.offset < BIGINT_LIMIT)
    && (next.Some? ==>
          exists turn, base :: turn in transcript && StopsFull(page, base, turn, StartOf(turn, cursor), next.value))
  }

  /** What is unread at a cursor into a turn. */
  lemma UnreadFrom(transcript: seq<Turn>, i: nat, start: nat)
    requires ValidTranscript(transcript) && i < |transcript|
    ensures Unread(transcript, Cursor(transcript[i].sequence, start)) == TokensFrom(transcript, i, start)
  {
    var first := FirstAt(transcript, transcript[i].sequence, 0);
    assert first == i;
  }

  lemma {:induction false} LettersPrefix(sequence: nat, role: Role, offset: nat, text: string, m: nat, n: nat)
    requires n <= m <= |text|
    ensures Letters(sequence, role, offset, text[..m], n) == Letters(sequence, role, offset, text, n)
  {
    if n > 0 { LettersPrefix(sequence, role, offset, text, m, n - 1); }
  }

  lemma {:induction false} LettersSplit(sequence: nat, role: Role, offset: nat, text: string, m: nat, n: nat)
    requires m <= n <= |text|
    ensures Letters(sequence, role, offset, text, n)
            == Letters(sequence, role, offset, text, m) + Letters(sequence, role, offset + m, text[m..], n - m)
    decreases n - m
  {
    if m < n {
      LettersSplit(sequence, role, offset, text, m, n - 1);
      assert text[m..][n - m - 1] == text[n - 1];
    }
  }

  lemma SliceTokens(turn: Turn, start: nat, length: nat)
    requires length <= |Rest(turn, start)|
    ensures var e := Slice(turn, start, Rest(turn, start), length);
            TurnTokens(turn, start) == EntryTokens(e) + if e.complete then [] else TurnTokens(turn, start + length)
  {
    var rest := Rest(turn, start);
    LettersPrefix(turn.sequence, turn.role, start, rest, length, length);
    if length < |rest| {
      RestTokens(turn, start, length);
    } else {
      assert rest[..length] == rest;
    }
  }

  /** The letters of a part, and then what is left of the turn. */
  lemma RestTokens(turn: Turn, start: nat, length: nat)
    requires length < |Rest(turn, start)|
    ensures TurnTokens(turn, start)
            == Letters(turn.sequence, turn.role, start, Rest(turn, start), length) + TurnTokens(turn, start + length)
  {
    hide Letters, TurnTokens, Rest;
    var rest := Rest(turn, start);
    var later := rest[length..];
    LettersSplit(turn.sequence, turn.role, start, rest, length, |rest|);
    RestLater(turn, start, length);
    TurnTokensAre(turn, start, rest);
    TurnTokensAre(turn, start + length, later);
    JoinLast(Letters(turn.sequence, turn.role, start, rest, length),
             Letters(turn.sequence, turn.role, start + length, later, |later|),
             [EndOfTurn(turn.sequence, turn.role, start + |rest|)]);
  }

  lemma RestLater(turn: Turn, start: nat, length: nat)
    requires length < |Rest(turn, start)|
    ensures Rest(turn, start + length) == Rest(turn, start)[length..]
  {
  }

  lemma TurnTokensAre(turn: Turn, start: nat, rest: string)
    requires rest == Rest(turn, start)
    ensures TurnTokens(turn, start) == Letters(turn.sequence, turn.role, start, rest, |rest|)
                                       + [EndOfTurn(turn.sequence, turn.role, start + |rest|)]
  {
    hide Letters, Rest;
  }

  lemma JoinLast(a: seq<Token>, b: seq<Token>, c: seq<Token>)
    ensures (a + b) + c == a + (b + c)
  {
  }

  lemma Regroup(before: seq<Token>, taken: seq<Token>, left: seq<Token>, later: seq<Token>)
    ensures before + ((taken + left) + later) == (before + taken) + (left + later)
    ensures left == [] ==> left + later == later
  {
  }

  lemma TakeTokens(all: seq<Turn>, i: nat, start: nat, length: nat, before: seq<Token>)
    requires i < |all| && length <= |Rest(all[i], start)|
    ensures var rest := Rest(all[i], start);
            before + TokensFrom(all, i, start) == (before + EntryTokens(Slice(all[i], start, rest, length)))
            + if length < |rest| then TokensFrom(all, i, start + length) else TokensFrom(all, i + 1, 0)
  {
    var entry := Slice(all[i], start, Rest(all[i], start), length);
    SliceTokens(all[i], start, length);
    var left := if entry.complete then [] else TurnTokens(all[i], start + length);
    Regroup(before, EntryTokens(entry), left, TokensFrom(all, i + 1, 0));
  }

  /** What was read, and what is ahead from the i-th turn on, is all there was to read. */
  ghost predicate ReadUpTo(all: seq<Turn>, cursor: Cursor, i: nat, read: seq<Token>, whole: seq<Token>) {
    read + Ahead(all, cursor, i) == whole
  }

  /** What was read, and the i-th turn from the next cursor on, is all there was to read. */
  ghost predicate StopsAt(all: seq<Turn>, i: nat, next: Cursor, read: seq<Token>, whole: seq<Token>) {
    && i < |all| && next.sequence == all[i].sequence && next.offset < BIGINT_LIMIT
    && read + TokensFrom(all, i, next.offset) == whole
  }

  /** From the i-th turn on only the first can be the one the cursor points into. */
  ghost predicate Entered(all: seq<Turn>, cursor: Cursor, i: nat) {
    && cursor.offset < BIGINT_LIMIT && i <= |all| && ValidTranscript(all)
    && forall k :: i < k < |all| ==> all[k].sequence != cursor.sequence
  }

  /** Taking a part of the next turn leaves exactly the rest unread. */
  lemma TakePart(all: seq<Turn>, cursor: Cursor, i: nat, length: nat, read: seq<Token>, whole: seq<Token>)
    requires Entered(all, cursor, i) && i < |all| && ReadUpTo(all, cursor, i, read, whole)
    requires length < |Rest(all[i], StartOf(all[i], cursor))|
    ensures var start := StartOf(all[i], cursor);
            StopsAt(all, i, Cursor(all[i].sequence, start + length),
                    read + EntryTokens(Slice(all[i], start, Rest(all[i], start), length)), whole)
  {
    hide TokensFrom, EntryTokens, Slice, TurnTokens;
    TakeTokens(all, i, StartOf(all[i], cursor), length, read);
  }

  /** Taking all of the next turn leaves exactly the turns after it. */
  lemma TakeWhole(all: seq<Turn>, cursor: Cursor, i: nat, read: seq<Token>, whole: seq<Token>)
    requires Entered(all, cursor, i) && i < |all| && ReadUpTo(all, cursor, i, read, whole)
    ensures var start := StartOf(all[i], cursor);
            var rest := Rest(all[i], start);
            ReadUpTo(all, cursor, i + 1, read + EntryTokens(Slice(all[i], start, rest, |rest|)), whole)
  {
    var start := StartOf(all[i], cursor);
    TakeTokens(all, i, start, |Rest(all[i], start)|, read);
  }

  function Pow10(k: nat): nat { if k == 0 then 1 else 10 * Pow10(k - 1) }

  lemma {:induction false} DigitsBound(n: nat, k: nat)
    requires k > 0 && n < Pow10(k)
    ensures Digits(n) <= k
    decreases k
  {
    if k > 1 && n >= 10 { DigitsBound(n / 10, k - 1); }
  }

  /** An empty page always has room for a character. */
  lemma RoomForOne(turn: Turn, start: nat, rest: string)
    requires turn.sequence < BIGINT_LIMIT && start < BIGINT_LIMIT
    ensures PageBytes([] + [Slice(turn, start, rest, 0)]) <= MAX_PAGE_BYTES
    ensures rest != [] ==> PageBytes([] + [Slice(turn, start, rest, 1)]) <= MAX_PAGE_BYTES
  {
    assert Pow10(5) == 100000 && Pow10(10) == 100000 * 100000;
    assert Pow10(15) == 100000 * Pow10(10) && Pow10(19) == 10000 * Pow10(15);
    DigitsBound(turn.sequence, 19);
    DigitsBound(start, 19);
    PageBytesAppend([], Slice(turn, start, rest, 0));
    if rest != [] {
      PageBytesAppend([], Slice(turn, start, rest, 1));
      assert TextBytes(rest[..1], 1) == TextBytes(rest[..1], 0) + CharBytes(rest[0]);
    }
  }

  lemma SliceReads(turn: Turn, start: nat, rest: string, length: nat)
    requires length <= |rest| && (length == 0 ==> rest == [])
    ensures EntryTokens(Slice(turn, start, rest, length)) != []
  {
  }

  /** A page so far, within its limits, and what it reads. */
  ghost predicate PageSoFar(page: seq<Entry>, read: seq<Token>) {
    |page| <= MAX_PAGE_TURNS && PageBytes(page) <= MAX_PAGE_BYTES && read == PageTokens(page) && |page| <= |read|
  }

  lemma PutOnPage(page: seq<Entry>, read: seq<Token>, turn: Turn, start: nat, rest: string, length: nat)
    requires PageSoFar(page, read) && |page| < MAX_PAGE_TURNS && length <= |rest| && (length == 0 ==> rest == [])
    requires PageBytes(page + [Slice(turn, start, rest, length)]) <= MAX_PAGE_BYTES
    ensures PageSoFar(page + [Slice(turn, start, rest, length)], read + EntryTokens(Slice(turn, start, rest, length)))
  {
    PageTokensAppend(page, Slice(turn, start, rest, length));
    SliceReads(turn, start, rest, length);
  }

  /** What putting the next turn on the page achieves: it is all there, or a cursor points at the rest. */
  ghost predicate TurnTaken(all: seq<Turn>, cursor: Cursor, i: nat, page: seq<Entry>, more: seq<Entry>,
                            next: Option<Cursor>, now: seq<Token>, whole: seq<Token>)
  {
    && PageSoFar(more, now) && |more| <= |page| + 1
    && match next
       case None => |more| == |page| + 1 && ReadUpTo(all, cursor, i + 1, now, whole)
       case Some(at) => more != [] && StopsAt(all, i, at, now, whole)
  }

  lemma SliceTaken(all: seq<Turn>, cursor: Cursor, i: nat, page: seq<Entry>, read: seq<Token>, whole: seq<Token>,
                   length: nat, entry: Entry, next: Option<Cursor>)
    requires Entered(all, cursor, i) && i < |all|
    requires PageSoFar(page, read) && ReadUpTo(all, cursor, i, read, whole) && |page| < MAX_PAGE_TURNS
    requires var start := StartOf(all[i], cursor);
             var rest := Rest(all[i], start);
             && length <= |rest| && (length == 0 ==> rest == [])
             && entry == Slice(all[i], start, rest, length) && PageBytes(page + [entry]) <= MAX_PAGE_BYTES
             && next == if length < |rest| then Some(Cursor(all[i].sequence, start + length)) else None
    ensures TurnTaken(all, cursor, i, page, page + [entry], next, read + EntryTokens(entry), whole)
  {
    var start := StartOf(all[i], cursor);
    PutOnPage(page, read, all[i], start, Rest(all[i], start), length);
    if length < |Rest(all[i], start)| {
      TakePart(all, cursor, i, length, read, whole);
    } else {
      TakeWhole(all, cursor, i, read, whole);
    }
  }

  /** What does not fit would fit on an empty page. */
  lemma StartedAlready(page: seq<Entry>, turn: Turn, start: nat, rest: string, n: nat)
    requires turn.sequence < BIGINT_LIMIT && start < BIGINT_LIMIT && n <= 1 && n <= |rest|
    requires |page| == MAX_PAGE_TURNS || PageBytes(page + [Slice(turn, start, rest, n)]) > MAX_PAGE_BYTES
    ensures page != []
  {
    RoomForOne(turn, start, rest);
  }

  lemma StopTaken(all: seq<Turn>, cursor: Cursor, i: nat, page: seq<Entry>, read: seq<Token>, whole: seq<Token>)
    requires Entered(all, cursor, i) && i < |all|
    requires PageSoFar(page, read) && ReadUpTo(all, cursor, i, read, whole) && page != []
    ensures TurnTaken(all, cursor, i, page, page, Some(Cursor(all[i].sequence, StartOf(all[i], cursor))), read, whole)
  {
  }

  /** The page is full: it has all its turns, or no more than `taken` characters of this turn fit. */
  ghost predicate Stuck(page: seq<Entry>, turn: Turn, start: nat, rest: string, taken: nat) {
    || |page| == 6
    || (PageBytes(page + [Slice(turn, start, rest, |rest|)]) > 6000
        && forall n :: taken < n <= |rest| ==> PageBytes(page + [Slice(turn, start, rest, n)]) > 6000)
  }

  lemma NoneFits(page: seq<Entry>, turn: Turn, start: nat, rest: string)
    requires PageBytes(page + [Slice(turn, start, rest, 0)]) > MAX_PAGE_BYTES
    ensures Stuck(page, turn, start, rest, 0)
  {
    PageBytesAppend(page, Slice(turn, start, rest, 0));
    forall n | 0 <= n <= |rest| ensures PageBytes(page + [Slice(turn, start, rest, n)]) > MAX_PAGE_BYTES {
      SliceGrows(turn, start, rest, 0, n);
      PageBytesAppend(page, Slice(turn, start, rest, n));
    }
  }

  /** A page that stops at a cursor held as much of the turn there as any page so begun could. */
  ghost predicate StopsFull(page: seq<Entry>, base: seq<Entry>, turn: Turn, start: nat, at: Cursor) {
    && (page == base || (|page| == |base| + 1 && page[..|base|] == base))
    && at.sequence == turn.sequence && at.offset >= start && Stuck(base, turn, start, Rest(turn, start),
                                                                   at.offset - start)
  }

  /** How much of the rest of a turn goes on the page; nothing when the turn cannot be begun there. */
  method HowMuch(page: seq<Entry>, turn: Turn, start: nat, rest: string) returns (take: Option<nat>)
    requires turn.sequence < BIGINT_LIMIT && start < BIGINT_LIMIT
    ensures take.None? ==> page != [] && Stuck(page, turn, start, rest, 0)
    ensures take.Some? && take.value < |rest| ==> Stuck(page, turn, start, rest, take.value)
    ensures take.Some? ==> |page| != MAX_PAGE_TURNS && take.value <= |rest| && (take.value == 0 ==> rest == [])
    ensures take.Some? ==> PageBytes(page + [Slice(turn, start, rest, take.value)]) <= MAX_PAGE_BYTES
  {
    if |page| == MAX_PAGE_TURNS || PageBytes(page + [Slice(turn, start, rest, 0)]) > MAX_PAGE_BYTES {
      StartedAlready(page, turn, start, rest, 0);
      if |page| != MAX_PAGE_TURNS { NoneFits(page, turn, start, rest); }
      return None;
    }
    var low := LongestSlice(page, turn, start, rest);
    if low == 0 && rest != [] {
      StartedAlready(page, turn, start, rest, 1);
      return None;
    }
    take := Some(low);
  }

  /** Put the next turn on the page, or as much of it as fits, or stop before it. */
  method TakeTurn(all: seq<Turn>, cursor: Cursor, i: nat, page: seq<Entry>, ghost read: seq<Token>,
                  ghost whole: seq<Token>)
      returns (more: seq<Entry>, next: Option<Cursor>, ghost now: seq<Token>)
    requires Entered(all, cursor, i) && i < |all|
    requires PageSoFar(page, read) && ReadUpTo(all, cursor, i, read, whole)
    ensures TurnTaken(all, cursor, i, page, more, next, now, whole)
    ensures next.Some? ==> StopsFull(more, page, all[i], StartOf(all[i], cursor), next.value)
  {
    var row := all[i];
    var start := StartOf(row, cursor);
    var rest := Rest(row, start);
    var take := HowMuch(page, row, start, rest);
    if take.None? {
      StopTaken(all, cursor, i, page, read, whole);
      more, next, now := page, Some(Cursor(row.sequence, start)), read;
    } else {
      var entry := Slice(row, start, rest, take.value);
      next := if take.value < |rest| then Some(Cursor(row.sequence, start + take.value)) else None;
      SliceTaken(all, cursor, i, page, read, whole, take.value, entry, next);
      more, now := page + [entry], read + EntryTokens(entry);
    }
  }

  lemma NothingRead(all: seq<Turn>, cursor: Cursor, first: nat)
    ensures ReadUpTo(all, cursor, first, [], Ahead(all, cursor, first)) && PageSoFar([], [])
  {
    var whole := Ahead(all, cursor, first);
    assert [] + whole == whole;
  }

  lemma EverythingRead(all: seq<Turn>, cursor: Cursor, read: seq<Token>, whole: seq<Token>)
    requires ReadUpTo(all, cursor, |all|, read, whole)
    ensures read == whole
  {
    assert Ahead(all, cursor, |all|) == [] && read + [] == read;
  }

  /** What filling a page achieves. */
  ghost predicate Filled(all: seq<Turn>, cursor: Cursor, first: nat, i: nat, page: seq<Entry>, next: Option<Cursor>,
                         read: seq<Token>) {
    && PageSoFar(page, read)
    && match next
       case None => read == Ahead(all, cursor, first)
       case Some(at) => page != [] && StopsAt(all, i, at, read, Ahead(all, cursor, first))
  }

  lemma EnteredLater(all: seq<Turn>, cursor: Cursor, first: nat, i: nat)
    requires Entered(all, cursor, first) && first <= i <= |all|
    ensures Entered(all, cursor, i)
  {
  }

  lemma AtMostSix(page: seq<Entry>, read: seq<Token>)
    requires PageSoFar(page, read)
    ensures |page| <= MAX_PAGE_TURNS
  {
  }

  /** Fill a page: up to six turns, cutting the first that does not fit. */
  method FillPage(all: seq<Turn>, first: nat, cursor: Cursor)
      returns (page: seq<Entry>, next: Option<Cursor>, ghost read: seq<Token>, ghost i: nat, ghost base: seq<Entry>)
    requires Entered(all, cursor, first)
    ensures Filled(all, cursor, first, i, page, next, read)
    ensures next.Some? ==> i < |all| && StopsFull(page, base, all[i], StartOf(all[i], cursor), next.value)
  {
    var fetched := if |all| - first <= FETCHED_TURNS then |all| - first else FETCHED_TURNS;
    ghost var whole := Ahead(all, cursor, first);
    page, next, read, i, base := [], None, [], first, [];
    NothingRead(all, cursor, first);
    assert first <= |all|;
    hide Entered, ReadUpTo, StopsAt, StopsFull, StartOf, Ahead, PageSoFar;
    while |page| < fetched && next.None?
      invariant first <= i <= |all| && |page| <= fetched && PageSoFar(page, read)
      invariant next.None? ==> i == first + |page| && ReadUpTo(all, cursor, i, read, whole)
      invariant next.Some? ==> page != [] && StopsAt(all, i, next.value, read, whole)
      invariant next.Some? ==> i < |all| && StopsFull(page, base, all[i], StartOf(all[i], cursor), next.value)
      decreases if next.None? then fetched - |page| + 1 else 0
    {
      base := page;
      EnteredLater(all, cursor, first, first + |page|);
      page, next, read := TakeTurn(all, cursor, first + |page|, page, read, whole);
      if next.None? { i := i + 1; }
    }
    if next.None? {
      AtMostSix(page, read);
      EverythingRead(all, cursor, read, whole);
    }
  }

  /** Read a page from a cursor. */
  method ReadPage(transcript: seq<Turn>, cursor: Cursor) returns (page: seq<Entry>, next: Option<Cursor>)
    requires ValidTranscript(transcript) && cursor.offset < BIGINT_LIMIT
    ensures IsPage(transcript, cursor, page, next)
  {
    ghost var read, i, base;
    page, next, read, i, base := FillPage(transcript, FirstAt(transcript, cursor.sequence, 0), cursor);
    if next.Some? { UnreadFrom(transcript, i, next.value.offset); }
  }

  // ---------------------------------------------------------------- following cursors

  /** A reading: each page continues at the cursor the one before it gave, and the last gives none. */
  ghost predicate IsReading(transcript: seq<Turn>, cursor: Cursor, pages: seq<seq<Entry>>)
    decreases |pages|
  {
    && pages != []
    && if |pages| == 1 then IsPage(transcript, cursor, pages[0], None)
       else exists next :: IsPage(transcript, cursor, pages[0], Some(next)) && IsReading(transcript, next, pages[1..])
  }

  function AllTokens(pages: seq<seq<Entry>>): seq<Token> {
    if pages == [] then [] else PageTokens(pages[0]) + AllTokens(pages[1..])
  }

  /** Lossless paging: the pages of a reading, put together, are exactly what was unread. */
  lemma {:induction false} ReadingIsLossless(transcript: seq<Turn>, cursor: Cursor, pages: seq<seq<Entry>>)
    requires IsReading(transcript, cursor, pages)
    ensures AllTokens(pages) == Unread(transcript, cursor)
    decreases |pages|
  {
    if |pages| == 1 {
      assert pages[1..] == [] && PageTokens(pages[0]) + [] == PageTokens(pages[0]);
    } else {
      var next :| IsPage(transcript, cursor, pages[0], Some(next)) && IsReading(transcript, next, pages[1..]);
      ReadingIsLossless(transcript, next, pages[1..]);
    }
  }

  /** Each page with a cursor after it brings the end nearer. */
  lemma PagesAdvance(transcript: seq<Turn>, cursor: Cursor, page: seq<Entry>, next: Cursor)
    requires IsPage(transcript, cursor, page, Some(next))
    ensures |Unread(transcript, next)| < |Unread(transcript, cursor)|
  {
  }

  /** Following cursors comes to an end, with a whole reading. */
  method ReadAll(transcript: seq<Turn>, cursor: Cursor) returns (pages: seq<seq<Entry>>)
    requires ValidTranscript(transcript) && cursor.offset < BIGINT_LIMIT
    ensures IsReading(transcript, cursor, pages) && AllTokens(pages) == Unread(transcript, cursor)
    decreases |Unread(transcript, cursor)|
  {
    var page, next := ReadPage(transcript, cursor);
    pages := [page];
    if next.Some? {
      PagesAdvance(transcript, cursor, page, next.value);
      var rest := ReadAll(transcript, next.value);
      pages := pages + rest;
      assert pages[1..] == rest;
    }
    ReadingIsLossless(transcript, cursor, pages);
  }

  /** The characters read of one turn. */
  function TextOf(tokens: seq<Token>, sequence: nat, n: nat): string
    requires n <= |tokens|
  {
    if n == 0 then []
    else TextOf(tokens, sequence, n - 1)
         + if tokens[n - 1].Letter? && tokens[n - 1].sequence == sequence then [tokens[n - 1].c] else []
  }

  lemma {:induction false} TextOfAppend(a: seq<Token>, b: seq<Token>, sequence: nat, n: nat)
    requires n <= |b|
    ensures TextOf(a + b, sequence, |a| + n) == TextOf(a, sequence, |a|) + TextOf(b, sequence, n)
  {
    if n == 0 {
      TextOfPrefix(a, b, sequence, |a|);
    } else {
      TextOfAppend(a, b, sequence, n - 1);
      assert (a + b)[|a| + n - 1] == b[n - 1];
    }
  }

  lemma {:induction false} TextOfPrefix(a: seq<Token>, b: seq<Token>, sequence: nat, n: nat)
    requires n <= |a|
    ensures TextOf(a + b, sequence, n) == TextOf(a, sequence, n)
  {
    if n > 0 {
      TextOfPrefix(a, b, sequence, n - 1);
      assert (a + b)[n - 1] == a[n - 1];
    }
  }

  lemma TextOfOne(tokens: seq<Token>, t: Token, sequence: nat)
    ensures TextOf(tokens + [t], sequence, |tokens| + 1)
            == TextOf(tokens, sequence, |tokens|) + if t.Letter? && t.sequence == sequence then [t.c] else []
  {
    TextOfPrefix(tokens, [t], sequence, |tokens|);
  }

  lemma {:induction false} TextOfLetters(at: nat, role: Role, offset: nat, text: string, n: nat, sequence: nat)
    requires n <= |text|
    ensures |Letters(at, role, offset, text, n)| == n
    ensures TextOf(Letters(at, role, offset, text, n), sequence, n) == if at == sequence then text[..n] else []
  {
    if n > 0 {
      TextOfLetters(at, role, offset, text, n - 1, sequence);
      hide TextOf;
      TextOfOne(Letters(at, role, offset, text, n - 1), Letter(at, role, offset + n - 1, text[n - 1]), sequence);
      assert text[..n] == text[..n - 1] + [text[n - 1]];
    }
  }

  function AllText(tokens: seq<Token>, sequence: nat): string { TextOf(tokens, sequence, |tokens|) }

  lemma AllTextJoin(a: seq<Token>, b: seq<Token>, sequence: nat)
    ensures AllText(a + b, sequence) == AllText(a, sequence) + AllText(b, sequence)
  {
    TextOfAppend(a, b, sequence, |b|);
  }

  lemma TextOfTurn(turn: Turn, sequence: nat)
    ensures AllText(TurnTokens(turn, 0), sequence) == if turn.sequence == sequence then turn.text else []
  {
    var text := Rest(turn, 0);
    assert text == turn.text && text[..|text|] == text;
    TextOfLetters(turn.sequence, turn.role, 0, text, |text|, sequence);
    TextOfOne(Letters(turn.sequence, turn.role, 0, text, |text|), EndOfTurn(turn.sequence, turn.role, |text|),
              sequence);
  }

  lemma TextStep(turns: seq<Turn>, i: nat, sequence: nat)
    requires i < |turns|
    ensures AllText(TokensFrom(turns, i, 0), sequence)
            == (if turns[i].sequence == sequence then turns[i].text else []) + AllText(TokensFrom(turns, i + 1, 0),
                  sequence)
  {
    var here, later := TurnTokens(turns[i], 0), TokensFrom(turns, i + 1, 0);
    TextOfTurn(turns[i], sequence);
    AllTextJoin(here, later, sequence);
    assert TokensFrom(turns, i, 0) == here + later;
  }

  lemma NoTextLeft(turns: seq<Turn>, i: nat, sequence: nat)
    requires i >= |turns|
    ensures AllText(TokensFrom(turns, i, 0), sequence) == []
  {
  }

  lemma {:induction false} TextOfTranscript(transcript: seq<Turn>, i: nat, k: nat)
    requires ValidTranscript(transcript) && k < |transcript|
    ensures AllText(TokensFrom(transcript, i, 0), transcript[k].sequence) == if i <= k then transcript[k].text else []
    decreases |transcript| - i
  {
    hide AllText, TokensFrom;
    if i < |transcript| {
      assert transcript[i].sequence == transcript[k].sequence <==> i == k;
      hide ValidTranscript;
      TextOfTranscript(transcript, i + 1, k);
      TextStep(transcript, i, transcript[k].sequence);
    } else {
      NoTextLeft(transcript, i, transcript[k].sequence);
    }
  }

  /** Reading from the start recovers the exact text of every turn. */
  lemma {:induction false} ReadingRecoversText(transcript: seq<Turn>, pages: seq<seq<Entry>>, k: nat)
    requires ValidTranscript(transcript) && IsReading(transcript, Cursor(1, 0), pages) && k < |transcript|
    ensures AllText(AllTokens(pages), transcript[k].sequence) == transcript[k].text
  {
    ReadingIsLossless(transcript, Cursor(1, 0), pages);
    assert FirstAt(transcript, 1, 0) == 0;
    TextOfTranscript(transcript, 0, k);
  }
}
