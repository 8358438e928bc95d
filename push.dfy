/** The push layer: telemetry packets built from the registry of pushed
    values, the HTTP exchange both destinations share (request, response
    splitter and verdict), and the message destination's cookie, body and
    session bookkeeping on top of the message ring. */
module Push {
  import opened Bytes
  import MsgRing

  /** A C `int32_t` / `long` on the 32-bit target. */
  type int32 = x: int | -0x8000_0000 <= x < 0x8000_0000

  const LOCATION_PREFIX: byte := 72   // 'H'
  const MESSAGE_OUT_ID: byte := 51    // '3'
  const MESSAGE_IN_ID: byte := 52     // '4'

  /** Data intervals, in milliseconds. */
  const INITIAL_INTERVAL: int := 60000
  const RETRY_INTERVAL: int := 10000
  const NEXT_INTERVAL: int := 300000

  /** Message intervals. */
  const INITIAL_MSG_WAIT: int := 3000
  const POLL_MSG_INTERVAL: int := 60000

  /** Timeout of any HTTP interaction. */
  const PUSH_TIMEOUT: int := 30000

  const MAX_PACKET: int := 1000
  const MAX_NUM_LEN: nat := 10
  const MASK_ALL: bv8 := 0xff

  /** "HTTP/1.1" */
  const HTTP_RES: seq<byte> := [72, 84, 84, 80, 47, 49, 46, 49]
  /** "HTTP/1.1 200 OK" */
  const HTTP_OK: seq<byte> := HTTP_RES + [32, 50, 48, 48, 32, 79, 75]
  /** "Cookie: " */
  const COOKIE: seq<byte> := [67, 111, 111, 107, 105, 101, 58, 32]
  /** "Set-Cookie: " */
  const SET_COOKIE: seq<byte> := [83, 101, 116, 45] + COOKIE

  const CRLF: seq<byte> := [CR, LF]

  /** Where the response splitter is. */
  const RESPONSE_LINE1: int := 0        // first line of the response
  const RESPONSE_HEADERS0: int := 1     // headers, start of a line
  const RESPONSE_HEADERS1: int := 2     // headers, CR at the start of a line seen
  const RESPONSE_HEADERS_ANY: int := 3  // headers, inside a line
  const RESPONSE_BODY: int := 4         // body, after an empty line

  const MAX_RESPONSE: int := 300

  const MAX_COOKIE_LEN: int := 20
  const PCOOKIE_STATE_0: byte := 0
  const PCOOKIE_STATE_SET_COOKIE: byte := 12   // length of SET_COOKIE
  const PCOOKIE_STATE_ERR: byte := 32          // PCOOKIE_STATE_SET_COOKIE + MAX_COOKIE_LEN
  const PCOOKIE_STATE_DONE: byte := 33

  const PBODY_STATE_0: byte := 0      // expect MESSAGE_IN_ID
  const PBODY_STATE_1: byte := 1      // expect ','
  const PBODY_STATE_MSG: byte := 2    // inside the message text
  const PBODY_STATE_WIDX: byte := 3   // wait for the ',' before the index
  const PBODY_STATE_IDX: byte := 4    // inside the index
  const PBODY_STATE_DONE: byte := 5   // parsed
  const PBODY_STATE_ERR: byte := 6    // malformed

  predicate IsEol(ch: byte) {
    ch == CR || ch == LF
  }

  // ---------------------------------------------------------------------
  // Streams
  // ---------------------------------------------------------------------

  /** A state machine fed the bytes of `s` one at a time, from `st`. */
  function Run<S>(step: (S, byte) -> S, st: S, s: seq<byte>): S
    decreases |s|
  {
    if s == [] then st else step(Run(step, st, s[..|s| - 1]), s[|s| - 1])
  }

  lemma RunSnoc<S>(step: (S, byte) -> S, st: S, a: seq<byte>, c: byte)
    ensures Run(step, st, a + [c]) == step(Run(step, st, a), c)
  {
    assert (a + [c])[..|a|] == a;
  }

  /** Feeding two pieces one after the other is feeding their concatenation. */
  lemma {:induction false} RunAppend<S>(step: (S, byte) -> S, st: S, a: seq<byte>, b: seq<byte>)
    ensures Run(step, st, a + b) == Run(step, Run(step, st, a), b)
    decreases |b|
  {
    if b == [] {
      assert a + b == a;
    } else {
      var b', c := b[..|b| - 1], b[|b| - 1];
      assert a + b == (a + b') + [c];
      RunSnoc(step, st, a + b', c);
      RunAppend(step, st, a, b');
      RunSnoc(step, Run(step, st, a), b', c);
      assert b == b' + [c];
    }
  }

  // ---------------------------------------------------------------------
  // The registry and the telemetry packet
  // ---------------------------------------------------------------------

  /** A registered value (`PushItem`): its tag (the C string's bytes), the
      last value pushed with its precision, and per-destination bit masks of
      the destinations it still has to reach and is being sent to. */
  datatype Item = Item(tag: seq<byte>, val: int32, prec: byte, updated: bv8, sending: bv8)

  /** The item-skipping test `x & mask == 0` as C parses it, `x & (mask ==
      0)`: it can hold only for a zero mask. */
  predicate Skipped(x: bv8, mask: bv8) {
    (x & (if mask == 0 then 1 else 0)) != 0
  }

  /** The packet line of one item: `H<tag>,<value>` and a newline. */
  function Record(it: Item, fmt: Formatter): (r: seq<byte>)
    ensures |it.tag| + 3 <= |r| <= 1 + |it.tag| + 1 + MAX_NUM_LEN + 1
    ensures r[0] == LOCATION_PREFIX && r[1..1 + |it.tag|] == it.tag && r[|r| - 1] == LF
  {
    [LOCATION_PREFIX] + it.tag + [COMMA]
    + Format(fmt, it.val, MAX_NUM_LEN, Style(it.prec as nat, false)) + [LF]
  }

  /** The lines of `items`, one after the other. */
  function Records(items: seq<Item>, fmt: Formatter): seq<byte> {
    if items == [] then [] else Record(items[0], fmt) + Records(items[1..], fmt)
  }

  /** What `composeDataPacket` makes of the registry: the text, whether it
      stopped for lack of room (`next`), and how far down the list it got. */
  datatype Composed = Composed(text: seq<byte>, next: bool, upto: nat)

  /** The packet lines from item `n` on, with `size` bytes already written. */
  function ComposeFrom(items: seq<Item>, n: nat, size: int, mask: bv8, fmt: Formatter): (c: Composed)
    requires n <= |items| && 0 <= size < MAX_PACKET
    ensures n <= c.upto <= |items|
    ensures c.next <==> c.upto < |items|
    ensures size + |c.text| < MAX_PACKET
    decreases |items| - n
  {
    if n == |items| then Composed([], false, n)
    else if Skipped(items[n].updated, mask) then ComposeFrom(items, n + 1, size, mask, fmt)
    else if size + (1 + |items[n].tag| + 1 + MAX_NUM_LEN + 1) >= MAX_PACKET then Composed([], true, n)
    else
      var line := Record(items[n], fmt);
      var rest := ComposeFrom(items, n + 1, size + |line|, mask, fmt);
      Composed(line + rest.text, rest.next, rest.upto)
  }

  /** The step of `ComposeFrom` past an item it skips. */
  lemma ComposeSkip(items: seq<Item>, n: nat, size: int, mask: bv8, fmt: Formatter)
    requires n < |items| && 0 <= size < MAX_PACKET && Skipped(items[n].updated, mask)
    ensures ComposeFrom(items, n, size, mask, fmt) == ComposeFrom(items, n + 1, size, mask, fmt)
  {
  }

  /** Past the last item nothing more is composed. */
  lemma ComposeEnd(items: seq<Item>, size: int, mask: bv8, fmt: Formatter)
    requires 0 <= size < MAX_PACKET
    ensures ComposeFrom(items, |items|, size, mask, fmt) == Composed([], false, |items|)
  {
  }

  /** The step of `ComposeFrom` past an item whose line fits. */
  lemma ComposeTake(items: seq<Item>, n: nat, size: int, mask: bv8, fmt: Formatter)
    requires n < |items| && 0 <= size < MAX_PACKET && !Skipped(items[n].updated, mask)
    requires size + (1 + |items[n].tag| + 1 + MAX_NUM_LEN + 1) < MAX_PACKET
    ensures var line := Record(items[n], fmt);
            var rest := ComposeFrom(items, n + 1, size + |line|, mask, fmt);
            ComposeFrom(items, n, size, mask, fmt) == Composed(line + rest.text, rest.next, rest.upto)
  {
  }

  /** The registry after composing up to item `upto`: each item taken into
      the packet has the destination's bits added to `sending`. */
  function MarkSending(items: seq<Item>, upto: nat, mask: bv8): (r: seq<Item>)
    ensures |r| == |items|
  {
    seq(|items|, j requires 0 <= j < |items| =>
      if j < upto && !Skipped(items[j].updated, mask)
      then items[j].(sending := items[j].sending | mask) else items[j])
  }

  /** The step of `MarkSending` past an item the composer skips. */
  lemma MarkSendingSkip(items: seq<Item>, i: nat, mask: bv8)
    requires i < |items| && Skipped(items[i].updated, mask)
    ensures MarkSending(items, i, mask) == MarkSending(items, i + 1, mask)
  {
  }

  /** The step of `MarkSending` past an item the composer takes. */
  lemma MarkSendingTake(items: seq<Item>, i: nat, mask: bv8)
    requires i < |items| && !Skipped(items[i].updated, mask)
    ensures MarkSending(items, i, mask)[i] == items[i]
    ensures MarkSending(items, i, mask)[i := items[i].(sending := items[i].sending | mask)]
            == MarkSending(items, i + 1, mask)
  {
  }

  /** With a non-zero mask no item is skipped: the packet holds the line of
      every item in list order until one does not fit, and it stops only
      when the next line could overflow the packet. */
  lemma {:induction false} ComposeEvery(items: seq<Item>, n: nat, size: int, mask: bv8, fmt: Formatter)
    requires n <= |items| && 0 <= size < MAX_PACKET && mask != 0
    ensures var c := ComposeFrom(items, n, size, mask, fmt);
            && c.text == Records(items[n..c.upto], fmt)
            && (c.next ==> size + |c.text| + |items[c.upto].tag| + 13 >= MAX_PACKET)
    decreases |items| - n
  {
    var c := ComposeFrom(items, n, size, mask, fmt);
    if n == |items| {
      assert items[n..c.upto] == [];
    } else {
      assert !Skipped(items[n].updated, mask);
      if size + (1 + |items[n].tag| + 1 + MAX_NUM_LEN + 1) >= MAX_PACKET {
        assert items[n..c.upto] == [];
      } else {
        var line := Record(items[n], fmt);
        ComposeEvery(items, n + 1, size + |line|, mask, fmt);
        var t := items[n..c.upto];
        assert t[0] == items[n] && t[1..] == items[n + 1..c.upto];
      }
    }
  }

  /** With a non-zero mask every item the packet took now carries the mask
      in `sending`, and the others are as they were. */
  lemma MarkSendingAll(items: seq<Item>, upto: nat, mask: bv8)
    requires mask != 0
    ensures forall j :: 0 <= j < |items| ==>
              MarkSending(items, upto, mask)[j] ==
              (if j < upto then items[j].(sending := items[j].sending | mask) else items[j])
    ensures forall j :: 0 <= j < upto && j < |items| ==>
              MarkSending(items, upto, mask)[j].sending & mask == mask
  {
    forall j | 0 <= j < |items|
      ensures !Skipped(items[j].updated, mask)
    {
    }
  }

  /** An item after `markSent` for the destination with bits `mask`. */
  function Cleared(it: Item, mask: bv8, success: bool): Item {
    it.(sending := it.sending & !mask, updated := if success then it.updated & !mask else it.updated)
  }

  /** After `markSent` the destination's bits are gone from `sending`, and
      from `updated` too when the exchange succeeded; the other bits and
      the value stay. */
  lemma ClearedBits(it: Item, mask: bv8, success: bool)
    ensures var r := Cleared(it, mask, success);
            && r.tag == it.tag && r.val == it.val && r.prec == it.prec
            && r.sending & mask == 0 && r.sending | mask == it.sending | mask
            && (success ==> r.updated & mask == 0 && r.updated | mask == it.updated | mask)
            && (!success ==> r.updated == it.updated)
  {
  }

  /** An item `markSent`'s test skips is one it would not change. */
  lemma SkippedKeeps(it: Item, mask: bv8, success: bool)
    requires Skipped(it.sending, mask)
    ensures Cleared(it, mask, success) == it
  {
    assert mask == 0;
  }

  /** The registry after `markSent`. */
  function MarkedSent(items: seq<Item>, mask: bv8, success: bool): (r: seq<Item>)
    ensures |r| == |items|
  {
    seq(|items|, j requires 0 <= j < |items| => Cleared(items[j], mask, success))
  }

  /** A packet that went out and was acknowledged leaves every item it
      carried, and every other one, with this destination's bits clear in
      both masks and its value as it was. */
  lemma SentAndCleared(items: seq<Item>, upto: nat, mask: bv8)
    ensures var r := MarkedSent(MarkSending(items, upto, mask), mask, true);
            forall j :: 0 <= j < |items| ==>
              && r[j].sending & mask == 0 && r[j].updated & mask == 0
              && r[j].tag == items[j].tag && r[j].val == items[j].val && r[j].prec == items[j].prec
  {
    var m := MarkSending(items, upto, mask);
    forall j | 0 <= j < |items|
      ensures MarkedSent(m, mask, true)[j] == Cleared(m[j], mask, true)
    {
    }
  }

  /** A failed exchange undoes `composeDataPacket`: when no item was being
      sent to this destination before, the registry is back to what it was,
      still owed to the destination. */
  lemma FailedSendRestores(items: seq<Item>, upto: nat, mask: bv8)
    requires forall j :: 0 <= j < |items| ==> items[j].sending & mask == 0
    ensures MarkedSent(MarkSending(items, upto, mask), mask, false) == items
  {
    var m := MarkSending(items, upto, mask);
    var r := MarkedSent(m, mask, false);
    forall j | 0 <= j < |items|
      ensures r[j] == items[j]
    {
      assert r[j] == Cleared(m[j], mask, false);
      if m[j] != items[j] {
        Unmark(items[j], mask);
      } else {
        UnmarkedStays(items[j], mask);
      }
    }
  }

  lemma Unmark(it: Item, mask: bv8)
    requires it.sending & mask == 0
    ensures Cleared(it.(sending := it.sending | mask), mask, false) == it
  {
    assert (it.sending | mask) & !mask == it.sending;
  }

  lemma UnmarkedStays(it: Item, mask: bv8)
    requires it.sending & mask == 0
    ensures Cleared(it, mask, false) == it
  {
    assert it.sending & !mask == it.sending;
  }

  // ---------------------------------------------------------------------
  // The HTTP request
  // ---------------------------------------------------------------------

  const PUT: seq<byte> := [80, 85, 84]
  const POST: seq<byte> := [80, 79, 83, 84]

  /** A request as `sendPacket` composes it: verb, the destination's URL
      and extra URL parameters, host, authorisation line, the
      destination's extra headers, the byte-sized `size` argument and the
      packet buffer. */
  datatype Http = Http(verb: seq<byte>, url: seq<byte>, params: seq<byte>, host: seq<byte>,
                       auth: seq<byte>, headers: seq<byte>, size: byte, body: seq<byte>)

  /** The bytes `sendPacket` writes to the socket for `h`: request line,
      `Host`, the authorisation line, the extra headers, `Connection:
      close`, `Content-Length`, an empty line and the packet up to its NUL. */
  function Request(h: Http): seq<byte> {
    RequestHead(h) + ContentLength(h.size) + CStr(h.body)
  }

  function RequestHead(h: Http): seq<byte> {
    h.verb + [SPACE] + h.url + h.params + Ascii(" HTTP/1.1") + CRLF
    + Ascii("Host: ") + h.host + CRLF
    + h.auth + CRLF
    + h.headers
    + Ascii("Connection: close") + CRLF
  }

  function ContentLength(size: byte): seq<byte> {
    Ascii("Content-Length: ") + Decimal(size as nat) + CRLF + CRLF
  }

  /** The request line starts with the verb, a space, the URL and its
      parameters; the header block ends with a `Content-Length` carrying
      the decimal digits of `size` (see `DecimalRoundTrip`) and an empty
      line; what follows is the
      packet's text and nothing else. */
  lemma RequestShape(h: Http)
    ensures var r := Request(h);
            var k := |r| - |CStr(h.body)|;
            var n := |Decimal(h.size as nat)|;
            && r[..|h.verb| + 1 + |h.url| + |h.params|] == h.verb + [SPACE] + h.url + h.params
            && k >= 20 + n && r[k..] == CStr(h.body) && r[k - 4..k] == CRLF + CRLF
            && r[k - 20 - n..k - 4 - n] == Ascii("Content-Length: ")
            && r[k - 4 - n..k - 4] == Decimal(h.size as nat)
  {
    var head, cl, body := RequestHead(h), ContentLength(h.size), CStr(h.body);
    var line := h.verb + [SPACE] + h.url + h.params;
    var r := Request(h);
    assert r == head + cl + body;
    assert head[..|line|] == line;
    assert r[..|line|] == head[..|line|];
    var k := |head| + |cl|;
    assert r[k..] == body;
    assert r[|head|..k] == cl;
    ContentLengthShape(h.size);
    var n := |Decimal(h.size as nat)|;
    var at := |head|;
    SubSlice(r, at, k, 16 + n, 20 + n);
    SubSlice(r, at, k, 0, 16);
    SubSlice(r, at, k, 16, 16 + n);
  }

  lemma SubSlice(r: seq<byte>, a: nat, b: nat, i: nat, j: nat)
    requires a <= b <= |r| && i <= j <= b - a
    ensures r[a..b][i..j] == r[a + i..a + j]
  {
    forall x | 0 <= x < j - i ensures r[a..b][i..j][x] == r[a + i..a + j][x] {
      assert r[a..b][i..j][x] == r[a + i + x];
    }
  }

  lemma ContentLengthShape(size: byte)
    ensures var cl, d := ContentLength(size), Decimal(size as nat);
            && |cl| == 20 + |d| && cl[..16] == Ascii("Content-Length: ") && cl[16..16 + |d|] == d
            && cl[16 + |d|..] == CRLF + CRLF
  {
    var d := Decimal(size as nat);
    var cl := ContentLength(size);
    assert cl == Ascii("Content-Length: ") + d + CRLF + CRLF;
    assert cl[16 + |d|..] == CRLF + CRLF;
    assert cl[..16] == Ascii("Content-Length: ");
    assert cl[16..16 + |d|] == d;
  }

  // ---------------------------------------------------------------------
  // The response splitter
  // ---------------------------------------------------------------------

  /** The splitter's state: `responsePart` and the stored status line
      `response[..responseSize]`. */
  datatype Reader = Reader(part: int, line: seq<byte>)

  /** Where `parseChar` hands a byte on to. */
  datatype Hook = Quiet | ToHeaders(hc: byte) | ToBody(bc: byte)

  datatype Parsed = Parsed(reader: Reader, hook: Hook)

  /** One byte of the response through the splitter. */
  function ParseStep(r: Reader, ch: byte): Parsed {
    if r.part == RESPONSE_LINE1 then
      if ch == LF then Parsed(Reader(RESPONSE_HEADERS0, r.line), Quiet)
      else if ch != CR && |r.line| < MAX_RESPONSE then Parsed(Reader(r.part, r.line + [ch]), Quiet)
      else Parsed(r, Quiet)
    else if r.part == RESPONSE_HEADERS0 then
      var p := if ch == CR then RESPONSE_HEADERS1 else if ch == LF then RESPONSE_BODY
               else RESPONSE_HEADERS_ANY;
      Parsed(Reader(p, r.line), ToHeaders(ch))
    else if r.part == RESPONSE_HEADERS1 then
      Parsed(Reader(if ch == LF then RESPONSE_BODY else RESPONSE_HEADERS0, r.line), ToHeaders(ch))
    else if r.part == RESPONSE_HEADERS_ANY then
      Parsed(Reader(if ch == LF then RESPONSE_HEADERS0 else r.part, r.line), ToHeaders(ch))
    else if r.part == RESPONSE_BODY then
      Parsed(r, ToBody(ch))
    else
      Parsed(r, Quiet)
  }

  /** The splitter together with what it has handed to the header and body
      parsers so far. */
  datatype Split = Split(reader: Reader, headers: seq<byte>, body: seq<byte>)

  function SplitStep(s: Split, ch: byte): Split {
    var p := ParseStep(s.reader, ch);
    match p.hook
    case Quiet => Split(p.reader, s.headers, s.body)
    case ToHeaders(c) => Split(p.reader, s.headers + [c], s.body)
    case ToBody(c) => Split(p.reader, s.headers, s.body + [c])
  }

  /** The splitter at the start of an exchange. */
  const START: Split := Split(Reader(RESPONSE_LINE1, []), [], [])

  /** `s` without its CR bytes. */
  function NoCR(s: seq<byte>): (r: seq<byte>)
    ensures CR !in r && |r| <= |s|
  {
    if s == [] then []
    else NoCR(s[..|s| - 1]) + (if s[|s| - 1] == CR then [] else [s[|s| - 1]])
  }

  /** The first MAX_RESPONSE bytes of `s`. */
  function Clip(s: seq<byte>): (r: seq<byte>)
    ensures |r| <= MAX_RESPONSE && r <= s
    ensures |s| <= MAX_RESPONSE ==> r == s
  {
    if |s| <= MAX_RESPONSE then s else s[..MAX_RESPONSE]
  }

  /** Until the first LF every byte but CR is stored, up to MAX_RESPONSE of
      them, and nothing reaches the header or body parsers. */
  lemma {:induction false} StatusLine(l: seq<byte>, h: seq<byte>, b: seq<byte>, a: seq<byte>)
    requires |l| <= MAX_RESPONSE && LF !in a
    ensures Run(SplitStep, Split(Reader(RESPONSE_LINE1, l), h, b), a)
         == Split(Reader(RESPONSE_LINE1, Clip(l + NoCR(a))), h, b)
    decreases |a|
  {
    if a == [] {
      assert l + NoCR(a) == l;
    } else {
      var a', c := a[..|a| - 1], a[|a| - 1];
      assert LF !in a' by {
        forall k | 0 <= k < |a'| ensures a'[k] != LF {
          assert a'[k] == a[k];
        }
      }
      StatusLine(l, h, b, a');
      StoreStep(l, a', c);
      assert a == a' + [c];
    }
  }

  /** One more status-line byte: a CR is dropped, anything else is stored
      while there is room. */
  lemma StoreStep(l: seq<byte>, a: seq<byte>, c: byte)
    ensures var x := Clip(l + NoCR(a));
            Clip(l + NoCR(a + [c])) ==
              if c != CR && |x| < MAX_RESPONSE then x + [c] else x
  {
    var y := l + NoCR(a);
    assert (a + [c])[..|a|] == a;
    if c != CR {
      assert l + NoCR(a + [c]) == y + [c];
      if |y| >= MAX_RESPONSE {
        assert (y + [c])[..MAX_RESPONSE] == y[..MAX_RESPONSE];
      }
    } else {
      assert l + NoCR(a + [c]) == y;
    }
  }

  /** Past the status line the stored line no longer changes, every byte goes
      to exactly one of the two parsers, in order, the header parser first,
      and once a byte has gone to the body parser the splitter stays in the
      body. */
  lemma {:induction false} HeadersThenBody(p: int, l: seq<byte>, h: seq<byte>, b: seq<byte>, t: seq<byte>)
    requires RESPONSE_HEADERS0 <= p <= RESPONSE_BODY && (b != [] ==> p == RESPONSE_BODY)
    ensures var r := Run(SplitStep, Split(Reader(p, l), h, b), t);
            && r.reader.line == l && RESPONSE_HEADERS0 <= r.reader.part <= RESPONSE_BODY
            && r.headers + r.body == h + b + t
            && h <= r.headers && b <= r.body
            && (r.body != [] ==> r.reader.part == RESPONSE_BODY)
    decreases |t|
  {
    if t == [] {
    } else {
      var t', c := t[..|t| - 1], t[|t| - 1];
      HeadersThenBody(p, l, h, b, t');
      var r' := Run(SplitStep, Split(Reader(p, l), h, b), t');
      assert t == t' + [c];
      assert h + b + t == (h + b + t') + [c];
      if r'.reader.part == RESPONSE_BODY {
        assert r'.headers + (r'.body + [c]) == (r'.headers + r'.body) + [c];
      } else {
        assert r'.body == [];
        assert (r'.headers + [c]) + r'.body == (r'.headers + r'.body) + [c];
      }
    }
  }

  /** In the body every byte goes to the body parser. */
  lemma {:induction false} BodyAbsorbs(l: seq<byte>, h: seq<byte>, b: seq<byte>, t: seq<byte>)
    ensures Run(SplitStep, Split(Reader(RESPONSE_BODY, l), h, b), t)
         == Split(Reader(RESPONSE_BODY, l), h, b + t)
    decreases |t|
  {
    if t == [] {
      assert b + t == b;
    } else {
      var t', c := t[..|t| - 1], t[|t| - 1];
      BodyAbsorbs(l, h, b, t');
      assert b + t == (b + t') + [c];
    }
  }

  /** The splitter over a whole response: the stored line is the first line
      without CR bytes, clipped, and what follows the first LF is split
      between the header and body parsers. */
  lemma ResponseSplit(a: seq<byte>, t: seq<byte>)
    requires LF !in a
    ensures var r := Run(SplitStep, START, a + [LF] + t);
            && r.reader.line == Clip(NoCR(a)) && r.reader.part != RESPONSE_LINE1
            && r.headers + r.body == t
  {
    StatusLine([], [], [], a);
    assert [] + NoCR(a) == NoCR(a);
    RunAppend(SplitStep, START, a + [LF], t);
    RunSnoc(SplitStep, START, a, LF);
    HeadersThenBody(RESPONSE_HEADERS0, Clip(NoCR(a)), [], [], t);
  }

  /** An empty line after the headers, LF or CR LF, starts the body. */
  lemma EmptyLineStartsBody(l: seq<byte>, h: seq<byte>, t: seq<byte>)
    ensures Run(SplitStep, Split(Reader(RESPONSE_HEADERS0, l), h, []), [LF] + t)
         == Split(Reader(RESPONSE_BODY, l), h + [LF], t)
    ensures Run(SplitStep, Split(Reader(RESPONSE_HEADERS0, l), h, []), [CR, LF] + t)
         == Split(Reader(RESPONSE_BODY, l), h + [CR, LF], t)
  {
    var s0 := Split(Reader(RESPONSE_HEADERS0, l), h, []);
    RunAppend(SplitStep, s0, [LF], t);
    RunSnoc(SplitStep, s0, [], LF);
    BodyAbsorbs(l, h + [LF], [], t);
    assert [] + t == t;
    RunAppend(SplitStep, s0, [CR, LF], t);
    RunSnoc(SplitStep, s0, [], CR);
    RunSnoc(SplitStep, s0, [CR], LF);
    assert [CR] + [LF] == [CR, LF];
    assert h + [CR] + [LF] == h + [CR, LF];
    BodyAbsorbs(l, h + [CR, LF], [], t);
  }

  /** The verdict of `readResponse`: the status line was completed and reads,
      up to a NUL, exactly `HTTP/1.1 200 OK`. */
  predicate Verdict(r: Reader) {
    r.part != RESPONSE_LINE1 && CStr(r.line) == HTTP_OK
  }

  /** An exchange succeeds exactly when its first line, CR bytes dropped,
      reads `HTTP/1.1 200 OK`; a response that never ends its first line
      fails. */
  lemma ExchangeVerdict(a: seq<byte>, t: seq<byte>)
    requires LF !in a
    ensures Verdict(Run(SplitStep, START, a + [LF] + t).reader) <==> CStr(Clip(NoCR(a))) == HTTP_OK
    ensures !Verdict(Run(SplitStep, START, a).reader)
  {
    ResponseSplit(a, t);
    StatusLine([], [], [], a);
  }

  // ---------------------------------------------------------------------
  // The Set-Cookie matcher
  // ---------------------------------------------------------------------

  /** The contents of `_cookie[MAX_COOKIE_LEN + 1]`. */
  type CookieBuf = s: seq<byte> | |s| == MAX_COOKIE_LEN + 1 witness seq(21, i => NUL)

  /** `_parseCookieState` and `_cookie`. */
  datatype Cookie = Cookie(state: byte, value: CookieBuf)

  /** One header byte through the cookie matcher. */
  function CookieStep(c: Cookie, ch: byte): Cookie {
    if c.state < PCOOKIE_STATE_SET_COOKIE then
      if IsEol(ch) then c.(state := PCOOKIE_STATE_0)
      else if ch == SET_COOKIE[c.state as int] then c.(state := c.state + 1)
      else c.(state := PCOOKIE_STATE_ERR)
    else if c.state < PCOOKIE_STATE_ERR then
      if IsEol(ch) then c.(state := PCOOKIE_STATE_DONE)
      else
        var k := (c.state - PCOOKIE_STATE_SET_COOKIE) as int;
        Cookie(c.state + 1, c.value[k := ch][k + 1 := NUL])
    else if c.state == PCOOKIE_STATE_ERR then
      if IsEol(ch) then c.(state := PCOOKIE_STATE_0) else c
    else
      c
  }

  /** A matcher state reachable from the start. */
  predicate CookieOk(c: Cookie) {
    c.state <= PCOOKIE_STATE_DONE && NUL in c.value
  }

  /** No line end in `s`. */
  predicate NoEol(s: seq<byte>) {
    forall i :: 0 <= i < |s| ==> !IsEol(s[i])
  }

  /** One step of the matcher keeps its state in range, the buffer
      NUL-terminated and free of line ends, which only ever end a value. */
  lemma CookieStepOk(c: Cookie, ch: byte)
    requires CookieOk(c) && NoEol(c.value)
    ensures CookieOk(CookieStep(c, ch)) && NoEol(CookieStep(c, ch).value)
  {
    if PCOOKIE_STATE_SET_COOKIE <= c.state < PCOOKIE_STATE_ERR && !IsEol(ch) {
      var k := (c.state - PCOOKIE_STATE_SET_COOKIE) as int;
      var v := c.value[k := ch][k + 1 := NUL];
      assert v[k + 1] == NUL;
      forall i | 0 <= i < |v| ensures !IsEol(v[i]) {
        if i != k && i != k + 1 {
          assert v[i] == c.value[i];
        }
      }
    }
  }

  /** The matcher keeps its state in range and the cookie NUL-terminated
      inside its buffer, so it never reads as more than MAX_COOKIE_LEN
      bytes. */
  lemma {:induction false} CookieTerminated(c: Cookie, s: seq<byte>)
    requires CookieOk(c)
    ensures CookieOk(Run(CookieStep, c, s))
    ensures |CStr(Run(CookieStep, c, s).value)| <= MAX_COOKIE_LEN
    decreases |s|
  {
    if s != [] {
      CookieTerminated(c, s[..|s| - 1]);
      var c' := Run(CookieStep, c, s[..|s| - 1]);
      var ch := s[|s| - 1];
      if PCOOKIE_STATE_SET_COOKIE <= c'.state < PCOOKIE_STATE_ERR && !IsEol(ch) {
        var k := (c'.state - PCOOKIE_STATE_SET_COOKIE) as int;
        assert c'.value[k := ch][k + 1 := NUL][k + 1] == NUL;
      }
    }
  }

  /** After `Set-Cookie: ` at the start of a line, the value's bytes are
      copied one by one, each followed by a NUL, until MAX_COOKIE_LEN of
      them; what was in the buffer past the copy is kept. */
  lemma {:induction false} CookieCopies(v: CookieBuf, w: seq<byte>)
    requires |w| <= MAX_COOKIE_LEN && (forall i :: 0 <= i < |w| ==> !IsEol(w[i]))
    ensures var c := Run(CookieStep, Cookie(PCOOKIE_STATE_0, v), SET_COOKIE + w);
            && c.state as int == PCOOKIE_STATE_SET_COOKIE as int + |w|
            && c.value[..|w|] == w && c.value[|w| + 1..] == v[|w| + 1..]
            && (w != [] ==> c.value[|w|] == NUL)
            && (w == [] ==> c.value == v)
    decreases |w|
  {
    if w == [] {
      MatchesPrefix(v, SET_COOKIE);
      assert SET_COOKIE + w == SET_COOKIE;
    } else {
      var w', ch := w[..|w| - 1], w[|w| - 1];
      CookieCopies(v, w');
      assert SET_COOKIE + w == (SET_COOKIE + w') + [ch];
      RunSnoc(CookieStep, Cookie(PCOOKIE_STATE_0, v), SET_COOKIE + w', ch);
      var c' := Run(CookieStep, Cookie(PCOOKIE_STATE_0, v), SET_COOKIE + w');
      Overwrite(c'.value, w', ch, v);
      assert w' + [ch] == w;
    }
  }

  /** Writing `ch` and a NUL after a copied prefix `w`. */
  lemma Overwrite(u: seq<byte>, w: seq<byte>, ch: byte, v: seq<byte>)
    requires |w| + 1 < |u| == |v| && u[..|w|] == w && u[|w| + 1..] == v[|w| + 1..]
    ensures var u' := u[|w| := ch][|w| + 1 := NUL];
            u'[..|w| + 1] == w + [ch] && u'[|w| + 1] == NUL && u'[|w| + 2..] == v[|w| + 2..]
  {
    var u' := u[|w| := ch][|w| + 1 := NUL];
    assert u'[..|w| + 1] == u[..|w|] + [ch];
    assert u'[|w| + 2..] == u[|w| + 2..];
  }

  /** A prefix of `Set-Cookie: ` at the start of a line moves the matcher
      along it and leaves the buffer alone. */
  lemma {:induction false} MatchesPrefix(v: CookieBuf, p: seq<byte>)
    requires p <= SET_COOKIE
    ensures Run(CookieStep, Cookie(PCOOKIE_STATE_0, v), p) == Cookie(|p| as byte, v)
    decreases |p|
  {
    if p != [] {
      var p' := p[..|p| - 1];
      MatchesPrefix(v, p');
      assert p[|p| - 1] == SET_COOKIE[|p'|];
    }
  }

  /** A captured value under MAX_COOKIE_LEN bytes that ends with the line is
      the cookie, and the matcher is done. */
  lemma CookieCaptured(v: CookieBuf, w: seq<byte>, e: byte)
    requires |w| < MAX_COOKIE_LEN && (forall i :: 0 <= i < |w| ==> !IsEol(w[i])) && NUL !in w
    requires IsEol(e)
    ensures var c := Run(CookieStep, Cookie(PCOOKIE_STATE_0, v), SET_COOKIE + w + [e]);
            c.state == PCOOKIE_STATE_DONE && (w != [] ==> CStr(c.value) == w)
  {
    var c0 := Cookie(PCOOKIE_STATE_0, v);
    var line := SET_COOKIE + w;
    CookieCopies(v, w);
    var c' := Run(CookieStep, c0, line);
    RunSnoc(CookieStep, c0, line, e);
    assert CookieStep(c', e) == c'.(state := PCOOKIE_STATE_DONE);
    if w != [] {
      CStrOf(c'.value, w);
    }
  }

  /** Once done the matcher ignores every later header byte. */
  lemma {:induction false} CookieDoneIgnores(c: Cookie, s: seq<byte>)
    requires c.state == PCOOKIE_STATE_DONE
    ensures Run(CookieStep, c, s) == c
    decreases |s|
  {
    if s != [] {
      CookieDoneIgnores(c, s[..|s| - 1]);
    }
  }

  /** A header line that does not start with `Set-Cookie: ` leaves the
      buffer alone: a mismatch sends the matcher to ERR for the rest of the
      line, and the end of the line brings it back to the start. */
  lemma OtherLine(v: CookieBuf, w: seq<byte>, e: byte)
    requires (forall i :: 0 <= i < |w| ==> !IsEol(w[i])) && !(SET_COOKIE <= w) && IsEol(e)
    ensures !(w <= SET_COOKIE) ==> Run(CookieStep, Cookie(PCOOKIE_STATE_0, v), w) == Cookie(PCOOKIE_STATE_ERR, v)
    ensures Run(CookieStep, Cookie(PCOOKIE_STATE_0, v), w + [e]) == Cookie(PCOOKIE_STATE_0, v)
  {
    RunSnoc(CookieStep, Cookie(PCOOKIE_STATE_0, v), w, e);
    if w <= SET_COOKIE {
      MatchesPrefix(v, w);
    } else {
      Mismatched(v, w);
    }
  }

  /** A line that leaves `Set-Cookie: ` before either ends puts the matcher
      in ERR. */
  lemma Mismatched(v: CookieBuf, w: seq<byte>)
    requires (forall i :: 0 <= i < |w| ==> !IsEol(w[i])) && !(SET_COOKIE <= w) && !(w <= SET_COOKIE)
    ensures Run(CookieStep, Cookie(PCOOKIE_STATE_0, v), w) == Cookie(PCOOKIE_STATE_ERR, v)
  {
    var j := Mismatch(w, SET_COOKIE);
    var a, t := w[..j + 1], w[j + 1..];
    assert a[..j] == w[..j] && a[j] == w[j];
    MismatchStep(v, a);
    assert NoEol(t) by {
      forall i | 0 <= i < |t| ensures !IsEol(t[i]) {
        assert t[i] == w[j + 1 + i];
      }
    }
    ErrUntilEol(v, a, t);
    assert a + t == w;
  }

  /** The byte that departs from `Set-Cookie: ` sends the matcher to ERR. */
  lemma MismatchStep(v: CookieBuf, a: seq<byte>)
    requires 0 < |a| <= |SET_COOKIE| && a[..|a| - 1] == SET_COOKIE[..|a| - 1]
    requires a[|a| - 1] != SET_COOKIE[|a| - 1] && !IsEol(a[|a| - 1])
    ensures Run(CookieStep, Cookie(PCOOKIE_STATE_0, v), a) == Cookie(PCOOKIE_STATE_ERR, v)
  {
    var p := a[..|a| - 1];
    MatchesPrefix(v, p);
    RunSnoc(CookieStep, Cookie(PCOOKIE_STATE_0, v), p, a[|a| - 1]);
    assert a == p + [a[|a| - 1]];
  }

  /** The first position where `w` and `p` differ, when neither is a prefix
      of the other. */
  lemma Mismatch(w: seq<byte>, p: seq<byte>) returns (j: nat)
    requires !(p <= w) && !(w <= p)
    ensures j < |w| && j < |p| && w[..j] == p[..j] && w[j] != p[j]
  {
    j := 0;
    while j < |w| && j < |p| && w[j] == p[j]
      invariant j <= |w| && j <= |p| && w[..j] == p[..j]
    {
      assert w[..j + 1] == w[..j] + [w[j]] && p[..j + 1] == p[..j] + [p[j]];
      j := j + 1;
    }
  }

  /** In ERR the matcher waits for the end of the line. */
  lemma {:induction false} ErrUntilEol(v: CookieBuf, a: seq<byte>, t: seq<byte>)
    requires Run(CookieStep, Cookie(PCOOKIE_STATE_0, v), a) == Cookie(PCOOKIE_STATE_ERR, v)
    requires NoEol(t)
    ensures Run(CookieStep, Cookie(PCOOKIE_STATE_0, v), a + t) == Cookie(PCOOKIE_STATE_ERR, v)
    decreases |t|
  {
    if t == [] {
      assert a + t == a;
    } else {
      var t' := t[..|t| - 1];
      ErrUntilEol(v, a, t');
      assert a + t == (a + t') + [t[|t| - 1]];
      RunSnoc(CookieStep, Cookie(PCOOKIE_STATE_0, v), a + t', t[|t| - 1]);
    }
  }

  // ---------------------------------------------------------------------
  // The inbound message body parser
  // ---------------------------------------------------------------------

  /** `_parseBodyState` and `_indexIn`. */
  datatype Inbound = Inbound(state: byte, index: int32)

  /** One body byte through the parser; the index accumulates in a 32-bit
      `long`. */
  function BodyStep(b: Inbound, ch: byte): Inbound {
    if b.state == PBODY_STATE_0 then
      b.(state := if ch == MESSAGE_IN_ID then PBODY_STATE_1 else PBODY_STATE_ERR)
    else if b.state == PBODY_STATE_1 then
      b.(state := if ch == COMMA then PBODY_STATE_MSG else PBODY_STATE_ERR)
    else if b.state == PBODY_STATE_MSG then
      if ch == COMMA then b.(state := PBODY_STATE_WIDX) else b
    else if b.state == PBODY_STATE_WIDX then
      if ch == COMMA then Inbound(PBODY_STATE_IDX, 0) else b
    else if b.state == PBODY_STATE_IDX then
      if IsEol(ch) then b.(state := PBODY_STATE_DONE)
      else if IsDigit(ch) then b.(index := ToInt32(b.index * 10 + (ch as int - 48)))
      else b.(state := PBODY_STATE_ERR)
    else
      b
  }

  predicate AllDigits(s: seq<byte>) {
    forall i :: 0 <= i < |s| ==> IsDigit(s[i])
  }

  /** A body of the form `4,<text>,<word>,<digits>` and a line end; neither
      the text nor the word holds a comma. */
  function Message(m: seq<byte>, x: seq<byte>, ds: seq<byte>, e: byte): seq<byte> {
    [MESSAGE_IN_ID, COMMA] + m + [COMMA] + x + [COMMA] + ds + [e]
  }

  /** In the text and the word the parser waits for the next comma. */
  lemma {:induction false} SkipWord(b: Inbound, m: seq<byte>)
    requires b.state == PBODY_STATE_MSG || b.state == PBODY_STATE_WIDX
    requires COMMA !in m
    ensures Run(BodyStep, b, m) == b
    decreases |m|
  {
    if m != [] {
      SkipWord(b, m[..|m| - 1]);
    }
  }

  lemma DigitsPrefix(ds: seq<byte>, d: byte)
    requires AllDigits(ds) && IsDigit(d)
    ensures AllDigits(ds + [d])
    ensures DigitsValue(ds + [d]) == DigitsValue(ds) * 10 + (d as int - 48)
    ensures DigitsValue(ds) <= DigitsValue(ds + [d])
  {
    assert (ds + [d])[..|ds|] == ds;
  }

  /** The index digits accumulate to their value while it stays in range. */
  lemma {:induction false} IndexDigits(ds: seq<byte>)
    requires AllDigits(ds) && DigitsValue(ds) < 0x8000_0000
    ensures Run(BodyStep, Inbound(PBODY_STATE_IDX, 0), ds) == Inbound(PBODY_STATE_IDX, DigitsValue(ds))
    decreases |ds|
  {
    if ds != [] {
      var ds', d := ds[..|ds| - 1], ds[|ds| - 1];
      assert ds == ds' + [d];
      DigitsPrefix(ds', d);
      IndexDigits(ds');
      var v := DigitsValue(ds') * 10 + (d as int - 48);
      ToInt32Signed(v);
      DivMod(0, v, 0x1_0000_0000);
    }
  }

  /** A body `4,<text>,<word>,<digits>` ended by CR or LF is parsed, and the
      index is the digits' value. */
  lemma BodyAccepts(i0: int32, m: seq<byte>, x: seq<byte>, ds: seq<byte>, e: byte)
    requires COMMA !in m && COMMA !in x && AllDigits(ds) && DigitsValue(ds) < 0x8000_0000 && IsEol(e)
    ensures Run(BodyStep, Inbound(PBODY_STATE_0, i0), Message(m, x, ds, e))
         == Inbound(PBODY_STATE_DONE, DigitsValue(ds))
  {
    var b0 := Inbound(PBODY_STATE_0, i0);
    RunSnoc(BodyStep, b0, [], MESSAGE_IN_ID);
    RunSnoc(BodyStep, b0, [MESSAGE_IN_ID], COMMA);
    var p1 := [MESSAGE_IN_ID, COMMA];
    assert [MESSAGE_IN_ID] + [COMMA] == p1;
    var bm := Inbound(PBODY_STATE_MSG, i0);
    assert Run(BodyStep, b0, p1) == bm;
    SkipWord(bm, m);
    RunAppend(BodyStep, b0, p1, m);
    RunSnoc(BodyStep, b0, p1 + m, COMMA);
    var bw := Inbound(PBODY_STATE_WIDX, i0);
    SkipWord(bw, x);
    RunAppend(BodyStep, b0, p1 + m + [COMMA], x);
    RunSnoc(BodyStep, b0, p1 + m + [COMMA] + x, COMMA);
    var p2 := p1 + m + [COMMA] + x + [COMMA];
    assert Run(BodyStep, b0, p2) == Inbound(PBODY_STATE_IDX, 0);
    IndexDigits(ds);
    RunAppend(BodyStep, b0, p2, ds);
    RunSnoc(BodyStep, b0, p2 + ds, e);
    assert Message(m, x, ds, e) == p2 + ds + [e];
  }

  /** DONE and ERR take no further input. */
  lemma {:induction false} BodyFinal(b: Inbound, s: seq<byte>)
    requires b.state == PBODY_STATE_DONE || b.state == PBODY_STATE_ERR
    ensures Run(BodyStep, b, s) == b
    decreases |s|
  {
    if s != [] {
      BodyFinal(b, s[..|s| - 1]);
    }
  }

  /** A body that does not start `4,`, or whose index holds something other
      than a digit before the line end, is malformed for good. */
  lemma BodyRejects(i0: int32, c: byte, d: byte, s: seq<byte>)
    ensures c != MESSAGE_IN_ID ==>
              Run(BodyStep, Inbound(PBODY_STATE_0, i0), [c] + s).state == PBODY_STATE_ERR
    ensures d != COMMA ==>
              Run(BodyStep, Inbound(PBODY_STATE_0, i0), [MESSAGE_IN_ID, d] + s).state == PBODY_STATE_ERR
    ensures forall b: Inbound :: b.state == PBODY_STATE_IDX && !IsEol(c) && !IsDigit(c) ==>
              Run(BodyStep, b, [c] + s).state == PBODY_STATE_ERR
  {
    var b0 := Inbound(PBODY_STATE_0, i0);
    RunSnoc(BodyStep, b0, [], c);
    RunAppend(BodyStep, b0, [c], s);
    if c != MESSAGE_IN_ID {
      BodyFinal(Run(BodyStep, b0, [c]), s);
    }
    RunSnoc(BodyStep, b0, [], MESSAGE_IN_ID);
    RunSnoc(BodyStep, b0, [MESSAGE_IN_ID], d);
    assert [MESSAGE_IN_ID] + [d] == [MESSAGE_IN_ID, d];
    RunAppend(BodyStep, b0, [MESSAGE_IN_ID, d], s);
    if d != COMMA {
      BodyFinal(Run(BodyStep, b0, [MESSAGE_IN_ID, d]), s);
    }
    forall b: Inbound | b.state == PBODY_STATE_IDX && !IsEol(c) && !IsDigit(c)
      ensures Run(BodyStep, b, [c] + s).state == PBODY_STATE_ERR
    {
      RunSnoc(BodyStep, b, [], c);
      RunAppend(BodyStep, b, [c], s);
      BodyFinal(Run(BodyStep, b, [c]), s);
    }
  }

  /** `s` starts `4,<text>,` with its second comma at `j`. */
  predicate MsgAt(s: seq<byte>, j: int) {
    2 <= j < |s| && s[0] == MESSAGE_IN_ID && s[1] == COMMA && COMMA !in s[2..j] && s[j] == COMMA
  }

  /** ... and has its third comma at `k`. */
  predicate WordAt(s: seq<byte>, j: int, k: int) {
    MsgAt(s, j) && j < k < |s| && COMMA !in s[j + 1..k] && s[k] == COMMA
  }

  /** ... and the digits after it end with a CR or LF at `d`. */
  predicate DoneAt(s: seq<byte>, j: int, k: int, d: int) {
    WordAt(s, j, k) && k < d < |s| && AllDigits(s[k + 1..d]) && IsEol(s[d])
  }

  /** What the bytes fed so far look like, for each parser state. */
  ghost predicate BodyShape(st: byte, s: seq<byte>) {
    if st == PBODY_STATE_0 then s == []
    else if st == PBODY_STATE_1 then s == [MESSAGE_IN_ID]
    else if st == PBODY_STATE_MSG then
      2 <= |s| && s[0] == MESSAGE_IN_ID && s[1] == COMMA && COMMA !in s[2..]
    else if st == PBODY_STATE_WIDX then
      exists j :: MsgAt(s, j) && COMMA !in s[j + 1..]
    else if st == PBODY_STATE_IDX then
      exists j, k :: WordAt(s, j, k) && AllDigits(s[k + 1..])
    else if st == PBODY_STATE_DONE then
      exists j, k, d :: DoneAt(s, j, k, d)
    else
      st == PBODY_STATE_ERR
  }

  /** Every state the parser reaches from the start describes the bytes fed
      so far. */
  lemma {:induction false} BodyShapes(i0: int32, s: seq<byte>)
    ensures BodyShape(Run(BodyStep, Inbound(PBODY_STATE_0, i0), s).state, s)
    decreases |s|
  {
    if s != [] {
      var s', c := s[..|s| - 1], s[|s| - 1];
      BodyShapes(i0, s');
      assert s == s' + [c];
      ShapeStep(Run(BodyStep, Inbound(PBODY_STATE_0, i0), s'), s', c);
    }
  }

  /** One byte keeps the description of the bytes fed so far. */
  lemma ShapeStep(b: Inbound, s: seq<byte>, c: byte)
    requires BodyShape(b.state, s)
    ensures BodyShape(BodyStep(b, c).state, s + [c])
  {
    var t := s + [c];
    var st := BodyStep(b, c).state;
    if b.state == PBODY_STATE_0 {
      assert t == [c];
    } else if b.state == PBODY_STATE_1 {
      assert t == [MESSAGE_IN_ID, c];
      if st == PBODY_STATE_MSG {
        assert t[2..] == [];
      }
    } else if b.state == PBODY_STATE_MSG {
      ShapeMsg(s, c);
    } else if b.state == PBODY_STATE_WIDX {
      ShapeWord(s, c);
    } else if b.state == PBODY_STATE_IDX {
      ShapeIndex(b, s, c);
    } else if b.state == PBODY_STATE_DONE {
      var j, k, d :| DoneAt(s, j, k, d);
      assert t[2..j] == s[2..j] && t[j + 1..k] == s[j + 1..k] && t[k + 1..d] == s[k + 1..d];
      assert DoneAt(t, j, k, d);
    }
  }

  lemma ShapeMsg(s: seq<byte>, c: byte)
    requires BodyShape(PBODY_STATE_MSG, s)
    ensures BodyShape(if c == COMMA then PBODY_STATE_WIDX else PBODY_STATE_MSG, s + [c])
  {
    var t := s + [c];
    if c == COMMA {
      assert t[2..|s|] == s[2..];
      assert MsgAt(t, |s|) && t[|s| + 1..] == [];
    } else {
      assert t[2..] == s[2..] + [c];
    }
  }

  lemma ShapeWord(s: seq<byte>, c: byte)
    requires BodyShape(PBODY_STATE_WIDX, s)
    ensures BodyShape(if c == COMMA then PBODY_STATE_IDX else PBODY_STATE_WIDX, s + [c])
  {
    var t := s + [c];
    var j :| MsgAt(s, j) && COMMA !in s[j + 1..];
    assert t[2..j] == s[2..j];
    assert MsgAt(t, j);
    if c == COMMA {
      assert t[j + 1..|s|] == s[j + 1..];
      assert WordAt(t, j, |s|) && t[|s| + 1..] == [];
    } else {
      assert t[j + 1..] == s[j + 1..] + [c];
    }
  }

  lemma ShapeIndex(b: Inbound, s: seq<byte>, c: byte)
    requires b.state == PBODY_STATE_IDX && BodyShape(PBODY_STATE_IDX, s)
    ensures BodyShape(BodyStep(b, c).state, s + [c])
  {
    var t := s + [c];
    var j, k :| WordAt(s, j, k) && AllDigits(s[k + 1..]);
    assert t[2..j] == s[2..j] && t[j + 1..k] == s[j + 1..k];
    assert WordAt(t, j, k);
    if IsEol(c) {
      assert t[k + 1..|s|] == s[k + 1..];
      assert DoneAt(t, j, k, |s|);
    } else if IsDigit(c) {
      assert t[k + 1..] == s[k + 1..] + [c];
    }
  }

  /** The parser is done only after a body `4,<text>,<word>,<digits>` and a
      CR or LF. */
  lemma BodyDoneOnlyOnMessage(i0: int32, s: seq<byte>)
    requires Run(BodyStep, Inbound(PBODY_STATE_0, i0), s).state == PBODY_STATE_DONE
    ensures exists j, k, d :: DoneAt(s, j, k, d)
  {
    BodyShapes(i0, s);
  }

  // ---------------------------------------------------------------------
  // The shared state of push.cpp
  // ---------------------------------------------------------------------

  /** What `pushTag` hands back: the item registered under the tag, counted
      from the oldest registration, or that it never returns. */
  datatype Tagged = Found(handle: nat) | Added(handle: nat) | Hangs

  /** The file-level state of the push layer: the registry list `last_item`
      (newest first), whether the one socket is in use, the response
      splitter over `response[]`, and the outgoing `packet[]`. */
  class Net {
    var items: seq<Item>
    var clientBusy: bool
    var responsePart: int
    var responseSize: int
    const response: array<byte>
    const packet: array<byte>

    ghost predicate Valid()
      reads this`responsePart, this`responseSize
    {
      && response.Length == MAX_RESPONSE + 1 && packet.Length == MAX_PACKET + 1
      && RESPONSE_LINE1 <= responsePart <= RESPONSE_BODY && 0 <= responseSize <= MAX_RESPONSE
    }

    /** The splitter's state as the datatype the step functions use. */
    ghost function View(): Reader
      requires Valid()
      reads this`responsePart, this`responseSize, response
    {
      Reader(responsePart, response[..responseSize])
    }

    constructor ()
      ensures Valid() && fresh(response) && fresh(packet)
      ensures items == [] && !clientBusy && View() == START.reader
    {
      response := new byte[MAX_RESPONSE + 1];
      packet := new byte[MAX_PACKET + 1];
      items, clientBusy := [], false;
      responsePart, responseSize := RESPONSE_LINE1, 0;
    }

    /** `pushTag`: the item registered under the C string `tag`, whose
        text is compared as `strcmp` does. The source's search loop never
        moves past the newest item, so a registry whose newest item has
        another tag makes it spin for ever. */
    method PushTag(tag: seq<byte>) returns (r: Tagged)
      modifies this`items
      ensures old(items) == [] ==> r == Added(0) && items == [Item(CStr(tag), 0, 0, 0, 0)]
      ensures old(items) != [] && CStr(old(items)[0].tag) == CStr(tag) ==> items == old(items) && r == Found(|items| - 1)
      ensures old(items) != [] && CStr(old(items)[0].tag) != CStr(tag) ==> r == Hangs && items == old(items)
    {
      if items == [] {
        items := [Item(CStr(tag), 0, 0, 0, 0)] + items;
        return Added(0);
      }
      if CStr(items[0].tag) == CStr(tag) {
        return Found(|items| - 1);
      }
      return Hangs;
    }

    /** `push`: a new value for the item with handle `h`, now owed to every
        destination. */
    method Push(h: nat, val: int32, prec: byte)
      requires h < |items|
      modifies this`items
      ensures |items| == |old(items)|
      ensures var k := |items| - 1 - h;
              items[k] == old(items)[k].(val := val, prec := prec, updated := MASK_ALL)
      ensures forall j :: 0 <= j < |items| && j != |items| - 1 - h ==> items[j] == old(items)[j]
    {
      var k := |items| - 1 - h;
      items := items[k := items[k].(val := val, prec := prec, updated := MASK_ALL)];
    }

    /** Writes `t` into the packet buffer at `at`. */
    method Put(at: nat, t: seq<byte>)
      requires at + |t| <= packet.Length
      modifies packet
      ensures packet[..] == old(packet[..])[..at] + t + old(packet[..])[at + |t|..]
      ensures packet[..at + |t|] == old(packet[..at]) + t
    {
      var i := 0;
      while i < |t|
        invariant 0 <= i <= |t|
        invariant forall j :: 0 <= j < packet.Length ==>
                    packet[j] == if at <= j < at + i then t[j - at] else old(packet[j])
      {
        packet[at + i] := t[i];
        i := i + 1;
      }
      ghost var o := old(packet[..]);
      assert packet[..] == o[..at] + t + o[at + |t|..] by {
        forall j | 0 <= j < packet.Length
          ensures packet[..][j] == (o[..at] + t + o[at + |t|..])[j]
        {
        }
      }
      assert packet[..at + |t|] == packet[..][..at + |t|];
    }

    /** One line of `composeDataPacket` written at `at`: the location
        prefix, the tag, a comma, the formatted value and a newline. */
    method PutRecord(at: nat, it: Item, fmt: Formatter) returns (end: nat)
      requires Valid() && at + 1 + |it.tag| + 1 + MAX_NUM_LEN + 1 < MAX_PACKET
      modifies packet
      ensures end == at + |Record(it, fmt)|
      ensures packet[..end] == old(packet[..at]) + Record(it, fmt)
    {
      var num := Format(fmt, it.val, MAX_NUM_LEN, Style(it.prec as nat, false));
      var line := [LOCATION_PREFIX] + it.tag + [COMMA] + num + [LF];
      Put(at, line);
      end := at + |line|;
    }

    /** `composeDataPacket`: the packet lines of the registry for the
        destination with bits `mask`, NUL-terminated in the packet buffer;
        the length comes back truncated to a byte. */
    method ComposeDataPacket(mask: bv8, fmt: Formatter) returns (size: byte, next: bool)
      requires Valid()
      modifies this`items, packet
      ensures Valid()
      ensures var c := ComposeFrom(old(items), 0, 0, mask, fmt);
              && packet[..|c.text| + 1] == c.text + [NUL]
              && size as int == |c.text| % 256 && next == c.next
              && items == MarkSending(old(items), c.upto, mask)
    {
      ghost var items0 := items;
      ghost var target := ComposeFrom(items0, 0, 0, mask, fmt);
      var sz := 0;
      var i := 0;
      next := false;
      while i < |items| && !next
        invariant Composing(items0, target, i, sz, next, mask, fmt)
        decreases |items0| - i, !next
      {
        i, sz, next := ComposeStep(i, sz, mask, fmt, items0, target);
      }
      assert target.text == packet[..sz] && target.next == next && target.upto == i by {
        if !next {
          ComposeEnd(items0, sz, mask, fmt);
        }
      }
      ghost var done := packet[..sz];
      packet[sz] := NUL;
      size := (sz % 256) as byte;
      assert packet[..sz] == done;
      assert packet[..sz + 1] == done + [NUL];
    }

    /** The loop state of `composeDataPacket`: items `0..i` are done, the
        packet holds `sz` bytes, and what the rest adds completes `target`;
        a stop for lack of room leaves nothing to add. */
    ghost predicate Composing(items0: seq<Item>, target: Composed, i: nat, sz: int, next: bool, mask: bv8, fmt: Formatter)
      reads this`items, packet
    {
      && i <= |items| == |items0| && 0 <= sz < MAX_PACKET && packet.Length == MAX_PACKET + 1
      && items == MarkSending(items0, i, mask)
      && var rest := ComposeFrom(items0, i, sz, mask, fmt);
         && target.text == packet[..sz] + rest.text && target.next == rest.next && target.upto == rest.upto
         && (next ==> rest == Composed([], true, i))
    }

    /** One turn of the `composeDataPacket` loop over item `i`. */
    method ComposeStep(i: nat, sz: int, mask: bv8, fmt: Formatter, ghost items0: seq<Item>, ghost target: Composed)
      returns (i': nat, sz': int, next: bool)
      requires Valid() && i < |items| && Composing(items0, target, i, sz, false, mask, fmt)
      modifies this`items, packet
      ensures Composing(items0, target, i', sz', next, mask, fmt)
      ensures next ==> i' == i
      ensures !next ==> i' == i + 1
    {
      var it := items[i];
      assert it == items0[i];
      i', sz', next := i, sz, false;
      if Skipped(it.updated, mask) {
        MarkSendingSkip(items0, i, mask);
        ComposeSkip(items0, i, sz, mask, fmt);
        i' := i + 1;
      } else if sz + (1 + |it.tag| + 1 + MAX_NUM_LEN + 1) >= MAX_PACKET {
        next := true;
      } else {
        sz' := TakeItem(i, sz, mask, fmt, items0, target);
        i' := i + 1;
      }
    }

    /** One item the packet takes: its `sending` gets the destination's bits
        and its line goes into the packet at `sz`. */
    method TakeItem(i: nat, sz: int, mask: bv8, fmt: Formatter, ghost items0: seq<Item>, ghost target: Composed)
      returns (end: int)
      requires Valid() && i < |items| && Composing(items0, target, i, sz, false, mask, fmt)
      requires !Skipped(items0[i].updated, mask)
      requires sz + (1 + |items0[i].tag| + 1 + MAX_NUM_LEN + 1) < MAX_PACKET
      modifies this`items, packet
      ensures Composing(items0, target, i + 1, end, false, mask, fmt)
    {
      var it := items[i];
      ghost var done := packet[..sz];
      ghost var rest := ComposeFrom(items0, i + 1, sz + |Record(it, fmt)|, mask, fmt);
      ComposeTake(items0, i, sz, mask, fmt);
      MarkSendingTake(items0, i, mask);
      items := items[i := it.(sending := it.sending | mask)];
      end := PutRecord(sz, it, fmt);
      assert target.text == done + Record(it, fmt) + rest.text;
    }

    /** `markSent`: the destination with bits `mask` is done with every
        item, successfully or not. */
    method MarkSent(mask: bv8, success: bool)
      modifies this`items
      ensures items == MarkedSent(old(items), mask, success)
    {
      var i := 0;
      while i < |items|
        invariant 0 <= i <= |items| == |old(items)|
        invariant forall j :: 0 <= j < i ==> items[j] == Cleared(old(items)[j], mask, success)
        invariant forall j :: i <= j < |items| ==> items[j] == old(items)[j]
      {
        ClearAt(i, mask, success);
        i := i + 1;
      }
      assert items == MarkedSent(old(items), mask, success);
    }

    /** The body of the `markSent` loop for item `i`: unless the test skips
        it, `sending &= ~mask`, and `updated &= ~mask` on success. */
    method ClearAt(i: nat, mask: bv8, success: bool)
      requires i < |items|
      modifies this`items
      ensures items == old(items)[i := Cleared(old(items)[i], mask, success)]
    {
      if !Skipped(items[i].sending, mask) {
        items := items[i := Cleared(items[i], mask, success)];
      } else {
        SkippedKeeps(items[i], mask, success);
        assert items == items[i := items[i]];
      }
    }

    /** `parseChar`: one response byte through the splitter; the byte the
        source hands to the destination's header or body parser comes back
        as `hook`. */
    method ParseChar(ch: byte) returns (hook: Hook)
      requires Valid()
      modifies this`responsePart, this`responseSize, response
      ensures Valid()
      ensures Parsed(View(), hook) == ParseStep(old(View()), ch)
      ensures forall i :: responseSize <= i < response.Length ==> response[i] == old(response[i])
    {
      hook := Quiet;
      if responsePart == RESPONSE_LINE1 {
        if ch == LF {
          responsePart := RESPONSE_HEADERS0;
        } else if ch != CR && responseSize < MAX_RESPONSE {
          ghost var l := response[..responseSize];
          response[responseSize] := ch;
          responseSize := responseSize + 1;
          assert response[..responseSize] == l + [ch];
        }
      } else if responsePart == RESPONSE_HEADERS0 {
        if ch == CR {
          responsePart := RESPONSE_HEADERS1;
        } else if ch == LF {
          responsePart := RESPONSE_BODY;
        } else {
          responsePart := RESPONSE_HEADERS_ANY;
        }
        hook := ToHeaders(ch);
      } else if responsePart == RESPONSE_HEADERS1 {
        if ch == LF {
          responsePart := RESPONSE_BODY;
        } else {
          responsePart := RESPONSE_HEADERS0;
        }
        hook := ToHeaders(ch);
      } else if responsePart == RESPONSE_HEADERS_ANY {
        if ch == LF {
          responsePart := RESPONSE_HEADERS0;
        }
        hook := ToHeaders(ch);
      } else {
        hook := ToBody(ch);
      }
    }

    /** The verdict of `readResponse`: the status line is compared once the
        response is over. The test reads the start of the buffer as it is,
        then NUL-terminates the stored line and compares it whole. */
    method Finish() returns (ok: bool)
      requires Valid()
      modifies response
      ensures Valid() && View() == old(View())
      ensures ok == Verdict(old(View()))
    {
      ghost var l := response[..responseSize];
      ok := false;
      if responsePart != RESPONSE_LINE1 && response[..8] == HTTP_RES {
        response[responseSize] := NUL;
        assert response[..responseSize] == l;
        CStrCut(response[..], responseSize);
        assert response[..][..responseSize] == l;
        ok := CStr(response[..]) == HTTP_OK;
      }
    }

    /** The splitter's and the socket's state once a request has gone out. */
    method Open()
      requires Valid()
      modifies this`responsePart, this`responseSize, this`clientBusy
      ensures Valid() && View() == START.reader && clientBusy
    {
      responsePart := RESPONSE_LINE1;
      responseSize := 0;
      clientBusy := true;
    }
  }
}
