/** The two push destinations of push.cpp on top of the shared exchange
    state: `PushDest`, which `PUT`s the telemetry packet, and `PushMsgDest`,
    which `POST`s the message ring and parses a cookie and an inbound
    message out of the answer.  The socket and the timers are inputs. */
module Destinations {
  import opened Bytes
  import opened Push
  import MsgRing

  /** What the socket reports during one `readResponse`: whether it is
      connected, whether the exchange timer has run out (asked only while
      connected), the bytes it has available, and whether it is still
      connected once they are read. */
  datatype Wire = Wire(connected: bool, timedOut: bool, incoming: seq<byte>, stillConnected: bool)

  /** `readResponse` reads on: connected, in time, and still connected. */
  predicate Reading(w: Wire) {
    w.connected && !w.timedOut && w.stillConnected
  }

  /** The splitter, from `r`, after `readResponse` has read what the socket
      offers; nothing is read once the socket is gone or the time is up. */
  function Drained(r: Reader, w: Wire): (s: Split)
    ensures !(w.connected && !w.timedOut) ==> s == Split(r, [], [])
  {
    if w.connected && !w.timedOut then Run(SplitStep, Split(r, [], []), w.incoming) else Split(r, [], [])
  }

  /** The splitter's reader follows `ParseStep` whatever the hooks do. */
  lemma ReaderStep(s: Split, ch: byte)
    ensures SplitStep(s, ch).reader == ParseStep(s.reader, ch).reader
  {
  }

  /** `PushDest`: the telemetry destination. */
  class DataDest {
    const net: Net
    const mask: bv8
    const host: seq<byte>
    const port: int
    const url: seq<byte>
    const auth: seq<byte>
    /** What the `_period` and `_timeout` timers were last reset to. */
    var period: int
    var timeout: int
    /** `_next`: the last packet did not hold every item. */
    var next: bool
    /** `_sending`: an exchange of this destination is in flight. */
    var sending: bool

    /** The destinations are globals, so the flags start out false. */
    constructor (net: Net, mask: bv8, host: seq<byte>, port: int, url: seq<byte>, auth: seq<byte>)
      ensures this.net == net && this.mask == mask && this.host == host && this.port == port
      ensures this.url == url && this.auth == auth
      ensures period == INITIAL_INTERVAL && timeout == PUSH_TIMEOUT && !next && !sending
    {
      this.net, this.mask, this.host, this.port, this.url, this.auth := net, mask, host, port, url, auth;
      period, timeout := INITIAL_INTERVAL, PUSH_TIMEOUT;
      next, sending := false, false;
    }

    /** `sendPacket(size)`: when the socket connects, the `PUT` request
        carrying the packet goes out and the exchange begins. */
    method SendPacket(size: byte, connects: bool) returns (ok: bool, req: Option<Http>)
      requires net.Valid()
      modifies this`timeout, this`sending, net`responsePart, net`responseSize, net`clientBusy
      ensures net.Valid() && ok == connects
      ensures !connects ==> && req == None && timeout == old(timeout) && sending == old(sending)
                            && net.View() == old(net.View()) && net.clientBusy == old(net.clientBusy)
      ensures connects ==> && req == Some(Http(PUT, url, [], host, auth, [], size, net.packet[..]))
                           && timeout == PUSH_TIMEOUT && sending && net.View() == START.reader
                           && net.clientBusy
    {
      if !connects {
        return false, None;
      }
      req := Some(Http(PUT, url, [], host, auth, [], size, net.packet[..]));
      timeout := PUSH_TIMEOUT;
      sending := true;
      net.Open();
      ok := true;
    }

    /** `doneSend`: the registry learns the outcome, and the next packet is
        due after the long interval on success, the short one on failure. */
    method DoneSend(success: bool)
      modifies net`items, this`period
      ensures net.items == MarkedSent(old(net.items), mask, success)
      ensures period == if success then NEXT_INTERVAL else RETRY_INTERVAL
    {
      net.MarkSent(mask, success);
      period := if success then NEXT_INTERVAL else RETRY_INTERVAL;
    }

    /** The reading loop of `readResponse`: every available byte through
        `parseChar`; this destination's header and body hooks do nothing. */
    method Drain(incoming: seq<byte>)
      requires net.Valid()
      modifies net`responsePart, net`responseSize, net.response
      ensures net.Valid()
      ensures net.View() == Run(SplitStep, Split(old(net.View()), [], []), incoming).reader
    {
      ghost var s0 := Split(net.View(), [], []);
      var i := 0;
      while i < |incoming|
        invariant 0 <= i <= |incoming| && net.Valid()
        invariant net.View() == Run(SplitStep, s0, incoming[..i]).reader
      {
        ghost var s := Run(SplitStep, s0, incoming[..i]);
        var hook := net.ParseChar(incoming[i]);
        RunSnoc(SplitStep, s0, incoming[..i], incoming[i]);
        ReaderStep(s, incoming[i]);
        assert incoming[..i + 1] == incoming[..i] + [incoming[i]];
        i := i + 1;
      }
      assert incoming[..i] == incoming;
    }

    /** `readResponse`: while the exchange is on, read what has arrived;
        once the socket has closed or the time is up, settle the verdict,
        hand it to `doneSend` and free the socket.  Returns whether to read
        on at the next tick. */
    method ReadResponse(w: Wire) returns (reading: bool)
      requires net.Valid()
      modifies this`sending, this`period, net`items, net`responsePart, net`responseSize, net.response
      modifies net`clientBusy
      ensures net.Valid()
      ensures !old(sending) ==> && !reading && !sending && period == old(period)
                                && net.items == old(net.items) && net.View() == old(net.View())
                                && net.clientBusy == old(net.clientBusy)
      ensures old(sending) ==>
                var v := Drained(old(net.View()), w).reader;
                && net.View() == v && reading == Reading(w) && sending == reading
                && (reading ==> && period == old(period) && net.items == old(net.items)
                                && net.clientBusy == old(net.clientBusy))
                && (!reading ==> && !net.clientBusy
                                 && net.items == MarkedSent(old(net.items), mask, Verdict(v))
                                 && period == if Verdict(v) then NEXT_INTERVAL else RETRY_INTERVAL)
    {
      if !sending {
        return false;
      }
      if w.connected && !w.timedOut {
        Drain(w.incoming);
        if w.stillConnected {
          return true;
        }
      }
      sending := false;
      var ok := net.Finish();
      DoneSend(ok);
      net.clientBusy := false;
      reading := false;
    }

    /** Past the socket test of `check`: unless neither a left-over nor the
        period calls for a packet, compose one and send it.  A packet whose
        byte-truncated size is 0 is not sent, and its items stay marked as
        being sent; a failed connection counts as a failed exchange. */
    method Poll(periodDue: bool, connects: bool, fmt: Formatter) returns (req: Option<Http>)
      requires net.Valid()
      modifies net`items, net.packet, this`next, this`timeout, this`sending, this`period
      modifies net`responsePart, net`responseSize, net`clientBusy
      ensures net.Valid()
      ensures !old(next) && !periodDue ==>
                && req == None && next == old(next) && net.items == old(net.items)
                && net.packet[..] == old(net.packet[..]) && sending == old(sending)
                && period == old(period) && timeout == old(timeout)
                && net.View() == old(net.View()) && net.clientBusy == old(net.clientBusy)
      ensures old(next) || periodDue ==>
                var c := ComposeFrom(old(net.items), 0, 0, mask, fmt);
                var size := (|c.text| % 256) as byte;
                var marked := MarkSending(old(net.items), c.upto, mask);
                && next == c.next && net.packet[..|c.text| + 1] == c.text + [NUL]
                && (size == 0 ==> && req == None && net.items == marked && sending == old(sending)
                                  && period == old(period) && timeout == old(timeout)
                                  && net.View() == old(net.View()) && net.clientBusy == old(net.clientBusy))
                && (size != 0 && connects ==>
                      && req == Some(Http(PUT, url, [], host, auth, [], size, net.packet[..]))
                      && net.items == marked && sending && timeout == PUSH_TIMEOUT
                      && period == old(period) && net.View() == START.reader && net.clientBusy)
                && (size != 0 && !connects ==>
                      && req == None && net.items == MarkedSent(marked, mask, false)
                      && period == RETRY_INTERVAL && sending == old(sending) && timeout == old(timeout)
                      && net.View() == old(net.View()) && net.clientBusy == old(net.clientBusy))
    {
      req := None;
      if !next && !periodDue {
        return;
      }
      var size;
      size, next := net.ComposeDataPacket(mask, fmt);
      if size == 0 {
        return;
      }
      var ok;
      ok, req := SendPacket(size, connects);
      if !ok {
        DoneSend(false);
      }
    }

    /** `check`, one tick of the destination: read the answer of an exchange
        in flight; otherwise, unless another destination holds the socket,
        poll.  Returns the request sent, if any. */
    method Check(w: Wire, periodDue: bool, connects: bool, fmt: Formatter) returns (req: Option<Http>)
      requires net.Valid()
      modifies net`items, net.packet, this`next, this`timeout, this`sending, this`period
      modifies net`responsePart, net`responseSize, net.response, net`clientBusy
      ensures net.Valid()
      ensures old(sending) && Reading(w) ==> req == None && sending && net.items == old(net.items)
      ensures !old(sending) && old(net.clientBusy) ==> req == None && net.items == old(net.items)
      ensures req.Some? ==> sending && net.clientBusy && net.View() == START.reader
    {
      var reading := ReadResponse(w);
      if reading || net.clientBusy {
        return None;
      }
      req := Poll(periodDue, connects, fmt);
    }
  }

  // ---------------------------------------------------------------------
  // The message destination
  // ---------------------------------------------------------------------

  /** The query `printExtraUrlParams` appends to the URL: the outgoing
      stream's id, `last=1`, the index of the last inbound message when
      there is one, and the new-session flag. */
  function UrlParams(indexIn: int32, newSession: bool): seq<byte> {
    Ascii("?id=") + [MESSAGE_OUT_ID] + Ascii("&last=1")
    + (if indexIn > 0 then Ascii("&index=") + Decimal(indexIn as nat) else [])
    + (if newSession then Ascii("&newsession1") else [])
  }

  /** The query always starts `?id=3&last=1`; a positive inbound index
      follows as `&index=` and digits that read back as the index; a new
      session ends it with `&newsession1`; otherwise nothing more is sent. */
  lemma UrlParamsShape(indexIn: int32, newSession: bool)
    ensures var p := UrlParams(indexIn, newSession);
            && p[..12] == Ascii("?id=3&last=1")
            && (indexIn > 0 ==>
                  var n := |Decimal(indexIn as nat)|;
                  && 19 + n <= |p| && p[12..19] == Ascii("&index=") && AllDigits(p[19..19 + n])
                  && DigitsValue(p[19..19 + n]) == indexIn as int)
            && (newSession ==> 24 <= |p| && p[|p| - 12..] == Ascii("&newsession1"))
            && (indexIn <= 0 && !newSession ==> |p| == 12)
  {
    var head := Ascii("?id=") + [MESSAGE_OUT_ID] + Ascii("&last=1");
    assert head == Ascii("?id=3&last=1");
    var p := UrlParams(indexIn, newSession);
    if indexIn > 0 {
      var d := Decimal(indexIn as nat);
      var q := head + (Ascii("&index=") + d);
      assert p[..19 + |d|] == q;
      assert q[12..19] == Ascii("&index=") && q[19..] == d;
      DecimalRoundTrip(indexIn as nat);
    }
  }

  /** The scalar fields of `PushMsgDest`, as one value. */
  datatype Session = Session(indexIn: int32, indexOut: int, newSession: bool, wait: bool, period: int,
                             timeout: int, sending: bool, cookieState: byte, bodyState: byte)

  /** The fields after `sendPacket` has started an exchange: the timer is
      armed, the exchange is in flight and both response parsers restart
      (`printExtraUrlParams`). */
  function Opened(st: Session): Session {
    st.(timeout := PUSH_TIMEOUT, sending := true, cookieState := PCOOKIE_STATE_0,
        bodyState := PBODY_STATE_0)
  }

  /** The fields after `doneSend(success)`. */
  function Settled(st: Session, success: bool): Session {
    if success then
      st.(newSession := false, indexOut := if st.newSession then 0 else st.indexOut,
          indexIn := if st.bodyState == PBODY_STATE_DONE then st.indexIn else 0,
          wait := false, period := POLL_MSG_INTERVAL)
    else
      st.(wait := true, period := RETRY_INTERVAL)
  }

  /** `doneSend`: a success ends the forced wait, leaves a session on (a
      new one now started, with nothing sent in it yet), keeps the inbound
      index only if the answer's body was parsed to the end, and schedules
      the next poll; a failure starts a forced wait of the retry interval
      and changes nothing else.  The exchange's own fields stay. */
  lemma SettledFields(st: Session, success: bool)
    ensures var r := Settled(st, success);
            && r.wait == !success
            && r.period == (if success then POLL_MSG_INTERVAL else RETRY_INTERVAL)
            && (success ==> && !r.newSession && r.indexOut == (if st.newSession then 0 else st.indexOut)
                            && r.indexIn == (if st.bodyState == PBODY_STATE_DONE then st.indexIn else 0))
            && (!success ==> r.(wait := st.wait, period := st.period) == st)
            && r.timeout == st.timeout && r.sending == st.sending
            && r.cookieState == st.cookieState && r.bodyState == st.bodyState
  {
  }

  /** The header `printExtraHeaders` writes: within a session, a stored
      cookie goes back as a `Cookie` header line. */
  function CookieHeader(newSession: bool, cookie: seq<byte>): seq<byte> {
    if newSession || cookie == [] || cookie[0] == NUL then [] else COOKIE + CStr(cookie) + CRLF
  }

  /** With the buffer NUL-terminated and free of line ends, the header is
      a single line carrying 1 to MAX_COOKIE_LEN value bytes, and it is
      there exactly when a session is on and a cookie is stored. */
  lemma CookieHeaderShape(newSession: bool, cookie: seq<byte>)
    requires |cookie| == MAX_COOKIE_LEN + 1 && NUL in cookie && NoEol(cookie)
    ensures var r := CookieHeader(newSession, cookie);
            && (r == [] <==> newSession || cookie[0] == NUL)
            && (r != [] ==> && 10 < |r| <= 10 + MAX_COOKIE_LEN && r[..8] == COOKIE
                            && r[|r| - 2..] == CRLF && NUL !in r[8..|r| - 2] && NoEol(r[8..|r| - 2]))
  {
    var r := CookieHeader(newSession, cookie);
    if r != [] {
      var v := CStr(cookie);
      assert v[0] == cookie[0];
      assert r[8..|r| - 2] == v;
      assert NoEol(v) by {
        forall i | 0 <= i < |v| ensures !IsEol(v[i]) {
          assert v[i] == cookie[i];
        }
      }
    }
  }

  /** The ring's entries after `doneSend(success)`: a success within a
      session drops the entries through the last index sent. */
  function RingSettled(es: seq<MsgRing.Entry>, st: Session, success: bool): seq<MsgRing.Entry> {
    if success && !st.newSession then MsgRing.Removed(es, st.indexOut) else es
  }

  /** An acknowledged batch leaves the ring: when the index remembered is
      the one the encode of the unchanged ring ended with, a successful
      exchange drops exactly the entries the batch carried. */
  lemma AckedBatchLeaves(es: seq<MsgRing.Entry>, st: Session, len: int, w: MsgRing.Render)
    requires MsgRing.WellFormed(es) && |MsgRing.Flatten(es)| <= MsgRing.MSGBUF_SIZE && !st.newSession
    requires st.indexOut == MsgRing.EncodeFrom(es, 0, 0, len, w, 0).index
    ensures RingSettled(es, st, true) == es[MsgRing.EncodeFrom(es, 0, 0, len, w, 0).count..]
    ensures RingSettled(es, st, false) == es
  {
    MsgRing.EncodeThenRemove(es, len, w);
  }

  /** `PushMsgDest`: the message destination. */
  class MsgDest {
    const net: Net
    const ring: MsgRing.MsgBuf
    const mask: bv8
    const host: seq<byte>
    const port: int
    const url: seq<byte>
    const auth: seq<byte>
    /** What the `_period` and `_timeout` timers were last reset to. */
    var period: int
    var timeout: int
    /** `_sending`: an exchange of this destination is in flight. */
    var sending: bool
    /** `_indexIn`: the index of the last inbound message, 0 for none. */
    var indexIn: int32
    /** `_indexOut`: the ring index the last outgoing batch ended with. */
    var indexOut: int
    var newSession: bool
    /** `_cookie`: the session cookie, as a C string. */
    const cookie: array<byte>
    var cookieState: byte
    var bodyState: byte
    /** `_wait`: a forced wait, at start-up or after a failure. */
    var wait: bool

    /** The shared state is sound, and the cookie matcher's state is in
        range with the cookie NUL-terminated and free of line ends. */
    ghost predicate Valid()
      reads net`responsePart, net`responseSize, this`cookieState, cookie
    {
      && net.Valid() && cookie.Length == MAX_COOKIE_LEN + 1
      && CookieOk(Cookie(cookieState, cookie[..])) && NoEol(cookie[..])
    }

    /** The cookie matcher as the datatype `CookieStep` works on. */
    ghost function CookieView(): Cookie
      requires cookie.Length == MAX_COOKIE_LEN + 1
      reads this`cookieState, cookie
    {
      Cookie(cookieState, cookie[..])
    }

    /** The body parser as the datatype `BodyStep` works on. */
    ghost function BodyView(): Inbound
      reads this`bodyState, this`indexIn
    {
      Inbound(bodyState, indexIn)
    }

    /** The scalar fields as one value. */
    ghost function State(): Session
      reads this`indexIn, this`indexOut, this`newSession, this`wait, this`period, this`timeout
      reads this`sending, this`cookieState, this`bodyState
    {
      Session(indexIn, indexOut, newSession, wait, period, timeout, sending, cookieState, bodyState)
    }

    /** The destinations are globals: what the constructor does not set
        starts out zero. */
    constructor (net: Net, ring: MsgRing.MsgBuf, mask: bv8, host: seq<byte>, port: int,
                 url: seq<byte>, auth: seq<byte>)
      requires net.Valid() && ring.Valid()
      ensures Valid() && ring.Valid() && fresh(cookie)
      ensures this.net == net && this.ring == ring && this.mask == mask && this.host == host
      ensures this.port == port && this.url == url && this.auth == auth
      ensures period == INITIAL_MSG_WAIT && timeout == PUSH_TIMEOUT && !sending
      ensures newSession && wait && indexIn == 0 && indexOut == 0
      ensures cookie[..] == seq(MAX_COOKIE_LEN + 1, i => NUL)
      ensures cookieState == PCOOKIE_STATE_0 && bodyState == PBODY_STATE_0
    {
      this.net, this.ring, this.mask := net, ring, mask;
      this.host, this.port, this.url, this.auth := host, port, url, auth;
      cookie := new byte[MAX_COOKIE_LEN + 1](i => NUL);
      period, timeout, sending := INITIAL_MSG_WAIT, PUSH_TIMEOUT, false;
      indexIn, indexOut := 0, 0;
      newSession, wait := true, true;
      cookieState, bodyState := PCOOKIE_STATE_0, PBODY_STATE_0;
      new;
      assert cookie[..][0] == NUL;
    }

    /** `printExtraUrlParams`: the query, and both response parsers reset
        for the exchange about to start. */
    method ExtraUrlParams() returns (p: seq<byte>)
      requires Valid()
      modifies this`cookieState, this`bodyState
      ensures Valid()
      ensures p == UrlParams(indexIn, newSession)
      ensures cookieState == PCOOKIE_STATE_0 && bodyState == PBODY_STATE_0
    {
      p := Ascii("?id=") + [MESSAGE_OUT_ID] + Ascii("&last=1");
      if indexIn > 0 {
        p := p + Ascii("&index=") + Decimal(indexIn as nat);
      }
      if newSession {
        p := p + Ascii("&newsession1");
      }
      cookieState := PCOOKIE_STATE_0;
      bodyState := PBODY_STATE_0;
    }

    /** `sendPacket(size)` with this destination's query and headers: when
        the socket connects, the `POST` request goes out and the exchange
        begins. */
    method SendPacket(size: byte, connects: bool) returns (ok: bool, req: Option<Http>)
      requires Valid()
      modifies this`timeout, this`sending, this`cookieState, this`bodyState
      modifies net`responsePart, net`responseSize, net`clientBusy
      ensures Valid() && ok == connects
      ensures !connects ==> && req == None && State() == old(State())
                            && net.View() == old(net.View()) && net.clientBusy == old(net.clientBusy)
      ensures connects ==>
                && req == Some(Http(POST, url, UrlParams(indexIn, newSession), host, auth, CookieHeader(newSession, cookie[..]),
                                  size, net.packet[..]))
                && State() == Opened(old(State())) && net.View() == START.reader && net.clientBusy
    {
      if !connects {
        return false, None;
      }
      ghost var st0 := State();
      var params := ExtraUrlParams();
      timeout := PUSH_TIMEOUT;
      sending := true;
      assert State() == Opened(st0);
      net.Open();
      req := Some(Http(POST, url, params, host, auth, CookieHeader(newSession, cookie[..]), size, net.packet[..]));
      ok := true;
    }

    /** `doneSend`: on success a new session is now on, or the ring drops
        the messages the exchange delivered; an inbound index that was not
        parsed is forgotten, and the next poll is due after the poll
        interval.  On failure a forced wait of the retry interval begins. */
    method DoneSend(success: bool)
      requires Valid() && ring.Valid()
      modifies this`newSession, this`indexOut, this`indexIn, this`wait, this`period, ring
      ensures Valid() && ring.Valid()
      ensures State() == Settled(old(State()), success)
      ensures ring.entries == RingSettled(old(ring.entries), old(State()), success)
      ensures ring.draft == old(ring.draft)
    {
      if success && !newSession {
        ring.RemoveMessages(indexOut);
      }
      Settle(success);
    }

    /** The fields `doneSend` sets. */
    method Settle(success: bool)
      modifies this`newSession, this`indexOut, this`indexIn, this`wait, this`period
      ensures State() == Settled(old(State()), success)
    {
      if success {
        if newSession {
          newSession := false;
          indexOut := 0;
        }
        if bodyState != PBODY_STATE_DONE {
          indexIn := 0;
        }
        wait := false;
        period := POLL_MSG_INTERVAL;
      } else {
        wait := true;
        period := RETRY_INTERVAL;
      }
    }

    /** `parseResponseHeaders`: one header byte through the cookie matcher,
        in place on `_parseCookieState` and `_cookie`. */
    method ParseResponseHeaders(ch: byte)
      requires Valid()
      modifies this`cookieState, cookie
      ensures Valid()
      ensures CookieView() == CookieStep(old(CookieView()), ch)
    {
      CookieStepOk(CookieView(), ch);
      var eoln := ch == CR || ch == LF;
      if cookieState < PCOOKIE_STATE_SET_COOKIE {
        if eoln {
          cookieState := PCOOKIE_STATE_0;
        } else if ch == SET_COOKIE[cookieState] {
          cookieState := cookieState + 1;
        } else {
          cookieState := PCOOKIE_STATE_ERR;
        }
      } else if cookieState < PCOOKIE_STATE_ERR {
        if eoln {
          cookieState := PCOOKIE_STATE_DONE;
        } else {
          cookie[cookieState - PCOOKIE_STATE_SET_COOKIE] := ch;
          cookieState := cookieState + 1;
          cookie[cookieState - PCOOKIE_STATE_SET_COOKIE] := NUL;
        }
      } else if cookieState == PCOOKIE_STATE_ERR {
        if eoln {
          cookieState := PCOOKIE_STATE_0;
        }
      }
    }

    /** `parseResponseBody`: one body byte through the inbound-message
        parser; the index grows in two wrapping steps, `*= 10` and `+= d`. */
    method ParseResponseBody(ch: byte)
      modifies this`bodyState, this`indexIn
      ensures BodyView() == BodyStep(old(BodyView()), ch)
    {
      if bodyState == PBODY_STATE_0 {
        bodyState := if ch == MESSAGE_IN_ID then PBODY_STATE_1 else PBODY_STATE_ERR;
      } else if bodyState == PBODY_STATE_1 {
        bodyState := if ch == COMMA then PBODY_STATE_MSG else PBODY_STATE_ERR;
      } else if bodyState == PBODY_STATE_MSG {
        if ch == COMMA {
          bodyState := PBODY_STATE_WIDX;
        }
      } else if bodyState == PBODY_STATE_WIDX {
        if ch == COMMA {
          bodyState := PBODY_STATE_IDX;
          indexIn := 0;
        }
      } else if bodyState == PBODY_STATE_IDX {
        if ch == CR || ch == LF {
          bodyState := PBODY_STATE_DONE;
        } else if ZERO <= ch <= ZERO + 9 {
          ToInt32Add(indexIn as int * 10, ch as int - 48);
          indexIn := ToInt32(indexIn as int * 10);
          indexIn := ToInt32(indexIn as int + (ch as int - 48));
        } else {
          bodyState := PBODY_STATE_ERR;
        }
      }
    }

    /** The reading loop has fed `t` to the splitter and the parsers, from
        `s0`, `c0` and `b0`. */
    ghost predicate Fed(s0: Split, c0: Cookie, b0: Inbound, t: seq<byte>)
      requires Valid()
      reads net`responsePart, net`responseSize, net.response, this`cookieState, cookie
      reads this`bodyState, this`indexIn
    {
      var s := Run(SplitStep, s0, t);
      && net.View() == s.reader && CookieView() == Run(CookieStep, c0, s.headers)
      && BodyView() == Run(BodyStep, b0, s.body)
    }

    /** One byte through `parseChar`, and on to the hook it names. */
    method Feed(ch: byte, ghost s0: Split, ghost c0: Cookie, ghost b0: Inbound, ghost t: seq<byte>)
      requires Valid() && Fed(s0, c0, b0, t)
      modifies net`responsePart, net`responseSize, net.response, this`cookieState, cookie
      modifies this`bodyState, this`indexIn
      ensures Valid() && Fed(s0, c0, b0, t + [ch])
    {
      ghost var s := Run(SplitStep, s0, t);
      RunSnoc(SplitStep, s0, t, ch);
      var hook := net.ParseChar(ch);
      ghost var v := net.View();
      assert Parsed(v, hook) == ParseStep(s.reader, ch);
      match hook {
        case Quiet =>
          assert SplitStep(s, ch) == Split(v, s.headers, s.body);
        case ToHeaders(c) =>
          assert SplitStep(s, ch) == Split(v, s.headers + [c], s.body);
          ParseResponseHeaders(c);
          assert net.View() == v;
          RunSnoc(CookieStep, c0, s.headers, c);
        case ToBody(c) =>
          assert SplitStep(s, ch) == Split(v, s.headers, s.body + [c]);
          ParseResponseBody(c);
          RunSnoc(BodyStep, b0, s.body, c);
      }
    }

    /** The reading loop of `readResponse`: every available byte through
        `parseChar`, the header bytes on to the cookie matcher and the body
        bytes on to the inbound-message parser. */
    method Drain(incoming: seq<byte>)
      requires Valid()
      modifies net`responsePart, net`responseSize, net.response, this`cookieState, cookie
      modifies this`bodyState, this`indexIn
      ensures Valid() && Fed(Split(old(net.View()), [], []), old(CookieView()), old(BodyView()), incoming)
    {
      ghost var s0, c0, b0 := Split(net.View(), [], []), CookieView(), BodyView();
      var i := 0;
      while i < |incoming|
        invariant 0 <= i <= |incoming| && Valid() && Fed(s0, c0, b0, incoming[..i])
      {
        Feed(incoming[i], s0, c0, b0, incoming[..i]);
        assert incoming[..i + 1] == incoming[..i] + [incoming[i]];
        i := i + 1;
      }
      assert incoming[..i] == incoming;
    }

    /** `readResponse` for this destination: the answer's header and body
        bytes go on to the cookie matcher and the inbound-message parser,
        and the verdict to this destination's `doneSend`. */
    method ReadResponse(w: Wire) returns (reading: bool)
      requires Valid() && ring.Valid()
      modifies this`sending, net`responsePart, net`responseSize, net.response, this`cookieState, cookie
      modifies this`bodyState, this`indexIn, net`clientBusy, this`newSession, this`indexOut, this`wait
      modifies this`period, ring
      ensures Valid() && ring.Valid() && ring.draft == old(ring.draft)
      ensures !old(sending) ==>
                && !reading && State() == old(State()) && cookie[..] == old(cookie[..])
                && net.View() == old(net.View()) && net.clientBusy == old(net.clientBusy)
                && ring.entries == old(ring.entries)
      ensures old(sending) ==>
                var s := Drained(old(net.View()), w);
                var c := Run(CookieStep, old(CookieView()), s.headers);
                var b := Run(BodyStep, old(BodyView()), s.body);
                var st := old(State()).(cookieState := c.state, bodyState := b.state, indexIn := b.index);
                && net.View() == s.reader && cookie[..] == c.value && reading == Reading(w)
                && (reading ==> && State() == st && ring.entries == old(ring.entries)
                                && net.clientBusy == old(net.clientBusy))
                && (!reading ==> && State() == Settled(st.(sending := false), Verdict(s.reader))
                                 && ring.entries == RingSettled(old(ring.entries), st, Verdict(s.reader))
                                 && !net.clientBusy)
    {
      if !sending {
        return false;
      }
      ghost var st0, v0, c0, b0 := State(), net.View(), CookieView(), BodyView();
      reading := Gather(w);
      if reading {
        return;
      }
      ghost var s := Drained(v0, w);
      ghost var c, b := Run(CookieStep, c0, s.headers), Run(BodyStep, b0, s.body);
      ghost var st := st0.(cookieState := c.state, bodyState := b.state, indexIn := b.index);
      assert State() == st;
      Conclude();
      assert State() == Settled(st.(sending := false), Verdict(s.reader));
    }

    /** The reading half of `readResponse`: while the socket is there and
        the time is not up, what it offers goes through `parseChar` and on
        to the parsers; the exchange goes on while the peer stays
        connected. */
    method Gather(w: Wire) returns (reading: bool)
      requires Valid()
      modifies net`responsePart, net`responseSize, net.response, this`cookieState, cookie
      modifies this`bodyState, this`indexIn
      ensures Valid() && reading == Reading(w)
      ensures var s := Drained(old(net.View()), w);
              var c := Run(CookieStep, old(CookieView()), s.headers);
              var b := Run(BodyStep, old(BodyView()), s.body);
              && net.View() == s.reader && cookie[..] == c.value
              && State() == old(State()).(cookieState := c.state, bodyState := b.state, indexIn := b.index)
    {
      reading := false;
      if w.connected && !w.timedOut {
        Drain(w.incoming);
        reading := w.stillConnected;
      }
    }

    /** The end of an exchange in `readResponse`: the socket is released and
        the verdict on the status line goes to `doneSend`. */
    method Conclude()
      requires Valid() && ring.Valid()
      modifies this`sending, net.response, net`clientBusy, this`newSession, this`indexOut, this`wait
      modifies this`period, this`indexIn, ring
      ensures Valid() && ring.Valid() && ring.draft == old(ring.draft) && cookie[..] == old(cookie[..])
      ensures State() == Settled(old(State()).(sending := false), Verdict(old(net.View())))
      ensures ring.entries == RingSettled(old(ring.entries), old(State()), Verdict(old(net.View())))
      ensures net.View() == old(net.View()) && !net.clientBusy
    {
      sending := false;
      var ok := net.Finish();
      DoneSend(ok);
      net.clientBusy := false;
    }

    /** Past the socket test of `check`: in a forced wait nothing happens
        before the period runs out.  Otherwise the ring is encoded into the
        packet, and unless there is nothing to send, no inbound index to
        confirm and no poll due, the batch goes out. */
    method Poll(periodDue: bool, connects: bool, now: uint32, fmt: Formatter) returns (req: Option<Http>)
      requires Valid() && ring.Valid()
      modifies ring, net.packet, this`newSession, this`indexOut, this`wait, this`period, this`timeout
      modifies this`sending, this`cookieState, this`bodyState, net`responsePart, net`responseSize
      modifies net`clientBusy, this`indexIn
      ensures Valid() && ring.Valid()
      ensures ring.entries == old(ring.entries) && ring.draft == old(ring.draft)
      ensures var b := MsgRing.EncodeFrom(old(ring.entries), 0, 0, MAX_PACKET, MsgRing.Writer(now, fmt), 0);
              var quiet := (old(wait) && !periodDue) || (b.text == [] && indexIn == 0 && !periodDue);
              && (quiet ==> && req == None && State() == old(State()) && net.View() == old(net.View())
                            && net.clientBusy == old(net.clientBusy))
              && (old(wait) && !periodDue ==> net.packet[..] == old(net.packet[..]))
              && (!quiet ==> Delivered(b.text, b.index, connects, req, old(State()), old(net.View()),
                                       old(net.clientBusy)))
    {
      req := None;
      if wait && !periodDue {
        return;
      }
      var n, idx, text := Encode(now, fmt);
      assert ring.buf != net.packet;
      label Sending:
      req := Batch(n, idx, periodDue, connects, text);
      assert unchanged@Sending(ring, ring.buf);
    }

    /** The encoded batch goes out unless it is empty, there is no inbound
        index to confirm and no poll is due. */
    method Batch(size: int, index: int, periodDue: bool, connects: bool, ghost text: seq<byte>)
      returns (req: Option<Http>)
      requires Valid() && size == |text| < MAX_PACKET && net.packet[..size + 1] == text + [NUL]
      modifies net.packet, this`newSession, this`indexOut, this`wait, this`period, this`timeout
      modifies this`sending, this`cookieState, this`bodyState, net`responsePart, net`responseSize
      modifies net`clientBusy, this`indexIn
      ensures Valid()
      ensures var quiet := text == [] && old(indexIn) == 0 && !periodDue;
              && (quiet ==> && req == None && State() == old(State()) && net.View() == old(net.View())
                            && net.clientBusy == old(net.clientBusy))
              && (!quiet ==> Delivered(text, index, connects, req, old(State()), old(net.View()),
                                       old(net.clientBusy)))
    {
      req := None;
      if size == 0 && indexIn == 0 && !periodDue {
        return;
      }
      req := Deliver(size, index, connects, text);
    }

    /** The ring encoded into the packet, as `check` starts a batch. */
    method Encode(now: uint32, fmt: Formatter) returns (n: int, idx: int, ghost text: seq<byte>)
      requires Valid() && ring.Valid()
      modifies ring, net.packet
      ensures Valid() && ring.Valid()
      ensures ring.entries == old(ring.entries) && ring.draft == old(ring.draft)
      ensures var b := MsgRing.EncodeFrom(ring.entries, 0, 0, MAX_PACKET, MsgRing.Writer(now, fmt), 0);
              && text == b.text && n == |text| < MAX_PACKET && idx == b.index
              && net.packet[..n + 1] == text + [NUL]
    {
      ghost var es := ring.entries;
      var s;
      s, n, idx := ring.EncodeMessages(MAX_PACKET, now, fmt, 0);
      ghost var b := MsgRing.EncodeFrom(es, 0, 0, MAX_PACKET, MsgRing.Writer(now, fmt), 0);
      MsgRing.EncodeFits(es, 0, 0, MAX_PACKET, MsgRing.Writer(now, fmt), 0);
      net.Put(0, s);
      text := b.text;
    }

    /** What the delivery of the encoded batch `text`, ending with ring
        index `index`, leaves, from the fields `st0`, the splitter `view0`
        and the socket flag `busy0` before it. */
    ghost predicate Delivered(text: seq<byte>, index: int, connects: bool, req: Option<Http>, st0: Session,
                              view0: Reader, busy0: bool)
      requires net.Valid()
      reads net`responsePart, net`responseSize, net.response, net.packet, net`clientBusy
      reads cookie, this`cookieState, this`newSession, this`indexOut, this`wait, this`period
      reads this`timeout, this`sending, this`bodyState, this`indexIn
    {
      var ns := st0.newSession || (text != [] && index < st0.indexOut);
      var st := st0.(newSession := ns, indexOut := if ns then st0.indexOut else index);
      && (ns ==> CStr(net.packet[..]) == [])
      && (!ns ==> |text| < net.packet.Length && net.packet[..|text| + 1] == text + [NUL])
      && (connects ==>
            && req == Some(Http(POST, url, UrlParams(st.indexIn, ns), host, auth, CookieHeader(newSession, cookie[..]),
                              (if ns then 0 else |text| % 256) as byte, net.packet[..]))
            && State() == Opened(st) && net.View() == START.reader && net.clientBusy)
      && (!connects ==>
            && req == None && State() == Settled(st, false) && net.View() == view0 && net.clientBusy == busy0)
    }

    /** The rest of `check`: a batch that ends below the index the last one
        ended with means the ring started over, which forces a new session;
        a new session is asked for with an empty body, and otherwise the
        batch's index is remembered.  A failed connection is a failed
        exchange. */
    method Deliver(size: int, index: int, connects: bool, ghost text: seq<byte>) returns (req: Option<Http>)
      requires Valid() && size == |text| < MAX_PACKET && net.packet[..size + 1] == text + [NUL]
      modifies net.packet, this`newSession, this`indexOut, this`wait, this`period, this`timeout
      modifies this`sending, this`cookieState, this`bodyState, net`responsePart, net`responseSize
      modifies net`clientBusy, this`indexIn
      ensures Valid()
      ensures Delivered(text, index, connects, req, old(State()), old(net.View()), old(net.clientBusy))
    {
      var sz := Stage(size, index, text);
      var ok;
      ok, req := SendPacket((sz % 256) as byte, connects);
      if !ok {
        // doneSend(false), which leaves the ring as it is
        Settle(false);
      }
    }

    /** The session decision of `check`: a batch ending below the last
        index forces a new session, whose request carries an empty body;
        otherwise the batch's index is remembered. */
    method Stage(size: int, index: int, ghost text: seq<byte>) returns (sz: int)
      requires Valid() && size == |text| < MAX_PACKET && net.packet[..size + 1] == text + [NUL]
      modifies net.packet, this`newSession, this`indexOut
      ensures Valid()
      ensures var ns := old(newSession) || (text != [] && index < old(indexOut));
              && State() == old(State()).(newSession := ns, indexOut := if ns then old(indexOut) else index)
              && sz == (if ns then 0 else size)
              && (ns ==> CStr(net.packet[..]) == [])
              && (!ns ==> net.packet[..] == old(net.packet[..]))
    {
      if size > 0 && index < indexOut {
        newSession := true;
      }
      sz := size;
      if newSession {
        sz := 0;
        net.packet[0] := NUL;
        assert net.packet[..][0] == NUL;
      } else {
        indexOut := index;
      }
    }

    /** `check`, one tick of the destination: read the answer of an
        exchange in flight; otherwise, unless another destination holds the
        socket, poll.  Returns the request sent, if any. */
    method Check(w: Wire, periodDue: bool, connects: bool, now: uint32, fmt: Formatter)
      returns (req: Option<Http>)
      requires Valid() && ring.Valid()
      modifies this`sending, net`responsePart, net`responseSize, net.response, this`cookieState, cookie
      modifies this`bodyState, this`indexIn, net`clientBusy, this`newSession, this`indexOut, this`wait
      modifies this`period, this`timeout, ring, net.packet
      ensures Valid() && ring.Valid()
      ensures old(sending) && Reading(w) ==> req == None && sending
      ensures !old(sending) && old(net.clientBusy) ==> req == None && ring.entries == old(ring.entries)
      ensures req.Some? ==> sending && net.clientBusy && net.View() == START.reader
    {
      var reading := ReadResponse(w);
      if reading || net.clientBusy {
        return None;
      }
      req := Poll(periodDue, connects, now, fmt);
    }
  }
}
