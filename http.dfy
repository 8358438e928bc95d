/** The firmware's administrative web server (HttpServer.cpp): it collects
    one request line per connection, accepts only `GET <path> ...`, and
    hands the path to the newest registered route with exactly that path.
    The socket is an input: whether a client is waiting, the bytes it has
    sent by this tick and whether the request timer has run out. */
module HttpServer {
  import opened Bytes

  /** `MAX_REQ`: the longest request line kept. */
  const MAX_REQ: int := 256

  const GET: seq<byte> := Ascii("GET ")
  const BAD_REQUEST: seq<byte> := Ascii("Bad request")
  const UNSUPPORTED: seq<byte> := Ascii("Unsupported method")
  const INVALID: seq<byte> := Ascii("Invalid request")
  const TOO_BIG: seq<byte> := Ascii("Request is too big")
  const TIMED_OUT: seq<byte> := Ascii("Request timeout")
  const NOT_FOUND: seq<byte> := Ascii("Not found")
  const NOT_FOUND_TEXT: seq<byte> := Ascii("Requested path not found: ")
  const CRLF: seq<byte> := [CR, LF]

  // ---------------------------------------------------------------------
  // Routes and replies
  // ---------------------------------------------------------------------

  /** A registered route: the path it answers and its handler, named by a
      number since the handler is code the model does not see. */
  datatype Route = Route(path: seq<byte>, handler: nat)

  /** What the server answers: status code and reason, the text after the
      headers, and the handler it runs, if any. */
  datatype Reply = Reply(code: nat, reason: seq<byte>, text: seq<byte>, handler: Option<nat>)

  /** `badRequest(msg)`. */
  function BadRequest(msg: seq<byte>): Reply {
    Reply(400, BAD_REQUEST, msg + CRLF, None)
  }

  /** `Route::handle` on a match: 200 and the handler. */
  function Found(h: nat): Reply {
    Reply(200, Ascii("OK"), [], Some(h))
  }

  /** No route matched: 404, echoing the path. */
  function NotFound(path: seq<byte>): Reply {
    Reply(404, NOT_FOUND, NOT_FOUND_TEXT + path + CRLF, None)
  }

  /** The bytes `httpResponse` and the message after it write: the status
      line, the two fixed headers (the second spelt `Connnection`, as in
      the firmware), an empty line and the text. */
  function Render(r: Reply): seq<byte> {
    Ascii("HTTP/1.1 ") + Decimal(r.code) + [SPACE] + r.reason + CRLF
    + Ascii("Content-Type: text/html") + CRLF
    + Ascii("Connnection: close") + CRLF
    + CRLF
    + r.text
  }

  /** A reply starts with its status line and ends with its text. */
  lemma RenderShape(r: Reply)
    ensures var b := Render(r);
            var line := Ascii("HTTP/1.1 ") + Decimal(r.code) + [SPACE] + r.reason + CRLF;
            && |line| <= |b| && b[..|line|] == line
            && |r.text| <= |b| && b[|b| - |r.text|..] == r.text
  {
    var line := Ascii("HTTP/1.1 ") + Decimal(r.code) + [SPACE] + r.reason + CRLF;
    var rest := Ascii("Content-Type: text/html") + CRLF + Ascii("Connnection: close") + CRLF + CRLF;
    assert Render(r) == line + rest + r.text;
  }

  // ---------------------------------------------------------------------
  // Parsing the request line
  // ---------------------------------------------------------------------

  /** The first position of `b` in `s`, as `strchr` finds it. */
  function FirstOf(s: seq<byte>, b: byte): (r: Option<nat>)
    ensures r.Some? ==> r.value < |s| && s[r.value] == b && b !in s[..r.value]
    ensures r.None? <==> b !in s
  {
    if s == [] then None
    else if s[0] == b then Some(0)
    else
      match FirstOf(s[1..], b)
      case None => None
      case Some(j) =>
        assert s[..j + 1] == [s[0]] + s[1..][..j];
        Some(j + 1)
  }

  /** The first route, newest first, whose path equals `path` as `strcmp`
      compares them. */
  function Find(routes: seq<Route>, path: seq<byte>): (r: Option<nat>)
    ensures r.Some? ==> && r.value < |routes| && CStr(routes[r.value].path) == path
                        && forall j :: 0 <= j < r.value ==> CStr(routes[j].path) != path
    ensures r.None? ==> forall j :: 0 <= j < |routes| ==> CStr(routes[j].path) != path
  {
    if routes == [] then None
    else if CStr(routes[0].path) == path then Some(0)
    else
      match Find(routes[1..], path)
      case None => None
      case Some(k) => Some(k + 1)
  }

  /** The path of a request line: what follows `GET ` up to the first
      space; none without the prefix or the space. */
  function ParsedPath(line: seq<byte>): Option<seq<byte>> {
    if !(GET <= line) then None
    else
      match FirstOf(line[4..], SPACE)
      case None => None
      case Some(j) => Some(line[4..4 + j])
  }

  /** The route lookup of `httpParse`. */
  function Dispatch(routes: seq<Route>, path: seq<byte>): Reply {
    match Find(routes, path)
    case Some(k) => Found(routes[k].handler)
    case None => NotFound(path)
  }

  /** `httpParse` on the request line `line` (the text before its NUL). */
  function ParseLine(line: seq<byte>, routes: seq<Route>): Reply {
    if !(GET <= line) then BadRequest(UNSUPPORTED)
    else
      match ParsedPath(line)
      case None => BadRequest(INVALID)
      case Some(p) => Dispatch(routes, p)
  }

  /** The path is the first word after `GET `: a space-free word followed
      by a space. */
  lemma PathShape(line: seq<byte>)
    requires ParsedPath(line).Some?
    ensures var p := ParsedPath(line).value;
            GET + p + [SPACE] <= line && SPACE !in p
  {
    var j := FirstOf(line[4..], SPACE).value;
    var p := line[4..4 + j];
    assert line[4..][..j] == p;
    assert (GET + p + [SPACE]) == line[..4 + j + 1];
  }

  /** Conversely, `GET `, a space-free path and a space give that path back,
      whatever follows. */
  lemma PathRoundTrip(p: seq<byte>, rest: seq<byte>)
    requires SPACE !in p
    ensures ParsedPath(GET + p + [SPACE] + rest) == Some(p)
  {
    var line := GET + p + [SPACE] + rest;
    assert line[..4] == GET;
    assert line[4..] == p + [SPACE] + rest;
    FirstOfAfter(p, rest);
    assert line[4..4 + |p|] == p;
  }

  lemma FirstOfAfter(p: seq<byte>, rest: seq<byte>)
    requires SPACE !in p
    ensures FirstOf(p + [SPACE] + rest, SPACE) == Some(|p|)
  {
    var s := p + [SPACE] + rest;
    assert s[..|p|] == p;
    assert s[|p|] == SPACE;
    var j := FirstOf(s, SPACE).value;
    assert j >= |p| by {
      assert forall k :: 0 <= k < |p| ==> s[k] == p[k];
    }
    assert j <= |p| by {
      assert forall k :: 0 <= k < j ==> s[..j][k] == s[k];
    }
  }

  /** Only a line that does not start with `GET ` gets "Unsupported
      method", and exactly the lines without a path get a 400. */
  lemma ParseErrors(line: seq<byte>, routes: seq<Route>)
    ensures ParseLine(line, routes) == BadRequest(UNSUPPORTED) <==> !(GET <= line)
    ensures ParseLine(line, routes).code == 400 <==> ParsedPath(line).None?
  {
    if GET <= line && ParsedPath(line).None? {
      assert |BadRequest(INVALID).text| != |BadRequest(UNSUPPORTED).text|;
    }
  }

  /** `httpServerRoute`: a route registered last is consulted first, so it
      answers its path whatever older routes say. */
  lemma NewestWins(routes: seq<Route>, r: Route, path: seq<byte>)
    requires CStr(r.path) == path
    ensures Dispatch([r] + routes, path) == Found(r.handler)
  {
  }

  /** A route for another path leaves the answer to older routes. */
  lemma OtherRouteTransparent(routes: seq<Route>, r: Route, path: seq<byte>)
    requires CStr(r.path) != path
    ensures Dispatch([r] + routes, path) == Dispatch(routes, path)
  {
    assert ([r] + routes)[1..] == routes;
  }

  /** A 404 exactly when no route answers the path, and otherwise the
      handler of the newest route that does. */
  lemma {:induction false} DispatchCases(routes: seq<Route>, path: seq<byte>)
    ensures Dispatch(routes, path) == NotFound(path)
            <==> forall j :: 0 <= j < |routes| ==> CStr(routes[j].path) != path
    ensures Dispatch(routes, path).handler.Some? ==>
              exists k :: && 0 <= k < |routes| && CStr(routes[k].path) == path
                          && Dispatch(routes, path).handler == Some(routes[k].handler)
                          && forall j :: 0 <= j < k ==> CStr(routes[j].path) != path
  {
    match Find(routes, path)
    case None =>
    case Some(k) =>
      assert Found(routes[k].handler).code != NotFound(path).code;
  }

  // ---------------------------------------------------------------------
  // Collecting the request line
  // ---------------------------------------------------------------------

  /** Where the bytes of one tick leave the request line: completed by a
      CR, rejected for length, or still open with the line so far. */
  datatype Scanned = Line(line: seq<byte>) | TooBig | Pending(line: seq<byte>)

  /** The reading loop of `httpServerCheck` on `input`, with `line`
      collected already: a CR ends the line, a byte beyond `MAX_REQ`
      rejects it, any other byte is stored. */
  function Scan(line: seq<byte>, input: seq<byte>): Scanned
    decreases |input|
  {
    if input == [] then Pending(line)
    else if input[0] == CR then Line(line)
    else if |line| >= MAX_REQ then TooBig
    else Scan(line + [input[0]], input[1..])
  }

  /** The same outcome read off the input as a whole: with `j` bytes before
      its first CR, the line is complete if it fits in `MAX_REQ` bytes and
      too big otherwise; without a CR it stays open while it fits. */
  lemma {:induction false} ScanSpec(line: seq<byte>, input: seq<byte>)
    requires |line| <= MAX_REQ
    ensures match FirstOf(input, CR)
            case Some(j) =>
              Scan(line, input) == if |line| + j <= MAX_REQ then Line(line + input[..j]) else TooBig
            case None =>
              Scan(line, input) == if |line| + |input| <= MAX_REQ then Pending(line + input) else TooBig
    decreases |input|
  {
    if input != [] && input[0] != CR && |line| < MAX_REQ {
      var c, rest := input[0], input[1..];
      ScanSpec(line + [c], rest);
      assert line + [c] + rest == line + input;
      match FirstOf(rest, CR)
      case None =>
      case Some(j) =>
        assert input[..j + 1] == [c] + rest[..j];
        assert line + [c] + rest[..j] == line + input[..j + 1];
    } else if input != [] && input[0] != CR {
      assert input[0] != CR;
      match FirstOf(input, CR)
      case None =>
      case Some(j) =>
        assert j > 0;
    } else if input == [] {
      assert line + input == line;
    } else {
      assert input[..0] == [];
      assert line + input[..0] == line;
    }
  }

  /** A request line of at most MAX_REQ bytes, free of NUL and CR, that
      reads `GET <path> ...` and is ended by a CR is served by the route
      lookup for that path, whatever follows the CR. */
  lemma RequestServed(p: seq<byte>, rest: seq<byte>, more: seq<byte>, routes: seq<Route>)
    requires SPACE !in p && NUL !in p + rest && CR !in p + rest
    requires |GET + p + [SPACE] + rest| <= MAX_REQ
    ensures var line := GET + p + [SPACE] + rest;
            && Scan([], line + [CR] + more) == Line(line)
            && ParseLine(CStr(line), routes) == Dispatch(routes, p)
  {
    var line := GET + p + [SPACE] + rest;
    var input := line + [CR] + more;
    assert line == GET + (p + rest)[..|p|] + [SPACE] + (p + rest)[|p|..];
    assert forall k :: 0 <= k < |line| ==> line[k] != NUL && line[k] != CR by {
      forall k | 0 <= k < |line| ensures line[k] != NUL && line[k] != CR {
        if k < 4 {
          assert line[k] == GET[k];
        } else if k < 4 + |p| {
          assert line[k] == (p + rest)[k - 4];
        } else if k > 4 + |p| {
          assert line[k] == (p + rest)[k - 5];
        }
      }
    }
    assert input[..|line|] == line && input[|line|] == CR;
    assert FirstOf(input, CR) == Some(|line|) by {
      var j := FirstOf(input, CR).value;
      assert j <= |line|;
      assert j >= |line| by {
        assert forall k :: 0 <= k < |line| ==> input[k] == line[k];
      }
    }
    ScanSpec([], input);
    assert [] + input[..|line|] == line;
    CStrNoNul(line);
    PathRoundTrip(p, rest);
  }

  // ---------------------------------------------------------------------
  // The server
  // ---------------------------------------------------------------------

  /** The server's globals: the request buffer `http_req`, its fill
      `http_req_n`, whether `httpConn` holds a client, and the route list
      `last_route` as a sequence, newest first. */
  class Server {
    const buf: array<byte>
    var n: int
    var open: bool
    var routes: seq<Route>

    ghost predicate Valid()
      reads this`n
    {
      buf.Length == MAX_REQ + 1 && 0 <= n <= MAX_REQ
    }

    /** The globals start out zero: no client and no routes. */
    constructor ()
      ensures Valid() && !open && routes == [] && n == 0
    {
      buf := new byte[MAX_REQ + 1](i => NUL);
      n, open, routes := 0, false, [];
    }

    /** `httpServerRoute`: the new route goes in front of the list. */
    method AddRoute(path: seq<byte>, handler: nat)
      modifies this`routes
      ensures routes == [Route(path, handler)] + old(routes)
    {
      routes := [Route(path, handler)] + routes;
    }

    /** `httpParse` on the NUL-terminated buffer: the reply for its line;
        with a path, the space after it is overwritten by a NUL, leaving
        `GET <path>` as the buffer's string. */
    method Parse() returns (r: Reply)
      requires Valid()
      modifies buf
      ensures r == ParseLine(CStr(old(buf[..])), routes)
      ensures match ParsedPath(CStr(old(buf[..])))
              case Some(p) => CStr(buf[..]) == GET + p
              case None => buf[..] == old(buf[..])
    {
      var line := CStr(buf[..]);
      if !(GET <= line) {
        return BadRequest(UNSUPPORTED);
      }
      var sp := FirstOf(line[4..], SPACE);
      if sp.None? {
        return BadRequest(INVALID);
      }
      var j := sp.value;
      var path := line[4..4 + j];
      ghost var old0 := buf[..];
      buf[4 + j] := NUL;
      CutAtSpace(old0, buf[..], line, j);
      r := Dispatch(routes, path);
    }

    /** `httpConnDone`: the client is let go. */
    method ConnDone()
      modifies this`open
      ensures !open
    {
      open := false;
    }

    /** `httpServerCheck`, one tick: take a waiting client if there is none
        (`accepts`), read what it has sent and act on the line; a timer
        that has run out (`timedOut`) ends an unfinished request. */
    method Check(accepts: bool, input: seq<byte>, timedOut: bool) returns (reply: Option<Reply>)
      requires Valid()
      modifies this`n, this`open, buf
      ensures Valid() && routes == old(routes)
      ensures !old(open) && !accepts ==> reply == None && !open && n == old(n) && buf[..] == old(buf[..])
      ensures old(open) || accepts ==>
                var s := Scan(if old(open) then old(buf[..n]) else [], input);
                match s
                case Line(l) => reply == Some(ParseLine(CStr(l), old(routes))) && !open
                case TooBig => reply == Some(BadRequest(TOO_BIG)) && !open
                case Pending(l) =>
                  && buf[..n] == l
                  && (timedOut ==> reply == Some(BadRequest(TIMED_OUT)) && !open)
                  && (!timedOut ==> reply == None && open)
    {
      if !open {
        if !accepts {
          return None;
        }
        open := true;
        n := 0;
      }
      ghost var target := Scan(buf[..n], input);
      var i := 0;
      while i < |input|
        invariant 0 <= i <= |input| && 0 <= n <= MAX_REQ && open
        invariant Scan(buf[..n], input[i..]) == target
      {
        var c := input[i];
        if c == CR {
          buf[n] := NUL;
          assert buf[..n + 1][n] == NUL;
          reply := Parsed(target);
          return;
        }
        if n >= MAX_REQ {
          reply := Some(BadRequest(TOO_BIG));
          ConnDone();
          return;
        }
        Store(c, input[i + 1..], target);
        assert input[i..][1..] == input[i + 1..];
        i := i + 1;
      }
      assert input[i..] == [];
      reply := None;
      if timedOut {
        reply := Some(BadRequest(TIMED_OUT));
        ConnDone();
      }
    }

    /** One byte of the line stored: `http_req[http_req_n++] = c`. */
    method Store(c: byte, ghost rest: seq<byte>, ghost target: Scanned)
      requires Valid() && n < MAX_REQ && c != CR && Scan(buf[..n], [c] + rest) == target
      modifies this`n, buf
      ensures Valid() && n == old(n) + 1 && buf[..n] == old(buf[..n]) + [c]
      ensures Scan(buf[..n], rest) == target
    {
      assert ([c] + rest)[1..] == rest;
      ghost var l := buf[..n];
      buf[n] := c;
      assert buf[..n] == l;
      n := n + 1;
      assert buf[..n] == l + [c];
    }

    /** The line is complete: it is parsed from the buffer, NUL-terminated
        at `n`, and the client is let go. */
    method Parsed(ghost target: Scanned) returns (reply: Option<Reply>)
      requires Valid() && n < buf.Length && buf[n] == NUL && target == Line(buf[..n])
      modifies buf, this`open
      ensures reply == Some(ParseLine(CStr(target.line), routes)) && !open
    {
      CStrCut(buf[..], n);
      assert buf[..][..n] == buf[..n];
      var r := Parse();
      reply := Some(r);
      ConnDone();
    }
  }

  /** Overwriting the space after the path with a NUL leaves `GET <path>`
      as the buffer's string. */
  lemma CutAtSpace(before: seq<byte>, after: seq<byte>, line: seq<byte>, j: nat)
    requires line == CStr(before) && GET <= line && 4 + j < |line| && SPACE !in line[4..][..j]
    requires line[4 + j] == SPACE
    requires |after| == |before| && after == before[4 + j := NUL]
    ensures CStr(after) == GET + line[4..4 + j]
  {
    var t := line[..4 + j];
    assert before[..|line|] == line;
    assert after[..4 + j] == t;
    assert line[..4] == GET;
    assert t == GET + line[4..4 + j];
    assert NUL !in t;
    CStrOf(after, t);
  }
}
