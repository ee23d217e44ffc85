/**
 Serving one connection without TLS: `serveConn`, `prepareConn` and
 `shouldSilentlyClose` in internal/server/server.go.
 */
module Connection {
  import opened ByteStrings
  import opened Requests
  import opened Reader
  import opened Proxy
  import opened Response
  import Sanitize

  const PROXY_LINE_LIMIT := 108

  datatype ServerConfig = ServerConfig(
    proxyProtocol: bool,
    trustedProxies: seq<Addr>,
    maxRequest: nat,
    extendFinger: bool,
    response: Settings)

  /** What the outside world contributes, besides the bytes. */
  datatype World = World(headerDeadlineSet: bool, readDeadlineSet: bool, library: HeaderLibrary, site: Site)

  datatype Verdict = Refused | Answered(outcome: Outcome)

  /** A line of the access log. */
  datatype Access = Access(client: Addr, peer: Addr, request: Bytes, verdict: Verdict)

  class Conn {
    const reader: ByteReader
    const peer: Addr
    var written: seq<Bytes>
    var accesses: seq<Access>
    var closed: bool

    constructor (reader: ByteReader, peer: Addr)
      ensures this.reader == reader && this.peer == peer && written == [] && accesses == [] && !closed
    {
      this.reader, this.peer := reader, peer;
      written, accesses, closed := [], [], false;
    }

    method WriteAndLog(client: Addr, request: Bytes, verdict: Verdict, body: Bytes)
      modifies this
      ensures written == old(written) + [body]
      ensures accesses == old(accesses) + [Access(client, peer, request, verdict)]
      ensures closed == old(closed)
    {
      written := written + [body];
      accesses := accesses + [Access(client, peer, request, verdict)];
    }
  }

  predicate ShouldSilentlyClose(error: Option<ReadError>, complete: bool) {
    match error
    case None => false
    case Some(e) =>
      if e == Ended(Eof) && !complete then true
      else e == Ended(Timeout)
  }

  // ----- Specification -----

  datatype Served = Silent | Sent(body: Bytes, access: Access)

  /** The client a connection speaks for, and the bytes of its PROXY header; `None` ends the connection. */
  function Prepared(rest: Bytes, end: End, peer: Addr, config: ServerConfig, world: World): Option<(Addr, nat)> {
    if !(config.proxyProtocol && peer in config.trustedProxies) then Some((peer, 0))
    else if !world.headerDeadlineSet then None
    else
      var (read, taken) := LineAt(rest, end, PROXY_LINE_LIMIT);
      if read.error.Some? then None
      else
        match ParseProxyLine(read.line, world.library)
        case None => None
        case Some(client) => Some((client, taken))
  }

  function Refusal(client: Addr, peer: Addr, request: Bytes): Served {
    Sent(INVALID_REQUEST_BODY, Access(client, peer, request, Refused))
  }

  /** What reading the request comes to: no reply, a refusal, or a complete line. */
  datatype Reading = Ignored | Unreadable | Line(line: Bytes)

  function ReadRequest(rest: Bytes, end: End, max: nat): Reading {
    var (read, taken) := LineAt(rest, end, max);
    match read.error
    case None => Line(read.line)
    case Some(LineTooLong) =>
      var (complete, error, _) := DiscardAt(rest[if taken <= |rest| then taken else |rest|..], end);
      if ShouldSilentlyClose(error, complete) then Ignored else Unreadable
    case Some(Ended(e)) => if e == Broken then Unreadable else Ignored
  }

  /** The reply to a complete request line. */
  function Answer(line: Bytes, client: Addr, peer: Addr, listener: Endpoint, config: ServerConfig, site: Site): Served {
    match ParseRequest(line, listener.protocol, config.extendFinger)
    case Err(_) => Refusal(client, peer, TrimLineEnding(line))
    case Ok(request) =>
      var (body, outcome) := BuildValidResponse(request, listener, config.response, site);
      Sent(body, Access(client, peer, request.canonical, Answered(outcome)))
  }

  function Reply(rest: Bytes, end: End, client: Addr, peer: Addr, listener: Endpoint, config: ServerConfig, site: Site)
    : Served
  {
    match ReadRequest(rest, end, config.maxRequest)
    case Ignored => Silent
    case Unreadable => Refusal(client, peer, [])
    case Line(line) => Answer(line, client, peer, listener, config, site)
  }

  function Serve(rest: Bytes, end: End, peer: Addr, listener: Endpoint, config: ServerConfig, world: World): Served {
    match Prepared(rest, end, peer, config, world)
    case None => Silent
    case Some((client, taken)) =>
      if !world.readDeadlineSet then Silent
      else Reply(rest[if taken <= |rest| then taken else |rest|..], end, client, peer, listener, config, world.site)
  }

  // ----- The program -----

  method PrepareConn(conn: Conn, config: ServerConfig, world: World) returns (client: Option<Addr>)
    requires conn.reader.Valid()
    modifies conn.reader
    ensures conn.reader.Valid()
    ensures var prepared := Prepared(old(conn.reader.Rest()), conn.reader.end, conn.peer, config, world);
            match prepared
            case None => client == None
            case Some((c, taken)) => client == Some(c) && conn.reader.pos == old(conn.reader.pos) + taken
  {
    if config.proxyProtocol && conn.peer in config.trustedProxies {
      if !world.headerDeadlineSet {
        return None;
      }
      var read := conn.reader.ReadLine(PROXY_LINE_LIMIT);
      if ShouldSilentlyClose(read.error, read.complete) {
        return None;
      }
      if read.error.Some? {
        return None;
      }
      return ParseProxyLine(read.line, world.library);
    }
    return Some(conn.peer);
  }

  /** Every run writes nothing or exactly one body. */
  method ServeConn(conn: Conn, listener: Endpoint, config: ServerConfig, world: World)
    requires conn.reader.Valid()
    modifies conn, conn.reader
    ensures conn.reader.Valid() && conn.closed
    ensures Recorded(Serve(old(conn.reader.Rest()), conn.reader.end, conn.peer, listener, config, world),
                     old(conn.written), old(conn.accesses), conn.written, conn.accesses)
  {
    hide ParseProxyLine, Reply;
    var prepared := PrepareConn(conn, config, world);
    if prepared.Some? && world.readDeadlineSet {
      ServeRequest(conn, prepared.value, listener, config, world.site);
    }
    conn.closed := true;
  }

  /** The writes and log lines of one served connection. */
  predicate Recorded(served: Served, written: seq<Bytes>, accesses: seq<Access>,
                     written': seq<Bytes>, accesses': seq<Access>)
  {
    match served
    case Silent => written' == written && accesses' == accesses
    case Sent(body, access) => written' == written + [body] && accesses' == accesses + [access]
  }

  method ServeRequest(conn: Conn, client: Addr, listener: Endpoint, config: ServerConfig, site: Site)
    requires conn.reader.Valid()
    modifies conn, conn.reader
    ensures conn.reader.Valid()
    ensures Recorded(Reply(old(conn.reader.Rest()), conn.reader.end, client, conn.peer, listener, config, site),
                     old(conn.written), old(conn.accesses), conn.written, conn.accesses)
  {
    var reading := ReadRequestLine(conn.reader, config.maxRequest);
    match reading {
      case Ignored =>
      case Unreadable =>
        conn.WriteAndLog(client, [], Refused, INVALID_REQUEST_BODY);
      case Line(line) =>
        var parsed := ParseRequest(line, listener.protocol, config.extendFinger);
        if parsed.Err? {
          conn.WriteAndLog(client, TrimLineEnding(line), Refused, INVALID_REQUEST_BODY);
        } else {
          var (body, outcome) := BuildValidResponse(parsed.value, listener, config.response, site);
          conn.WriteAndLog(client, parsed.value.canonical, Answered(outcome), body);
        }
    }
  }

  /** The reading half of `serveConn`. */
  method ReadRequestLine(reader: ByteReader, max: nat) returns (reading: Reading)
    requires reader.Valid()
    modifies reader
    ensures reader.Valid()
    ensures reading == ReadRequest(old(reader.Rest()), reader.end, max)
  {
    hide IndexOf, DiscardAt;
    ghost var rest := reader.Rest();
    ghost var taken := LineAt(rest, reader.end, max).1;
    ReadThenDiscard(rest, reader.end, max);
    var read := reader.ReadLine(max);
    if read.error == Some(LineTooLong) {
      assert reader.Rest() == rest[taken..];
      var complete, error := reader.DiscardLine();
      if ShouldSilentlyClose(error, complete) {
        return Ignored;
      }
      return Unreadable;
    }
    if ShouldSilentlyClose(read.error, read.complete) {
      return Ignored;
    }
    if read.error.Some? {
      return Unreadable;
    }
    return Line(read.line);
  }

  // ----- Main results -----

  /**
   The reply to a direct connection, by the position `p` of the first newline
   and the way the bytes end.  A newline at `maxRequest + 2` does not count:
   it is lost as the byte that overflows.
   */
  lemma ServedExactly(rest: Bytes, end: End, peer: Addr, listener: Endpoint, config: ServerConfig, world: World)
    requires !(config.proxyProtocol && peer in config.trustedProxies) && world.readDeadlineSet
    ensures var p := IndexOf(rest, LF);
            var unfinished := p == |rest| || (p == config.maxRequest + 2 && LF !in rest[p + 1..]);
            Serve(rest, end, peer, listener, config, world)
            == if p < |rest| && p <= config.maxRequest + 1
                 then Answer(rest[..p + 1], peer, peer, listener, config, world.site)
               else if unfinished && end != Broken then Silent
               else Refusal(peer, peer, [])
  {
    hide Answer;
    assert rest[0..] == rest;
    ReadExactly(rest, end, config.maxRequest);
  }

  /** The text that refuses a request. */
  const REFUSAL: Bytes := Ascii("Error: Invalid Request") + [13, 10]

  /**
   The same with the answers written out: an accepted line gets the response to
   its request and is logged in canonical form with the outcome; any other line
   gets the refusal and is logged without its line end; an unreadable one gets
   the refusal and is logged as empty.
   */
  lemma DirectLiterally(rest: Bytes, end: End, peer: Addr, listener: Endpoint, config: ServerConfig, world: World)
    requires !(config.proxyProtocol && peer in config.trustedProxies) && world.readDeadlineSet
    ensures var p := IndexOf(rest, LF);
            var unfinished := p == |rest| || (p == config.maxRequest + 2 && LF !in rest[p + 1..]);
            var served := Serve(rest, end, peer, listener, config, world);
            if p < |rest| && p <= config.maxRequest + 1 then
              match ParseRequest(rest[..p + 1], listener.protocol, config.extendFinger)
              case Ok(request) =>
                var (body, outcome) := BuildValidResponse(request, listener, config.response, world.site);
                served == Sent(body, Access(peer, peer, request.canonical, Answered(outcome)))
              case Err(_) =>
                var text := if p > 0 && rest[p - 1] == 13 then rest[..p - 1] else rest[..p];
                served == Sent(REFUSAL, Access(peer, peer, text, Refused))
            else if unfinished && end != Broken then served == Silent
            else served == Sent(REFUSAL, Access(peer, peer, [], Refused))
  {
    hide ParseRequest, BuildValidResponse, TrimLineEnding, Serve, IndexOf;
    ServedExactly(rest, end, peer, listener, config, world);
    var p := IndexOf(rest, LF);
    if p < |rest| { UnendedLine(rest, p); }
  }

  lemma UnendedLine(rest: Bytes, p: nat)
    requires p < |rest| && rest[p] == LF
    ensures TrimLineEnding(rest[..p + 1]) == if p > 0 && rest[p - 1] == 13 then rest[..p - 1] else rest[..p]
  {
    var line := rest[..p + 1];
    assert line[p..] == [LF] && line[..p] == rest[..p];
    if p > 0 {
      assert rest[..p][p - 1..] == [rest[p - 1]] && rest[..p][..p - 1] == rest[..p - 1];
    }
  }

  lemma ReadExactly(rest: Bytes, end: End, max: nat)
    ensures var p := IndexOf(rest, LF);
            var unfinished := p == |rest| || (p == max + 2 && LF !in rest[p + 1..]);
            ReadRequest(rest, end, max)
            == if p < |rest| && p <= max + 1 then Line(rest[..p + 1])
               else if unfinished && end != Broken then Ignored
               else Unreadable
  {
    hide IndexOf;
    ReadThenDiscard(rest, end, max);
    var p := IndexOf(rest, LF);
    if p < |rest| {
      IndexAbsent(rest[p + 1..], LF);
    }
  }

  /** Every reply is either the refusal or the response to the request line, and is always clean CRLF text. */
  lemma ReplyWellFormed(rest: Bytes, end: End, peer: Addr, listener: Endpoint, config: ServerConfig, world: World)
    requires Serve(rest, end, peer, listener, config, world).Sent?
    ensures Fits(Serve(rest, end, peer, listener, config, world).body, listener, config.response.maxResponse)
  {
    var (client, taken) := Prepared(rest, end, peer, config, world).value;
    var from := rest[if taken <= |rest| then taken else |rest|..];
    var reading := ReadRequest(from, end, config.maxRequest);
    RefusalFits(listener);
    if reading.Line? {
      AnswerFits(reading.line, client, peer, listener, config, world.site);
    }
  }

  /** Clean CRLF text within the limit, or one of the two notices. */
  predicate Fits(body: Bytes, listener: Endpoint, max: nat) {
    && Sanitize.Sanitized(body, listener.protocol == Fingers) == Ok(body)
    && Sanitize.CrlfOnly(body, CR, LF) && (body == [] || HasSuffix(body, CRLF))
    && (|body| <= max || body == INVALID_REQUEST_BODY || body == NO_CONTENT_BODY)
  }

  lemma RefusalFits(listener: Endpoint)
    ensures forall max :: Fits(INVALID_REQUEST_BODY, listener, max)
  {
    var utf8 := listener.protocol == Fingers;
    NoticesText(utf8);
    Sanitize.FixedExactlyText(INVALID_REQUEST_BODY, utf8);
    Sanitize.TextLines(INVALID_REQUEST_BODY, utf8);
  }

  lemma AnswerFits(line: Bytes, client: Addr, peer: Addr, listener: Endpoint, config: ServerConfig, site: Site)
    ensures var answer := Answer(line, client, peer, listener, config, site);
            answer.Sent? && Fits(answer.body, listener, config.response.maxResponse)
  {
    hide ParseRequest, BuildValidResponse, INVALID_REQUEST_BODY, NO_CONTENT_BODY;
    RefusalFits(listener);
    var parsed := ParseRequest(line, listener.protocol, config.extendFinger);
    if parsed.Ok? {
      var body := BuildValidResponse(parsed.value, listener, config.response, site).0;
      ResponseWellFormed(parsed.value, listener, config.response, site);
      Sanitize.CrlfOnlyMeaning(body, CR, LF);
    }
  }

  function OnBehalfOf(served: Served, client: Addr): Served {
    match served
    case Silent => Silent
    case Sent(body, access) => Sent(body, access.(client := client))
  }

  /**
   A PROXY header is transparent: after an acceptable header from a trusted
   peer, the connection is served as if it began after the header.  Only the
   client address in the log differs.
   */
  lemma HeaderTransparent(header: Bytes, rest: Bytes, end: End, peer: Addr,
                          listener: Endpoint, config: ServerConfig, world: World)
    requires config.proxyProtocol && peer in config.trustedProxies && world.headerDeadlineSet
    requires |header| <= 110 && IndexOf(header, LF) == |header| - 1
    requires ParseProxyLine(header, world.library).Some?
    ensures Serve(header + rest, end, peer, listener, config, world)
         == OnBehalfOf(Serve(rest, end, peer, listener, config.(proxyProtocol := false), world),
                       ParseProxyLine(header, world.library).value)
  {
    hide ParseProxyLine, Reply, LineAt;
    var client := ParseProxyLine(header, world.library).value;
    LineAfterHeader(header, rest, end);
    assert (header + rest)[|header|..] == rest && rest[0..] == rest;
    ReplyOnBehalf(rest, end, client, peer, listener, config, world.site);
  }

  lemma LineAfterHeader(header: Bytes, rest: Bytes, end: End)
    requires |header| <= 110 && IndexOf(header, LF) == |header| - 1
    ensures LineAt(header + rest, end, PROXY_LINE_LIMIT) == (LineRead(header, true, None), |header|)
  {
    var all := header + rest;
    assert all[..|header| - 1] == header[..|header| - 1];
    IndexUnique(all, LF, |header| - 1);
    assert all[..|header|] == header;
  }

  lemma ReplyOnBehalf(rest: Bytes, end: End, client: Addr, peer: Addr,
                      listener: Endpoint, config: ServerConfig, site: Site)
    ensures Reply(rest, end, client, peer, listener, config, site)
         == OnBehalfOf(Reply(rest, end, peer, peer, listener, config.(proxyProtocol := false), site), client)
  {
    var reading := ReadRequest(rest, end, config.maxRequest);
    if reading.Line? {
      AnswerOnBehalf(reading.line, client, peer, listener, config, site);
    }
  }

  lemma AnswerOnBehalf(line: Bytes, client: Addr, peer: Addr, listener: Endpoint, config: ServerConfig, site: Site)
    ensures Answer(line, client, peer, listener, config, site)
         == OnBehalfOf(Answer(line, peer, peer, listener, config.(proxyProtocol := false), site), client)
  {
  }

  /** Where a deadline cannot be set, nothing is read or sent. */
  lemma NoDeadlineNoReply(rest: Bytes, end: End, peer: Addr, listener: Endpoint, config: ServerConfig, world: World)
    requires !world.readDeadlineSet
             || (config.proxyProtocol && peer in config.trustedProxies && !world.headerDeadlineSet)
    ensures Serve(rest, end, peer, listener, config, world) == Silent
  {
  }

  /** Without an acceptable header as its first line a trusted peer gets no reply at all. */
  lemma NoHeaderNoReply(rest: Bytes, end: End, peer: Addr, listener: Endpoint, config: ServerConfig, world: World)
    requires config.proxyProtocol && peer in config.trustedProxies
    requires Serve(rest, end, peer, listener, config, world).Sent?
    ensures var n := IndexOf(rest, LF) + 1;
            n <= |rest| && n <= 110 && ParseProxyLine(rest[..n], world.library).Some?
  {
    hide ParseProxyLine, Reply;
  }

  /**
   A connection from a trusted peer, exactly: its first line must be an
   acceptable header of at most 110 bytes, and then the bytes after it are served
   as a direct connection on behalf of the address in the header; otherwise
   nothing is sent.
   */
  lemma TrustedExactly(rest: Bytes, end: End, peer: Addr, listener: Endpoint, config: ServerConfig, world: World)
    requires config.proxyProtocol && peer in config.trustedProxies && world.headerDeadlineSet
    ensures var n := IndexOf(rest, LF) + 1;
            Serve(rest, end, peer, listener, config, world)
            == if n <= |rest| && n <= 110 && ParseProxyLine(rest[..n], world.library).Some?
               then OnBehalfOf(Serve(rest[n..], end, peer, listener, config.(proxyProtocol := false), world),
                               ParseProxyLine(rest[..n], world.library).value)
               else Silent
  {
    hide ParseProxyLine, Serve, IndexOf, OnBehalfOf;
    var n := IndexOf(rest, LF) + 1;
    if n <= |rest| && n <= 110 && ParseProxyLine(rest[..n], world.library).Some? {
      var header := rest[..n];
      assert header[..n - 1] == rest[..n - 1];
      IndexUnique(header, LF, n - 1);
      assert rest == header + rest[n..];
      HeaderTransparent(header, rest[n..], end, peer, listener, config, world);
    } else if Serve(rest, end, peer, listener, config, world).Sent? {
      NoHeaderNoReply(rest, end, peer, listener, config, world);
    }
  }
}
