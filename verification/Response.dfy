/**
 Choosing and assembling the body of a reply: `buildValidResponse` and the
 functions below it in internal/server/server.go.

 What the file system and the CGI programs answer is a parameter (`Site`); it
 may be anything.
 */
module Response {
  import opened ByteStrings
  import opened Sanitize
  import opened Segments
  import opened Requests
  import opened RequestLaws

  const INVALID_REQUEST: Bytes := Ascii("Error: Invalid Request")
  const INVALID_REQUEST_BODY: Bytes := INVALID_REQUEST + CRLF
  const NO_CONTENT: Bytes := Ascii("Error: No content ") + Ascii("configured for this request.")
  const NO_CONTENT_BODY: Bytes := NO_CONTENT + CRLF
  const RULE: Bytes := Ascii("_____________________________")
  const LINK: Bytes := Ascii("finger://lanterns.io/fingered")
  const CREDITS_BODY: Bytes := CRLF + (RULE + CRLF) + (LINK + CRLF)

  const TXT: Bytes := Ascii(".txt")
  const CGI: Bytes := Ascii(".cgi")
  const HEADER: Bytes := Ascii(".header")
  const FOOTER: Bytes := Ascii(".footer")
  const INDEX: Bytes := Ascii("index")

  datatype Outcome = Hit | Miss | CgiHit | CgiFail

  /** What opening and reading a file, or running a program, comes to. */
  datatype Source = Absent | Unusable | Content(raw: Bytes)

  /** A document root: files by name, and programs by name and standard input. */
  datatype Site = Site(files: Bytes -> Source, programs: (Bytes, Bytes) -> Source)

  datatype Settings = Settings(maxResponse: nat, wrapper: bool, credits: bool)

  datatype Endpoint = Endpoint(protocol: Protocol, cgi: bool)

  /** The three ways `loadStatic` and `runCGI` return. */
  datatype Loaded = Missing | Failed | Body(body: Bytes)

  function Clean(raw: Bytes, utf8: bool): Loaded {
    match Sanitized(raw, utf8)
    case Err(_) => Failed
    case Ok(body) => Body(body)
  }

  /** At most one byte more than the limit is read. */
  function LoadStatic(site: Site, name: Bytes, maxResponse: nat, utf8: bool): Loaded {
    match site.files(name)
    case Absent => Missing
    case Unusable => Failed
    case Content(file) =>
      var raw := if |file| > maxResponse + 1 then file[..maxResponse + 1] else file;
      if |raw| > maxResponse then Failed else Clean(raw, utf8)
  }

  function RunCgi(site: Site, name: Bytes, request: Request, utf8: bool): Loaded {
    match site.programs(name, request.canonical + [LF])
    case Absent => Missing
    case Unusable => Failed
    case Content(output) => Clean(output, utf8)
  }

  function ContentName(target: Bytes, suffix: Bytes): Bytes {
    if target == [] then INDEX + suffix else target + suffix
  }

  function ResolveMain(request: Request, listener: Endpoint, settings: Settings, site: Site): (Bytes, Outcome) {
    var utf8 := listener.protocol == Fingers;
    match LoadStatic(site, ContentName(request.target, TXT), settings.maxResponse, utf8)
    case Body(body) => (body, Hit)
    case Failed => (NO_CONTENT_BODY, Miss)
    case Missing =>
      if !listener.cgi then (NO_CONTENT_BODY, Miss)
      else
        match RunCgi(site, ContentName(request.target, CGI), request, utf8)
        case Missing => (NO_CONTENT_BODY, Miss)
        case Failed => (NO_CONTENT_BODY, CgiFail)
        case Body(body) => (body, CgiHit)
  }

  /** A header or footer that cannot be had is skipped. */
  function ResolveTemplate(name: Bytes, request: Request, listener: Endpoint, settings: Settings, site: Site): Bytes {
    var utf8 := listener.protocol == Fingers;
    match LoadStatic(site, name + TXT, settings.maxResponse, utf8)
    case Body(body) => body
    case Failed => []
    case Missing =>
      if !listener.cgi then []
      else
        match RunCgi(site, name + CGI, request, utf8)
        case Body(body) => body
        case _ => []
  }

  function Wrapper(name: Bytes, request: Request, listener: Endpoint, settings: Settings, site: Site): Bytes {
    if settings.wrapper then ResolveTemplate(name, request, listener, settings, site) else []
  }

  function BuildValidResponse(request: Request, listener: Endpoint, settings: Settings, site: Site): (Bytes, Outcome) {
    var (main, outcome) := ResolveMain(request, listener, settings, site);
    var header := Wrapper(HEADER, request, listener, settings, site);
    var footer := Wrapper(FOOTER, request, listener, settings, site);
    var joined := Join([header, main, footer]);
    var assembled := if settings.credits then Join([joined, CREDITS_BODY]) else joined;
    if |assembled| > settings.maxResponse then (NO_CONTENT_BODY, Miss) else (assembled, outcome)
  }

  // ----- The fixed texts -----

  lemma PrintableText(s: Bytes, utf8: bool)
    requires AllPrintable(s)
    ensures Text(s, utf8)
  {
    PrintableWire(Widen(s));
    AsciiText(s, utf8);
  }

  lemma {:induction false} PrintableWire(cs: seq<int>)
    requires forall i :: 0 <= i < |cs| ==> 0x20 <= cs[i] <= 0x7E
    ensures Wire(cs)
  {
    if cs != [] {
      PrintableWire(cs[1..]);
    }
  }

  lemma CrlfText(utf8: bool)
    ensures Text(CRLF, utf8)
  {
    AsciiText(CRLF, utf8);
  }

  lemma LineText(line: Bytes, utf8: bool)
    requires AllPrintable(line)
    ensures Text(line + CRLF, utf8) && HasSuffix(line + CRLF, CRLF)
  {
    hide Text;
    PrintableText(line, utf8);
    CrlfText(utf8);
    TextConcat(line, CRLF, utf8);
    assert (line + CRLF)[|line|..] == CRLF;
  }

  lemma NoContentPrintable()
    ensures AllPrintable(Ascii("Error: No content "))
  {
  }

  lemma RequestPrintable()
    ensures AllPrintable(Ascii("configured for this request."))
  {
  }

  lemma RefusalPrintable()
    ensures AllPrintable(INVALID_REQUEST)
  {
  }

  lemma PrintableConcat(a: Bytes, b: Bytes)
    requires AllPrintable(a) && AllPrintable(b)
    ensures AllPrintable(a + b)
  {
  }

  lemma NoticesPrintable()
    ensures AllPrintable(NO_CONTENT) && AllPrintable(INVALID_REQUEST)
  {
    hide AllPrintable;
    NoContentPrintable();
    RequestPrintable();
    RefusalPrintable();
    PrintableConcat(Ascii("Error: No content "), Ascii("configured for this request."));
  }

  lemma NoticesText(utf8: bool)
    ensures Text(NO_CONTENT_BODY, utf8) && HasSuffix(NO_CONTENT_BODY, CRLF)
    ensures Text(INVALID_REQUEST_BODY, utf8) && HasSuffix(INVALID_REQUEST_BODY, CRLF)
  {
    hide Text, AllPrintable;
    NoticesPrintable();
    LineText(NO_CONTENT, utf8);
    LineText(INVALID_REQUEST, utf8);
  }

  lemma CreditsText(utf8: bool)
    ensures Text(CREDITS_BODY, utf8)
  {
    assert AllPrintable(RULE);
    assert AllPrintable(LINK);
    LinesText(RULE, LINK, utf8);
  }

  lemma LinesText(line1: Bytes, line2: Bytes, utf8: bool)
    requires AllPrintable(line1) && AllPrintable(line2)
    ensures Text(CRLF + (line1 + CRLF) + (line2 + CRLF), utf8)
  {
    hide Text;
    CrlfText(utf8);
    LineText(line1, utf8);
    LineText(line2, utf8);
    TextConcat(CRLF, line1 + CRLF, utf8);
    TextConcat(CRLF + (line1 + CRLF), line2 + CRLF, utf8);
  }

  // ----- Main results -----

  lemma LoadedText(raw: Bytes, utf8: bool)
    ensures Clean(raw, utf8).Body? ==> Text(Clean(raw, utf8).body, utf8)
  {
    if Sanitized(raw, utf8).Ok? {
      SanitizedMeaning(raw, utf8);
    }
  }

  lemma StaticText(site: Site, name: Bytes, maxResponse: nat, utf8: bool)
    ensures var loaded := LoadStatic(site, name, maxResponse, utf8);
            loaded.Body? ==> Text(loaded.body, utf8)
  {
    if site.files(name).Content? {
      var file := site.files(name).raw;
      LoadedText(if |file| > maxResponse + 1 then file[..maxResponse + 1] else file, utf8);
    }
  }

  lemma CgiText(site: Site, name: Bytes, request: Request, utf8: bool)
    ensures var loaded := RunCgi(site, name, request, utf8);
            loaded.Body? ==> Text(loaded.body, utf8)
  {
    if site.programs(name, request.canonical + [LF]).Content? {
      LoadedText(site.programs(name, request.canonical + [LF]).raw, utf8);
    }
  }

  lemma MainText(request: Request, listener: Endpoint, settings: Settings, site: Site)
    ensures Text(ResolveMain(request, listener, settings, site).0, listener.protocol == Fingers)
  {
    var utf8 := listener.protocol == Fingers;
    NoticesText(utf8);
    StaticText(site, ContentName(request.target, TXT), settings.maxResponse, utf8);
    CgiText(site, ContentName(request.target, CGI), request, utf8);
  }

  lemma WrapperText(name: Bytes, request: Request, listener: Endpoint, settings: Settings, site: Site)
    ensures Text(Wrapper(name, request, listener, settings, site), listener.protocol == Fingers)
  {
    var utf8 := listener.protocol == Fingers;
    StaticText(site, name + TXT, settings.maxResponse, utf8);
    CgiText(site, name + CGI, request, utf8);
  }

  /** The segments of a reply, in order. */
  function Parts(request: Request, listener: Endpoint, settings: Settings, site: Site): seq<Bytes> {
    [Wrapper(HEADER, request, listener, settings, site),
     ResolveMain(request, listener, settings, site).0,
     Wrapper(FOOTER, request, listener, settings, site)]
    + if settings.credits then [CREDITS_BODY] else []
  }

  /** The reply is all segments joined at once, unless that is over the limit. */
  lemma ResponseIsJoin(request: Request, listener: Endpoint, settings: Settings, site: Site)
    ensures var whole := Join(Parts(request, listener, settings, site));
            BuildValidResponse(request, listener, settings, site)
            == if |whole| > settings.maxResponse then (NO_CONTENT_BODY, Miss)
               else (whole, ResolveMain(request, listener, settings, site).1)
  {
    hide Join, Wrapper, ResolveMain, NO_CONTENT_BODY, CREDITS_BODY;
    var parts := Parts(request, listener, settings, site);
    if settings.credits {
      JoinFlattens(parts[..3], [CREDITS_BODY]);
      assert parts[..3] + [CREDITS_BODY] == parts;
      assert [Join(parts[..3])] + [CREDITS_BODY] == [Join(parts[..3]), CREDITS_BODY];
    } else {
      assert parts == parts[..3];
    }
  }

  /**
   Whatever the site answers, the reply is clean text in CRLF lines, and either
   within the limit or the fixed notice.
   */
  lemma ResponseWellFormed(request: Request, listener: Endpoint, settings: Settings, site: Site)
    ensures var body := BuildValidResponse(request, listener, settings, site).0;
            var utf8 := listener.protocol == Fingers;
            && (body == [] || HasSuffix(body, CRLF))
            && Sanitized(body, utf8) == Ok(body)
            && (forall i :: 0 <= i < |body| && body[i] == CR ==> i + 1 < |body| && body[i + 1] == LF)
            && (forall i :: 0 <= i < |body| && body[i] == LF ==> 0 < i && body[i - 1] == CR)
            && (|body| <= settings.maxResponse || body == NO_CONTENT_BODY)
  {
    hide Text, Join, Wrapper, ResolveMain, BuildValidResponse, NO_CONTENT_BODY, CREDITS_BODY, CrlfOnly, Sanitized;
    var utf8 := listener.protocol == Fingers;
    var parts := Parts(request, listener, settings, site);
    var body := BuildValidResponse(request, listener, settings, site).0;
    NoticesText(utf8);
    CreditsText(utf8);
    MainText(request, listener, settings, site);
    WrapperText(HEADER, request, listener, settings, site);
    WrapperText(FOOTER, request, listener, settings, site);
    JoinText(parts, utf8);
    JoinEnds(parts);
    ResponseIsJoin(request, listener, settings, site);
    assert Text(body, utf8);
    FixedExactlyText(body, utf8);
    TextLines(body, utf8);
    CrlfOnlyMeaning(body, CR, LF);
  }

  /** Reading at most one byte past the limit accepts exactly the files within the limit. */
  lemma LoadedExactly(site: Site, name: Bytes, maxResponse: nat, utf8: bool, body: Bytes)
    ensures LoadStatic(site, name, maxResponse, utf8) == Body(body)
       <==> site.files(name).Content? && |site.files(name).raw| <= maxResponse
            && Sanitized(site.files(name).raw, utf8) == Ok(body)
  {
    hide Sanitized;
  }

  /** The sites agree on a file, and on the program that stands in for it when there is no file and programs may run. */
  predicate Agree(site1: Site, site2: Site, file: Bytes, program: Bytes, request: Request, listener: Endpoint) {
    && site1.files(file) == site2.files(file)
    && (listener.cgi && site1.files(file).Absent? ==>
          site1.programs(program, request.canonical + [LF]) == site2.programs(program, request.canonical + [LF]))
  }

  /**
   The reply depends on at most three files, and on a program only where its
   file is absent and programs are enabled; a program sees the canonical
   request and nothing else.
   */
  lemma ReplyDependsOnly(request: Request, listener: Endpoint, settings: Settings, site1: Site, site2: Site)
    requires Agree(site1, site2, ContentName(request.target, TXT), ContentName(request.target, CGI), request, listener)
    requires settings.wrapper ==> Agree(site1, site2, HEADER + TXT, HEADER + CGI, request, listener)
    requires settings.wrapper ==> Agree(site1, site2, FOOTER + TXT, FOOTER + CGI, request, listener)
    ensures BuildValidResponse(request, listener, settings, site1)
         == BuildValidResponse(request, listener, settings, site2)
  {
    hide Sanitized, Join, ContentName;
  }
}
