/**
 What a reply is made of, from what the document root holds: `buildValidResponse`
 in internal/server/server.go, with names, texts and cases written out.
 */
module ResponseLaws {
  import opened ByteStrings
  import opened Requests
  import opened Response
  import BodyLaws
  import Sanitize
  import Segments

  const NOTICE: Bytes := Ascii("Error: No content ") + Ascii("configured for this request.") + [13, 10]
  const CREDITS: Bytes := [13, 10] + Ascii("_____________________________") + [13, 10]
                        + Ascii("finger://lanterns.io/fingered") + [13, 10]

  /** The page a target stands for. */
  function PageName(target: Bytes): Bytes {
    if target == [] then Ascii("index") else target
  }

  /** A segment as lines: one that does not end in CR LF gets one. */
  function Lines(s: Bytes): Bytes {
    if s == [] || (|s| >= 2 && s[|s| - 2] == 13 && s[|s| - 1] == 10) then s else s + [13, 10]
  }

  /**
   The page and how it was found.  A file wins if it is there, good or not; a
   program is run only when there is no file and programs are enabled, and reads
   the canonical request and a newline.
   */
  function Page(request: Request, listener: Endpoint, max: nat, site: Site): (Bytes, Outcome) {
    var utf8 := listener.protocol == Fingers;
    var name := PageName(request.target);
    match site.files(name + Ascii(".txt"))
    case Content(raw) =>
      if |raw| <= max && Sanitize.Sanitized(raw, utf8).Ok? then (Sanitize.Sanitized(raw, utf8).value, Hit)
      else (NOTICE, Miss)
    case Unusable => (NOTICE, Miss)
    case Absent =>
      if !listener.cgi then (NOTICE, Miss)
      else
        match site.programs(name + Ascii(".cgi"), request.canonical + [10])
        case Absent => (NOTICE, Miss)
        case Unusable => (NOTICE, CgiFail)
        case Content(raw) =>
          if Sanitize.Sanitized(raw, utf8).Ok? then (Sanitize.Sanitized(raw, utf8).value, CgiHit)
          else (NOTICE, CgiFail)
  }

  /** A header or footer: empty unless its file, or failing that its program, has something good. */
  function Template(name: Bytes, request: Request, listener: Endpoint, max: nat, site: Site): Bytes {
    var utf8 := listener.protocol == Fingers;
    var file := site.files(name + Ascii(".txt"));
    var program := site.programs(name + Ascii(".cgi"), request.canonical + [10]);
    if file.Content? && |file.raw| <= max && Sanitize.Sanitized(file.raw, utf8).Ok?
    then Sanitize.Sanitized(file.raw, utf8).value
    else if file.Absent? && listener.cgi && program.Content? && Sanitize.Sanitized(program.raw, utf8).Ok?
    then Sanitize.Sanitized(program.raw, utf8).value
    else []
  }

  // ----- The parts -----

  lemma TextsLiteral()
    ensures NO_CONTENT_BODY == NOTICE && CREDITS_BODY == CREDITS
    ensures TXT == Ascii(".txt") && CGI == Ascii(".cgi") && INDEX == Ascii("index")
    ensures HEADER == Ascii(".header") && FOOTER == Ascii(".footer")
  {
    var rule, link := Ascii("_____________________________"), Ascii("finger://lanterns.io/fingered");
    CreditsOnce(rule, link);
  }

  lemma CreditsOnce(rule: Bytes, link: Bytes)
    ensures CRLF + (rule + CRLF) + (link + CRLF) == [13, 10] + rule + [13, 10] + link + [13, 10]
  {
  }

  lemma FileCases(site: Site, name: Bytes, max: nat, utf8: bool)
    ensures LoadStatic(site, name, max, utf8)
         == match site.files(name)
            case Absent => Missing
            case Unusable => Failed
            case Content(raw) =>
              if |raw| <= max && Sanitize.Sanitized(raw, utf8).Ok? then Body(Sanitize.Sanitized(raw, utf8).value)
              else Failed
  {
    hide Sanitize.Sanitized;
  }

  lemma PageIsMain(request: Request, listener: Endpoint, settings: Settings, site: Site)
    ensures ResolveMain(request, listener, settings, site) == Page(request, listener, settings.maxResponse, site)
  {
    hide Sanitize.Sanitized, LoadStatic, NO_CONTENT_BODY, NOTICE, TXT, CGI, INDEX;
    TextsLiteral();
    FileCases(site, PageName(request.target) + Ascii(".txt"), settings.maxResponse, listener.protocol == Fingers);
  }

  lemma TemplateIsResolved(name: Bytes, request: Request, listener: Endpoint, settings: Settings, site: Site)
    ensures ResolveTemplate(name, request, listener, settings, site)
         == Template(name, request, listener, settings.maxResponse, site)
  {
    hide Sanitize.Sanitized, LoadStatic, TXT, CGI;
    TextsLiteral();
    FileCases(site, name + Ascii(".txt"), settings.maxResponse, listener.protocol == Fingers);
  }

  lemma JoinLines(a: Bytes, b: Bytes, c: Bytes)
    ensures Segments.Join([a, b, c]) == Lines(a) + Lines(b) + Lines(c)
  {
    hide Segments.Join, Segments.Closed, Lines;
    JoinNone();
    JoinAfter([], a);
    JoinAfter([a], b);
    JoinAfter([a, b], c);
    assert [] + [a] == [a] && [a] + [b] == [a, b] && [a, b] + [c] == [a, b, c];
  }

  lemma JoinNone()
    ensures Segments.Join([]) == []
  {
  }

  lemma JoinAfter(parts: seq<Bytes>, part: Bytes)
    ensures Segments.Join(parts + [part]) == Segments.Join(parts) + Lines(part)
  {
    Segments.JoinSnoc(parts, part);
    SegmentLines(part);
  }

  lemma SegmentLines(s: Bytes)
    ensures (if s == [] then [] else Segments.Closed(s)) == Lines(s)
  {
    if |s| >= 2 {
      assert s[|s| - 2..] == [s[|s| - 2], s[|s| - 1]];
    }
  }

  // ----- Main results -----

  /** A page between header and footer, before the credits. */
  function Framed(page: Bytes, request: Request, listener: Endpoint, settings: Settings, site: Site): Bytes {
    var max := settings.maxResponse;
    var header := if settings.wrapper then Template(Ascii(".header"), request, listener, max, site) else [];
    var footer := if settings.wrapper then Template(Ascii(".footer"), request, listener, max, site) else [];
    Lines(header) + Lines(page) + Lines(footer) + if settings.credits then CREDITS else []
  }

  /** The whole reply: the page in its frame, or the notice if that is over the limit. */
  lemma ReplyExactly(request: Request, listener: Endpoint, settings: Settings, site: Site)
    ensures var (page, outcome) := Page(request, listener, settings.maxResponse, site);
            var whole := Framed(page, request, listener, settings, site);
            BuildValidResponse(request, listener, settings, site)
            == if |whole| <= settings.maxResponse then (whole, outcome) else (NOTICE, Miss)
  {
    hide Segments.Join, ResolveMain, ResolveTemplate, Page, Template, Lines;
    hide NO_CONTENT_BODY, CREDITS_BODY, NOTICE, CREDITS, HEADER, FOOTER;
    TextsLiteral();
    PageIsMain(request, listener, settings, site);
    TemplateIsResolved(HEADER, request, listener, settings, site);
    TemplateIsResolved(FOOTER, request, listener, settings, site);
    var page := Page(request, listener, settings.maxResponse, site).0;
    var header := Wrapper(HEADER, request, listener, settings, site);
    var footer := Wrapper(FOOTER, request, listener, settings, site);
    var joined := Segments.Join([header, page, footer]);
    JoinLines(header, page, footer);
    CreditsAdded(joined, [header, page, footer]);
    assert joined + [] == joined;
    assert Framed(page, request, listener, settings, site) == joined + if settings.credits then CREDITS else [];
  }

  /** The credits go after what has been joined. */
  lemma CreditsAdded(joined: Bytes, parts: seq<Bytes>)
    requires joined == Segments.Join(parts)
    ensures Segments.Join([joined, CREDITS_BODY]) == joined + CREDITS
  {
    hide CREDITS, CREDITS_BODY, Segments.Join;
    TextsLiteral();
    JoinNone();
    Segments.JoinEnds(parts);
    Segments.JoinSnoc([], joined);
    Segments.JoinSnoc([joined], CREDITS_BODY);
    assert [] + [joined] == [joined] && [joined] + [CREDITS_BODY] == [joined, CREDITS_BODY];
    CreditsClosed();
  }

  lemma CreditsClosed()
    ensures CREDITS_BODY != [] && HasSuffix(CREDITS_BODY, CRLF)
  {
    var front := CRLF + (RULE + CRLF) + LINK;
    assert CREDITS_BODY == front + CRLF;
    assert CREDITS_BODY[|front|..] == CRLF;
  }

  /** A page whose file is good appears whole in the reply, after the header and before the footer. */
  lemma PageServedWhole(request: Request, listener: Endpoint, settings: Settings, site: Site, raw: Bytes, body: Bytes)
    requires site.files(PageName(request.target) + Ascii(".txt")) == Content(raw)
    requires |raw| <= settings.maxResponse && Sanitize.Sanitized(raw, listener.protocol == Fingers) == Ok(body)
    ensures var whole := Framed(body, request, listener, settings, site);
            BuildValidResponse(request, listener, settings, site)
            == if |whole| <= settings.maxResponse then (whole, Hit) else (NOTICE, Miss)
  {
    hide BuildValidResponse, Framed, NOTICE, Sanitize.Sanitized;
    ReplyExactly(request, listener, settings, site);
  }

  /** A one-line page of ordinary characters, without wrappers and credits, is the reply, with its line closed. */
  lemma OrdinaryPageServed(request: Request, listener: Endpoint, settings: Settings, site: Site, cs: seq<int>)
    requires !settings.wrapper && !settings.credits && cs != []
    requires Sanitize.Encodable(cs, listener.protocol == Fingers)
    requires forall i :: 0 <= i < |cs| ==> BodyLaws.Ordinary(cs[i])
    requires var raw := Sanitize.Encode(cs, listener.protocol == Fingers);
             && site.files(PageName(request.target) + Ascii(".txt")) == Content(raw)
             && |raw| + 2 <= settings.maxResponse
    ensures BuildValidResponse(request, listener, settings, site)
         == (Sanitize.Encode(cs, listener.protocol == Fingers) + [13, 10], Hit)
  {
    hide BuildValidResponse, Template, CREDITS, NOTICE, Sanitize.Sanitized, Sanitize.Encode, Lines;
    var utf8 := listener.protocol == Fingers;
    var raw := Sanitize.Encode(cs, utf8);
    BodyLaws.OrdinaryUnchanged(cs, utf8);
    OrdinaryUnclosed(cs, utf8);
    EmptyLines();
    PageServedWhole(request, listener, settings, site, raw, raw);
    assert Framed(raw, request, listener, settings, site) == raw + [13, 10];
  }

  lemma EmptyLines()
    ensures Lines([]) == []
  {
  }

  lemma OrdinaryUnclosed(cs: seq<int>, utf8: bool)
    requires Sanitize.Encodable(cs, utf8) && cs != [] && forall i :: 0 <= i < |cs| ==> BodyLaws.Ordinary(cs[i])
    ensures var raw := Sanitize.Encode(cs, utf8); Lines(raw) == raw + [13, 10]
  {
    hide Sanitize.Encode, Sanitize.Decode;
    var raw := Sanitize.Encode(cs, utf8);
    Sanitize.DecodeEncoded(cs, utf8);
    Sanitize.DecodedAscii(raw, utf8, 10);
    NotEmpty(cs, utf8);
  }

  lemma NotEmpty(cs: seq<int>, utf8: bool)
    requires cs != []
    ensures Sanitize.Encode(cs, utf8) != []
  {
  }
}
