/**
 Which files and programs a request can select: `buildContentName` in
 internal/server/server.go, over everything the parsers accept.
 */
module ContentNames {
  import opened ByteStrings
  import opened Requests
  import opened RequestLaws
  import opened Response

  /** The page a target stands for. */
  function Page(target: Bytes): Bytes {
    if target == [] then INDEX else target
  }

  /** The target of an accepted request is empty or a valid component, in every mode. */
  lemma AcceptedTarget(rawLine: Bytes, protocol: Protocol, extendFinger: bool)
    requires ParseRequest(rawLine, protocol, extendFinger).Ok?
    ensures var target := ParseRequest(rawLine, protocol, extendFinger).value.target;
            target == [] || ValidTargetComponent(target)
  {
    var line := TrimLineEnding(rawLine);
    if protocol.Finger? && !extendFinger {
      PlainAccepted(rawLine);
    } else {
      if protocol.Fingers? { CrlfLine(rawLine); }
      if line != [] { StructuredWellFormed(line, protocol); }
    }
  }

  lemma SuffixUnique(a: Bytes, b: Bytes, x: Bytes, y: Bytes)
    requires |x| == |y| && a + x == b + y
    ensures a == b && x == y
  {
    assert a == (a + x)[..|a|] && b == (b + y)[..|b|];
    assert x == (a + x)[|a|..] && y == (b + y)[|b|..];
  }

  /**
   Two accepted requests select the same file (or the same program) exactly
   when they name the same page; no file is a program; and no name is that of a
   wrapper, starts with a dot, or leaves the document root.
   */
  lemma NamesUnambiguous(line1: Bytes, protocol1: Protocol, extend1: bool,
                         line2: Bytes, protocol2: Protocol, extend2: bool)
    requires ParseRequest(line1, protocol1, extend1).Ok? && ParseRequest(line2, protocol2, extend2).Ok?
    ensures var t1 := ParseRequest(line1, protocol1, extend1).value.target;
            var t2 := ParseRequest(line2, protocol2, extend2).value.target;
            && (ContentName(t1, TXT) == ContentName(t2, TXT) <==> Page(t1) == Page(t2))
            && (ContentName(t1, CGI) == ContentName(t2, CGI) <==> Page(t1) == Page(t2))
            && ContentName(t1, TXT) != ContentName(t2, CGI)
            && NotReserved(ContentName(t1, TXT)) && NotReserved(ContentName(t1, CGI))
  {
    AcceptedTarget(line1, protocol1, extend1);
    AcceptedTarget(line2, protocol2, extend2);
    var t1 := ParseRequest(line1, protocol1, extend1).value.target;
    var t2 := ParseRequest(line2, protocol2, extend2).value.target;
    if ContentName(t1, TXT) == ContentName(t2, TXT) { SuffixUnique(Page(t1), Page(t2), TXT, TXT); }
    if ContentName(t1, CGI) == ContentName(t2, CGI) { SuffixUnique(Page(t1), Page(t2), CGI, CGI); }
    assert TXT != CGI by { assert TXT[1] != CGI[1]; }
    if ContentName(t1, TXT) == ContentName(t2, CGI) { SuffixUnique(Page(t1), Page(t2), TXT, CGI); }
    PageNotReserved(t1, TXT);
    PageNotReserved(t1, CGI);
  }

  predicate NotReserved(name: Bytes) {
    && name != HEADER + TXT && name != FOOTER + TXT && name != HEADER + CGI && name != FOOTER + CGI
    && name != [] && name[0] != DOT && SLASH !in name
  }

  lemma PageNotReserved(target: Bytes, suffix: Bytes)
    requires target == [] || ValidTargetComponent(target)
    requires suffix == TXT || suffix == CGI
    ensures NotReserved(ContentName(target, suffix))
  {
    var page := Page(target);
    assert SLASH !in page;
    assert SLASH !in suffix;
    assert page[0] != DOT && (page + suffix)[0] == page[0];
    assert HEADER[0] == DOT && FOOTER[0] == DOT;
  }
}
