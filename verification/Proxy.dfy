/**
 The PROXY protocol header: `parseProxyLine` in internal/server/server.go.

 Address and number parsing belong to the Go library and are parameters.
 */
module Proxy {
  import opened ByteStrings
  import opened Requests
  import opened RequestLaws

  datatype Family = V4 | V6

  datatype Addr = Addr(family: Family, zone: Bytes, bits: nat)

  datatype HeaderLibrary = HeaderLibrary(
    parseAddr: Bytes -> Option<Addr>,
    isPublic: Addr -> bool,
    atoi: Bytes -> Option<int>)

  /** `strings.Split` with a one-byte separator. */
  function Split(s: Bytes, separator: byte): (fields: seq<Bytes>)
    ensures fields != []
  {
    var i := IndexOf(s, separator);
    if i == |s| then [s] else [s[..i]] + Split(s[i + 1..], separator)
  }

  const PROXY: Bytes := Ascii("PROXY")
  const TCP4: Bytes := Ascii("TCP4")
  const TCP6: Bytes := Ascii("TCP6")

  function ParseProxyAddr(network: Bytes, value: Bytes, lib: HeaderLibrary): Option<Addr> {
    match lib.parseAddr(value)
    case None => None
    case Some(ip) =>
      if ip.zone != [] then None
      else if network == TCP4 then (if ip.family.V4? then Some(ip) else None)
      else if network == TCP6 then (if ip.family.V6? then Some(ip) else None)
      else None
  }

  predicate ValidPort(value: Bytes, lib: HeaderLibrary) {
    match lib.atoi(value)
    case None => false
    case Some(port) => 1 <= port <= 65535
  }

  /** The source address of an acceptable header. */
  function ParseProxyLine(line: Bytes, lib: HeaderLibrary): Option<Addr> {
    if !HasSuffix(line, CRLF) then None
    else
      var fields := Split(TrimSuffix(line, CRLF), SPACE);
      if |fields| != 6 || (exists i :: 0 <= i < |fields| && fields[i] == []) then None
      else if fields[0] != PROXY || (fields[1] != TCP4 && fields[1] != TCP6) then None
      else
        match ParseProxyAddr(fields[1], fields[2], lib)
        case None => None
        case Some(src) =>
          if !lib.isPublic(src) || ParseProxyAddr(fields[1], fields[3], lib).None?
             || !ValidPort(fields[4], lib) || !ValidPort(fields[5], lib)
          then None
          else Some(src)
  }

  // ----- Headers exactly -----

  predicate NoSpace(s: Bytes) {
    s != [] && SPACE !in s
  }

  /** Splitting undoes joining. */
  lemma {:induction false} SplitJoined(fields: seq<Bytes>)
    requires fields != [] && forall i :: 0 <= i < |fields| ==> SPACE !in fields[i]
    ensures Split(JoinWords(fields), SPACE) == fields
  {
    var s := JoinWords(fields);
    var first := fields[0];
    if |fields| == 1 {
      IndexAbsent(s, SPACE);
    } else {
      assert s == first + ([SPACE] + JoinWords(fields[1..]));
      assert s[..|first|] == first && s[|first| + 1..] == JoinWords(fields[1..]);
      IndexUnique(s, SPACE, |first|);
      SplitJoined(fields[1..]);
    }
  }

  /** Joining undoes splitting, and no field has a separator. */
  lemma {:induction false} JoinSplit(s: Bytes)
    ensures JoinWords(Split(s, SPACE)) == s
    ensures forall i :: 0 <= i < |Split(s, SPACE)| ==> SPACE !in Split(s, SPACE)[i]
    decreases |s|
  {
    hide IndexOf;
    var i := IndexOf(s, SPACE);
    if i == |s| {
      IndexAbsent(s, SPACE);
    } else {
      var rest := s[i + 1..];
      JoinSplit(rest);
      assert Split(s, SPACE) == [s[..i]] + Split(rest, SPACE);
      assert Split(s, SPACE)[1..] == Split(rest, SPACE);
      assert s == s[..i] + [SPACE] + rest;
    }
  }

  /** The fields of an acceptable header, and the source address among them. */
  predicate HeaderFields(fields: seq<Bytes>, src: Addr, lib: HeaderLibrary) {
    && |fields| == 6 && (forall i :: 0 <= i < 6 ==> NoSpace(fields[i]))
    && fields[0] == PROXY && (fields[1] == TCP4 || fields[1] == TCP6)
    && ParseProxyAddr(fields[1], fields[2], lib) == Some(src) && lib.isPublic(src)
    && ParseProxyAddr(fields[1], fields[3], lib).Some?
    && ValidPort(fields[4], lib) && ValidPort(fields[5], lib)
  }

  /** A printed header is accepted. */
  lemma PrintedHeaderAccepted(fields: seq<Bytes>, src: Addr, lib: HeaderLibrary)
    requires HeaderFields(fields, src, lib)
    ensures ParseProxyLine(JoinWords(fields) + CRLF, lib) == Some(src)
  {
    hide ParseProxyAddr, ValidPort;
    TrimsCrlf(JoinWords(fields));
    assert forall i :: 0 <= i < 6 ==> NoSpace(fields[i]);
    SplitJoined(fields);
  }

  /** Nothing else is: an accepted line is a printed header, with a single space between fields and CRLF at the end. */
  lemma AcceptedHeaderPrinted(line: Bytes, lib: HeaderLibrary) returns (fields: seq<Bytes>)
    requires ParseProxyLine(line, lib).Some?
    ensures HeaderFields(fields, ParseProxyLine(line, lib).value, lib)
    ensures line == JoinWords(fields) + CRLF
  {
    hide ParseProxyAddr, ValidPort;
    var s := TrimSuffix(line, CRLF);
    fields := Split(s, SPACE);
    JoinSplit(s);
    assert line == s + CRLF;
  }

  /** Six fields as the protocol has them: both addresses of the announced family, without a zone, and two ports. */
  predicate LiteralHeader(fields: seq<Bytes>, src: Addr, dst: Addr, lib: HeaderLibrary) {
    && |fields| == 6 && (forall i :: 0 <= i < 6 ==> fields[i] != [] && 32 !in fields[i])
    && fields[0] == Ascii("PROXY")
    && lib.parseAddr(fields[2]) == Some(src) && lib.parseAddr(fields[3]) == Some(dst)
    && src.zone == [] && dst.zone == [] && lib.isPublic(src)
    && ((fields[1] == Ascii("TCP4") && src.family == V4 && dst.family == V4)
        || (fields[1] == Ascii("TCP6") && src.family == V6 && dst.family == V6))
    && (exists port :: lib.atoi(fields[4]) == Some(port) && 1 <= port <= 65535)
    && (exists port :: lib.atoi(fields[5]) == Some(port) && 1 <= port <= 65535)
  }

  function HeaderLine(f: seq<Bytes>): Bytes
    requires |f| == 6
  {
    f[0] + [32] + (f[1] + [32] + (f[2] + [32] + (f[3] + [32] + (f[4] + [32] + f[5])))) + [13, 10]
  }

  lemma JoinSix(f: seq<Bytes>)
    requires |f| == 6
    ensures JoinWords(f) + CRLF == HeaderLine(f)
  {
    assert f[1..][0] == f[1] && f[1..][1..] == f[2..];
    assert f[2..][0] == f[2] && f[2..][1..] == f[3..];
    assert f[3..][0] == f[3] && f[3..][1..] == f[4..];
    assert f[4..][0] == f[4] && f[4..][1..] == f[5..];
    assert JoinWords(f[5..]) == f[5];
    assert JoinWords(f[4..]) == f[4] + [SPACE] + JoinWords(f[5..]);
    assert JoinWords(f[3..]) == f[3] + [SPACE] + JoinWords(f[4..]);
    assert JoinWords(f[2..]) == f[2] + [SPACE] + JoinWords(f[3..]);
    assert JoinWords(f[1..]) == f[1] + [SPACE] + JoinWords(f[2..]);
  }

  lemma FamiliesDiffer()
    ensures Ascii("TCP4") != Ascii("TCP6") && PROXY == Ascii("PROXY") && TCP4 == Ascii("TCP4") && TCP6 == Ascii("TCP6")
  {
    assert Ascii("TCP4")[3] == 52 && Ascii("TCP6")[3] == 54;
  }

  lemma FieldsLiteral(fields: seq<Bytes>, src: Addr, lib: HeaderLibrary)
    ensures HeaderFields(fields, src, lib) <==> exists dst :: LiteralHeader(fields, src, dst, lib)
  {
    hide PROXY, TCP4, TCP6;
    FamiliesDiffer();
    if HeaderFields(fields, src, lib) {
      var dst := lib.parseAddr(fields[3]).value;
      assert forall i :: 0 <= i < 6 ==> NoSpace(fields[i]);
      assert LiteralHeader(fields, src, dst, lib);
    }
  }

  /** The accepted headers, written out. */
  lemma HeaderExactly(line: Bytes, src: Addr, lib: HeaderLibrary)
    ensures ParseProxyLine(line, lib) == Some(src)
       <==> exists fields, dst :: LiteralHeader(fields, src, dst, lib) && line == HeaderLine(fields)
  {
    hide ParseProxyLine, HeaderFields, HeaderLine;
    if ParseProxyLine(line, lib) == Some(src) {
      var fields := AcceptedHeaderPrinted(line, lib);
      FieldsLiteral(fields, src, lib);
      JoinSix(fields);
    }
    if exists fields, dst :: LiteralHeader(fields, src, dst, lib) && line == HeaderLine(fields) {
      var fields, dst :| LiteralHeader(fields, src, dst, lib) && line == HeaderLine(fields);
      FieldsLiteral(fields, src, lib);
      JoinSix(fields);
      PrintedHeaderAccepted(fields, src, lib);
    }
  }

  /** No accepted PROXY header is an acceptable request, on any listener. */
  lemma HeaderIsNoRequest(line: Bytes, lib: HeaderLibrary, protocol: Protocol, extendFinger: bool)
    requires ParseProxyLine(line, lib).Some?
    ensures ParseRequest(line, protocol, extendFinger).Err?
  {
    hide ParseProxyLine, ParseProxyAddr, ValidPort, ParseRequest, Split, TrimLineEnding, TrimSuffix;
    var fields := AcceptedHeaderPrinted(line, lib);
    var rest := JoinWords(fields[1..]);
    assert rest[0] == 84 by { assert rest[0] == fields[1][0]; }
    TrimsCrlf(JoinWords(fields));
    assert JoinWords(fields) == PROXY + ([SPACE] + rest);
    NoRequestWithTwoWords(rest, protocol, extendFinger);
  }

  lemma NoRequestWithTwoWords(rest: Bytes, protocol: Protocol, extendFinger: bool)
    requires rest != [] && !IsBlank(rest[0])
    ensures ParseRequest(PROXY + ([SPACE] + rest) + CRLF, protocol, extendFinger).Err?
  {
    var s := PROXY + ([SPACE] + rest);
    TrimsCrlf(s);
    FieldsWord(PROXY, [SPACE] + rest);
    assert ([SPACE] + rest)[1..] == rest;
    assert s[0] == 80 && s[5] == SPACE && !IsTargetRune(s[5]) && s[0] != SLASH_W[0];
    assert !HasPrefix(Fields(s)[0], [SLASH]);
    assert Collect(Fields(s)).Err?;
    assert !ValidTargetComponent(s);
  }
}
