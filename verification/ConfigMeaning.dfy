/**
 Every field of a loaded configuration, and exactly which files are loaded:
 `Load`, `Default`, `applyValue` and `Validate` in internal/config/config.go and
 `listenerModes` in internal/server/server.go, with names, words and numbers
 written out.
 */
module ConfigMeaning {
  import opened ByteStrings
  import opened Proxy
  import opened ConfigFile
  import opened ConfigLaws

  // ----- One field -----

  /** The field holds what the last value given to `name` means, or the default if none is given. */
  ghost predicate Follows<T(!new)>(lines: seq<Bytes>, name: string, x: T, default_: T, means: (Bytes, T) -> bool) {
    && (NeverGiven(lines, name) ==> x == default_)
    && forall v :: LastGiven(lines, name, v) ==> means(v, x)
  }

  lemma FieldFollows<T(!new)>(lines: seq<Bytes>, key: Key, x: T, default_: T,
                              value: Option<T>, means: (Bytes, T) -> bool)
    requires var given := Get(LastValues(lines), key);
             given.Some? ==> value.Some? && (means(given.value, x) <==> x == value.value)
    ensures Follows(lines, KeyName(key), x, default_, means)
       <==> x == if Get(LastValues(lines), key).None? then default_ else value.value
  {
    hide LastGiven, KeyName, LastValues;
    var name := KeyName(key);
    GivenValue(lines, key);
    match Get(LastValues(lines), key) {
      case None => NotBoth(lines, name);
      case Some(v) =>
        NotBoth(lines, name);
        forall w | LastGiven(lines, name, w)
          ensures w == v
        {
          LastGivenOnce(lines, key, v, w);
        }
    }
  }

  lemma NotBoth(lines: seq<Bytes>, name: string)
    ensures forall v :: LastGiven(lines, name, v) ==> !NeverGiven(lines, name)
  {
    hide Gives;
  }

  lemma FlagFollows(lines: seq<Bytes>, key: Key, x: bool, default_: bool, lib: ConfigLibrary)
    requires var given := Get(LastValues(lines), key); given.Some? ==> ParseYesNo(given.value, lib).Some?
    ensures Follows(lines, KeyName(key), x, default_, FlagMeans(lib))
       <==> x == FlagOr(Get(LastValues(lines), key), default_, lib)
  {
    hide LastValues, KeyName, Follows, ParseYesNo, FlagMeans;
    var given := Get(LastValues(lines), key);
    if given.Some? { FlagParsed(given.value, x, lib); }
    FieldFollows(lines, key, x, default_, if given.Some? then ParseYesNo(given.value, lib) else None, FlagMeans(lib));
  }

  lemma CgiFollows(lines: seq<Bytes>, key: Key, x: Option<bool>, default_: Option<bool>, lib: ConfigLibrary)
    requires var given := Get(LastValues(lines), key); given.Some? ==> ParseYesNo(given.value, lib).Some?
    ensures Follows(lines, KeyName(key), x, default_, CgiMeans(lib))
       <==> x == CgiOr(Get(LastValues(lines), key), default_, lib)
  {
    hide LastValues, KeyName, Follows, ParseYesNo, FlagMeans;
    var given := Get(LastValues(lines), key);
    if given.Some? && x.Some? {
      FlagParsed(given.value, x.value, lib);
      FlagReads(given.value, x.value, lib);
    }
    FieldFollows(lines, key, x, default_,
                 if given.Some? then Some(ParseYesNo(given.value, lib)) else None, CgiMeans(lib));
  }

  lemma FlagReads(v: Bytes, b: bool, lib: ConfigLibrary)
    ensures FlagMeans(lib)(v, b) <==> CgiMeans(lib)(v, Some(b))
  {
  }

  lemma NumberFollows(lines: seq<Bytes>, key: Key, x: int, default_: int, lib: ConfigLibrary)
    requires var given := Get(LastValues(lines), key); given.Some? ==> ParsePositiveInt(given.value, lib).Some?
    ensures Follows(lines, KeyName(key), x, default_, NumberMeans(lib))
       <==> x == IntOr(Get(LastValues(lines), key), default_, lib)
  {
    hide LastValues, KeyName, Follows, ParsePositiveInt, NumberMeans;
    var given := Get(LastValues(lines), key);
    if given.Some? { NumberParsed(given.value, x, lib); }
    FieldFollows(lines, key, x, default_,
                 if given.Some? then ParsePositiveInt(given.value, lib) else None, NumberMeans(lib));
  }

  lemma MillisFollow(lines: seq<Bytes>, key: Key, x: int, default_: int, lib: ConfigLibrary)
    requires var given := Get(LastValues(lines), key); given.Some? ==> ParseMillis(given.value, lib).Some?
    ensures Follows(lines, KeyName(key), x, default_, MillisMeans(lib))
       <==> x == MillisOr(Get(LastValues(lines), key), default_, lib)
  {
    hide LastValues, KeyName, Follows, ParseMillis, MillisMeans;
    var given := Get(LastValues(lines), key);
    if given.Some? { MillisParsed(given.value, x, lib); }
    FieldFollows(lines, key, x, default_,
                 if given.Some? then ParseMillis(given.value, lib) else None, MillisMeans(lib));
  }

  lemma PathFollows(lines: seq<Bytes>, key: Key, x: Bytes, default_: Bytes, lib: ConfigLibrary)
    ensures Follows(lines, KeyName(key), x, default_, PathMeans(lib))
       <==> x == PathOr(Get(LastValues(lines), key), default_, lib)
  {
    hide LastValues, KeyName, Follows;
    var given := Get(LastValues(lines), key);
    FieldFollows(lines, key, x, default_, if given.Some? then Some(lib.clean(given.value)) else None, PathMeans(lib));
  }

  lemma AddrFollows(lines: seq<Bytes>, key: Key, x: Option<Addr>, default_: Option<Addr>, lib: ConfigLibrary)
    requires var given := Get(LastValues(lines), key); given.Some? ==> lib.parseAddr(given.value).Some?
    ensures Follows(lines, KeyName(key), x, default_, AddrMeans(lib))
       <==> x == AddrOr(Get(LastValues(lines), key), default_, lib)
  {
    hide LastValues, KeyName, Follows;
    var given := Get(LastValues(lines), key);
    FieldFollows(lines, key, x, default_,
                 if given.Some? then Some(lib.parseAddr(given.value)) else None, AddrMeans(lib));
  }

  lemma TlsModeFollows(lines: seq<Bytes>, key: Key, x: TlsMode, default_: TlsMode, lib: ConfigLibrary)
    requires var given := Get(LastValues(lines), key); given.Some? ==> ParseTLSEnable(given.value, lib).Some?
    ensures Follows(lines, KeyName(key), x, default_, TlsModeMeans(lib))
       <==> x == TlsModeOr(Get(LastValues(lines), key), default_, lib)
  {
    hide LastValues, KeyName, Follows, ParseTLSEnable, TlsModeMeans;
    var given := Get(LastValues(lines), key);
    if given.Some? { TlsModeParsed(given.value, x, lib); }
    FieldFollows(lines, key, x, default_,
                 if given.Some? then ParseTLSEnable(given.value, lib) else None, TlsModeMeans(lib));
  }

  lemma AddrsFollow(lines: seq<Bytes>, key: Key, x: seq<Addr>, default_: seq<Addr>, lib: ConfigLibrary)
    requires var given := Get(LastValues(lines), key); given.Some? ==> ParseTrusted(given.value, lib).Some?
    ensures Follows(lines, KeyName(key), x, default_, AddrsMean(lib))
       <==> x == AddrsOr(Get(LastValues(lines), key), default_, lib)
  {
    hide LastValues, KeyName, Follows, ParseTrusted, AddrsMean;
    var given := Get(LastValues(lines), key);
    if given.Some? { AddrsParsed(given.value, x, lib); }
    FieldFollows(lines, key, x, default_, if given.Some? then ParseTrusted(given.value, lib) else None, AddrsMean(lib));
  }

  lemma GroupFollows(lines: seq<Bytes>, key: Key, x: Bytes, default_: Bytes)
    requires var given := Get(LastValues(lines), key); given.Some? ==> ParseLogGroup(given.value).Some?
    ensures Follows(lines, KeyName(key), x, default_, GroupMeans())
       <==> x == GroupOr(Get(LastValues(lines), key), default_)
  {
    hide LastValues, KeyName, Follows, ParseLogGroup, GroupMeans;
    var given := Get(LastValues(lines), key);
    if given.Some? { GroupParsed(given.value, x); }
    FieldFollows(lines, key, x, default_, if given.Some? then ParseLogGroup(given.value) else None, GroupMeans());
  }

  lemma UmaskFollows(lines: seq<Bytes>, key: Key, x: int, default_: int, lib: ConfigLibrary)
    requires var given := Get(LastValues(lines), key); given.Some? ==> lib.parseOctal(given.value).Some?
    ensures Follows(lines, KeyName(key), x, default_, UmaskMeans(lib))
       <==> x == UmaskOr(Get(LastValues(lines), key), default_, lib)
  {
    hide LastValues, KeyName, Follows;
    var given := Get(LastValues(lines), key);
    FieldFollows(lines, key, x, default_, if given.Some? then lib.parseOctal(given.value) else None, UmaskMeans(lib));
  }

  lemma FormatFollows(lines: seq<Bytes>, key: Key, x: Bytes, default_: Bytes, lib: ConfigLibrary)
    ensures Follows(lines, KeyName(key), x, default_, FormatMeans(lib))
       <==> x == FormatOr(Get(LastValues(lines), key), default_, lib)
  {
    hide LastValues, KeyName, Follows;
    var given := Get(LastValues(lines), key);
    FieldFollows(lines, key, x, default_,
                 if given.Some? then Some(lib.toLower(given.value)) else None, FormatMeans(lib));
  }

  // ----- All fields -----

  const LOG_ROOT: Bytes := Ascii("/home/finger/logs/fingered/")
  const LOG_GROUP: Bytes := Ascii("finger")
  const LOG_FORMAT: Bytes := Ascii("rfc5424")

  ghost predicate NetworkMeans(lines: seq<Bytes>, c: Network, lib: ConfigLibrary) {
    && Follows(lines, "bind_ip", c.bindIP, None, AddrMeans(lib))
    && Follows(lines, "port", c.port, 0, NumberMeans(lib))
    && Follows(lines, "doc_root", c.docRoot, [], PathMeans(lib))
    && Follows(lines, "tpl_extend", c.extendFinger, false, FlagMeans(lib))
  }

  ghost predicate TlsMeans(lines: seq<Bytes>, c: Tls, lib: ConfigLibrary) {
    && Follows(lines, "tls_enable", c.enable, TlsNo, TlsModeMeans(lib))
    && Follows(lines, "tls_port", c.port, 8179, NumberMeans(lib))
    && Follows(lines, "tls_cert", c.cert, [], PathMeans(lib))
    && Follows(lines, "tls_key", c.key, [], PathMeans(lib))
    && Follows(lines, "tls_doc_root", c.docRoot, [], PathMeans(lib))
    && Follows(lines, "tls_cgi_enable", c.cgi, None, CgiMeans(lib))
  }

  ghost predicate LimitsMean(lines: seq<Bytes>, c: Limits, lib: ConfigLibrary) {
    && Follows(lines, "read_timeout_ms", c.readTimeout, 1_000_000_000, MillisMeans(lib))
    && Follows(lines, "write_timeout_ms", c.writeTimeout, 1_000_000_000, MillisMeans(lib))
    && Follows(lines, "max_request_bytes", c.maxRequestBytes, 256, NumberMeans(lib))
    && Follows(lines, "cgi_timeout_ms", c.cgiTimeout, 1_000_000_000, MillisMeans(lib))
    && Follows(lines, "cgi_max_stdout_bytes", c.cgiMaxStdoutBytes, 262144, NumberMeans(lib))
    && Follows(lines, "max_response_bytes", c.maxResponseBytes, 262144, NumberMeans(lib))
  }

  ghost predicate ContentMeans(lines: seq<Bytes>, c: Content, lib: ConfigLibrary) {
    && Follows(lines, "cgi_enable", c.cgiEnable, false, FlagMeans(lib))
    && Follows(lines, "tpl_wrapper", c.tplEnable, false, FlagMeans(lib))
    && Follows(lines, "tpl_credits", c.creditsEnable, true, FlagMeans(lib))
    && Follows(lines, "proxy_protocol", c.proxyProtocol, false, FlagMeans(lib))
    && Follows(lines, "trusted_proxy_ips", c.trustedProxyIPs, [], AddrsMean(lib))
  }

  ghost predicate LoggingMeans(lines: seq<Bytes>, c: Logging, lib: ConfigLibrary) {
    && Follows(lines, "log_root", c.root, LOG_ROOT, PathMeans(lib))
    && Follows(lines, "log_group", c.group, LOG_GROUP, GroupMeans())
    && Follows(lines, "log_umask", c.umask, 7, UmaskMeans(lib))
    && Follows(lines, "log_format", c.format, LOG_FORMAT, FormatMeans(lib))
    && Follows(lines, "log_errors", c.errors, true, FlagMeans(lib))
    && Follows(lines, "log_requests", c.requests, false, FlagMeans(lib))
  }

  /** The configuration the lines describe. */
  ghost predicate Describes(lines: seq<Bytes>, c: Config, lib: ConfigLibrary) {
    && NetworkMeans(lines, c.network, lib) && TlsMeans(lines, c.tls, lib) && LimitsMean(lines, c.limits, lib)
    && ContentMeans(lines, c.content, lib) && LoggingMeans(lines, c.logging, lib)
  }

  /** Every value that counts is acceptable for its key. */
  predicate ValidValues(m: Values, lib: ConfigLibrary) {
    forall key :: key in m ==> ValidValue(key, m[key], lib)
  }

  lemma NetworkNames()
    ensures KeyName(BindIp) == "bind_ip" && KeyName(Port) == "port" && KeyName(DocRoot) == "doc_root"
    ensures KeyName(TplExtend) == "tpl_extend"
  {
  }

  lemma TlsNames()
    ensures KeyName(TlsEnable) == "tls_enable" && KeyName(TlsPort) == "tls_port" && KeyName(TlsCert) == "tls_cert"
    ensures KeyName(TlsKey) == "tls_key" && KeyName(TlsDocRoot) == "tls_doc_root"
    ensures KeyName(TlsCgiEnable) == "tls_cgi_enable"
  {
  }

  lemma LimitNames()
    ensures KeyName(ReadTimeoutMs) == "read_timeout_ms" && KeyName(WriteTimeoutMs) == "write_timeout_ms"
    ensures KeyName(MaxRequestBytes) == "max_request_bytes" && KeyName(CgiTimeoutMs) == "cgi_timeout_ms"
    ensures KeyName(CgiMaxStdoutBytes) == "cgi_max_stdout_bytes"
    ensures KeyName(MaxResponseBytes) == "max_response_bytes"
  {
  }

  lemma ContentNames()
    ensures KeyName(CgiEnable) == "cgi_enable" && KeyName(TplWrapper) == "tpl_wrapper"
    ensures KeyName(TplCredits) == "tpl_credits" && KeyName(ProxyProtocol) == "proxy_protocol"
    ensures KeyName(TrustedProxyIps) == "trusted_proxy_ips"
  {
  }

  lemma LogNames()
    ensures KeyName(LogRoot) == "log_root" && KeyName(LogGroup) == "log_group" && KeyName(LogUmask) == "log_umask"
    ensures KeyName(LogFormat) == "log_format" && KeyName(LogErrors) == "log_errors"
    ensures KeyName(LogRequests) == "log_requests"
  {
  }

  lemma LogDefaults()
    ensures DEFAULT.logging == Logging(LOG_ROOT, LOG_GROUP, 7, LOG_FORMAT, true, false)
  {
  }

  /** What a value that counts has passed. */
  lemma GivenValid(m: Values, key: Key, lib: ConfigLibrary)
    requires ValidValues(m, lib)
    ensures Get(m, key).Some? ==> ValidValue(key, Get(m, key).value, lib)
  {
  }

  lemma NetworkAssembled(lines: seq<Bytes>, c: Network, lib: ConfigLibrary)
    requires ValidValues(LastValues(lines), lib)
    ensures NetworkMeans(lines, c, lib) <==> c == AssembleNetwork(LastValues(lines), lib)
  {
    hide Follows, LastValues, KeyName, ValidValues, Get, IntOr, FlagOr, PathOr, AddrOr;
    hide ParsePositiveInt, ParseMillis, ParseYesNo, ParseTLSEnable, ParseLogGroup, ParseTrusted;
    hide FlagMeans, NumberMeans, MillisMeans, PathMeans, AddrMeans, TlsModeMeans;
    hide CgiMeans, AddrsMean, GroupMeans, UmaskMeans, FormatMeans;
    NetworkNames();
    forall key: Key
      ensures Get(LastValues(lines), key).Some? ==> ValidValue(key, Get(LastValues(lines), key).value, lib)
    {
      GivenValid(LastValues(lines), key, lib);
    }
    AddrFollows(lines, BindIp, c.bindIP, None, lib);
    NumberFollows(lines, Port, c.port, 0, lib);
    PathFollows(lines, DocRoot, c.docRoot, [], lib);
    FlagFollows(lines, TplExtend, c.extendFinger, false, lib);
  }

  lemma TlsAssembled(lines: seq<Bytes>, c: Tls, lib: ConfigLibrary)
    requires ValidValues(LastValues(lines), lib)
    ensures TlsMeans(lines, c, lib) <==> c == AssembleTls(LastValues(lines), lib)
  {
    hide Follows, LastValues, KeyName, ValidValues, Get, IntOr, PathOr, TlsModeOr, CgiOr;
    hide ParsePositiveInt, ParseMillis, ParseYesNo, ParseTLSEnable, ParseLogGroup, ParseTrusted;
    hide FlagMeans, NumberMeans, MillisMeans, PathMeans, AddrMeans, TlsModeMeans;
    hide CgiMeans, AddrsMean, GroupMeans, UmaskMeans, FormatMeans;
    TlsNames();
    forall key: Key
      ensures Get(LastValues(lines), key).Some? ==> ValidValue(key, Get(LastValues(lines), key).value, lib)
    {
      GivenValid(LastValues(lines), key, lib);
    }
    TlsModeFollows(lines, TlsEnable, c.enable, TlsNo, lib);
    NumberFollows(lines, TlsPort, c.port, 8179, lib);
    PathFollows(lines, TlsCert, c.cert, [], lib);
    PathFollows(lines, TlsKey, c.key, [], lib);
    PathFollows(lines, TlsDocRoot, c.docRoot, [], lib);
    CgiFollows(lines, TlsCgiEnable, c.cgi, None, lib);
  }

  lemma LimitsAssembled(lines: seq<Bytes>, c: Limits, lib: ConfigLibrary)
    requires ValidValues(LastValues(lines), lib)
    ensures LimitsMean(lines, c, lib) <==> c == AssembleLimits(LastValues(lines), lib)
  {
    hide Follows, LastValues, KeyName, ValidValues, Get, IntOr, MillisOr;
    hide ParsePositiveInt, ParseMillis, ParseYesNo, ParseTLSEnable, ParseLogGroup, ParseTrusted;
    hide FlagMeans, NumberMeans, MillisMeans, PathMeans, AddrMeans, TlsModeMeans;
    hide CgiMeans, AddrsMean, GroupMeans, UmaskMeans, FormatMeans;
    LimitNames();
    forall key: Key
      ensures Get(LastValues(lines), key).Some? ==> ValidValue(key, Get(LastValues(lines), key).value, lib)
    {
      GivenValid(LastValues(lines), key, lib);
    }
    MillisFollow(lines, ReadTimeoutMs, c.readTimeout, 1_000_000_000, lib);
    MillisFollow(lines, WriteTimeoutMs, c.writeTimeout, 1_000_000_000, lib);
    NumberFollows(lines, MaxRequestBytes, c.maxRequestBytes, 256, lib);
    MillisFollow(lines, CgiTimeoutMs, c.cgiTimeout, 1_000_000_000, lib);
    NumberFollows(lines, CgiMaxStdoutBytes, c.cgiMaxStdoutBytes, 262144, lib);
    NumberFollows(lines, MaxResponseBytes, c.maxResponseBytes, 262144, lib);
  }

  lemma ContentAssembled(lines: seq<Bytes>, c: Content, lib: ConfigLibrary)
    requires ValidValues(LastValues(lines), lib)
    ensures ContentMeans(lines, c, lib) <==> c == AssembleContent(LastValues(lines), lib)
  {
    hide Follows, LastValues, KeyName, ValidValues, Get, FlagOr, AddrsOr;
    hide ParsePositiveInt, ParseMillis, ParseYesNo, ParseTLSEnable, ParseLogGroup, ParseTrusted;
    hide FlagMeans, NumberMeans, MillisMeans, PathMeans, AddrMeans, TlsModeMeans;
    hide CgiMeans, AddrsMean, GroupMeans, UmaskMeans, FormatMeans;
    ContentNames();
    forall key: Key
      ensures Get(LastValues(lines), key).Some? ==> ValidValue(key, Get(LastValues(lines), key).value, lib)
    {
      GivenValid(LastValues(lines), key, lib);
    }
    FlagFollows(lines, CgiEnable, c.cgiEnable, false, lib);
    FlagFollows(lines, TplWrapper, c.tplEnable, false, lib);
    FlagFollows(lines, TplCredits, c.creditsEnable, true, lib);
    FlagFollows(lines, ProxyProtocol, c.proxyProtocol, false, lib);
    AddrsFollow(lines, TrustedProxyIps, c.trustedProxyIPs, [], lib);
  }

  lemma LoggingAssembled(lines: seq<Bytes>, c: Logging, lib: ConfigLibrary)
    requires ValidValues(LastValues(lines), lib)
    ensures LoggingMeans(lines, c, lib) <==> c == AssembleLogging(LastValues(lines), lib)
  {
    hide Follows, LastValues, KeyName, ValidValues, Get, FlagOr, PathOr, GroupOr, UmaskOr, FormatOr;
    hide LOG_ROOT, LOG_GROUP, LOG_FORMAT, DEFAULT;
    hide ParsePositiveInt, ParseMillis, ParseYesNo, ParseTLSEnable, ParseLogGroup, ParseTrusted;
    hide FlagMeans, NumberMeans, MillisMeans, PathMeans, AddrMeans, TlsModeMeans;
    hide CgiMeans, AddrsMean, GroupMeans, UmaskMeans, FormatMeans;
    LogNames();
    LogDefaults();
    forall key: Key
      ensures Get(LastValues(lines), key).Some? ==> ValidValue(key, Get(LastValues(lines), key).value, lib)
    {
      GivenValid(LastValues(lines), key, lib);
    }
    PathFollows(lines, LogRoot, c.root, LOG_ROOT, lib);
    GroupFollows(lines, LogGroup, c.group, LOG_GROUP);
    UmaskFollows(lines, LogUmask, c.umask, 7, lib);
    FormatFollows(lines, LogFormat, c.format, LOG_FORMAT, lib);
    FlagFollows(lines, LogErrors, c.errors, true, lib);
    FlagFollows(lines, LogRequests, c.requests, false, lib);
  }

  /** There is exactly one such configuration: the one `Load` puts together. */
  lemma DescribesAssembled(lines: seq<Bytes>, c: Config, lib: ConfigLibrary)
    requires ValidValues(LastValues(lines), lib)
    ensures Describes(lines, c, lib) <==> c == Assemble(LastValues(lines), lib)
  {
    hide LastValues, NetworkMeans, TlsMeans, LimitsMean, ContentMeans, LoggingMeans;
    hide AssembleNetwork, AssembleTls, AssembleLimits, AssembleContent, AssembleLogging, ValidValues;
    NetworkAssembled(lines, c.network, lib);
    TlsAssembled(lines, c.tls, lib);
    LimitsAssembled(lines, c.limits, lib);
    ContentAssembled(lines, c.content, lib);
    LoggingAssembled(lines, c.logging, lib);
  }

  // ----- Which files are loaded -----

  /** The values a key accepts. */
  ghost predicate Acceptable(key: Key, v: Bytes, lib: ConfigLibrary) {
    match key
    case BindIp => lib.parseAddr(v).Some?
    case Port | TlsPort | MaxRequestBytes | CgiMaxStdoutBytes | MaxResponseBytes
       | ReadTimeoutMs | WriteTimeoutMs | CgiTimeoutMs => lib.atoi(v).Some? && lib.atoi(v).value > 0
    case DocRoot | TlsCert | TlsKey | TlsDocRoot | LogRoot | LogFormat => true
    case TplExtend | TlsCgiEnable | CgiEnable | TplWrapper | TplCredits | LogErrors | LogRequests | ProxyProtocol =>
      FlagMeans(lib)(v, true) || FlagMeans(lib)(v, false)
    case TlsEnable =>
      TlsModeMeans(lib)(v, TlsNo) || TlsModeMeans(lib)(v, TlsBoth) || TlsModeMeans(lib)(v, TlsStrict)
    case LogGroup => exists group :: GroupMeans()(v, group)
    case LogUmask => lib.parseOctal(v).Some?
    case TrustedProxyIps => exists ips :: AddrsMean(lib)(v, ips)
  }

  lemma OptionCases(b: Option<bool>, mode: Option<TlsMode>)
    ensures b.Some? <==> b == Some(true) || b == Some(false)
    ensures mode.Some? <==> mode == Some(TlsNo) || mode == Some(TlsBoth) || mode == Some(TlsStrict)
  {
    if b.Some? { assert b.value == true || b.value == false; }
    if mode.Some? { assert mode.value.TlsNo? || mode.value.TlsBoth? || mode.value.TlsStrict?; }
  }

  lemma AcceptableExactly(key: Key, v: Bytes, lib: ConfigLibrary)
    ensures ValidValue(key, v, lib) <==> Acceptable(key, v, lib)
  {
    hide ParseYesNo, ParseTLSEnable, ParseLogGroup, ParseTrusted, Wrap64;
    hide FlagMeans, TlsModeMeans, GroupMeans, AddrsMean;
    FlagParsed(v, true, lib);
    FlagParsed(v, false, lib);
    TlsModeParsed(v, TlsNo, lib);
    TlsModeParsed(v, TlsBoth, lib);
    TlsModeParsed(v, TlsStrict, lib);
    forall group
      ensures ParseLogGroup(v) == Some(group) <==> GroupMeans()(v, group)
    {
      GroupParsed(v, group);
    }
    forall ips
      ensures ParseTrusted(v, lib) == Some(ips) <==> AddrsMean(lib)(v, ips)
    {
      AddrsParsed(v, ips, lib);
    }
    if ParseLogGroup(v).Some? { assert GroupMeans()(v, ParseLogGroup(v).value); }
    if ParseTrusted(v, lib).Some? { assert AddrsMean(lib)(v, ParseTrusted(v, lib).value); }
    OptionCases(ParseYesNo(v, lib), ParseTLSEnable(v, lib));
  }

  /** A comment, or a known name with a value it accepts. */
  ghost predicate GoodLine(text: Bytes, lib: ConfigLibrary) {
    Comment(text) || exists key, v :: Gives(text, KeyName(key), v) && Acceptable(key, v, lib)
  }

  lemma AppliesExactly(text: Bytes, lib: ConfigLibrary)
    ensures Applies(text, lib) <==> GoodLine(text, lib)
  {
    hide ReadLine, Comment, Gives, KeyName, ValidValue, Acceptable;
    SkippedExactly(text);
    forall key, v
      ensures ReadLine(text) == Setting(key, v) <==> Gives(text, KeyName(key), v)
      ensures ValidValue(key, v, lib) <==> Acceptable(key, v, lib)
    {
      GivesExactly(text, key, v);
      AcceptableExactly(key, v, lib);
    }
  }

  lemma {:induction false} ValuesAreValid(lines: seq<Bytes>, lib: ConfigLibrary)
    requires forall i :: 0 <= i < |lines| ==> Applies(lines[i], lib)
    ensures ValidValues(LastValues(lines), lib)
  {
    hide ReadLine, ValidValue;
    if lines != [] {
      ValuesAreValid(lines[..|lines| - 1], lib);
      assert Applies(lines[|lines| - 1], lib);
    }
  }

  ghost predicate Given(lines: seq<Bytes>, name: string) {
    !NeverGiven(lines, name)
  }

  lemma GivenExactly(lines: seq<Bytes>, key: Key)
    ensures key in LastValues(lines) <==> Given(lines, KeyName(key))
  {
    hide LastValues, KeyName, LastGiven, NeverGiven;
    GivenValue(lines, key);
    NotBoth(lines, KeyName(key));
  }

  /** The conditions a configuration has to meet. */
  predicate Sound(c: Config, lib: ConfigLibrary) {
    && c.network.bindIP != None
    && 1 <= c.network.port <= 65535
    && c.network.docRoot != [] && lib.isAbs(c.network.docRoot)
    && (c.tls.docRoot == [] || lib.isAbs(c.tls.docRoot))
    && (c.tls.enable == TlsNo
        || (1 <= c.tls.port <= 65535
            && c.tls.cert != [] && lib.isAbs(c.tls.cert) && c.tls.key != [] && lib.isAbs(c.tls.key)))
    && (c.tls.enable == TlsBoth ==> c.tls.port != c.network.port)
    && c.limits.maxRequestBytes >= 1 && c.limits.cgiMaxStdoutBytes >= 1 && c.limits.maxResponseBytes >= 1
    && c.limits.readTimeout >= 1 && c.limits.writeTimeout >= 1 && c.limits.cgiTimeout >= 1
    && (Reads(c.logging.format, "rfc3164") || Reads(c.logging.format, "rfc5424"))
    && ((!c.logging.errors && !c.logging.requests) || (c.logging.root != [] && lib.isAbs(c.logging.root)))
    && c.logging.group != []
    && (c.content.proxyProtocol ==> c.content.trustedProxyIPs != [])
  }

  lemma ReadsAscii(s: Bytes)
    ensures Reads(s, "rfc3164") <==> s == RFC3164
    ensures Reads(s, "rfc5424") <==> s == RFC5424
  {
    assert forall i :: 0 <= i < 7 ==> RFC3164[i] as int == "rfc3164"[i] as int;
    assert forall i :: 0 <= i < 7 ==> RFC5424[i] as int == "rfc5424"[i] as int;
  }

  lemma SoundExactly(c: Config, lib: ConfigLibrary)
    ensures Validate(c, lib) <==> Sound(c, lib)
  {
    hide RFC3164, RFC5424, Reads;
    ReadsAscii(c.logging.format);
  }

  ghost predicate AllGoodLines(lines: seq<Bytes>, lib: ConfigLibrary) {
    forall i :: 0 <= i < |lines| ==> GoodLine(lines[i], lib)
  }

  ghost predicate RequiredGiven(lines: seq<Bytes>) {
    Given(lines, "bind_ip") && Given(lines, "port") && Given(lines, "doc_root")
  }

  lemma GoodExactly(lines: seq<Bytes>, lib: ConfigLibrary)
    ensures GoodLines(lines, lib) == |lines| <==> AllGoodLines(lines, lib)
    ensures AllGoodLines(lines, lib) ==> ValidValues(LastValues(lines), lib)
  {
    hide Applies, GoodLine, LastValues, ValidValues;
    forall text
      ensures Applies(text, lib) <==> GoodLine(text, lib)
    {
      AppliesExactly(text, lib);
    }
    GoodLinesMeaning(lines, lib);
    if AllGoodLines(lines, lib) { ValuesAreValid(lines, lib); }
  }

  lemma RequiredExactly(lines: seq<Bytes>)
    ensures RequiredGiven(lines)
       <==> BindIp in LastValues(lines) && Port in LastValues(lines) && DocRoot in LastValues(lines)
  {
    hide LastValues, Given;
    GivenExactly(lines, BindIp);
    GivenExactly(lines, Port);
    GivenExactly(lines, DocRoot);
  }

  // ----- Main results -----

  /**
   `Load` returns `c` if and only if the scanner reports no error, every line is
   a comment or gives a known name a value it accepts, the three required names
   are given, and `c` is what the lines describe and meets the conditions.
   */
  lemma LoadedExactly(lines: seq<Bytes>, scanFails: bool, c: Config, lib: ConfigLibrary)
    ensures Loaded(lines, scanFails, lib) == Ok(c)
       <==> && !scanFails && AllGoodLines(lines, lib) && RequiredGiven(lines)
            && Describes(lines, c, lib) && Sound(c, lib)
  {
    hide LastValues, Assemble, Validate, Sound, Describes, AllGoodLines, RequiredGiven, GoodLines, ValidValues;
    GoodExactly(lines, lib);
    RequiredExactly(lines);
    SoundExactly(Assemble(LastValues(lines), lib), lib);
    if AllGoodLines(lines, lib) { DescribesAssembled(lines, c, lib); }
  }

  /** The errors, in the order they are looked for. */
  lemma RefusedExactly(lines: seq<Bytes>, scanFails: bool, lib: ConfigLibrary)
    ensures match Loaded(lines, scanFails, lib)
            case Ok(_) => true
            case Err(AtLine(k)) =>
              && 1 <= k <= |lines| && !GoodLine(lines[k - 1], lib)
              && forall i :: 0 <= i < k - 1 ==> GoodLine(lines[i], lib)
            case Err(ScanFailed) => AllGoodLines(lines, lib) && scanFails
            case Err(MissingKey) => AllGoodLines(lines, lib) && !scanFails && !RequiredGiven(lines)
            case Err(Rejected) =>
              && AllGoodLines(lines, lib) && !scanFails && RequiredGiven(lines)
              && exists c :: Describes(lines, c, lib) && !Sound(c, lib)
  {
    hide LastValues, Assemble, Validate, Sound, Describes, RequiredGiven, GoodLines, ValidValues, GoodLine, Applies;
    GoodExactly(lines, lib);
    RequiredExactly(lines);
    GoodLinesMeaning(lines, lib);
    forall i | 0 <= i < |lines|
      ensures Applies(lines[i], lib) <==> GoodLine(lines[i], lib)
    {
      AppliesExactly(lines[i], lib);
    }
    var c := Assemble(LastValues(lines), lib);
    SoundExactly(c, lib);
    if AllGoodLines(lines, lib) { DescribesAssembled(lines, c, lib); }
  }

  /** A file that gives only the three required names. */
  lemma OnlyRequired(lines: seq<Bytes>, scanFails: bool, lib: ConfigLibrary)
    requires Loaded(lines, scanFails, lib).Ok?
    requires forall key: Key :: !key.BindIp? && !key.Port? && !key.DocRoot? ==> NeverGiven(lines, KeyName(key))
    ensures var c := Loaded(lines, scanFails, lib).value;
            && c.network.extendFinger == false
            && c.tls == Tls(TlsNo, 8179, [], [], [], None)
            && c.limits == Limits(1_000_000_000, 1_000_000_000, 256, 1_000_000_000, 262144, 262144)
            && c.content == Content(false, false, true, false, [])
            && c.logging == Logging(LOG_ROOT, LOG_GROUP, 7, LOG_FORMAT, true, false)
  {
    hide LastValues, Loaded, AllGoodLines, RequiredGiven, Sound, LastGiven, NeverGiven;
    hide NetworkMeans, TlsMeans, LimitsMean, ContentMeans, LoggingMeans, KeyName, LOG_ROOT, LOG_GROUP, LOG_FORMAT;
    var c := Loaded(lines, scanFails, lib).value;
    LoadedExactly(lines, scanFails, c, lib);
    NetworkUntouched(lines, c.network, lib);
    TlsUntouched(lines, c.tls, lib);
    LimitsUntouched(lines, c.limits, lib);
    ContentUntouched(lines, c.content, lib);
    LoggingUntouched(lines, c.logging, lib);
  }

  lemma NetworkUntouched(lines: seq<Bytes>, c: Network, lib: ConfigLibrary)
    requires NetworkMeans(lines, c, lib) && NeverGiven(lines, KeyName(TplExtend))
    ensures c.extendFinger == false
  {
    hide NeverGiven, LastGiven, KeyName;
    NetworkNames();
  }

  lemma TlsUntouched(lines: seq<Bytes>, c: Tls, lib: ConfigLibrary)
    requires TlsMeans(lines, c, lib) && forall key :: IsTlsKey(key) ==> NeverGiven(lines, KeyName(key))
    ensures c == Tls(TlsNo, 8179, [], [], [], None)
  {
    hide NeverGiven, LastGiven, KeyName;
    TlsNames();
  }

  lemma LimitsUntouched(lines: seq<Bytes>, c: Limits, lib: ConfigLibrary)
    requires LimitsMean(lines, c, lib) && forall key :: IsLimitsKey(key) ==> NeverGiven(lines, KeyName(key))
    ensures c == Limits(1_000_000_000, 1_000_000_000, 256, 1_000_000_000, 262144, 262144)
  {
    hide NeverGiven, LastGiven, KeyName;
    LimitNames();
  }

  lemma ContentUntouched(lines: seq<Bytes>, c: Content, lib: ConfigLibrary)
    requires ContentMeans(lines, c, lib) && forall key :: IsContentKey(key) ==> NeverGiven(lines, KeyName(key))
    ensures c == Content(false, false, true, false, [])
  {
    hide NeverGiven, LastGiven, KeyName;
    ContentNames();
  }

  lemma LoggingUntouched(lines: seq<Bytes>, c: Logging, lib: ConfigLibrary)
    requires LoggingMeans(lines, c, lib) && forall key :: IsLoggingKey(key) ==> NeverGiven(lines, KeyName(key))
    ensures c == Logging(LOG_ROOT, LOG_GROUP, 7, LOG_FORMAT, true, false)
  {
    hide NeverGiven, LastGiven, KeyName, LOG_ROOT, LOG_GROUP, LOG_FORMAT;
    LogNames();
  }

  /** The listeners of the three modes: finger on `port`; fingers on `tls_port`, falling back on the plain settings. */
  lemma ListenersExactly(c: Config)
    ensures var plain := ListenerMode(false, c.network.port, c.network.docRoot, c.content.cgiEnable);
            var root := if c.tls.docRoot == [] then c.network.docRoot else c.tls.docRoot;
            var cgi := if c.tls.cgi == None then c.content.cgiEnable else c.tls.cgi.value;
            var secure := ListenerMode(true, c.tls.port, root, cgi);
            match c.tls.enable
            case TlsNo => ListenerModes(c) == [plain]
            case TlsBoth => ListenerModes(c) == [plain, secure]
            case TlsStrict => ListenerModes(c) == [secure]
  {
  }
}
