/**
 The configuration file: internal/config/config.go.

 Address, number and path parsing and non-ASCII case folding belong to the Go
 library and are parameters.  The input is the sequence of lines the scanner
 delivers, and whether it then reports an error.
 */
module ConfigFile {
  import opened ByteStrings
  import opened Spaces
  import opened Proxy

  datatype ConfigLibrary = ConfigLibrary(
    parseAddr: Bytes -> Option<Addr>,
    clean: Bytes -> Bytes,
    isAbs: Bytes -> bool,
    atoi: Bytes -> Option<int>,
    parseOctal: Bytes -> Option<int>,
    toLower: Bytes -> Bytes)

  datatype TlsMode = TlsNo | TlsBoth | TlsStrict

  // The fields of the program's Config, grouped.

  datatype Network = Network(
    bindIP: Option<Addr>,
    port: int,
    docRoot: Bytes,
    extendFinger: bool)

  datatype Tls = Tls(
    enable: TlsMode,
    port: int,
    cert: Bytes,
    key: Bytes,
    docRoot: Bytes,
    cgi: Option<bool>)

  datatype Limits = Limits(
    readTimeout: int,
    writeTimeout: int,
    maxRequestBytes: int,
    cgiTimeout: int,
    cgiMaxStdoutBytes: int,
    maxResponseBytes: int)

  datatype Content = Content(
    cgiEnable: bool,
    tplEnable: bool,
    creditsEnable: bool,
    proxyProtocol: bool,
    trustedProxyIPs: seq<Addr>)

  datatype Logging = Logging(
    root: Bytes,
    group: Bytes,
    umask: int,
    format: Bytes,
    errors: bool,
    requests: bool)

  datatype Config = Config(network: Network, tls: Tls, limits: Limits, content: Content, logging: Logging)

  datatype Key =
    | BindIp | Port | DocRoot | TplExtend | TlsEnable | TlsPort | TlsCert | TlsKey | TlsDocRoot | TlsCgiEnable
    | ReadTimeoutMs | WriteTimeoutMs | MaxRequestBytes | CgiTimeoutMs | CgiMaxStdoutBytes | MaxResponseBytes
    | CgiEnable | TplWrapper | TplCredits | LogRoot | LogGroup | LogUmask | LogFormat | LogErrors | LogRequests
    | ProxyProtocol | TrustedProxyIps

  const SECOND: int := 1_000_000_000
  const RFC3164: Bytes := Ascii("rfc3164")
  const RFC5424: Bytes := Ascii("rfc5424")

  function KeyName(key: Key): string {
    match key
    case BindIp => "bind_ip"
    case Port => "port"
    case DocRoot => "doc_root"
    case TplExtend => "tpl_extend"
    case TlsEnable => "tls_enable"
    case TlsPort => "tls_port"
    case TlsCert => "tls_cert"
    case TlsKey => "tls_key"
    case TlsDocRoot => "tls_doc_root"
    case TlsCgiEnable => "tls_cgi_enable"
    case ReadTimeoutMs => "read_timeout_ms"
    case WriteTimeoutMs => "write_timeout_ms"
    case MaxRequestBytes => "max_request_bytes"
    case CgiTimeoutMs => "cgi_timeout_ms"
    case CgiMaxStdoutBytes => "cgi_max_stdout_bytes"
    case MaxResponseBytes => "max_response_bytes"
    case CgiEnable => "cgi_enable"
    case TplWrapper => "tpl_wrapper"
    case TplCredits => "tpl_credits"
    case LogRoot => "log_root"
    case LogGroup => "log_group"
    case LogUmask => "log_umask"
    case LogFormat => "log_format"
    case LogErrors => "log_errors"
    case LogRequests => "log_requests"
    case ProxyProtocol => "proxy_protocol"
    case TrustedProxyIps => "trusted_proxy_ips"
  }

  const KEYS: seq<Key> :=
    [BindIp, Port, DocRoot, TplExtend, TlsEnable, TlsPort, TlsCert, TlsKey, TlsDocRoot, TlsCgiEnable,
     ReadTimeoutMs, WriteTimeoutMs, MaxRequestBytes, CgiTimeoutMs, CgiMaxStdoutBytes, MaxResponseBytes,
     CgiEnable, TplWrapper, TplCredits, LogRoot, LogGroup, LogUmask, LogFormat, LogErrors, LogRequests,
     ProxyProtocol, TrustedProxyIps]

  predicate Spells(name: Bytes, word: string) {
    |name| == |word| && forall i :: 0 <= i < |name| ==> name[i] as char == word[i]
  }

  /** The `allowed` table. */
  function LookUp(keys: seq<Key>, name: Bytes): Option<Key> {
    if keys == [] then None
    else if Spells(name, KeyName(keys[0])) then Some(keys[0])
    else LookUp(keys[1..], name)
  }

  /** The table finds a key that spells the name, and finds none only when there is none. */
  lemma {:induction false} LookUpMeaning(keys: seq<Key>, name: Bytes)
    ensures match LookUp(keys, name)
            case Some(key) => key in keys && Spells(name, KeyName(key))
            case None => forall key :: key in keys ==> !Spells(name, KeyName(key))
  {
    hide Spells, KeyName;
    if keys != [] {
      LookUpMeaning(keys[1..], name);
    }
  }

  lemma KeyListed(key: Key)
    ensures key in KEYS
  {
  }

  /** A name is unknown exactly when it spells none of the keys. */
  lemma UnknownExactly(name: Bytes)
    ensures LookUp(KEYS, name) == None <==> forall key: Key :: !Spells(name, KeyName(key))
  {
    hide Spells, KeyName;
    LookUpMeaning(KEYS, name);
    forall key: Key
      ensures key in KEYS
    {
      KeyListed(key);
    }
  }

  // ----- Lines -----

  const HASH: byte := 35
  const SEMICOLON: byte := 59
  const COMMA: byte := 44

  datatype Entry = Skipped | Malformed | UnknownKey | Setting(key: Key, value: Bytes)

  function SplitKV(line: Bytes): Option<(Bytes, Bytes)> {
    var idx := IndexOf(line, EQUALS);
    if idx == |line| then None
    else
      var key, value := TrimSpace(line[..idx]), TrimSpace(line[idx + 1..]);
      if key == [] || value == [] then None else Some((key, value))
  }

  function ReadLine(text: Bytes): Entry {
    var line := TrimSpace(text);
    if line == [] || HasPrefix(line, [HASH]) || HasPrefix(line, [SEMICOLON]) then Skipped
    else
      match SplitKV(line)
      case None => Malformed
      case Some((name, value)) =>
        match LookUp(KEYS, name)
        case None => UnknownKey
        case Some(key) => Setting(key, value)
  }

  // ----- Values -----

  function ParsePositiveInt(value: Bytes, lib: ConfigLibrary): Option<int> {
    var n :- lib.atoi(value);
    if n <= 0 then None else Some(n)
  }

  /** 64-bit two's complement. */
  function Wrap64(n: int): int {
    var m := n % 0x1_0000_0000_0000_0000;
    if m < 0x8000_0000_0000_0000 then m else m - 0x1_0000_0000_0000_0000
  }

  /** Milliseconds as a `time.Duration`, in nanoseconds. */
  function ParseMillis(value: Bytes, lib: ConfigLibrary): Option<int> {
    var n :- ParsePositiveInt(value, lib);
    Some(Wrap64(n * 1_000_000))
  }

  function ParseYesNo(value: Bytes, lib: ConfigLibrary): Option<bool> {
    var word := lib.toLower(TrimSpace(value));
    if Spells(word, "yes") then Some(true) else if Spells(word, "no") then Some(false) else None
  }

  function ParseTLSEnable(value: Bytes, lib: ConfigLibrary): Option<TlsMode> {
    var word := lib.toLower(TrimSpace(value));
    if Spells(word, "no") then Some(TlsNo)
    else if Spells(word, "yes_both") then Some(TlsBoth)
    else if Spells(word, "yes_strict") then Some(TlsStrict)
    else None
  }

  function ParseLogGroup(value: Bytes): Option<Bytes> {
    var group := TrimSpace(value);
    if group == [] || SPACE in group || TAB in group || CR in group || LF in group then None else Some(group)
  }

  function ParseAddrs(parts: seq<Bytes>, lib: ConfigLibrary): Option<seq<Addr>> {
    if parts == [] then Some([])
    else
      var ip :- lib.parseAddr(TrimSpace(parts[0]));
      var ips :- ParseAddrs(parts[1..], lib);
      Some([ip] + ips)
  }

  function ParseTrusted(value: Bytes, lib: ConfigLibrary): Option<seq<Addr>> {
    if TrimSpace(value) == [] then Some([]) else ParseAddrs(Split(value, COMMA), lib)
  }

  const DEFAULT: Config := Config(
    Network(bindIP := None, port := 0, docRoot := [], extendFinger := false),
    Tls(enable := TlsNo, port := 8179, cert := [], key := [], docRoot := [], cgi := None),
    Limits(readTimeout := SECOND, writeTimeout := SECOND, maxRequestBytes := 256,
           cgiTimeout := SECOND, cgiMaxStdoutBytes := 262144, maxResponseBytes := 262144),
    Content(cgiEnable := false, tplEnable := false, creditsEnable := true,
            proxyProtocol := false, trustedProxyIPs := []),
    Logging(root := Ascii("/home/finger/logs/fingered/"), group := Ascii("finger"), umask := 7,
            format := RFC5424, errors := true, requests := false))

  predicate IsNetworkKey(key: Key) {
    key.BindIp? || key.Port? || key.DocRoot? || key.TplExtend?
  }

  predicate IsTlsKey(key: Key) {
    key.TlsEnable? || key.TlsPort? || key.TlsCert? || key.TlsKey? || key.TlsDocRoot? || key.TlsCgiEnable?
  }

  predicate IsLimitsKey(key: Key) {
    key.ReadTimeoutMs? || key.WriteTimeoutMs? || key.CgiTimeoutMs?
    || key.MaxRequestBytes? || key.CgiMaxStdoutBytes? || key.MaxResponseBytes?
  }

  predicate IsContentKey(key: Key) {
    key.CgiEnable? || key.TplWrapper? || key.TplCredits? || key.ProxyProtocol? || key.TrustedProxyIps?
  }

  predicate IsLoggingKey(key: Key) {
    key.LogRoot? || key.LogGroup? || key.LogUmask? || key.LogFormat? || key.LogErrors? || key.LogRequests?
  }

  function ApplyNetwork(part: Network, key: Key, value: Bytes, lib: ConfigLibrary): Option<Network>
    requires IsNetworkKey(key)
  {
    match key
    case BindIp => var v :- lib.parseAddr(value); Some(part.(bindIP := Some(v)))
    case Port => var v :- ParsePositiveInt(value, lib); Some(part.(port := v))
    case DocRoot => Some(part.(docRoot := lib.clean(value)))
    case TplExtend => var v :- ParseYesNo(value, lib); Some(part.(extendFinger := v))
  }

  function ApplyTls(part: Tls, key: Key, value: Bytes, lib: ConfigLibrary): Option<Tls>
    requires IsTlsKey(key)
  {
    match key
    case TlsEnable => var v :- ParseTLSEnable(value, lib); Some(part.(enable := v))
    case TlsPort => var v :- ParsePositiveInt(value, lib); Some(part.(port := v))
    case TlsCert => Some(part.(cert := lib.clean(value)))
    case TlsKey => Some(part.(key := lib.clean(value)))
    case TlsDocRoot => Some(part.(docRoot := lib.clean(value)))
    case TlsCgiEnable => var v :- ParseYesNo(value, lib); Some(part.(cgi := Some(v)))
  }

  function ApplyLimits(part: Limits, key: Key, value: Bytes, lib: ConfigLibrary): Option<Limits>
    requires IsLimitsKey(key)
  {
    match key
    case ReadTimeoutMs => var v :- ParseMillis(value, lib); Some(part.(readTimeout := v))
    case WriteTimeoutMs => var v :- ParseMillis(value, lib); Some(part.(writeTimeout := v))
    case MaxRequestBytes => var v :- ParsePositiveInt(value, lib); Some(part.(maxRequestBytes := v))
    case CgiTimeoutMs => var v :- ParseMillis(value, lib); Some(part.(cgiTimeout := v))
    case CgiMaxStdoutBytes => var v :- ParsePositiveInt(value, lib); Some(part.(cgiMaxStdoutBytes := v))
    case MaxResponseBytes => var v :- ParsePositiveInt(value, lib); Some(part.(maxResponseBytes := v))
  }

  function ApplyContent(part: Content, key: Key, value: Bytes, lib: ConfigLibrary): Option<Content>
    requires IsContentKey(key)
  {
    match key
    case CgiEnable => var v :- ParseYesNo(value, lib); Some(part.(cgiEnable := v))
    case TplWrapper => var v :- ParseYesNo(value, lib); Some(part.(tplEnable := v))
    case TplCredits => var v :- ParseYesNo(value, lib); Some(part.(creditsEnable := v))
    case ProxyProtocol => var v :- ParseYesNo(value, lib); Some(part.(proxyProtocol := v))
    case TrustedProxyIps => var v :- ParseTrusted(value, lib); Some(part.(trustedProxyIPs := v))
  }

  function ApplyLogging(part: Logging, key: Key, value: Bytes, lib: ConfigLibrary): Option<Logging>
    requires IsLoggingKey(key)
  {
    match key
    case LogRoot => Some(part.(root := lib.clean(value)))
    case LogGroup => var v :- ParseLogGroup(value); Some(part.(group := v))
    case LogUmask => var v :- lib.parseOctal(value); Some(part.(umask := v))
    case LogFormat => Some(part.(format := lib.toLower(value)))
    case LogErrors => var v :- ParseYesNo(value, lib); Some(part.(errors := v))
    case LogRequests => var v :- ParseYesNo(value, lib); Some(part.(requests := v))
  }

  /** The configuration with one more setting; `None` if the value is not acceptable. */
  function WithValue(cfg: Config, key: Key, value: Bytes, lib: ConfigLibrary): Option<Config> {
    if IsNetworkKey(key) then
      var part :- ApplyNetwork(cfg.network, key, value, lib); Some(cfg.(network := part))
    else if IsTlsKey(key) then
      var part :- ApplyTls(cfg.tls, key, value, lib); Some(cfg.(tls := part))
    else if IsLimitsKey(key) then
      var part :- ApplyLimits(cfg.limits, key, value, lib); Some(cfg.(limits := part))
    else if IsContentKey(key) then
      var part :- ApplyContent(cfg.content, key, value, lib); Some(cfg.(content := part))
    else
      var part :- ApplyLogging(cfg.logging, key, value, lib); Some(cfg.(logging := part))
  }

  /** The configuration under construction, which `applyValue` updates in place. */
  class LiveConfig {
    var network: Network
    var tls: Tls
    var limits: Limits
    var content: Content
    var logging: Logging

    ghost function Value(): Config
      reads this
    {
      Config(network, tls, limits, content, logging)
    }

    constructor Default()
      ensures Value() == DEFAULT
    {
      network, tls, limits, content, logging :=
        DEFAULT.network, DEFAULT.tls, DEFAULT.limits, DEFAULT.content, DEFAULT.logging;
    }

    method Snapshot() returns (cfg: Config)
      ensures cfg == Value()
    {
      return Config(network, tls, limits, content, logging);
    }

    /** A value that is not acceptable changes nothing. */
    method ApplyValue(key: Key, value: Bytes, lib: ConfigLibrary) returns (ok: bool)
      modifies this
      ensures match WithValue(old(Value()), key, value, lib)
              case Some(cfg) => ok && Value() == cfg
              case None => !ok && Value() == old(Value())
    {
      hide ApplyNetwork, ApplyTls, ApplyLimits, ApplyContent, ApplyLogging;
      if IsNetworkKey(key) {
        var part := ApplyNetwork(network, key, value, lib);
        if part.None? { return false; }
        network := part.value;
      } else if IsTlsKey(key) {
        var part := ApplyTls(tls, key, value, lib);
        if part.None? { return false; }
        tls := part.value;
      } else if IsLimitsKey(key) {
        var part := ApplyLimits(limits, key, value, lib);
        if part.None? { return false; }
        limits := part.value;
      } else if IsContentKey(key) {
        var part := ApplyContent(content, key, value, lib);
        if part.None? { return false; }
        content := part.value;
      } else {
        var part := ApplyLogging(logging, key, value, lib);
        if part.None? { return false; }
        logging := part.value;
      }
      return true;
    }
  }

  predicate Validate(c: Config, lib: ConfigLibrary) {
    && c.network.bindIP.Some?
    && 1 <= c.network.port <= 65535
    && c.network.docRoot != [] && lib.isAbs(c.network.docRoot)
    && (c.tls.docRoot != [] ==> lib.isAbs(c.tls.docRoot))
    && (c.tls.enable != TlsNo ==>
          && 1 <= c.tls.port <= 65535
          && c.tls.cert != [] && lib.isAbs(c.tls.cert)
          && c.tls.key != [] && lib.isAbs(c.tls.key)
          && !(c.tls.enable == TlsBoth && c.tls.port == c.network.port))
    && c.limits.maxRequestBytes > 0 && c.limits.cgiMaxStdoutBytes > 0 && c.limits.maxResponseBytes > 0
    && c.limits.readTimeout > 0 && c.limits.writeTimeout > 0 && c.limits.cgiTimeout > 0
    && (c.logging.format == RFC3164 || c.logging.format == RFC5424)
    && (c.logging.errors || c.logging.requests ==> c.logging.root != [] && lib.isAbs(c.logging.root))
    && c.logging.group != []
    && (c.content.proxyProtocol ==> c.content.trustedProxyIPs != [])
  }

  // ----- Specification: the last value of each key over the defaults -----

  /** Whether a value is acceptable for a key, whatever the configuration so far. */
  predicate ValidValue(key: Key, value: Bytes, lib: ConfigLibrary) {
    match key
    case BindIp => lib.parseAddr(value).Some?
    case Port | TlsPort | MaxRequestBytes | CgiMaxStdoutBytes | MaxResponseBytes =>
      ParsePositiveInt(value, lib).Some?
    case DocRoot | TlsCert | TlsKey | TlsDocRoot | LogRoot | LogFormat => true
    case TlsEnable => ParseTLSEnable(value, lib).Some?
    case ReadTimeoutMs | WriteTimeoutMs | CgiTimeoutMs => ParseMillis(value, lib).Some?
    case TplExtend | TlsCgiEnable | CgiEnable | TplWrapper | TplCredits | LogErrors | LogRequests | ProxyProtocol =>
      ParseYesNo(value, lib).Some?
    case LogGroup => ParseLogGroup(value).Some?
    case LogUmask => lib.parseOctal(value).Some?
    case TrustedProxyIps => ParseTrusted(value, lib).Some?
  }

  type Values = map<Key, Bytes>

  function Get(m: Values, key: Key): Option<Bytes> {
    if key in m then Some(m[key]) else None
  }

  function Or<T>(parsed: Option<T>, default_: T): T {
    match parsed
    case None => default_
    case Some(v) => v
  }

  function IntOr(value: Option<Bytes>, default_: int, lib: ConfigLibrary): int {
    if value.None? then default_ else Or(ParsePositiveInt(value.value, lib), default_)
  }

  function MillisOr(value: Option<Bytes>, default_: int, lib: ConfigLibrary): int {
    if value.None? then default_ else Or(ParseMillis(value.value, lib), default_)
  }

  function FlagOr(value: Option<Bytes>, default_: bool, lib: ConfigLibrary): bool {
    if value.None? then default_ else Or(ParseYesNo(value.value, lib), default_)
  }

  function PathOr(value: Option<Bytes>, default_: Bytes, lib: ConfigLibrary): Bytes {
    if value.None? then default_ else lib.clean(value.value)
  }

  function AddrOr(value: Option<Bytes>, default_: Option<Addr>, lib: ConfigLibrary): Option<Addr> {
    if value.None? then default_ else lib.parseAddr(value.value)
  }

  function TlsModeOr(value: Option<Bytes>, default_: TlsMode, lib: ConfigLibrary): TlsMode {
    if value.None? then default_ else Or(ParseTLSEnable(value.value, lib), default_)
  }

  function CgiOr(value: Option<Bytes>, default_: Option<bool>, lib: ConfigLibrary): Option<bool> {
    if value.None? then default_ else ParseYesNo(value.value, lib)
  }

  function AddrsOr(value: Option<Bytes>, default_: seq<Addr>, lib: ConfigLibrary): seq<Addr> {
    if value.None? then default_ else Or(ParseTrusted(value.value, lib), default_)
  }

  function GroupOr(value: Option<Bytes>, default_: Bytes): Bytes {
    if value.None? then default_ else Or(ParseLogGroup(value.value), default_)
  }

  function UmaskOr(value: Option<Bytes>, default_: int, lib: ConfigLibrary): int {
    if value.None? then default_ else Or(lib.parseOctal(value.value), default_)
  }

  function FormatOr(value: Option<Bytes>, default_: Bytes, lib: ConfigLibrary): Bytes {
    if value.None? then default_ else lib.toLower(value.value)
  }

  function AssembleNetwork(m: Values, lib: ConfigLibrary): Network {
    var d := DEFAULT.network;
    Network(
      bindIP := AddrOr(Get(m, BindIp), d.bindIP, lib),
      port := IntOr(Get(m, Port), d.port, lib),
      docRoot := PathOr(Get(m, DocRoot), d.docRoot, lib),
      extendFinger := FlagOr(Get(m, TplExtend), d.extendFinger, lib))
  }

  function AssembleTls(m: Values, lib: ConfigLibrary): Tls {
    var d := DEFAULT.tls;
    Tls(
      enable := TlsModeOr(Get(m, TlsEnable), d.enable, lib),
      port := IntOr(Get(m, TlsPort), d.port, lib),
      cert := PathOr(Get(m, TlsCert), d.cert, lib),
      key := PathOr(Get(m, TlsKey), d.key, lib),
      docRoot := PathOr(Get(m, TlsDocRoot), d.docRoot, lib),
      cgi := CgiOr(Get(m, TlsCgiEnable), d.cgi, lib))
  }

  function AssembleLimits(m: Values, lib: ConfigLibrary): Limits {
    var d := DEFAULT.limits;
    Limits(
      readTimeout := MillisOr(Get(m, ReadTimeoutMs), d.readTimeout, lib),
      writeTimeout := MillisOr(Get(m, WriteTimeoutMs), d.writeTimeout, lib),
      maxRequestBytes := IntOr(Get(m, MaxRequestBytes), d.maxRequestBytes, lib),
      cgiTimeout := MillisOr(Get(m, CgiTimeoutMs), d.cgiTimeout, lib),
      cgiMaxStdoutBytes := IntOr(Get(m, CgiMaxStdoutBytes), d.cgiMaxStdoutBytes, lib),
      maxResponseBytes := IntOr(Get(m, MaxResponseBytes), d.maxResponseBytes, lib))
  }

  function AssembleContent(m: Values, lib: ConfigLibrary): Content {
    var d := DEFAULT.content;
    Content(
      cgiEnable := FlagOr(Get(m, CgiEnable), d.cgiEnable, lib),
      tplEnable := FlagOr(Get(m, TplWrapper), d.tplEnable, lib),
      creditsEnable := FlagOr(Get(m, TplCredits), d.creditsEnable, lib),
      proxyProtocol := FlagOr(Get(m, ProxyProtocol), d.proxyProtocol, lib),
      trustedProxyIPs := AddrsOr(Get(m, TrustedProxyIps), d.trustedProxyIPs, lib))
  }

  function AssembleLogging(m: Values, lib: ConfigLibrary): Logging {
    var d := DEFAULT.logging;
    Logging(
      root := PathOr(Get(m, LogRoot), d.root, lib),
      group := GroupOr(Get(m, LogGroup), d.group),
      umask := UmaskOr(Get(m, LogUmask), d.umask, lib),
      format := FormatOr(Get(m, LogFormat), d.format, lib),
      errors := FlagOr(Get(m, LogErrors), d.errors, lib),
      requests := FlagOr(Get(m, LogRequests), d.requests, lib))
  }

  /** The configuration a set of key values amounts to. */
  function Assemble(m: Values, lib: ConfigLibrary): Config {
    Config(AssembleNetwork(m, lib), AssembleTls(m, lib), AssembleLimits(m, lib),
           AssembleContent(m, lib), AssembleLogging(m, lib))
  }

  /** Applying a setting to an assembled configuration is assembling with that setting. */
  lemma ApplyIsUpdate(m: Values, key: Key, value: Bytes, lib: ConfigLibrary)
    ensures WithValue(Assemble(m, lib), key, value, lib)
         == if ValidValue(key, value, lib) then Some(Assemble(m[key := value], lib)) else None
  {
    hide ValidValue;
    hide ApplyNetwork, AssembleNetwork;
    hide ApplyTls, AssembleTls;
    hide ApplyLimits, AssembleLimits;
    hide ApplyContent, AssembleContent;
    hide ApplyLogging, AssembleLogging;
    NetworkUpdate(m, key, value, lib);
    TlsUpdate(m, key, value, lib);
    LimitsUpdate(m, key, value, lib);
    ContentUpdate(m, key, value, lib);
    LoggingUpdate(m, key, value, lib);
  }

  lemma NetworkUpdate(m: Values, key: Key, value: Bytes, lib: ConfigLibrary)
    ensures IsNetworkKey(key) ==>
              ApplyNetwork(AssembleNetwork(m, lib), key, value, lib)
              == if ValidValue(key, value, lib) then Some(AssembleNetwork(m[key := value], lib)) else None
    ensures !IsNetworkKey(key) ==> AssembleNetwork(m[key := value], lib) == AssembleNetwork(m, lib)
  {
  }

  lemma TlsUpdate(m: Values, key: Key, value: Bytes, lib: ConfigLibrary)
    ensures IsTlsKey(key) ==>
              ApplyTls(AssembleTls(m, lib), key, value, lib)
              == if ValidValue(key, value, lib) then Some(AssembleTls(m[key := value], lib)) else None
    ensures !IsTlsKey(key) ==> AssembleTls(m[key := value], lib) == AssembleTls(m, lib)
  {
  }

  lemma LimitsUpdate(m: Values, key: Key, value: Bytes, lib: ConfigLibrary)
    ensures IsLimitsKey(key) ==>
              ApplyLimits(AssembleLimits(m, lib), key, value, lib)
              == if ValidValue(key, value, lib) then Some(AssembleLimits(m[key := value], lib)) else None
    ensures !IsLimitsKey(key) ==> AssembleLimits(m[key := value], lib) == AssembleLimits(m, lib)
  {
  }

  lemma ContentUpdate(m: Values, key: Key, value: Bytes, lib: ConfigLibrary)
    ensures IsContentKey(key) ==>
              ApplyContent(AssembleContent(m, lib), key, value, lib)
              == if ValidValue(key, value, lib) then Some(AssembleContent(m[key := value], lib)) else None
    ensures !IsContentKey(key) ==> AssembleContent(m[key := value], lib) == AssembleContent(m, lib)
  {
    hide ParsePositiveInt, ParseMillis, ParseYesNo, ParseTLSEnable, ParseLogGroup, ParseTrusted;
    hide IntOr, MillisOr, FlagOr, PathOr, AddrOr, TlsModeOr, CgiOr, AddrsOr, GroupOr, UmaskOr, FormatOr, Get, DEFAULT;
    GetUpdate(m, key, value);
    OwnField(value, lib);
  }

  lemma LoggingUpdate(m: Values, key: Key, value: Bytes, lib: ConfigLibrary)
    ensures IsLoggingKey(key) ==>
              ApplyLogging(AssembleLogging(m, lib), key, value, lib)
              == if ValidValue(key, value, lib) then Some(AssembleLogging(m[key := value], lib)) else None
    ensures !IsLoggingKey(key) ==> AssembleLogging(m[key := value], lib) == AssembleLogging(m, lib)
  {
    hide ParsePositiveInt, ParseMillis, ParseYesNo, ParseTLSEnable, ParseLogGroup, ParseTrusted;
    hide IntOr, MillisOr, FlagOr, PathOr, AddrOr, TlsModeOr, CgiOr, AddrsOr, GroupOr, UmaskOr, FormatOr, Get, DEFAULT;
    GetUpdate(m, key, value);
    OwnField(value, lib);
  }

  lemma GetUpdate(m: Values, key: Key, value: Bytes)
    ensures Get(m[key := value], key) == Some(value)
    ensures forall k :: k != key ==> Get(m[key := value], k) == Get(m, k)
  {
  }

  lemma OwnField(value: Bytes, lib: ConfigLibrary)
    ensures forall d :: IntOr(Some(value), d, lib) == Or(ParsePositiveInt(value, lib), d)
    ensures forall d :: MillisOr(Some(value), d, lib) == Or(ParseMillis(value, lib), d)
    ensures forall d :: FlagOr(Some(value), d, lib) == Or(ParseYesNo(value, lib), d)
    ensures forall d :: PathOr(Some(value), d, lib) == lib.clean(value)
    ensures forall d :: AddrOr(Some(value), d, lib) == lib.parseAddr(value)
    ensures forall d :: TlsModeOr(Some(value), d, lib) == Or(ParseTLSEnable(value, lib), d)
    ensures forall d :: CgiOr(Some(value), d, lib) == ParseYesNo(value, lib)
    ensures forall d :: AddrsOr(Some(value), d, lib) == Or(ParseTrusted(value, lib), d)
    ensures forall d :: GroupOr(Some(value), d) == Or(ParseLogGroup(value), d)
    ensures forall d :: UmaskOr(Some(value), d, lib) == Or(lib.parseOctal(value), d)
    ensures forall d :: FormatOr(Some(value), d, lib) == lib.toLower(value)
  {
  }

  // ----- Loading -----

  datatype LoadError = AtLine(lineNo: nat) | ScanFailed | MissingKey | Rejected

  type Loading = Result<Config, LoadError>

  /** A line that can be applied, whatever came before it. */
  predicate Applies(text: Bytes, lib: ConfigLibrary) {
    match ReadLine(text)
    case Skipped => true
    case Malformed => false
    case UnknownKey => false
    case Setting(key, value) => ValidValue(key, value, lib)
  }

  /** The number of lines before the first that cannot be applied. */
  function GoodLines(lines: seq<Bytes>, lib: ConfigLibrary): (n: nat)
    ensures n <= |lines|
  {
    if lines == [] || !Applies(lines[0], lib) then 0 else GoodLines(lines[1..], lib) + 1
  }

  lemma {:induction false} GoodLinesMeaning(lines: seq<Bytes>, lib: ConfigLibrary)
    ensures var n := GoodLines(lines, lib);
            && (forall i :: 0 <= i < n ==> Applies(lines[i], lib))
            && (n < |lines| ==> !Applies(lines[n], lib))
  {
    hide Applies;
    if lines != [] {
      GoodLinesMeaning(lines[1..], lib);
    }
  }

  function Assign(m: Values, text: Bytes): Values {
    match ReadLine(text)
    case Setting(key, value) => m[key := value]
    case _ => m
  }

  /** The last value each key is given. */
  function LastValues(lines: seq<Bytes>): Values {
    if lines == [] then map[] else Assign(LastValues(lines[..|lines| - 1]), lines[|lines| - 1])
  }

  /** `Load` on the lines of the file: each key's last value over the defaults, if that is acceptable. */
  function Loaded(lines: seq<Bytes>, scanFails: bool, lib: ConfigLibrary): Loading {
    var n := GoodLines(lines, lib);
    var m := LastValues(lines);
    if n < |lines| then Err(AtLine(n + 1))
    else if scanFails then Err(ScanFailed)
    else if !(BindIp in m && Port in m && DocRoot in m) then Err(MissingKey)
    else if !Validate(Assemble(m, lib), lib) then Err(Rejected)
    else Ok(Assemble(m, lib))
  }

  method Load(lines: seq<Bytes>, scanFails: bool, lib: ConfigLibrary) returns (r: Loading)
    ensures r == Loaded(lines, scanFails, lib)
  {
    hide ReadLine, ValidValue, WithValue, Assemble, Validate, DEFAULT;
    var cfg := new LiveConfig.Default();
    var required := map[BindIp := false, Port := false, DocRoot := false];
    NothingSet(lib);
    for lineNo := 0 to |lines|
      invariant lineNo <= GoodLines(lines, lib)
      invariant cfg.Value() == Assemble(LastValues(lines[..lineNo]), lib)
      invariant required.Keys == {BindIp, Port, DocRoot}
      invariant forall key :: key in required ==> (required[key] <==> key in LastValues(lines[..lineNo]))
    {
      var entry := ReadLine(lines[lineNo]);
      GoodLinesMeaning(lines, lib);
      LastValuesStep(lines, lineNo);
      match entry {
        case Skipped =>
        case Malformed => return Err(AtLine(lineNo + 1));
        case UnknownKey => return Err(AtLine(lineNo + 1));
        case Setting(key, value) =>
          if key in required {
            required := required[key := true];
          }
          ApplyIsUpdate(LastValues(lines[..lineNo]), key, value, lib);
          var ok := cfg.ApplyValue(key, value, lib);
          if !ok {
            return Err(AtLine(lineNo + 1));
          }
      }
    }
    assert lines[..|lines|] == lines;
    if scanFails {
      return Err(ScanFailed);
    }
    if exists key :: key in required && !required[key] {
      return Err(MissingKey);
    }
    assert required[BindIp] && required[Port] && required[DocRoot];
    var loaded := cfg.Snapshot();
    if !Validate(loaded, lib) {
      return Err(Rejected);
    }
    return Ok(loaded);
  }

  lemma NothingSet(lib: ConfigLibrary)
    ensures Assemble(map[], lib) == DEFAULT
  {
  }

  lemma LastValuesStep(lines: seq<Bytes>, i: nat)
    requires i < |lines|
    ensures LastValues(lines[..i + 1]) == Assign(LastValues(lines[..i]), lines[i])
  {
    assert lines[..i + 1][..i] == lines[..i];
  }

  // ----- Order of lines -----

  /** The values given to one key, in order. */
  function ValuesOf(lines: seq<Bytes>, key: Key): seq<Bytes> {
    if lines == [] then []
    else
      ValuesOf(lines[..|lines| - 1], key) +
      match ReadLine(lines[|lines| - 1])
      case Setting(k, value) => if k == key then [value] else []
      case _ => []
  }

  lemma {:induction false} LastOfValues(lines: seq<Bytes>, key: Key)
    ensures var vs := ValuesOf(lines, key);
            Get(LastValues(lines), key) == if vs == [] then None else Some(vs[|vs| - 1])
  {
    hide ReadLine;
    if lines != [] {
      LastOfValues(lines[..|lines| - 1], key);
    }
  }

  /** `b` has the lines of `a`, in any order that keeps the order of values of each key. */
  predicate Reordered(a: seq<Bytes>, b: seq<Bytes>) {
    multiset(a) == multiset(b) && forall key: Key :: ValuesOf(a, key) == ValuesOf(b, key)
  }

  /** Order matters only between lines of the same key: the verdict and the configuration are the same. */
  lemma OrderIndependent(a: seq<Bytes>, b: seq<Bytes>, scanFails: bool, lib: ConfigLibrary)
    requires Reordered(a, b)
    ensures Loaded(a, scanFails, lib).Ok? <==> Loaded(b, scanFails, lib).Ok?
    ensures Loaded(a, scanFails, lib).Ok? ==> Loaded(a, scanFails, lib) == Loaded(b, scanFails, lib)
  {
    hide ReadLine, ValidValue, Assemble, Validate;
    SameValues(a, b);
    SameVerdict(a, b, lib);
  }

  lemma SameValues(a: seq<Bytes>, b: seq<Bytes>)
    requires forall key: Key :: ValuesOf(a, key) == ValuesOf(b, key)
    ensures LastValues(a) == LastValues(b)
  {
    forall key: Key
      ensures Get(LastValues(a), key) == Get(LastValues(b), key)
    {
      LastOfValues(a, key);
      LastOfValues(b, key);
    }
    assert forall key :: key in LastValues(a) <==> Get(LastValues(a), key).Some?;
    assert forall key :: key in LastValues(b) <==> Get(LastValues(b), key).Some?;
  }

  lemma SameVerdict(a: seq<Bytes>, b: seq<Bytes>, lib: ConfigLibrary)
    requires multiset(a) == multiset(b)
    ensures GoodLines(a, lib) == |a| <==> GoodLines(b, lib) == |b|
  {
    forall text
      ensures text in a <==> text in b
    {
      assert text in multiset(a) <==> text in multiset(b);
    }
    AllGood(a, lib);
    AllGood(b, lib);
  }

  lemma AllGood(lines: seq<Bytes>, lib: ConfigLibrary)
    ensures GoodLines(lines, lib) == |lines| <==> forall text :: text in lines ==> Applies(text, lib)
  {
    hide Applies;
    var n := GoodLines(lines, lib);
    GoodLinesMeaning(lines, lib);
    assert n < |lines| ==> lines[n] in lines;
  }

  // ----- Listeners -----

  datatype ListenerMode = ListenerMode(tls: bool, port: int, docRoot: Bytes, cgi: bool)

  function ListenerModes(c: Config): seq<ListenerMode> {
    (if c.tls.enable != TlsStrict then
       [ListenerMode(false, c.network.port, c.network.docRoot, c.content.cgiEnable)]
     else [])
    + (if c.tls.enable != TlsNo then
         [ListenerMode(true, c.tls.port,
                       if c.tls.docRoot != [] then c.tls.docRoot else c.network.docRoot,
                       match c.tls.cgi case Some(b) => b case None => c.content.cgiEnable)]
       else [])
  }

  /** A configuration that loads starts one or two listeners, on distinct valid ports, over absolute roots. */
  lemma ListenersSound(lines: seq<Bytes>, scanFails: bool, lib: ConfigLibrary)
    requires Loaded(lines, scanFails, lib).Ok?
    ensures var modes := ListenerModes(Loaded(lines, scanFails, lib).value);
            && 1 <= |modes| <= 2
            && (forall i :: 0 <= i < |modes| ==> 1 <= modes[i].port <= 65535 && lib.isAbs(modes[i].docRoot))
            && (forall i, j :: 0 <= i < j < |modes| ==> modes[i].port != modes[j].port)
  {
    hide Assemble, GoodLines, LastValues;
  }
}
