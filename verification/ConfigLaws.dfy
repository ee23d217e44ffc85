/**
 What a configuration file means, by the words in its lines: `Load`,
 `applyValue`, `Validate` and the value parsers in internal/config/config.go.
 */
module ConfigLaws {
  import opened ByteStrings
  import opened Spaces
  import opened Proxy
  import opened ConfigFile

  // ----- Lines -----

  predicate Reads(s: Bytes, word: string) {
    |s| == |word| && forall i :: 0 <= i < |s| ==> s[i] as int == word[i] as int
  }

  /** A line that says nothing. */
  predicate Comment(text: Bytes) {
    var line := TrimSpace(text);
    line == [] || line[0] as char == '#' || line[0] as char == ';'
  }

  /** The line `name = v`: the name before the first equals sign, the value after it, white space aside. */
  predicate Gives(text: Bytes, name: string, v: Bytes) {
    var line := TrimSpace(text);
    && !Comment(text) && v != []
    && exists e :: 0 <= e < |line| && line[e] as char == '='
                   && (forall i :: 0 <= i < e ==> line[i] as char != '=')
                   && Reads(TrimSpace(line[..e]), name) && v == TrimSpace(line[e + 1..])
  }

  /** The value in the last line for `name`. */
  ghost predicate LastGiven(lines: seq<Bytes>, name: string, v: Bytes) {
    exists i :: 0 <= i < |lines| && Gives(lines[i], name, v)
                && forall j, w :: i < j < |lines| ==> !Gives(lines[j], name, w)
  }

  ghost predicate NeverGiven(lines: seq<Bytes>, name: string) {
    forall i, v :: 0 <= i < |lines| ==> !Gives(lines[i], name, v)
  }

  // ----- Names -----

  /** The key a name belongs to, by its length and one or two of its letters. */
  function KeyOf(s: string): Key {
    match |s|
    case 4 => Port
    case 7 => if s[0] == 'b' then BindIp else TlsKey
    case 8 =>
      if s[0] == 'd' then DocRoot
      else if s[0] == 'l' then LogRoot
      else if s[4] == 'p' then TlsPort
      else TlsCert
    case 9 => if s[4] == 'g' then LogGroup else LogUmask
    case 10 =>
      if s[0] == 'c' then CgiEnable
      else if s[0] == 'l' then (if s[4] == 'f' then LogFormat else LogErrors)
      else if s[1] == 'p' then TplExtend
      else TlsEnable
    case 11 => if s[4] == 'w' then TplWrapper else TplCredits
    case 12 => if s[0] == 't' then TlsDocRoot else LogRequests
    case 14 => if s[0] == 't' then TlsCgiEnable else if s[0] == 'c' then CgiTimeoutMs else ProxyProtocol
    case 15 => ReadTimeoutMs
    case 16 => WriteTimeoutMs
    case 17 => if s[0] == 'm' then MaxRequestBytes else TrustedProxyIps
    case 18 => MaxResponseBytes
    case _ => CgiMaxStdoutBytes
  }

  lemma KeyOfListenerName(key: Key)
    requires IsNetworkKey(key) || IsTlsKey(key)
    ensures KeyOf(KeyName(key)) == key && KeyName(key) != ""
  {
  }

  lemma KeyOfLimitName(key: Key)
    requires IsLimitsKey(key)
    ensures KeyOf(KeyName(key)) == key && KeyName(key) != ""
  {
  }

  lemma KeyOfContentName(key: Key)
    requires IsContentKey(key)
    ensures KeyOf(KeyName(key)) == key && KeyName(key) != ""
  {
  }

  lemma KeyOfLogName(key: Key)
    requires IsLoggingKey(key)
    ensures KeyOf(KeyName(key)) == key && KeyName(key) != ""
  {
  }

  lemma KeyOfName(key: Key)
    ensures KeyOf(KeyName(key)) == key && KeyName(key) != ""
  {
    hide KeyName, KeyOf;
    if IsNetworkKey(key) || IsTlsKey(key) { KeyOfListenerName(key); }
    if IsLimitsKey(key) { KeyOfLimitName(key); }
    if IsContentKey(key) { KeyOfContentName(key); }
    if IsLoggingKey(key) { KeyOfLogName(key); }
  }

  lemma LookUpExactly(name: Bytes, key: Key)
    ensures LookUp(KEYS, name) == Some(key) <==> Reads(name, KeyName(key))
  {
    hide KeyName, KeyOf;
    LookUpMeaning(KEYS, name);
    KeyListed(key);
    if LookUp(KEYS, name).Some? && Reads(name, KeyName(key)) {
      var found := LookUp(KEYS, name).value;
      assert KeyName(found) == KeyName(key);
      KeyOfName(found);
      KeyOfName(key);
    }
  }

  lemma SkippedExactly(text: Bytes)
    ensures ReadLine(text) == Skipped <==> Comment(text)
  {
    hide TrimSpace, LookUp;
  }

  /** Reading a line finds a setting exactly where the line gives one. */
  lemma GivesExactly(text: Bytes, key: Key, v: Bytes)
    ensures ReadLine(text) == Setting(key, v) <==> Gives(text, KeyName(key), v)
  {
    hide TrimSpace, LookUp, KeyName, Reads, IndexOf;
    var line := TrimSpace(text);
    var e := IndexOf(line, EQUALS);
    SkippedExactly(text);
    forall i | 0 <= i < e
      ensures line[i] as char != '='
    {
      assert line[i] == line[..e][i];
    }
    if e < |line| {
      LookUpExactly(TrimSpace(line[..e]), key);
      EmptyIsNoName(key);
    }
    if Gives(text, KeyName(key), v) {
      var d :| 0 <= d < |line| && line[d] as char == '=' && (forall i :: 0 <= i < d ==> line[i] as char != '=')
               && Reads(TrimSpace(line[..d]), KeyName(key)) && v == TrimSpace(line[d + 1..]);
      IndexUnique(line, EQUALS, d);
    }
  }

  lemma EmptyIsNoName(key: Key)
    ensures !Reads([], KeyName(key))
  {
    KeyOfName(key);
  }

  // ----- The last value -----

  lemma GivenOnce(text: Bytes, key: Key, v: Bytes, w: Bytes)
    requires Gives(text, KeyName(key), v) && Gives(text, KeyName(key), w)
    ensures v == w
  {
    GivesExactly(text, key, v);
    GivesExactly(text, key, w);
  }

  lemma LastGivenOnce(lines: seq<Bytes>, key: Key, v: Bytes, w: Bytes)
    requires LastGiven(lines, KeyName(key), v) && LastGiven(lines, KeyName(key), w)
    ensures v == w
  {
    hide Gives, KeyName;
    var name := KeyName(key);
    var i :| 0 <= i < |lines| && Gives(lines[i], name, v)
             && forall j, u :: i < j < |lines| ==> !Gives(lines[j], name, u);
    var k :| 0 <= k < |lines| && Gives(lines[k], name, w)
             && forall j, u :: k < j < |lines| ==> !Gives(lines[j], name, u);
    GivenOnce(lines[i], key, v, w);
  }

  lemma GivenByLast(lines: seq<Bytes>, name: string, v: Bytes)
    requires lines != [] && Gives(lines[|lines| - 1], name, v)
    ensures LastGiven(lines, name, v)
  {
  }

  /** A last line for something else changes nothing. */
  lemma GivenBefore(lines: seq<Bytes>, last: Bytes, name: string)
    requires lines != [] && last == lines[|lines| - 1] && forall w :: !Gives(last, name, w)
    ensures NeverGiven(lines[..|lines| - 1], name) ==> NeverGiven(lines, name)
    ensures forall v :: LastGiven(lines[..|lines| - 1], name, v) ==> LastGiven(lines, name, v)
  {
    hide Gives, LastGiven;
    var before := lines[..|lines| - 1];
    assert forall i :: 0 <= i < |lines| - 1 ==> lines[i] == before[i];
    forall v | LastGiven(before, name, v)
      ensures LastGiven(lines, name, v)
    {
      LastGivenKept(before, last, name, v);
      assert before + [last] == lines;
    }
  }

  lemma LastGivenKept(before: seq<Bytes>, last: Bytes, name: string, v: Bytes)
    requires LastGiven(before, name, v) && forall w :: !Gives(last, name, w)
    ensures LastGiven(before + [last], name, v)
  {
    hide Gives;
    var n := |before|;
    var i :| 0 <= i < n && Gives(before[i], name, v) && forall j, w :: i < j < n ==> !Gives(before[j], name, w);
    var lines := before + [last];
    assert Gives(lines[i], name, v);
    assert forall j :: 0 <= j <= n ==> lines[j] == if j < n then before[j] else last;
  }

  /** What the lines add up to for a key is the value last given to it. */
  lemma {:induction false} GivenValue(lines: seq<Bytes>, key: Key)
    ensures match Get(LastValues(lines), key)
            case Some(v) => LastGiven(lines, KeyName(key), v)
            case None => NeverGiven(lines, KeyName(key))
  {
    hide Gives, KeyName, ReadLine, LastGiven;
    if lines != [] {
      hide NeverGiven;
      var n := |lines| - 1;
      GivenValue(lines[..n], key);
      match ReadLine(lines[n]) {
        case Setting(k, v) =>
          if k == key {
            GivesExactly(lines[n], key, v);
            GivenByLast(lines, KeyName(key), v);
          } else {
            NotGiven(lines[n], key);
            GivenBefore(lines, lines[n], KeyName(key));
          }
        case _ =>
          NotGiven(lines[n], key);
          GivenBefore(lines, lines[n], KeyName(key));
      }
    }
  }

  lemma NotGiven(text: Bytes, key: Key)
    requires !(ReadLine(text).Setting? && ReadLine(text).key == key)
    ensures forall w :: !Gives(text, KeyName(key), w)
  {
    hide Gives, KeyName, ReadLine;
    forall w
      ensures !Gives(text, KeyName(key), w)
    {
      GivesExactly(text, key, w);
    }
  }

  // ----- What values mean -----

  ghost function FlagMeans(lib: ConfigLibrary): (Bytes, bool) -> bool {
    (v, b) => Reads(lib.toLower(TrimSpace(v)), if b then "yes" else "no")
  }

  ghost function NumberMeans(lib: ConfigLibrary): (Bytes, int) -> bool {
    (v, n) => lib.atoi(v) == Some(n) && n > 0
  }

  /** Nanoseconds for a number of milliseconds, as a signed 64-bit number. */
  predicate Nanoseconds(millis: int, d: int) {
    -0x8000_0000_0000_0000 <= d < 0x8000_0000_0000_0000
    && (d - millis * 1_000_000) % 0x1_0000_0000_0000_0000 == 0
  }

  /** Every number of milliseconds that fits (up to 292 years) is that many milliseconds. */
  lemma NanosecondsExact(millis: nat, d: int)
    requires millis <= 9_223_372_036_854
    ensures Nanoseconds(millis, d) <==> d == millis * 1_000_000
  {
  }

  ghost function MillisMeans(lib: ConfigLibrary): (Bytes, int) -> bool {
    (v, d) => exists n :: lib.atoi(v) == Some(n) && n > 0 && Nanoseconds(n, d)
  }

  ghost function PathMeans(lib: ConfigLibrary): (Bytes, Bytes) -> bool {
    (v, path) => path == lib.clean(v)
  }

  ghost function AddrMeans(lib: ConfigLibrary): (Bytes, Option<Addr>) -> bool {
    (v: Bytes, ip: Option<Addr>) => ip.Some? && lib.parseAddr(v) == ip
  }

  ghost function TlsModeMeans(lib: ConfigLibrary): (Bytes, TlsMode) -> bool {
    (v: Bytes, mode: TlsMode) =>
      Reads(lib.toLower(TrimSpace(v)),
            match mode case TlsNo => "no" case TlsBoth => "yes_both" case TlsStrict => "yes_strict")
  }

  ghost function CgiMeans(lib: ConfigLibrary): (Bytes, Option<bool>) -> bool {
    (v: Bytes, b: Option<bool>) => b.Some? && Reads(lib.toLower(TrimSpace(v)), if b.value then "yes" else "no")
  }

  function JoinCommas(parts: seq<Bytes>): Bytes {
    if parts == [] then []
    else if |parts| == 1 then parts[0]
    else parts[0] + Ascii(",") + JoinCommas(parts[1..])
  }

  /** The addresses between the commas, white space aside. */
  predicate AddrList(parts: seq<Bytes>, ips: seq<Addr>, lib: ConfigLibrary) {
    && |parts| == |ips| && parts != []
    && forall i :: 0 <= i < |ips| ==> COMMA !in parts[i] && lib.parseAddr(TrimSpace(parts[i])) == Some(ips[i])
  }

  ghost function AddrsMean(lib: ConfigLibrary): (Bytes, seq<Addr>) -> bool {
    (v, ips) =>
      if TrimSpace(v) == [] then ips == []
      else exists parts :: AddrList(parts, ips, lib) && JoinCommas(parts) == v
  }

  ghost function GroupMeans(): (Bytes, Bytes) -> bool {
    (v, group) =>
      && group == TrimSpace(v) && group != []
      && forall i :: 0 <= i < |group| ==> group[i] as char != ' ' && group[i] !in {9, 10, 13}
  }

  ghost function UmaskMeans(lib: ConfigLibrary): (Bytes, int) -> bool {
    (v, mask) => lib.parseOctal(v) == Some(mask)
  }

  ghost function FormatMeans(lib: ConfigLibrary): (Bytes, Bytes) -> bool {
    (v, format) => format == lib.toLower(v)
  }

  // ----- The parsers find the meanings -----

  lemma ReadsSpells(s: Bytes, word: string)
    ensures Reads(s, word) <==> Spells(s, word)
  {
  }

  lemma FlagParsed(v: Bytes, b: bool, lib: ConfigLibrary)
    ensures ParseYesNo(v, lib) == Some(b) <==> FlagMeans(lib)(v, b)
  {
    hide TrimSpace;
    ReadsSpells(lib.toLower(TrimSpace(v)), "yes");
    ReadsSpells(lib.toLower(TrimSpace(v)), "no");
  }

  lemma TlsModeParsed(v: Bytes, mode: TlsMode, lib: ConfigLibrary)
    ensures ParseTLSEnable(v, lib) == Some(mode) <==> TlsModeMeans(lib)(v, mode)
  {
    hide TrimSpace;
    var word := lib.toLower(TrimSpace(v));
    ReadsSpells(word, "no");
    ReadsSpells(word, "yes_both");
    ReadsSpells(word, "yes_strict");
  }

  lemma NumberParsed(v: Bytes, n: int, lib: ConfigLibrary)
    ensures ParsePositiveInt(v, lib) == Some(n) <==> NumberMeans(lib)(v, n)
  {
  }

  lemma WrapExactly(millis: int, d: int)
    ensures Wrap64(millis * 1_000_000) == d <==> Nanoseconds(millis, d)
  {
    var n := millis * 1_000_000;
    var q := n / 0x1_0000_0000_0000_0000;
    assert n == q * 0x1_0000_0000_0000_0000 + n % 0x1_0000_0000_0000_0000;
  }

  lemma MillisParsed(v: Bytes, d: int, lib: ConfigLibrary)
    ensures ParseMillis(v, lib) == Some(d) <==> MillisMeans(lib)(v, d)
  {
    hide Wrap64, Nanoseconds;
    if lib.atoi(v).Some? { WrapExactly(lib.atoi(v).value, d); }
  }

  lemma GroupParsed(v: Bytes, group: Bytes)
    ensures ParseLogGroup(v) == Some(group) <==> GroupMeans()(v, group)
  {
    hide TrimSpace;
  }

  lemma {:induction false} SplitCommas(parts: seq<Bytes>)
    requires parts != [] && forall i :: 0 <= i < |parts| ==> COMMA !in parts[i]
    ensures Split(JoinCommas(parts), COMMA) == parts
  {
    var s := JoinCommas(parts);
    var first := parts[0];
    assert Ascii(",") == [COMMA];
    if |parts| == 1 {
      IndexAbsent(s, COMMA);
    } else {
      assert s == first + ([COMMA] + JoinCommas(parts[1..]));
      assert s[..|first|] == first && s[|first| + 1..] == JoinCommas(parts[1..]);
      IndexUnique(s, COMMA, |first|);
      SplitCommas(parts[1..]);
    }
  }

  lemma {:induction false} JoinSplitCommas(s: Bytes)
    ensures JoinCommas(Split(s, COMMA)) == s
    ensures forall i :: 0 <= i < |Split(s, COMMA)| ==> COMMA !in Split(s, COMMA)[i]
    decreases |s|
  {
    hide IndexOf;
    var i := IndexOf(s, COMMA);
    assert Ascii(",") == [COMMA];
    if i == |s| {
      IndexAbsent(s, COMMA);
    } else {
      var rest := s[i + 1..];
      JoinSplitCommas(rest);
      assert Split(s, COMMA) == [s[..i]] + Split(rest, COMMA);
      assert Split(s, COMMA)[1..] == Split(rest, COMMA);
      assert s == s[..i] + [COMMA] + rest;
    }
  }

  predicate ParsedEach(parts: seq<Bytes>, ips: seq<Addr>, lib: ConfigLibrary) {
    |parts| == |ips| && forall i :: 0 <= i < |ips| ==> lib.parseAddr(TrimSpace(parts[i])) == Some(ips[i])
  }

  lemma ParsedEachStep(part: Bytes, parts: seq<Bytes>, ip: Addr, ips: seq<Addr>, lib: ConfigLibrary)
    ensures ParsedEach([part] + parts, [ip] + ips, lib)
       <==> lib.parseAddr(TrimSpace(part)) == Some(ip) && ParsedEach(parts, ips, lib)
  {
    hide TrimSpace;
    if ParsedEach([part] + parts, [ip] + ips, lib) {
      assert ([part] + parts)[0] == part && ([ip] + ips)[0] == ip;
      forall i | 0 <= i < |ips|
        ensures lib.parseAddr(TrimSpace(parts[i])) == Some(ips[i])
      {
        assert ([part] + parts)[i + 1] == parts[i] && ([ip] + ips)[i + 1] == ips[i];
      }
    }
  }

  lemma {:induction false} AddrsParsedEach(parts: seq<Bytes>, ips: seq<Addr>, lib: ConfigLibrary)
    ensures ParseAddrs(parts, lib) == Some(ips) <==> ParsedEach(parts, ips, lib)
  {
    hide TrimSpace;
    if parts != [] && ips != [] {
      AddrsParsedEach(parts[1..], ips[1..], lib);
      ParsedEachStep(parts[0], parts[1..], ips[0], ips[1..], lib);
      assert parts == [parts[0]] + parts[1..] && ips == [ips[0]] + ips[1..];
    }
  }

  lemma AddrsParsed(v: Bytes, ips: seq<Addr>, lib: ConfigLibrary)
    ensures ParseTrusted(v, lib) == Some(ips) <==> AddrsMean(lib)(v, ips)
  {
    hide TrimSpace, ParseAddrs, Split, JoinCommas;
    var parts := Split(v, COMMA);
    JoinSplitCommas(v);
    AddrsParsedEach(parts, ips, lib);
    if exists ps :: AddrList(ps, ips, lib) && JoinCommas(ps) == v {
      var ps :| AddrList(ps, ips, lib) && JoinCommas(ps) == v;
      SplitCommas(ps);
    }
    if TrimSpace(v) != [] && ParseTrusted(v, lib) == Some(ips) {
      assert AddrList(parts, ips, lib);
    }
  }
}
