/**
 The request grammar: internal/server/request.go.
 */
module Requests {
  import opened ByteStrings
  import Utf8
  import Spaces

  const SLASH: byte := 47
  const AT: byte := 64
  const DOT: byte := 46
  const HYPHEN: byte := 45
  const UNDERSCORE: byte := 95
  const TILDE: byte := 126
  const SLASH_W: Bytes := [47, 87]

  const MAX_TARGET_BYTES := 64
  const MAX_FLAG_NAME_BYTES := 32
  const MAX_FLAG_VALUE_BYTES := 64
  const MAX_FLAGS := 16

  datatype Protocol = Finger | Fingers | Other(name: Bytes)

  datatype Flag = Flag(name: Bytes, value: Bytes, bare: bool)

  datatype Request = Request(raw: Bytes, canonical: Bytes, target: Bytes, flags: seq<Flag>)

  datatype Invalid = InvalidRequest

  type Parsed = Result<Request, Invalid>

  // ----- Lexical level -----

  function TrimLineEnding(s: Bytes): Bytes {
    TrimSuffix(TrimSuffix(s, [LF]), [CR])
  }

  predicate RequestRune(r: int) {
    r == 32 || !(r < 0x21 || r > 0x7E)
  }

  /** Every rune of the line is a space or printable ASCII. */
  predicate ValidRequestRunes(line: Bytes) {
    var rs := Utf8.Runes(line);
    forall i :: 0 <= i < |rs| ==> RequestRune(rs[i])
  }

  predicate IsBlank(b: byte) {
    9 <= b <= 13 || b == SPACE
  }

  /** Length of the word `s` starts with. */
  function WordLength(s: Bytes): (n: nat)
    ensures n <= |s|
  {
    if s == [] || IsBlank(s[0]) then 0 else WordLength(s[1..]) + 1
  }

  /** `strings.Fields`, for the printable ASCII lines it is called on. */
  function Fields(s: Bytes): seq<Bytes>
    decreases |s|
  {
    if s == [] then []
    else if IsBlank(s[0]) then Fields(s[1..])
    else [s[..WordLength(s)]] + Fields(s[WordLength(s)..])
  }

  /** `strings.Join(parts, " ")`. */
  function JoinWords(parts: seq<Bytes>): Bytes {
    if parts == [] then []
    else if |parts| == 1 then parts[0]
    else parts[0] + [SPACE] + JoinWords(parts[1..])
  }

  // ----- Flags and targets -----

  predicate IsAlphaNum(b: byte) {
    97 <= b <= 122 || 65 <= b <= 90 || 48 <= b <= 57
  }

  predicate IsFlagRune(b: byte) {
    IsAlphaNum(b) || b == HYPHEN || b == UNDERSCORE
  }

  predicate IsTargetRune(b: byte) {
    IsAlphaNum(b) || b == HYPHEN || b == UNDERSCORE || b == DOT || b == TILDE
  }

  predicate ValidFlagName(s: Bytes) {
    0 < |s| <= MAX_FLAG_NAME_BYTES && forall i :: 0 <= i < |s| ==> IsFlagRune(s[i])
  }

  predicate ValidFlagValue(s: Bytes) {
    0 < |s| <= MAX_FLAG_VALUE_BYTES && forall i :: 0 <= i < |s| ==> IsFlagRune(s[i])
  }

  function ParseFlag(token: Bytes): Result<Flag, Invalid> {
    if |token| < 2 || token[0] != SLASH then Err(InvalidRequest)
    else
      var body := token[1..];
      var eq := IndexOf(body, EQUALS);
      if Count(body, EQUALS) > 1 then Err(InvalidRequest)
      else if eq < |body| then
        if !ValidFlagName(body[..eq]) || !ValidFlagValue(body[eq + 1..]) then Err(InvalidRequest)
        else Ok(Flag(body[..eq], body[eq + 1..], false))
      else if !ValidFlagName(body) then Err(InvalidRequest)
      else Ok(Flag(body, [], true))
  }

  function ToLower(s: Bytes): Bytes {
    seq(|s|, i requires 0 <= i < |s| => if 65 <= s[i] <= 90 then s[i] + 32 else s[i])
  }

  predicate Contains(s: Bytes, t: Bytes) {
    exists i :: 0 <= i < |s| && HasPrefix(s[i..], t)
  }

  predicate ValidTargetComponent(s: Bytes) {
    && 0 < |s| <= MAX_TARGET_BYTES
    && !HasSuffix(ToLower(s), Ascii(".txt")) && !HasSuffix(ToLower(s), Ascii(".cgi"))
    && s[0] != DOT && s[|s| - 1] != DOT && !Contains(s, [DOT, DOT])
    && forall i :: 0 <= i < |s| ==> IsTargetRune(s[i])
  }

  function ParseTarget(token: Bytes, protocol: Protocol): Result<Bytes, Invalid> {
    match protocol
    case Finger =>
      if AT in token || !ValidTargetComponent(token) then Err(InvalidRequest) else Ok(token)
    case Fingers =>
      if AT in token then Err(InvalidRequest)
      else if !ValidTargetComponent(token) then Err(InvalidRequest)
      else Ok(token)
    case Other(_) => Err(InvalidRequest)
  }

  // ----- Printing -----

  function FlagToken(f: Flag): Bytes {
    if f.bare then [SLASH] + f.name else [SLASH] + f.name + [EQUALS] + f.value
  }

  function FlagTokens(flags: seq<Flag>): seq<Bytes> {
    seq(|flags|, i requires 0 <= i < |flags| => FlagToken(flags[i]))
  }

  function Canonical(flags: seq<Flag>, target: Bytes): Bytes {
    JoinWords(FlagTokens(flags) + if target == [] then [] else [target])
  }

  method BuildCanonicalRequest(flags: seq<Flag>, target: Bytes) returns (r: Bytes)
    ensures r == Canonical(flags, target)
  {
    var parts: seq<Bytes> := [];
    for i := 0 to |flags|
      invariant parts == FlagTokens(flags[..i])
    {
      if flags[i].bare {
        parts := parts + [[SLASH] + flags[i].name];
        continue;
      }
      parts := parts + [[SLASH] + flags[i].name + [EQUALS] + flags[i].value];
    }
    assert flags[..|flags|] == flags;
    if target != [] {
      parts := parts + [target];
    } else {
      assert parts == parts + [];
    }
    r := JoinWords(parts);
  }

  // ----- The structured grammar -----

  /** How many tokens stand before the first one that does not start with a slash. */
  function LeadingFlags(tokens: seq<Bytes>): (k: nat)
    ensures k <= |tokens|
    ensures forall i :: 0 <= i < k ==> HasPrefix(tokens[i], [SLASH])
    ensures k < |tokens| ==> !HasPrefix(tokens[k], [SLASH])
  {
    if tokens == [] || !HasPrefix(tokens[0], [SLASH]) then 0 else LeadingFlags(tokens[1..]) + 1
  }

  predicate AllFlags(tokens: seq<Bytes>) {
    forall i :: 0 <= i < |tokens| ==> ParseFlag(tokens[i]).Ok?
  }

  function FlagsOf(tokens: seq<Bytes>): seq<Flag>
    requires AllFlags(tokens)
  {
    seq(|tokens|, i requires 0 <= i < |tokens| => ParseFlag(tokens[i]).value)
  }

  predicate Named(flags: seq<Flag>, name: Bytes) {
    exists i :: 0 <= i < |flags| && flags[i].name == name
  }

  /** The flags no earlier flag shares a name with, in order. */
  function FirstByName(flags: seq<Flag>): seq<Flag> {
    if flags == [] then []
    else
      var n := |flags| - 1;
      FirstByName(flags[..n]) + if Named(flags[..n], flags[n].name) then [] else [flags[n]]
  }

  predicate DistinctNames(flags: seq<Flag>) {
    forall i, j :: 0 <= i < j < |flags| ==> flags[i].name != flags[j].name
  }

  /** The distinct flags of a line and its target token (empty if there is none). */
  datatype Collected = Collected(flags: seq<Flag>, targetToken: Bytes)

  /** Tokens are flags and then at most one target, with a bounded number of distinct flag names. */
  function Collect(tokens: seq<Bytes>): Result<Collected, Invalid> {
    var k := LeadingFlags(tokens);
    if |tokens| > k + 1 || !AllFlags(tokens[..k]) || |FirstByName(FlagsOf(tokens[..k]))| > MAX_FLAGS
    then Err(InvalidRequest)
    else Ok(Collected(FirstByName(FlagsOf(tokens[..k])), if k < |tokens| then tokens[k] else []))
  }

  function Structured(line: Bytes, protocol: Protocol): Parsed {
    if !ValidRequestRunes(line) || Fields(line) == [] || Collect(Fields(line)).Err? then Err(InvalidRequest)
    else
      var c := Collect(Fields(line)).value;
      if c.targetToken == [] then Ok(Request(line, Canonical(c.flags, []), [], c.flags))
      else
        match ParseTarget(c.targetToken, protocol)
        case Err(e) => Err(e)
        case Ok(target) => Ok(Request(line, Canonical(c.flags, target), target, c.flags))
  }

  method ParseStructuredRequest(line: Bytes, protocol: Protocol) returns (r: Parsed)
    ensures r == Structured(line, protocol)
  {
    if !ValidRequestRunes(line) {
      return Err(InvalidRequest);
    }
    var tokens := Fields(line);
    if |tokens| == 0 {
      return Err(InvalidRequest);
    }
    FieldsAreWords(line);
    var collected := CollectTokens(tokens);
    if collected.Err? {
      return Err(InvalidRequest);
    }
    var flags, target := collected.value.flags, [];
    if collected.value.targetToken != [] {
      var parsed := ParseTarget(collected.value.targetToken, protocol);
      if parsed.Err? {
        return Err(parsed.error);
      }
      target := parsed.value;
    }
    var canonical := BuildCanonicalRequest(flags, target);
    return Ok(Request(line, canonical, target, flags));
  }

  /** The token loop of `parseStructuredRequest`. */
  method CollectTokens(tokens: seq<Bytes>) returns (r: Result<Collected, Invalid>)
    requires AllWords(tokens)
    ensures r == Collect(tokens)
  {
    hide ParseFlag, FirstByName;
    ghost var k := LeadingFlags(tokens);
    var flags: seq<Flag> := [];
    var seenFlags: set<Bytes> := {};
    var targetToken: Bytes := [];
    NothingSeen(tokens);
    for i := 0 to |tokens|
      invariant targetToken == [] ==> Seen(tokens, i, flags)
      invariant targetToken != [] ==> i == k + 1 && targetToken == tokens[k] && Seen(tokens, k, flags)
      invariant |flags| <= MAX_FLAGS
      invariant forall name :: name in seenFlags <==> Named(flags, name)
    {
      var token := tokens[i];
      if HasPrefix(token, [SLASH]) {
        if targetToken != [] {
          return Err(InvalidRequest);
        }
        var flag := ParseFlag(token);
        if flag.Err? {
          BadFlag(tokens, i);
          return Err(InvalidRequest);
        }
        FlagStep(tokens, i, flags);
        NamedAfter(flags, flag.value);
        if flag.value.name in seenFlags {
          continue;
        }
        if |flags| >= MAX_FLAGS {
          TooManyFlags(tokens, i + 1, flags + [flag.value]);
          return Err(InvalidRequest);
        }
        seenFlags := seenFlags + {flag.value.name};
        flags := flags + [flag.value];
        continue;
      }
      if targetToken != [] {
        return Err(InvalidRequest);
      }
      targetToken := token;
    }
    return Ok(Collected(flags, targetToken));
  }

  /** The first `n` tokens are flags, and `flags` is what they amount to. */
  predicate Seen(tokens: seq<Bytes>, n: nat, flags: seq<Flag>) {
    n <= LeadingFlags(tokens) && AllFlags(tokens[..n]) && flags == FirstByName(FlagsOf(tokens[..n]))
  }

  lemma NothingSeen(tokens: seq<Bytes>)
    ensures Seen(tokens, 0, [])
  {
  }

  lemma FlagStep(tokens: seq<Bytes>, i: nat, flags: seq<Flag>)
    requires i < |tokens| && HasPrefix(tokens[i], [SLASH]) && ParseFlag(tokens[i]).Ok? && Seen(tokens, i, flags)
    ensures var f := ParseFlag(tokens[i]).value;
            Seen(tokens, i + 1, if Named(flags, f.name) then flags else flags + [f])
  {
    hide ParseFlag;
    var f := ParseFlag(tokens[i]).value;
    var before := FlagsOf(tokens[..i]);
    assert AllFlags(tokens[..i + 1]);
    var all := FlagsOf(tokens[..i + 1]);
    assert all[..i] == before && all[i] == f;
    SameNames(before, f.name);
    assert flags + [] == flags;
  }

  lemma BadFlag(tokens: seq<Bytes>, i: nat)
    requires i < LeadingFlags(tokens) && ParseFlag(tokens[i]).Err?
    ensures Collect(tokens) == Err(InvalidRequest)
  {
    assert tokens[..LeadingFlags(tokens)][i] == tokens[i];
  }

  /** Once one distinct name too many has been seen, the whole line is rejected. */
  lemma TooManyFlags(tokens: seq<Bytes>, n: nat, flags: seq<Flag>)
    requires Seen(tokens, n, flags) && |flags| > MAX_FLAGS
    ensures Collect(tokens) == Err(InvalidRequest)
  {
    var k := LeadingFlags(tokens);
    if AllFlags(tokens[..k]) {
      FewerFlagsBefore(tokens[..k], n);
      assert tokens[..k][..n] == tokens[..n];
    }
  }

  // ----- The three entry points -----

  function ParseFingerRequest(rawLine: Bytes, extendFinger: bool): Parsed {
    var line := TrimLineEnding(rawLine);
    if line == [] then Ok(Request([], [], [], []))
    else if extendFinger then Structured(line, Finger)
    else if line == SLASH_W then Ok(Request(line, SLASH_W, [], []))
    else if HasPrefix(line, SLASH_W) then
      if !HasPrefix(line, SLASH_W + [SPACE]) then Err(InvalidRequest)
      else
        var target := line[3..];
        if target == [] || Spaces.TrimSpace(target) != target || !ValidTargetComponent(target)
        then Err(InvalidRequest)
        else Ok(Request(line, SLASH_W + [SPACE] + target, target, []))
    else if !ValidTargetComponent(line) then Err(InvalidRequest)
    else Ok(Request(line, line, line, []))
  }

  function ParseFingersRequest(rawLine: Bytes): Parsed {
    if !HasSuffix(rawLine, CRLF) then Err(InvalidRequest)
    else
      var line := TrimSuffix(rawLine, CRLF);
      if !Utf8.Valid(line) then Err(InvalidRequest)
      else if line == [] then Ok(Request([], [], [], []))
      else Structured(line, Fingers)
  }

  function ParseRequest(rawLine: Bytes, protocol: Protocol, extendFinger: bool): Parsed {
    match protocol
    case Finger => ParseFingerRequest(rawLine, extendFinger)
    case Fingers => ParseFingersRequest(rawLine)
    case Other(_) => Err(InvalidRequest)
  }

  // ----- Words -----

  predicate Word(s: Bytes) {
    s != [] && forall i :: 0 <= i < |s| ==> !IsBlank(s[i])
  }

  predicate AllWords(parts: seq<Bytes>) {
    forall i :: 0 <= i < |parts| ==> Word(parts[i])
  }

  lemma {:induction false} WordLengthOf(w: Bytes, rest: Bytes)
    requires (forall i :: 0 <= i < |w| ==> !IsBlank(w[i])) && (rest == [] || IsBlank(rest[0]))
    ensures WordLength(w + rest) == |w|
  {
    if w == [] {
      assert w + rest == rest;
    } else {
      assert (w + rest)[1..] == w[1..] + rest;
      WordLengthOf(w[1..], rest);
    }
  }

  lemma FieldsWord(w: Bytes, rest: Bytes)
    requires Word(w) && (rest == [] || IsBlank(rest[0]))
    ensures Fields(w + rest) == [w] + Fields(rest)
  {
    WordLengthOf(w, rest);
    assert (w + rest)[..|w|] == w && (w + rest)[|w|..] == rest;
  }

  /** Splitting undoes joining. */
  lemma {:induction false} FieldsOfJoin(parts: seq<Bytes>)
    requires AllWords(parts)
    ensures Fields(JoinWords(parts)) == parts
  {
    if |parts| == 1 {
      FieldsWord(parts[0], []);
      assert parts[0] + [] == parts[0];
    } else if |parts| > 1 {
      var rest := JoinWords(parts[1..]);
      FieldsOfJoin(parts[1..]);
      FieldsWord(parts[0], [SPACE] + rest);
      assert ([SPACE] + rest)[1..] == rest;
      assert parts[0] + ([SPACE] + rest) == parts[0] + [SPACE] + rest;
    }
  }

  lemma {:induction false} WordLengthSpans(s: Bytes)
    ensures forall i :: 0 <= i < WordLength(s) ==> !IsBlank(s[i])
    ensures WordLength(s) < |s| ==> IsBlank(s[WordLength(s)])
  {
    if s != [] && !IsBlank(s[0]) {
      WordLengthSpans(s[1..]);
      assert forall i :: 0 < i < |s| ==> s[i] == s[1..][i - 1];
    }
  }

  lemma {:induction false} FieldsAreWords(s: Bytes)
    ensures AllWords(Fields(s))
    decreases |s|
  {
    if s != [] {
      if IsBlank(s[0]) {
        FieldsAreWords(s[1..]);
      } else {
        WordLengthSpans(s);
        FieldsAreWords(s[WordLength(s)..]);
      }
    }
  }

  // ----- First occurrences -----

  lemma {:induction false} SameNames(flags: seq<Flag>, name: Bytes)
    ensures Named(FirstByName(flags), name) <==> Named(flags, name)
  {
    if flags != [] {
      var n := |flags| - 1;
      SameNames(flags[..n], name);
      SameNames(flags[..n], flags[n].name);
      NamedAfter(flags[..n], flags[n]);
      assert flags == flags[..n] + [flags[n]];
      assert FirstByName(flags[..n]) + [] == FirstByName(flags[..n]);
      NamedAfter(FirstByName(flags[..n]), flags[n]);
    }
  }

  lemma NamedAfter(flags: seq<Flag>, f: Flag)
    ensures forall name :: Named(flags + [f], name) <==> Named(flags, name) || name == f.name
  {
    forall name
      ensures Named(flags + [f], name) <==> Named(flags, name) || name == f.name
    {
      var all := flags + [f];
      assert all[|flags|] == f;
      if Named(flags, name) {
        var i :| 0 <= i < |flags| && flags[i].name == name;
        assert all[i].name == name;
      }
    }
  }

  lemma {:induction false} FewerFlagsBefore(tokens: seq<Bytes>, i: nat)
    requires i <= |tokens| && AllFlags(tokens)
    ensures AllFlags(tokens[..i])
    ensures |FirstByName(FlagsOf(tokens[..i]))| <= |FirstByName(FlagsOf(tokens))|
    decreases |tokens|
  {
    if i == |tokens| {
      assert tokens[..i] == tokens;
    } else {
      var n := |tokens| - 1;
      FewerFlagsBefore(tokens[..n], i);
      assert tokens[..n][..i] == tokens[..i];
      assert FlagsOf(tokens)[..n] == FlagsOf(tokens[..n]);
    }
  }
}
