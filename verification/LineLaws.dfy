/**
 Which request lines are accepted, and as what, written out in characters:
 internal/server/request.go.
 */
module LineLaws {
  import opened ByteStrings
  import opened Requests
  import opened RequestLaws
  import Spaces

  // ----- Characters -----

  /** A letter, a digit, a hyphen or an underscore. */
  predicate NameByte(b: byte) {
    var c := b as char;
    'a' <= c <= 'z' || 'A' <= c <= 'Z' || '0' <= c <= '9' || c == '-' || c == '_'
  }

  predicate TargetByte(b: byte) {
    NameByte(b) || b as char == '.' || b as char == '~'
  }

  predicate LiteralName(s: Bytes, max: nat) {
    1 <= |s| <= max && forall i :: 0 <= i < |s| ==> NameByte(s[i])
  }

  /** The last four bytes are a dot and three letters, in any mix of cases. */
  predicate EndsWith(t: Bytes, c1: char, C1: char, c2: char, C2: char, c3: char, C3: char) {
    && |t| >= 4 && t[|t| - 4] as char == '.'
    && (t[|t| - 3] as char == c1 || t[|t| - 3] as char == C1)
    && (t[|t| - 2] as char == c2 || t[|t| - 2] as char == C2)
    && (t[|t| - 1] as char == c3 || t[|t| - 1] as char == C3)
  }

  predicate LiteralTarget(t: Bytes) {
    && 1 <= |t| <= 64
    && (forall i :: 0 <= i < |t| ==> TargetByte(t[i]))
    && t[0] as char != '.' && t[|t| - 1] as char != '.'
    && (forall i :: 0 <= i < |t| - 1 ==> !(t[i] as char == '.' && t[i + 1] as char == '.'))
    && !EndsWith(t, 't', 'T', 'x', 'X', 't', 'T') && !EndsWith(t, 'c', 'C', 'g', 'G', 'i', 'I')
  }

  lemma SuffixLiteral(t: Bytes, suffix: Bytes)
    requires |suffix| == 4
    ensures HasSuffix(ToLower(t), suffix) <==> |t| >= 4 && ToLower(t[|t| - 4..]) == suffix
  {
    if |t| >= 4 {
      assert ToLower(t)[|t| - 4..] == ToLower(t[|t| - 4..]);
    }
  }

  lemma SuffixLetters(t: Bytes)
    ensures HasSuffix(ToLower(t), Ascii(".txt")) <==> EndsWith(t, 't', 'T', 'x', 'X', 't', 'T')
    ensures HasSuffix(ToLower(t), Ascii(".cgi")) <==> EndsWith(t, 'c', 'C', 'g', 'G', 'i', 'I')
  {
    hide HasSuffix;
    SuffixLiteral(t, Ascii(".txt"));
    SuffixLiteral(t, Ascii(".cgi"));
    if |t| >= 4 {
      var s := ToLower(t[|t| - 4..]);
      assert s == Ascii(".txt") <==> s[0] == 46 && s[1] == 116 && s[2] == 120 && s[3] == 116;
      assert s == Ascii(".cgi") <==> s[0] == 46 && s[1] == 99 && s[2] == 103 && s[3] == 105;
    }
  }

  lemma DotsLiteral(t: Bytes)
    ensures Contains(t, [DOT, DOT])
       <==> exists i :: 0 <= i < |t| - 1 && t[i] as char == '.' && t[i + 1] as char == '.'
  {
    forall i | 0 <= i < |t|
      ensures HasPrefix(t[i..], [DOT, DOT]) <==> i < |t| - 1 && t[i] == DOT && t[i + 1] == DOT
    {
      if i < |t| - 1 {
        assert t[i..][..2] == [t[i], t[i + 1]];
      }
    }
    if Contains(t, [DOT, DOT]) {
      var i :| 0 <= i < |t| && HasPrefix(t[i..], [DOT, DOT]);
      assert t[i] as char == '.' && t[i + 1] as char == '.';
    }
    if exists i :: 0 <= i < |t| - 1 && t[i] as char == '.' && t[i + 1] as char == '.' {
      var i :| 0 <= i < |t| - 1 && t[i] as char == '.' && t[i + 1] as char == '.';
      assert HasPrefix(t[i..], [DOT, DOT]);
    }
  }

  /** What the target test accepts. */
  lemma TargetLiteral(t: Bytes)
    ensures ValidTargetComponent(t) <==> LiteralTarget(t)
  {
    hide HasSuffix, Contains, EndsWith, ToLower;
    SuffixLetters(t);
    DotsLiteral(t);
    assert forall b :: IsTargetRune(b) <==> TargetByte(b);
  }

  // ----- Flags -----

  /** `token` is `/name`, or `/name=value`. */
  predicate LiteralFlag(token: Bytes, f: Flag) {
    && LiteralName(f.name, 32)
    && if f.bare then f.value == [] && token == Ascii("/") + f.name
       else LiteralName(f.value, 64) && token == Ascii("/") + f.name + Ascii("=") + f.value
  }

  /** What the flag parser accepts, and as which flag. */
  lemma FlagLiteral(token: Bytes, f: Flag)
    ensures ParseFlag(token) == Ok(f) <==> LiteralFlag(token, f)
  {
    hide ParseFlag;
    assert Ascii("/") == [SLASH] && Ascii("=") == [EQUALS];
    assert forall b :: IsFlagRune(b) <==> NameByte(b);
    assert LiteralFlag(token, f) <==> WellFormedFlag(f) && FlagToken(f) == token;
    if ParseFlag(token).Ok? {
      PrintParsedFlag(token);
    }
    if WellFormedFlag(f) {
      ParsePrintedFlag(f);
    }
  }

  // ----- Words -----

  /** `words` are the longest stretches of `line` without a space, in order. */
  predicate Spaced(line: Bytes, words: seq<Bytes>)
    decreases |line|
  {
    if line == [] then words == []
    else if line[0] as char == ' ' then Spaced(line[1..], words)
    else
      && words != [] && words[0] != [] && words[0] <= line
      && (forall i :: 0 <= i < |words[0]| ==> words[0][i] as char != ' ')
      && (|line| > |words[0]| ==> line[|words[0]|] as char == ' ')
      && Spaced(line[|words[0]|..], words[1..])
  }

  /** The words of a printable line are what stands between the spaces. */
  lemma {:induction false} FieldsSpaced(line: Bytes, words: seq<Bytes>)
    requires AllPrintable(line)
    ensures Fields(line) == words <==> Spaced(line, words)
    decreases |line|
  {
    hide WordLength;
    if line == [] {
    } else if line[0] == SPACE {
      FieldsSpaced(line[1..], words);
    } else {
      var n := WordLength(line);
      WordLengthSpans(line);
      PrintableBlank(line);
      assert n > 0;
      assert Fields(line) == [line[..n]] + Fields(line[n..]);
      if words != [] {
        WordUnique(line, n, words[0]);
        FieldsSpaced(line[n..], words[1..]);
        assert words == [words[0]] + words[1..];
      }
    }
  }

  lemma PrintableBlank(line: Bytes)
    requires AllPrintable(line)
    ensures forall i :: 0 <= i < |line| ==> (IsBlank(line[i]) <==> line[i] as char == ' ')
  {
  }

  /** Only one stretch from the front ends where the first space is. */
  lemma WordUnique(line: Bytes, n: nat, word: Bytes)
    requires n <= |line| && (forall i :: 0 <= i < n ==> line[i] as char != ' ')
    requires n < |line| ==> line[n] as char == ' '
    ensures word == line[..n]
       <==> word <= line && (forall i :: 0 <= i < |word| ==> word[i] as char != ' ')
            && (|line| > |word| ==> line[|word|] as char == ' ')
  {
    if word <= line && (forall i :: 0 <= i < |word| ==> word[i] as char != ' ')
       && (|line| > |word| ==> line[|word|] as char == ' ') {
      assert forall i :: 0 <= i < |word| ==> word[i] == line[i];
      assert |word| == n;
    }
  }

  // ----- Canonical forms -----

  /** The flags and the target with one space between them. */
  function Printed(flags: seq<Flag>, target: Bytes): Bytes {
    if flags == [] then target
    else
      (Ascii("/") + flags[0].name + if flags[0].bare then [] else Ascii("=") + flags[0].value)
      + (if |flags| == 1 && target == [] then [] else Ascii(" "))
      + Printed(flags[1..], target)
  }

  lemma TokenPrinted(f: Flag)
    ensures FlagToken(f) == Ascii("/") + f.name + if f.bare then [] else Ascii("=") + f.value
  {
    assert Ascii("/") == [SLASH] && Ascii("=") == [EQUALS];
    assert [SLASH] + f.name + [EQUALS] + f.value == [SLASH] + f.name + ([EQUALS] + f.value);
    assert [SLASH] + f.name + [] == [SLASH] + f.name;
  }

  lemma {:induction false} CanonicalLiteral(flags: seq<Flag>, target: Bytes)
    ensures Canonical(flags, target) == Printed(flags, target)
  {
    hide FlagToken;
    var parts := FlagTokens(flags) + if target == [] then [] else [target];
    if flags == [] {
      assert parts == if target == [] then [] else [target];
    } else {
      TokenPrinted(flags[0]);
      CanonicalLiteral(flags[1..], target);
      assert Ascii(" ") == [SPACE];
      assert parts == [FlagToken(flags[0])] + (FlagTokens(flags[1..]) + if target == [] then [] else [target]);
      assert parts[1..] == FlagTokens(flags[1..]) + if target == [] then [] else [target];
      if |parts| == 1 {
        assert Printed(flags[1..], target) == [];
      }
    }
  }

  // ----- Plain finger -----

  /** Every line, with its CRLF, on a plain finger listener. */
  lemma PlainLiterally(line: Bytes)
    ensures ParseRequest(line + [13, 10], Finger, false)
         == if line == [] then Ok(Request([], [], [], []))
            else if line == Ascii("/W") then Ok(Request(line, line, [], []))
            else if LiteralTarget(line) then Ok(Request(line, line, line, []))
            else if |line| > 3 && line[..3] == Ascii("/W ") && LiteralTarget(line[3..])
              then Ok(Request(line, line, line[3..], []))
            else Err(InvalidRequest)
  {
    hide ValidTargetComponent, LiteralTarget, TrimLineEnding, Spaces.TrimSpace, Canonical;
    var raw := line + [13, 10];
    TrimsCrlf(line);
    PlainAcceptedExactly(raw);
    if ParseFingerRequest(raw, false).Ok? { PlainAccepted(raw); }
    TargetLiteral(line);
    SlashWIsLiteral();
    TargetHasNoSlash(line);
    if HasPrefix(line, SLASH_W) { SlashWIsSlash(line); }
    if |line| >= 3 && line[..3] == SLASH_W + [SPACE] {
      TargetLiteral(line[3..]);
      StartsWithSlashW(line);
      assert line == SLASH_W + [SPACE] + line[3..];
    }
  }

  lemma SlashWIsLiteral()
    ensures SLASH_W == Ascii("/W") && SLASH_W + [SPACE] == Ascii("/W ")
  {
  }

  lemma TargetHasNoSlash(t: Bytes)
    ensures LiteralTarget(t) ==> !HasPrefix(t, [SLASH])
  {
  }

  /** A line that does not start with a slash names its target, or is refused. */
  lemma PlainTarget(t: Bytes)
    requires t != [] && t[0] as char != '/'
    ensures ParseRequest(t + [13, 10], Finger, false)
         == if LiteralTarget(t) then Ok(Request(t, t, t, [])) else Err(InvalidRequest)
  {
    hide LiteralTarget, ParseRequest;
    PlainLiterally(t);
    assert Ascii("/W")[0] as char == '/' && Ascii("/W ")[0] as char == '/';
    assert |t| > 3 ==> t[..3][0] == t[0];
  }

  // ----- Flags and a target -----

  /** The words are flags and then at most one target, with at most 16 different flag names. */
  predicate LiteralWords(words: seq<Bytes>, flags: seq<Flag>, target: Bytes) {
    && words != []
    && |words| == |flags| + (if target == [] then 0 else 1)
    && (forall i :: 0 <= i < |flags| ==> LiteralFlag(words[i], flags[i]))
    && (target != [] ==> LiteralTarget(target) && words[|flags|] == target)
    && |set i | 0 <= i < |flags| :: flags[i].name| <= 16
  }

  lemma WordsGrammatical(words: seq<Bytes>, flags: seq<Flag>, target: Bytes, protocol: Protocol)
    requires LiteralWords(words, flags, target) && !protocol.Other?
    ensures AllFlags(words[..|flags|]) && FlagsOf(words[..|flags|]) == flags
    ensures Grammatical(words, words[..|flags|], words[|flags|..], protocol)
    ensures target == if words[|flags|..] == [] then [] else words[|flags|..][0]
  {
    hide ParseFlag, LiteralFlag, LiteralTarget, ValidTargetComponent, ParseTarget;
    forall i | 0 <= i < |flags|
      ensures ParseFlag(words[i]) == Ok(flags[i])
    {
      FlagLiteral(words[i], flags[i]);
    }
    if target != [] {
      TargetLiteral(target);
      TargetIsWord(target);
    }
  }

  lemma GrammaticalWords(words: seq<Bytes>, flagTokens: seq<Bytes>, targets: seq<Bytes>, protocol: Protocol)
    requires Grammatical(words, flagTokens, targets, protocol)
    ensures LiteralWords(words, FlagsOf(flagTokens), if targets == [] then [] else targets[0])
  {
    hide ParseFlag, LiteralFlag, LiteralTarget, ValidTargetComponent, ParseTarget;
    var flags := FlagsOf(flagTokens);
    forall i | 0 <= i < |flags|
      ensures LiteralFlag(words[i], flags[i])
    {
      FlagLiteral(words[i], flags[i]);
    }
    if targets != [] {
      TargetParses(targets[0], protocol);
      TargetLiteral(targets[0]);
      NonEmptyTarget(targets[0]);
    }
  }

  lemma NonEmptyTarget(t: Bytes)
    requires LiteralTarget(t)
    ensures t != []
  {
  }

  /** The structured grammar, on the words of a line. */
  lemma StructuredLiterally(line: Bytes, words: seq<Bytes>, protocol: Protocol)
    requires Spaced(line, words) && !protocol.Other?
    ensures Structured(line, protocol).Ok?
       <==> (forall i :: 0 <= i < |line| ==> 0x20 <= line[i] <= 0x7E)
            && exists flags, target :: LiteralWords(words, flags, target)
    ensures forall flags, target ::
              LiteralWords(words, flags, target) && (forall i :: 0 <= i < |line| ==> 0x20 <= line[i] <= 0x7E)
              ==> Structured(line, protocol)
                  == Ok(Request(line, Printed(FirstByName(flags), target), target, FirstByName(flags)))
  {
    hide Spaced, Fields, Structured, Grammatical, LiteralWords, FirstByName, Canonical, Printed, ValidRequestRunes;
    RequestRunesAreBytes(line);
    if AllPrintable(line) {
      FieldsSpaced(line, words);
      if Structured(line, protocol).Ok? {
        var fs, ts := AcceptedGrammatical(line, protocol);
        GrammaticalWords(words, fs, ts, protocol);
      }
      forall flags, target | LiteralWords(words, flags, target)
        ensures Structured(line, protocol)
             == Ok(Request(line, Printed(FirstByName(flags), target), target, FirstByName(flags)))
      {
        WordsAccepted(line, words, flags, target, protocol);
      }
    } else {
      NotPrintable(line, protocol);
    }
  }

  lemma NotPrintable(line: Bytes, protocol: Protocol)
    requires !ValidRequestRunes(line)
    ensures Structured(line, protocol).Err?
  {
  }

  lemma WordsAccepted(line: Bytes, words: seq<Bytes>, flags: seq<Flag>, target: Bytes, protocol: Protocol)
    requires ValidRequestRunes(line) && Fields(line) == words && LiteralWords(words, flags, target) && !protocol.Other?
    ensures Structured(line, protocol)
         == Ok(Request(line, Printed(FirstByName(flags), target), target, FirstByName(flags)))
  {
    hide Fields, Structured, Grammatical, FirstByName, Canonical, Printed, ValidRequestRunes, ParseFlag;
    hide LiteralFlag, LiteralTarget;
    WordsGrammatical(words, flags, target, protocol);
    GrammaticalAccepted(line, words[..|flags|], words[|flags|..], protocol);
    CanonicalLiteral(FirstByName(flags), target);
  }

  /** A line with CRLF, on a fingers listener and on a finger listener with extensions. */
  lemma ExtendedLiterally(line: Bytes, words: seq<Bytes>, extendFinger: bool)
    requires Spaced(line, words) && line != []
    ensures ParseRequest(line + [13, 10], Finger, true) == ParseRequest(line + [13, 10], Fingers, extendFinger)
    ensures ParseRequest(line + [13, 10], Finger, true).Ok?
       <==> (forall i :: 0 <= i < |line| ==> 0x20 <= line[i] <= 0x7E)
            && exists flags, target :: LiteralWords(words, flags, target)
    ensures forall flags, target ::
              LiteralWords(words, flags, target) && (forall i :: 0 <= i < |line| ==> 0x20 <= line[i] <= 0x7E)
              ==> ParseRequest(line + [13, 10], Finger, true)
                  == Ok(Request(line, Printed(FirstByName(flags), target), target, FirstByName(flags)))
  {
    hide Spaced, Structured, LiteralWords, FirstByName, Printed, TrimLineEnding;
    TrimsCrlf(line);
    ExtendedIsFingers(line + [13, 10], extendFinger);
    StructuredLiterally(line, words, Finger);
  }

  // ----- Line ends -----

  /** A finger line may end in CRLF, LF, CR or nothing; a fingers line only in CRLF; empty lines are accepted. */
  lemma LineEndsAccepted(s: Bytes, extend: bool)
    requires s != [] ==> s[|s| - 1] != 10 && s[|s| - 1] != 13
    ensures ParseRequest(s + [10], Finger, extend) == ParseRequest(s + [13, 10], Finger, extend)
    ensures ParseRequest(s + [13], Finger, extend) == ParseRequest(s + [13, 10], Finger, extend)
    ensures ParseRequest(s, Finger, extend) == ParseRequest(s + [13, 10], Finger, extend)
    ensures ParseRequest(s + [10], Fingers, extend).Err?
    ensures ParseRequest(s + [13], Fingers, extend).Err? && ParseRequest(s, Fingers, extend).Err?
    ensures ParseRequest([13, 10], Finger, extend) == Ok(Request([], [], [], []))
    ensures ParseRequest([13, 10], Fingers, extend) == Ok(Request([], [], [], []))
    ensures forall name :: ParseRequest(s, Other(name), extend) == Err(InvalidRequest)
  {
    hide TrimLineEnding, HasSuffix, Structured, ValidTargetComponent, Spaces.TrimSpace, HasPrefix;
    TrimsCrlf(s);
    TrimsCrlf([]);
    assert [] + CRLF == CRLF;
    TrimsOne(s);
  }

  lemma EndsInByte(s: Bytes, x: byte)
    ensures HasSuffix(s, [x]) <==> s != [] && s[|s| - 1] == x
  {
    if s != [] { assert s[|s| - 1..] == [s[|s| - 1]]; }
  }

  lemma EndsInCrlf(s: Bytes)
    requires HasSuffix(s, CRLF)
    ensures |s| >= 2 && s[|s| - 2] == 13 && s[|s| - 1] == 10
  {
    assert s[|s| - 2..][0] == s[|s| - 2] && s[|s| - 2..][1] == s[|s| - 1];
  }

  lemma TrimsOne(s: Bytes)
    requires s != [] ==> s[|s| - 1] != 10 && s[|s| - 1] != 13
    ensures TrimLineEnding(s) == TrimLineEnding(s + [10]) == TrimLineEnding(s + [13]) == s
    ensures !HasSuffix(s, CRLF) && !HasSuffix(s + [10], CRLF) && !HasSuffix(s + [13], CRLF)
  {
    hide HasSuffix;
    EndsInByte(s, LF);
    EndsInByte(s, CR);
    EndsInByte(s + [10], LF);
    EndsInByte(s + [13], LF);
    EndsInByte(s + [13], CR);
    assert (s + [10])[..|s|] == s && (s + [13])[..|s|] == s;
    if HasSuffix(s, CRLF) { EndsInCrlf(s); }
    if HasSuffix(s + [10], CRLF) { EndsInCrlf(s + [10]); }
    if HasSuffix(s + [13], CRLF) { EndsInCrlf(s + [13]); }
  }
}
