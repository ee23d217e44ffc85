/**
 What holds of every request line: which lines are accepted, how parsing and
 printing undo each other, and how the three entry points relate.
 */
module RequestLaws {
  import opened ByteStrings
  import opened Requests
  import Utf8
  import Spaces

  // ----- Runes and bytes of a line -----

  predicate Printable(b: byte) {
    0x20 <= b <= 0x7E
  }

  predicate AllPrintable(s: Bytes) {
    forall i :: 0 <= i < |s| ==> Printable(s[i])
  }

  /** Checking runes is checking bytes: malformed UTF-8 never passes. */
  lemma {:induction false} RequestRunesAreBytes(line: Bytes)
    ensures ValidRequestRunes(line) <==> AllPrintable(line)
    ensures ValidRequestRunes(line) ==> Utf8.Valid(line)
  {
    if line != [] {
      var n := Utf8.Width(line);
      var rest := line[n..];
      RequestRunesAreBytes(rest);
      Utf8.AsciiFront(line);
      var rs := Utf8.Runes(line);
      assert rs == [Utf8.Front(line)] + Utf8.Runes(rest);
      assert forall i :: 0 < i < |rs| ==> rs[i] == Utf8.Runes(rest)[i - 1];
      assert forall i :: 0 <= i < |rest| ==> rest[i] == line[i + n];
      assert ValidRequestRunes(line) <==>
        (RequestRune(Utf8.Front(line)) && ValidRequestRunes(rest)) by {
          PrependRune(Utf8.Front(line), Utf8.Runes(rest));
        }
      if line[0] < 0x80 {
        assert n == 1;
        assert AllPrintable(line) <==> Printable(line[0]) && AllPrintable(rest) by {
          assert forall i :: 0 < i < |line| ==> line[i] == rest[i - 1];
        }
      }
    }
  }

  lemma PrependRune(r: int, rs: seq<int>)
    ensures (forall i :: 0 <= i < |[r] + rs| ==> RequestRune(([r] + rs)[i]))
       <==> (RequestRune(r) && forall i :: 0 <= i < |rs| ==> RequestRune(rs[i]))
  {
    var all := [r] + rs;
    assert all[0] == r;
    assert forall i :: 0 <= i < |rs| ==> all[i + 1] == rs[i];
  }

  // ----- Words of a line -----

  function WithoutBlanks(s: Bytes): Bytes {
    if s == [] then [] else (if IsBlank(s[0]) then [] else [s[0]]) + WithoutBlanks(s[1..])
  }

  lemma {:induction false} WithoutBlanksConcat(a: Bytes, b: Bytes)
    ensures WithoutBlanks(a + b) == WithoutBlanks(a) + WithoutBlanks(b)
  {
    if a == [] {
      assert a + b == b;
    } else {
      assert (a + b)[1..] == a[1..] + b;
      WithoutBlanksConcat(a[1..], b);
    }
  }

  lemma {:induction false} WithoutBlanksWord(w: Bytes)
    requires forall i :: 0 <= i < |w| ==> !IsBlank(w[i])
    ensures WithoutBlanks(w) == w
  {
    if w != [] { WithoutBlanksWord(w[1..]); }
  }

  /** Splitting into words loses nothing but the blanks, and keeps the order. */
  lemma {:induction false} FieldsKeepText(s: Bytes)
    ensures Flatten(Fields(s)) == WithoutBlanks(s)
    decreases |s|
  {
    if s != [] {
      if IsBlank(s[0]) {
        FieldsKeepText(s[1..]);
      } else {
        var n := WordLength(s);
        WordLengthSpans(s);
        FieldsKeepText(s[n..]);
        assert Fields(s)[1..] == Fields(s[n..]);
        assert s == s[..n] + s[n..];
        WithoutBlanksConcat(s[..n], s[n..]);
        WithoutBlanksWord(s[..n]);
      }
    }
  }

  // ----- One token -----

  predicate WellFormedFlag(f: Flag) {
    ValidFlagName(f.name) && if f.bare then f.value == [] else ValidFlagValue(f.value)
  }

  lemma {:induction false} CountAbsent(s: Bytes, x: byte)
    requires x !in s
    ensures Count(s, x) == 0
  {
    if s != [] {
      CountAbsent(s[1..], x);
    }
  }

  /** Reading a printed flag gives the flag. */
  lemma ParsePrintedFlag(f: Flag)
    requires WellFormedFlag(f)
    ensures ParseFlag(FlagToken(f)) == Ok(f)
  {
    var body := FlagToken(f)[1..];
    CountAbsent(f.name, EQUALS);
    if f.bare {
      assert body == f.name;
    } else {
      var n := |f.name|;
      assert body == f.name + ([EQUALS] + f.value);
      CountAbsent(f.value, EQUALS);
      CountConcat(f.name, [EQUALS] + f.value, EQUALS);
      CountConcat([EQUALS], f.value, EQUALS);
      assert body[n] == EQUALS && body[..n] == f.name && body[n + 1..] == f.value;
    }
  }

  /** Printing a flag that was read gives the token. */
  lemma PrintParsedFlag(token: Bytes)
    requires ParseFlag(token).Ok?
    ensures WellFormedFlag(ParseFlag(token).value) && FlagToken(ParseFlag(token).value) == token
  {
    var body := token[1..];
    var eq := IndexOf(body, EQUALS);
    assert token == [SLASH] + body;
    if eq < |body| {
      assert body == body[..eq] + [EQUALS] + body[eq + 1..];
      assert [SLASH] + (body[..eq] + [EQUALS] + body[eq + 1..]) == [SLASH] + body[..eq] + [EQUALS] + body[eq + 1..];
    }
  }

  lemma FlagHasSlash(token: Bytes)
    requires ParseFlag(token).Ok?
    ensures HasPrefix(token, [SLASH])
  {
  }

  /** The flag tokens are exactly the printed well-formed flags. */
  lemma FlagTokensExactly(token: Bytes)
    ensures ParseFlag(token).Ok? <==> exists f :: WellFormedFlag(f) && FlagToken(f) == token
  {
    if ParseFlag(token).Ok? {
      PrintParsedFlag(token);
    }
    if f :| WellFormedFlag(f) && FlagToken(f) == token {
      ParsePrintedFlag(f);
    }
  }

  lemma PrintedFlagIsWord(f: Flag)
    requires WellFormedFlag(f)
    ensures var t := FlagToken(f); Word(t) && AllPrintable(t) && HasPrefix(t, [SLASH]) && |t| <= 98
  {
  }

  lemma TargetIsWord(t: Bytes)
    requires ValidTargetComponent(t)
    ensures Word(t) && AllPrintable(t) && !HasPrefix(t, [SLASH]) && |t| <= 64
    ensures ParseTarget(t, Finger) == Ok(t) && ParseTarget(t, Fingers) == Ok(t)
  {
  }

  lemma PrintParsedFlags(tokens: seq<Bytes>)
    requires AllFlags(tokens)
    ensures FlagTokens(FlagsOf(tokens)) == tokens
    ensures AllWellFormed(FlagsOf(tokens))
  {
    forall i | 0 <= i < |tokens|
      ensures WellFormedFlag(FlagsOf(tokens)[i]) && FlagToken(FlagsOf(tokens)[i]) == tokens[i]
    {
      PrintParsedFlag(tokens[i]);
    }
  }

  predicate AllWellFormed(flags: seq<Flag>) {
    forall i :: 0 <= i < |flags| ==> WellFormedFlag(flags[i])
  }

  // ----- First occurrences by name -----

  function NamesOf(flags: seq<Flag>): set<Bytes> {
    set i | 0 <= i < |flags| :: flags[i].name
  }

  lemma NamesAreNamed(flags: seq<Flag>, name: Bytes)
    ensures name in NamesOf(flags) <==> Named(flags, name)
  {
  }

  /** What is kept: distinct names, none lost, none invented. */
  lemma {:induction false} FirstByNameKeeps(flags: seq<Flag>)
    ensures var kept := FirstByName(flags);
            && DistinctNames(kept) && |kept| == |NamesOf(flags)|
            && (AllWellFormed(flags) ==> AllWellFormed(kept))
  {
    hide WellFormedFlag;
    if flags == [] {
    } else {
      var n := |flags| - 1;
      var init, last := flags[..n], flags[n];
      FirstByNameKeeps(init);
      SameNames(init, last.name);
      NamesAreNamed(init, last.name);
      assert flags == init + [last];
      assert NamesOf(flags) == NamesOf(init) + {last.name} by { NamesSnoc(init, last); }
    }
  }

  lemma NamesSnoc(flags: seq<Flag>, f: Flag)
    ensures NamesOf(flags + [f]) == NamesOf(flags) + {f.name}
  {
    NamedAfter(flags, f);
    forall name
      ensures name in NamesOf(flags + [f]) <==> name in NamesOf(flags) + {f.name}
    {
      NamesAreNamed(flags + [f], name);
      NamesAreNamed(flags, name);
    }
  }

  /** A flag is kept exactly when it occurs before every other flag of its name. */
  lemma {:induction false} FirstByNameMeaning(flags: seq<Flag>, f: Flag)
    ensures f in FirstByName(flags)
       <==> exists i :: 0 <= i < |flags| && flags[i] == f && !Named(flags[..i], f.name)
  {
    if flags != [] {
      var n := |flags| - 1;
      FirstByNameMeaning(flags[..n], f);
      if i :| 0 <= i < |flags| && flags[i] == f && !Named(flags[..i], f.name) {
        if i < n {
          assert flags[..n][i] == f && flags[..n][..i] == flags[..i];
        }
      }
      if i :| 0 <= i < n && flags[..n][i] == f && !Named(flags[..n][..i], f.name) {
        assert flags[i] == f && flags[..n][..i] == flags[..i];
      }
    }
  }

  lemma LastIsNew(flags: seq<Flag>)
    requires flags != [] && DistinctNames(flags)
    ensures !Named(flags[..|flags| - 1], flags[|flags| - 1].name) && DistinctNames(flags[..|flags| - 1])
  {
  }

  lemma {:induction false} DistinctAllKept(flags: seq<Flag>)
    requires DistinctNames(flags)
    ensures FirstByName(flags) == flags
  {
    hide Named;
    if flags != [] {
      var n := |flags| - 1;
      var init := flags[..n];
      DistinctAllKept(init);
      LastIsNew(flags);
      assert FirstByName(flags) == init + [flags[n]];
    }
  }

  // ----- The grammar -----

  /** `tokens` is a list of flags followed by at most one target. */
  predicate Grammatical(tokens: seq<Bytes>, flagTokens: seq<Bytes>, targets: seq<Bytes>, protocol: Protocol) {
    && tokens == flagTokens + targets && tokens != [] && |targets| <= 1
    && AllFlags(flagTokens) && |NamesOf(FlagsOf(flagTokens))| <= MAX_FLAGS
    && (targets != [] ==> ParseTarget(targets[0], protocol).Ok?)
  }

  lemma {:induction false} LeadingFlagsOf(flagTokens: seq<Bytes>, targets: seq<Bytes>)
    requires forall i :: 0 <= i < |flagTokens| ==> HasPrefix(flagTokens[i], [SLASH])
    requires targets == [] || !HasPrefix(targets[0], [SLASH])
    ensures LeadingFlags(flagTokens + targets) == |flagTokens|
  {
    var tokens := flagTokens + targets;
    assert forall i :: 0 <= i < |flagTokens| ==> tokens[i] == flagTokens[i];
    assert targets != [] ==> tokens[|flagTokens|] == targets[0];
  }

  lemma TargetParses(token: Bytes, protocol: Protocol)
    requires ParseTarget(token, protocol).Ok?
    ensures ValidTargetComponent(token) && ParseTarget(token, protocol) == Ok(token)
  {
  }

  /** A grammatical line is accepted, with its distinct flags in order of first occurrence. */
  lemma GrammaticalAccepted(line: Bytes, flagTokens: seq<Bytes>, targets: seq<Bytes>, protocol: Protocol)
    requires ValidRequestRunes(line) && Grammatical(Fields(line), flagTokens, targets, protocol)
    ensures var flags := FirstByName(FlagsOf(flagTokens));
            var target := if targets == [] then [] else targets[0];
            Structured(line, protocol) == Ok(Request(line, Canonical(flags, target), target, flags))
  {
    hide Fields, ParseFlag, ParseTarget, FirstByName, Canonical, FlagToken;
    var tokens := Fields(line);
    forall i | 0 <= i < |flagTokens|
      ensures HasPrefix(flagTokens[i], [SLASH])
    {
      FlagHasSlash(flagTokens[i]);
    }
    if targets != [] {
      TargetParses(targets[0], protocol);
      TargetIsWord(targets[0]);
    }
    LeadingFlagsOf(flagTokens, targets);
    assert tokens[..|flagTokens|] == flagTokens;
    FirstByNameKeeps(FlagsOf(flagTokens));
    assert targets != [] ==> tokens[|flagTokens|] == targets[0];
  }

  /** An accepted line is grammatical. */
  lemma AcceptedGrammatical(line: Bytes, protocol: Protocol) returns (flagTokens: seq<Bytes>, targets: seq<Bytes>)
    requires Structured(line, protocol).Ok?
    ensures ValidRequestRunes(line) && Grammatical(Fields(line), flagTokens, targets, protocol)
  {
    hide Fields, ParseFlag, ParseTarget, FirstByName, Canonical;
    var tokens := Fields(line);
    var k := LeadingFlags(tokens);
    flagTokens, targets := tokens[..k], tokens[k..];
    FieldsAreWords(line);
    FirstByNameKeeps(FlagsOf(flagTokens));
    assert tokens == flagTokens + targets;
  }

  /** The tokens can be cut into flags and at most one target. */
  predicate HasGrammar(tokens: seq<Bytes>, protocol: Protocol) {
    exists k :: 0 <= k <= |tokens| && Grammatical(tokens, tokens[..k], tokens[k..], protocol)
  }

  /** The accepted lines are exactly the grammatical ones. */
  lemma AcceptedExactlyGrammatical(line: Bytes, protocol: Protocol)
    ensures Structured(line, protocol).Ok? <==> ValidRequestRunes(line) && HasGrammar(Fields(line), protocol)
  {
    var tokens := Fields(line);
    if Structured(line, protocol).Ok? {
      var fs, ts := AcceptedGrammatical(line, protocol);
      assert tokens[..|fs|] == fs && tokens[|fs|..] == ts;
    }
    if ValidRequestRunes(line) && HasGrammar(tokens, protocol) {
      var k :| 0 <= k <= |tokens| && Grammatical(tokens, tokens[..k], tokens[k..], protocol);
      GrammaticalAccepted(line, tokens[..k], tokens[k..], protocol);
    }
  }

  /** A repeated flag name changes nothing, wherever it is repeated and however many distinct names the line has. */
  lemma DuplicateIgnored(line: Bytes, longer: Bytes, protocol: Protocol,
                         before: seq<Bytes>, duplicate: Bytes, after: seq<Bytes>, ts: seq<Bytes>)
    requires ValidRequestRunes(line) && Grammatical(Fields(line), before + after, ts, protocol)
    requires ValidRequestRunes(longer) && Fields(longer) == before + [duplicate] + after + ts
    requires ParseFlag(duplicate).Ok? && AllFlags(before)
    requires Named(FlagsOf(before), ParseFlag(duplicate).value.name)
    ensures Structured(line, protocol).Ok?
    ensures Structured(longer, protocol) == Ok(Structured(line, protocol).value.(raw := longer))
  {
    hide Fields, ParseFlag, ParseTarget, FirstByName, NamesOf, Named, Canonical, ValidRequestRunes;
    DuplicateKeeps(before, duplicate, after);
    GrammaticalAccepted(line, before + after, ts, protocol);
    assert AllFlags(before + [duplicate] + after);
    GrammaticalAccepted(longer, before + [duplicate] + after, ts, protocol);
  }

  lemma DuplicateKeeps(before: seq<Bytes>, duplicate: Bytes, after: seq<Bytes>)
    requires AllFlags(before + after) && AllFlags(before) && ParseFlag(duplicate).Ok?
    requires Named(FlagsOf(before), ParseFlag(duplicate).value.name)
    ensures AllFlags(before + [duplicate] + after)
    ensures FirstByName(FlagsOf(before + [duplicate] + after)) == FirstByName(FlagsOf(before + after))
    ensures NamesOf(FlagsOf(before + [duplicate] + after)) == NamesOf(FlagsOf(before + after))
  {
    hide ParseFlag, FirstByName, NamesOf, Named;
    assert forall i :: 0 <= i < |after| ==> after[i] == (before + after)[|before| + i];
    var a, f, b := FlagsOf(before), ParseFlag(duplicate).value, FlagsOf(after);
    assert FlagsOf(before + after) == a + b;
    assert FlagsOf(before + [duplicate] + after) == a + [f] + b;
    RepetitionDropped(a, f, b);
    NamesUnchanged(a, f, b);
  }

  /** A flag named before can be left out wherever it stands. */
  lemma {:induction false} RepetitionDropped(a: seq<Flag>, f: Flag, b: seq<Flag>)
    requires Named(a, f.name)
    ensures FirstByName(a + [f] + b) == FirstByName(a + b)
  {
    hide Named, FirstByName;
    if b == [] {
      assert a + [f] + b == a + [f] && a + b == a;
      FirstByNameSnoc(a, f);
    } else {
      var init, last := b[..|b| - 1], b[|b| - 1];
      RepetitionDropped(a, f, init);
      SameNamed(a, f, init, last.name);
      assert a + [f] + b == (a + [f] + init) + [last];
      assert a + b == (a + init) + [last];
      FirstByNameSnoc(a + [f] + init, last);
      FirstByNameSnoc(a + init, last);
    }
  }

  lemma SameNamed(a: seq<Flag>, f: Flag, b: seq<Flag>, name: Bytes)
    requires Named(a, f.name)
    ensures Named(a + [f] + b, name) <==> Named(a + b, name)
  {
    hide Named;
    NamedConcat(a + [f], b, name);
    NamedConcat(a, b, name);
    NamedAfter(a, f);
  }

  lemma NamedConcat(a: seq<Flag>, b: seq<Flag>, name: Bytes)
    ensures Named(a + b, name) <==> Named(a, name) || Named(b, name)
  {
    var all := a + b;
    if Named(all, name) {
      var i :| 0 <= i < |all| && all[i].name == name;
      assert if i < |a| then a[i] == all[i] else b[i - |a|] == all[i];
    }
    if Named(a, name) {
      var i :| 0 <= i < |a| && a[i].name == name;
      assert all[i] == a[i];
    }
    if Named(b, name) {
      var i :| 0 <= i < |b| && b[i].name == name;
      assert all[|a| + i] == b[i];
    }
  }

  lemma NamesUnchanged(a: seq<Flag>, f: Flag, b: seq<Flag>)
    requires Named(a, f.name)
    ensures NamesOf(a + [f] + b) == NamesOf(a + b)
  {
    hide Named, NamesOf;
    forall name
      ensures name in NamesOf(a + [f] + b) <==> name in NamesOf(a + b)
    {
      SameNamed(a, f, b, name);
      NamesAreNamed(a + [f] + b, name);
      NamesAreNamed(a + b, name);
    }
  }

  lemma FirstByNameSnoc(flags: seq<Flag>, f: Flag)
    ensures FirstByName(flags + [f]) == if Named(flags, f.name) then FirstByName(flags) else FirstByName(flags) + [f]
  {
    assert (flags + [f])[..|flags|] == flags;
    assert FirstByName(flags) + [] == FirstByName(flags);
  }

  // ----- Parsing and printing -----

  predicate WellFormed(flags: seq<Flag>, target: Bytes) {
    && |flags| <= MAX_FLAGS && AllWellFormed(flags) && DistinctNames(flags)
    && (target == [] || ValidTargetComponent(target))
    && (flags != [] || target != [])
  }

  function TargetList(target: Bytes): seq<Bytes> {
    if target == [] then [] else [target]
  }

  lemma CanonicalTokens(flags: seq<Flag>, target: Bytes)
    requires WellFormed(flags, target)
    ensures Fields(Canonical(flags, target)) == FlagTokens(flags) + TargetList(target)
    ensures AllPrintable(Canonical(flags, target))
  {
    var parts := FlagTokens(flags) + TargetList(target);
    forall i | 0 <= i < |parts|
      ensures Word(parts[i]) && AllPrintable(parts[i])
    {
      if i < |flags| {
        PrintedFlagIsWord(flags[i]);
      } else {
        TargetIsWord(target);
      }
    }
    FieldsOfJoin(parts);
    JoinPrintable(parts);
  }

  lemma {:induction false} JoinPrintable(parts: seq<Bytes>)
    requires forall i :: 0 <= i < |parts| ==> AllPrintable(parts[i])
    ensures AllPrintable(JoinWords(parts))
  {
    if |parts| > 1 {
      JoinPrintable(parts[1..]);
    }
  }

  /** Parsing undoes printing. */
  lemma ParsePrinted(flags: seq<Flag>, target: Bytes, protocol: Protocol)
    requires WellFormed(flags, target) && !protocol.Other?
    ensures var line := Canonical(flags, target);
            Structured(line, protocol) == Ok(Request(line, line, target, flags))
  {
    hide Canonical, Fields, ParseFlag, FlagToken, WellFormedFlag;
    hide FirstByName, NamesOf, ValidTargetComponent, Structured;
    var line := Canonical(flags, target);
    var flagTokens := FlagTokens(flags);
    CanonicalTokens(flags, target);
    RequestRunesAreBytes(line);
    forall i | 0 <= i < |flags|
      ensures ParseFlag(flagTokens[i]) == Ok(flags[i])
    {
      ParsePrintedFlag(flags[i]);
    }
    assert FlagsOf(flagTokens) == flags;
    DistinctAllKept(flags);
    FirstByNameKeeps(flags);
    if target != [] {
      TargetIsWord(target);
    }
    GrammaticalAccepted(line, flagTokens, TargetList(target), protocol);
  }

  /** Printing is injective. */
  lemma CanonicalInjective(flags1: seq<Flag>, target1: Bytes, flags2: seq<Flag>, target2: Bytes)
    requires WellFormed(flags1, target1) && WellFormed(flags2, target2)
    requires Canonical(flags1, target1) == Canonical(flags2, target2)
    ensures flags1 == flags2 && target1 == target2
  {
    ParsePrinted(flags1, target1, Finger);
    ParsePrinted(flags2, target2, Finger);
  }

  /** What the structured parser returns is well formed, and its canonical form is the printed one. */
  lemma StructuredWellFormed(line: Bytes, protocol: Protocol)
    requires Structured(line, protocol).Ok?
    ensures var q := Structured(line, protocol).value;
            && WellFormed(q.flags, q.target) && q.canonical == Canonical(q.flags, q.target) && q.raw == line
            && AllPrintable(q.canonical)
  {
    var fs, ts := AcceptedGrammatical(line, protocol);
    GrammaticalAccepted(line, fs, ts, protocol);
    var flags := FlagsOf(fs);
    PrintParsedFlags(fs);
    FirstByNameKeeps(flags);
    if ts != [] {
      TargetParses(ts[0], protocol);
    } else {
      SameNames(flags, flags[0].name);
      assert Named(flags, flags[0].name);
    }
    var q := Structured(line, protocol).value;
    CanonicalTokens(q.flags, q.target);
  }

  // ----- Entry points -----

  lemma TrimsCrlf(line: Bytes)
    ensures TrimLineEnding(line + CRLF) == line && TrimSuffix(line + CRLF, CRLF) == line
    ensures HasSuffix(line + CRLF, CRLF)
  {
    var raw := line + CRLF;
    assert raw[|raw| - 2..] == CRLF && raw[..|raw| - 2] == line;
    assert raw[|raw| - 1..] == [LF];
    var once := raw[..|raw| - 1];
    assert once == line + [CR];
    assert once[|once| - 1..] == [CR] && once[..|once| - 1] == line;
  }

  lemma CrlfLine(rawLine: Bytes)
    requires HasSuffix(rawLine, CRLF)
    ensures TrimLineEnding(rawLine) == TrimSuffix(rawLine, CRLF)
  {
    var line := TrimSuffix(rawLine, CRLF);
    TrimsCrlf(line);
    assert rawLine == line + CRLF;
  }

  /** For a line that ends in CRLF, extended finger and fingers are the same parser. */
  lemma ExtendedIsFingers(rawLine: Bytes, extendFinger: bool)
    requires HasSuffix(rawLine, CRLF)
    ensures ParseRequest(rawLine, Finger, true) == ParseRequest(rawLine, Fingers, extendFinger)
  {
    CrlfLine(rawLine);
    var line := TrimSuffix(rawLine, CRLF);
    RequestRunesAreBytes(line);
    assert forall t :: ParseTarget(t, Finger) == ParseTarget(t, Fingers);
  }

  /** What plain finger accepts: the line itself is the canonical form. */
  lemma PlainAccepted(rawLine: Bytes)
    requires ParseFingerRequest(rawLine, false).Ok?
    ensures var q := ParseFingerRequest(rawLine, false).value;
            var line := TrimLineEnding(rawLine);
            && q.raw == line && q.canonical == line && q.flags == []
            && (q.target == [] || ValidTargetComponent(q.target))
            && line == (if q.target == [] then (if line == [] then [] else SLASH_W)
                        else if HasPrefix(line, SLASH_W) then SLASH_W + [SPACE] + q.target else q.target)
  {
    hide Spaces.TrimSpace, TrimLineEnding, ValidTargetComponent;
    var line := TrimLineEnding(rawLine);
    assert HasPrefix(line, SLASH_W + [SPACE]) ==> line == SLASH_W + [SPACE] + line[3..];
  }

  lemma TargetNotTrimmed(t: Bytes)
    requires ValidTargetComponent(t)
    ensures Spaces.TrimSpace(t) == t
  {
    hide ValidTargetComponent;
    TargetIsWord(t);
    assert Printable(t[0]) && !IsBlank(t[0]);
    assert Printable(t[|t| - 1]) && !IsBlank(t[|t| - 1]);
    Utf8.AsciiFront(t);
    Spaces.NoWiderLast(t);
    Utf8.AsciiFront(t[|t| - 1..]);
  }

  /** Plain finger accepts exactly the queries of section 2.3 of RFC 1288 that name at most one local target. */
  lemma PlainAcceptedExactly(rawLine: Bytes)
    ensures var line := TrimLineEnding(rawLine);
            ParseFingerRequest(rawLine, false).Ok?
            <==> line == [] || line == SLASH_W || ValidTargetComponent(line)
                 || (HasPrefix(line, SLASH_W + [SPACE]) && ValidTargetComponent(line[3..]))
  {
    hide Spaces.TrimSpace, ValidTargetComponent, TrimLineEnding;
    var line := TrimLineEnding(rawLine);
    if HasPrefix(line, SLASH_W + [SPACE]) {
      StartsWithSlashW(line);
      if ValidTargetComponent(line[3..]) {
        TargetIsWord(line[3..]);
        TargetNotTrimmed(line[3..]);
      }
    }
    if ValidTargetComponent(line) {
      TargetIsWord(line);
      if HasPrefix(line, SLASH_W) { SlashWIsSlash(line); }
    }
  }

  lemma StartsWithSlashW(line: Bytes)
    requires HasPrefix(line, SLASH_W + [SPACE])
    ensures HasPrefix(line, SLASH_W) && line != SLASH_W
  {
    assert line[0] == (SLASH_W + [SPACE])[0] && line[1] == (SLASH_W + [SPACE])[1];
    assert line[..2] == SLASH_W;
  }

  lemma SlashWIsSlash(line: Bytes)
    requires HasPrefix(line, SLASH_W)
    ensures HasPrefix(line, [SLASH])
  {
    assert line[..1] == [line[..2][0]];
  }

  const W_FLAG := Flag([87], [], true)

  lemma WFlag()
    ensures WellFormedFlag(W_FLAG) && FlagToken(W_FLAG) == SLASH_W && FlagTokens([W_FLAG]) == [SLASH_W]
  {
  }

  /** Every line plain finger accepts is accepted with extensions on, with the same target and canonical form. */
  lemma ExtensionIsConservative(rawLine: Bytes)
    requires ParseRequest(rawLine, Finger, false).Ok?
    ensures var q := ParseRequest(rawLine, Finger, false).value;
            var flags := if HasPrefix(TrimLineEnding(rawLine), SLASH_W) then [W_FLAG] else [];
            ParseRequest(rawLine, Finger, true) == Ok(q.(flags := flags))
  {
    hide Canonical, ValidTargetComponent, Structured, TrimLineEnding, WellFormedFlag, FlagToken, Spaces.TrimSpace;
    var q := ParseRequest(rawLine, Finger, false).value;
    var line := TrimLineEnding(rawLine);
    PlainAccepted(rawLine);
    WFlag();
    if line != [] {
      var flags := if HasPrefix(line, SLASH_W) then [W_FLAG] else [];
      assert FlagTokens([]) == [];
      if q.target != [] {
        TargetIsWord(q.target);
      }
      assert Canonical(flags, q.target) == line by { PlainCanonical(line, q.target, flags); }
      ParsePrinted(flags, q.target, Finger);
    }
  }

  lemma PlainCanonical(line: Bytes, target: Bytes, flags: seq<Flag>)
    requires flags == [] || flags == [W_FLAG]
    requires line == if flags == [] then target else if target == [] then SLASH_W else SLASH_W + [SPACE] + target
    ensures Canonical(flags, target) == line
  {
    WFlag();
    var parts := FlagTokens(flags) + TargetList(target);
    if flags == [W_FLAG] && target != [] {
      assert parts == [SLASH_W, target] && parts[1..] == [target];
      assert JoinWords([target]) == target;
    } else if flags == [W_FLAG] {
      assert parts == [SLASH_W];
    } else {
      assert FlagTokens(flags) == [] && parts == TargetList(target);
    }
  }

  /** Reading the canonical form of an accepted request gives the request again. */
  lemma CanonicalReparses(rawLine: Bytes, protocol: Protocol, extendFinger: bool)
    requires ParseRequest(rawLine, protocol, extendFinger).Ok?
    ensures var q := ParseRequest(rawLine, protocol, extendFinger).value;
            ParseRequest(q.canonical + CRLF, protocol, extendFinger) == Ok(q.(raw := q.canonical))
  {
    var q := ParseRequest(rawLine, protocol, extendFinger).value;
    TrimsCrlf(q.canonical);
    var line := TrimLineEnding(rawLine);
    if protocol.Finger? && !extendFinger {
      PlainAccepted(rawLine);
    } else {
      if protocol.Fingers? { CrlfLine(rawLine); }
      if line != [] {
        StructuredWellFormed(line, protocol);
        ParsePrinted(q.flags, q.target, protocol);
        RequestRunesAreBytes(q.canonical);
        PrintedNotEmpty(q.flags, q.target);
      }
    }
  }

  /** In every mode the canonical form is printable ASCII: it holds no line break. */
  lemma CanonicalPrintable(rawLine: Bytes, protocol: Protocol, extendFinger: bool)
    requires ParseRequest(rawLine, protocol, extendFinger).Ok?
    ensures AllPrintable(ParseRequest(rawLine, protocol, extendFinger).value.canonical)
  {
    hide Structured, Canonical, TrimLineEnding, ValidTargetComponent;
    var line := TrimLineEnding(rawLine);
    if protocol.Finger? && !extendFinger {
      PlainAccepted(rawLine);
      var target := ParseRequest(rawLine, protocol, extendFinger).value.target;
      if target != [] { TargetIsWord(target); }
    } else {
      if protocol.Fingers? { CrlfLine(rawLine); }
      if line != [] { StructuredWellFormed(line, protocol); }
    }
  }

  lemma PrintedNotEmpty(flags: seq<Flag>, target: Bytes)
    requires WellFormed(flags, target)
    ensures Canonical(flags, target) != []
  {
    CanonicalTokens(flags, target);
  }

  // ----- Canonical forms are short -----

  /** Bytes of the words, with one separator for each. */
  function Weight(parts: seq<Bytes>): nat {
    if parts == [] then 0 else |parts[0]| + 1 + Weight(parts[1..])
  }

  lemma {:induction false} JoinWeight(parts: seq<Bytes>)
    ensures |JoinWords(parts)| == if parts == [] then 0 else Weight(parts) - 1
  {
    if |parts| > 1 {
      JoinWeight(parts[1..]);
    }
  }

  lemma {:induction false} WeightConcat(a: seq<Bytes>, b: seq<Bytes>)
    ensures Weight(a + b) == Weight(a) + Weight(b)
  {
    if a == [] {
      assert a + b == b;
    } else {
      assert (a + b)[1..] == a[1..] + b;
      WeightConcat(a[1..], b);
    }
  }

  /** Words are at least one separator apart. */
  lemma {:induction false} FieldsWeight(s: Bytes)
    ensures Weight(Fields(s)) <= |s| + 1 && (Fields(s) == [] ==> Weight(Fields(s)) == 0)
    ensures s != [] && IsBlank(s[0]) ==> Weight(Fields(s)) <= |s|
    decreases |s|
  {
    if s != [] {
      if IsBlank(s[0]) {
        FieldsWeight(s[1..]);
      } else {
        WordLengthSpans(s);
        var rest := s[WordLength(s)..];
        FieldsWeight(rest);
        assert Fields(s)[1..] == Fields(rest);
      }
    }
  }

  lemma {:induction false} FirstByNameWeight(flags: seq<Flag>)
    ensures Weight(FlagTokens(FirstByName(flags))) <= Weight(FlagTokens(flags))
  {
    if flags != [] {
      var n := |flags| - 1;
      var kept, t := FirstByName(flags[..n]), FlagToken(flags[n]);
      FirstByNameWeight(flags[..n]);
      assert FlagTokens(flags) == FlagTokens(flags[..n]) + [t];
      WeightConcat(FlagTokens(flags[..n]), [t]);
      assert FlagTokens(kept + [flags[n]]) == FlagTokens(kept) + [t];
      WeightConcat(FlagTokens(kept), [t]);
      assert kept + [] == kept;
    }
  }

  lemma {:induction false} FlagTokensWeight(flags: seq<Flag>)
    requires AllWellFormed(flags)
    ensures Weight(FlagTokens(flags)) <= 99 * |flags|
  {
    if flags != [] {
      var n := |flags| - 1;
      FlagTokensWeight(flags[..n]);
      PrintedFlagIsWord(flags[n]);
      var t := FlagToken(flags[n]);
      assert FlagTokens(flags) == FlagTokens(flags[..n]) + [t];
      WeightConcat(FlagTokens(flags[..n]), [t]);
    }
  }

  /** The canonical form of a structured line is no longer than the line, and never longer than 1648 bytes. */
  lemma StructuredCanonicalShort(line: Bytes, protocol: Protocol)
    requires Structured(line, protocol).Ok?
    ensures |Structured(line, protocol).value.canonical| <= |line|
    ensures |Structured(line, protocol).value.canonical| <= 1648
  {
    var fs, ts := AcceptedGrammatical(line, protocol);
    GrammaticalAccepted(line, fs, ts, protocol);
    var kept := FirstByName(FlagsOf(fs));
    FirstByNameWeight(FlagsOf(fs));
    PrintParsedFlags(fs);
    FirstByNameKeeps(FlagsOf(fs));
    FlagTokensWeight(kept);
    WeightConcat(fs, ts);
    WeightConcat(FlagTokens(kept), ts);
    FieldsWeight(line);
    JoinWeight(FlagTokens(kept) + ts);
    if ts != [] {
      TargetParses(ts[0], protocol);
      TargetIsWord(ts[0]);
      assert ts == [ts[0]] && ts[1..] == [];
    }
  }

  /** Canonicalisation never lengthens a request. */
  lemma CanonicalShort(rawLine: Bytes, protocol: Protocol, extendFinger: bool)
    requires ParseRequest(rawLine, protocol, extendFinger).Ok?
    ensures |ParseRequest(rawLine, protocol, extendFinger).value.canonical| <= |TrimLineEnding(rawLine)|
  {
    var line := TrimLineEnding(rawLine);
    if protocol.Finger? && !extendFinger {
      PlainAccepted(rawLine);
    } else {
      if protocol.Fingers? { CrlfLine(rawLine); }
      if line != [] { StructuredCanonicalShort(line, protocol); }
    }
  }
}
