/**
 Fields of a log line: `sanitizeLog` and `trimLogField` in
 internal/server/logger.go.
 */
module LogField {
  import opened ByteStrings
  import opened Spaces
  import Utf8

  const MAX_LOG_FIELD_BYTES := 160
  const DASH: Bytes := [45]
  const TRUNCATION_MARK: Bytes := [46, 46, 46]

  function HexDigit(d: int): byte
    requires 0 <= d < 16
  {
    if d < 10 then (48 + d) as byte else (87 + d) as byte
  }

  /** `strconv.FormatInt(r, 16)` for an ASCII rune. */
  function Hex(r: int): Bytes
    requires 0 <= r < 0x80
  {
    if r < 16 then [HexDigit(r)] else [HexDigit(r / 16), HexDigit(r % 16)]
  }

  function HexValue(digits: Bytes): int {
    if digits == [] then 0
    else
      var d := digits[|digits| - 1] as int;
      HexValue(digits[..|digits| - 1]) * 16 + if d < 58 then d - 48 else d - 87
  }

  /** The escape of a control character spells its number. */
  lemma HexSpells(r: int)
    requires 0 <= r < 0x80
    ensures HexValue(Hex(r)) == r
  {
    var digits := Hex(r);
    if r >= 16 {
      assert digits[..1] == [HexDigit(r / 16)];
      assert HexValue([HexDigit(r / 16)]) == HexValue([]) * 16 + r / 16;
    }
  }

  predicate Control(r: int) {
    0 <= r < 0x20 || r == 0x7F
  }

  /** How a rune is written in a log field. */
  function Chunk(r: int): Bytes {
    if r == 13 || r == 10 || r == 9 then [SPACE]
    else if Control(r) then [92, 120] + Hex(r)
    else Utf8.EncodeRune(r)
  }

  function Chunks(rs: seq<int>): seq<Bytes> {
    seq(|rs|, i requires 0 <= i < |rs| => Chunk(rs[i]))
  }

  function Pieces(rs: seq<int>): seq<Bytes> {
    seq(|rs|, i requires 0 <= i < |rs| => Utf8.EncodeRune(rs[i]))
  }

  /** The cuts a forward reading makes: characters, and single malformed bytes. */
  function Slices(s: Bytes): seq<Bytes> {
    if s == [] then [] else [s[..Utf8.Width(s)]] + Slices(s[Utf8.Width(s)..])
  }

  /** How many leading parts fit into the budget. */
  function Fit(parts: seq<Bytes>, budget: nat): (k: nat)
    ensures k <= |parts|
  {
    if parts == [] || |parts[0]| > budget then 0 else Fit(parts[1..], budget - |parts[0]|) + 1
  }

  function Fitting(parts: seq<Bytes>, budget: nat): Bytes {
    Flatten(parts[..Fit(parts, budget)])
  }

  /**
   The specification: escape the whole field, keep as many escaped runes as
   fit, trim; and if something had to go and something is left, cut at a rune
   boundary to make room for the mark.
   */
  function Field(s: Bytes): Bytes {
    var chunks := Chunks(Utf8.Runes(s));
    var kept := TrimSpace(Fitting(chunks, MAX_LOG_FIELD_BYTES));
    if kept == [] then DASH
    else if TotalLength(chunks) <= MAX_LOG_FIELD_BYTES then kept
    else TrimmedField(kept, MAX_LOG_FIELD_BYTES - |TRUNCATION_MARK|) + TRUNCATION_MARK
  }

  function TrimmedField(s: Bytes, max: nat): Bytes {
    TrimSpace(Fitting(Slices(s), max))
  }

  // ----- The program -----

  method SanitizeLog(s: Bytes) returns (out: Bytes)
    ensures out == Field(s)
  {
    hide Utf8.Runes, Utf8.Front, Utf8.EncodeRune, Hex, Fit, TrimSpace;
    ghost var rs := Utf8.Runes(s);
    ghost var chunks := Chunks(rs);
    if s == [] {
      EmptyField();
      return DASH;
    }
    Utf8.RunesAreScalar(s);
    var b: Bytes := [];
    var truncated := false;
    var rest := s;
    ghost var i := 0;
    while rest != []
      invariant i <= |rs| && b == Flatten(chunks[..i]) && |b| <= MAX_LOG_FIELD_BYTES
      invariant !truncated && Utf8.Runes(rest) == rs[i..]
      decreases |rest|
    {
      var r := Utf8.Front(rest);
      NextRune(rest, rs, i);
      ChunkAdded(chunks, i);
      rest := rest[Utf8.Width(rest)..];
      if r == 13 || r == 10 || r == 9 {
        if |b| + 1 > MAX_LOG_FIELD_BYTES {
          truncated := true;
          break;
        }
        b := b + [SPACE];
      } else if r < 0x20 || r == 0x7F {
        var chunk := [92, 120] + Hex(r);
        if |b| + |chunk| > MAX_LOG_FIELD_BYTES {
          truncated := true;
          break;
        }
        b := b + chunk;
      } else {
        if !Utf8.Scalar(r) || |b| + |Utf8.EncodeRune(r)| > MAX_LOG_FIELD_BYTES {
          truncated := true;
          break;
        }
        b := b + Utf8.EncodeRune(r);
      }
      i := i + 1;
    }
    if rest == [] && !truncated {
      NoRunesLeft();
    }
    KeptIsFitting(chunks, i, truncated);
    out := TrimSpace(b);
    if out == [] {
      return DASH;
    }
    if truncated {
      var trimmed := TrimLogField(out, MAX_LOG_FIELD_BYTES - |TRUNCATION_MARK|);
      out := trimmed + TRUNCATION_MARK;
    }
  }

  /** Dropping last runes one by one keeps as many leading slices as fit, of any string, malformed or not. */
  method TrimLogField(s: Bytes, max: int) returns (out: Bytes)
    ensures out == if max <= 0 then [] else TrimmedField(s, max)
  {
    hide Slices, TrimSpace, Fit, LastWidth;
    if max <= 0 {
      return [];
    }
    ghost var slices := Slices(s);
    ghost var j: nat := |slices|;
    assert slices[..j] == slices;
    out := s;
    while |out| > max
      invariant j <= |slices| && Slices(out) == slices[..j]
      invariant j < |slices| ==> |Flatten(slices[..j + 1])| > max
      decreases |out|
    {
      SlicesFlatten(out);
      LastSlice(out);
      out := out[..|out| - LastWidth(out)];
      j := j - 1;
      assert slices[..j + 1][..j] == slices[..j];
    }
    SlicesFlatten(out);
    FittingPrefix(slices, j, max);
    out := TrimSpace(out);
  }

  lemma {:induction false} SlicesFlatten(s: Bytes)
    ensures Flatten(Slices(s)) == s
    ensures Slices(s) == [] <==> s == []
  {
    hide Utf8.Width;
    if s != [] {
      var n := Utf8.Width(s);
      SlicesFlatten(s[n..]);
      assert Slices(s)[1..] == Slices(s[n..]);
      assert s == s[..n] + s[n..];
    }
  }

  lemma FittingPrefix(parts: seq<Bytes>, j: nat, budget: nat)
    requires j <= |parts| && |Flatten(parts[..j])| <= budget
    requires j < |parts| ==> |Flatten(parts[..j + 1])| > budget
    ensures Fitting(parts, budget) == Flatten(parts[..j])
  {
    FitGreatest(parts, budget, j);
    if j < |parts| { FitGreatest(parts, budget, j + 1); }
  }

  /** Reading backwards cuts a string where reading forwards does. */
  lemma {:induction false} LastSlice(s: Bytes)
    requires s != []
    ensures var k := |s| - LastWidth(s);
            var slices := Slices(s);
            |slices| > 0 && slices[..|slices| - 1] == Slices(s[..k]) && slices[|slices| - 1] == s[k..]
    decreases |s|
  {
    hide LastWidth, Utf8.SizeAt;
    var n := Utf8.Width(s);
    var rest := s[n..];
    assert Slices(s) == [s[..n]] + Slices(rest);
    if rest == [] {
      LastIsWhole(s);
      assert s[..0] == [] && s[0..] == s && s[..n] == s;
    } else {
      LastOfRest(s);
      LastSlice(rest);
      var k := |rest| - LastWidth(rest);
      var before := s[..n + k];
      WidthOfPrefix(s, n + k);
      assert before[..n] == s[..n] && before[n..] == rest[..k];
      assert Slices(before) == [s[..n]] + Slices(rest[..k]);
      assert s[n + k..] == rest[k..];
    }
  }

  /** A string that is a single slice is read whole from the back too. */
  lemma LastIsWhole(s: Bytes)
    requires s != [] && Utf8.Width(s) == |s|
    ensures LastWidth(s) == |s|
  {
    if |s| >= 2 {
      assert s[0..] == s;
      NoOtherLast(s, |s|);
    }
  }

  /** The last slice lies within what follows the first. */
  lemma LastOfRest(s: Bytes)
    requires s != [] && Utf8.Width(s) < |s|
    ensures LastWidth(s) == LastWidth(s[Utf8.Width(s)..])
  {
    hide EndsIn;
    EndsInRest(s, 2);
    EndsInRest(s, 3);
    EndsInRest(s, 4);
  }

  /** A longer sequence that ends `s` begins after the first slice. */
  lemma EndsInRest(s: Bytes, k: nat)
    requires s != [] && 2 <= k <= 4 && Utf8.Width(s) < |s|
    ensures EndsIn(s, k) <==> EndsIn(s[Utf8.Width(s)..], k)
  {
    var n := Utf8.Width(s);
    if k <= |s| - n {
      assert s[|s| - k..] == s[n..][|s| - n - k..];
    } else if k <= |s| {
      var j := |s| - k;
      assert s[j..][0] == s[j];
      if j == 0 {
        assert s[0..] == s;
      } else {
        assert Utf8.Tail(s[j]);
      }
    }
  }

  /** A prefix that contains the first slice has the same first slice. */
  lemma WidthOfPrefix(s: Bytes, m: nat)
    requires s != [] && Utf8.Width(s) <= m <= |s|
    ensures Utf8.Width(s[..m]) == Utf8.Width(s)
  {
    var a := s[..m];
    if Utf8.SizeAt(a) != 0 {
      Utf8.SizeOfExtension(a, s[m..]);
      assert a + s[m..] == s;
    } else {
      FullSlice(s, m);
    }
  }

  lemma FullSlice(s: Bytes, m: nat)
    requires s != [] && Utf8.Width(s) <= m <= |s|
    ensures Utf8.SizeAt(s) != 0 ==> Utf8.SizeAt(s[..m]) != 0
  {
    assert forall i :: 0 <= i < m ==> s[..m][i] == s[i];
  }

  /** On valid UTF-8 the slices are the encoded runes. */
  lemma {:induction false} SlicesOfText(rs: seq<int>)
    requires Utf8.AllScalar(rs)
    ensures Slices(Utf8.Encode(rs)) == Pieces(rs)
  {
    if rs != [] {
      var rest := Utf8.Encode(rs[1..]);
      Utf8.DecodeEncodedRune(rs[0], rest);
      SlicesOfText(rs[1..]);
      var e := Utf8.EncodeRune(rs[0]);
      assert (e + rest)[..|e|] == e;
      assert Pieces(rs) == [e] + Pieces(rs[1..]);
    }
  }

  lemma EmptyField()
    ensures Field([]) == DASH
  {
  }

  lemma NoRunesLeft()
    ensures Utf8.Runes([]) == []
  {
  }

  lemma NextRune(rest: Bytes, rs: seq<int>, i: nat)
    requires rest != [] && i <= |rs| && Utf8.Runes(rest) == rs[i..]
    ensures i < |rs| && Utf8.Front(rest) == rs[i] && Utf8.Runes(rest[Utf8.Width(rest)..]) == rs[i + 1..]
  {
    assert rs[i..][1..] == rs[i + 1..];
  }

  lemma ChunkAdded(chunks: seq<Bytes>, i: nat)
    requires i < |chunks|
    ensures Flatten(chunks[..i + 1]) == Flatten(chunks[..i]) + chunks[i]
  {
    assert chunks[..i + 1] == chunks[..i] + [chunks[i]];
    FlattenSnoc(chunks[..i], chunks[i]);
  }

  // ----- Fitting -----

  lemma {:induction false} FlattenLength(parts: seq<Bytes>)
    ensures |Flatten(parts)| == TotalLength(parts)
  {
    if parts != [] { FlattenLength(parts[1..]); }
  }

  /** `Fit` is the greatest number of leading parts within the budget. */
  lemma {:induction false} FitGreatest(parts: seq<Bytes>, budget: nat, j: nat)
    requires j <= |parts|
    ensures |Flatten(parts[..j])| <= budget <==> j <= Fit(parts, budget)
  {
    if j > 0 {
      assert parts[..j] == [parts[0]] + parts[1..][..j - 1];
      assert parts[..j][1..] == parts[1..][..j - 1];
      if |parts[0]| <= budget {
        FitGreatest(parts[1..], budget - |parts[0]|, j - 1);
      }
    }
  }

  lemma KeptIsFitting(chunks: seq<Bytes>, i: nat, truncated: bool)
    requires i <= |chunks| && |Flatten(chunks[..i])| <= MAX_LOG_FIELD_BYTES
    requires if truncated then i < |chunks| && |Flatten(chunks[..i + 1])| > MAX_LOG_FIELD_BYTES else i == |chunks|
    ensures i == Fit(chunks, MAX_LOG_FIELD_BYTES)
    ensures truncated <==> TotalLength(chunks) > MAX_LOG_FIELD_BYTES
  {
    FitGreatest(chunks, MAX_LOG_FIELD_BYTES, i);
    FitGreatest(chunks, MAX_LOG_FIELD_BYTES, |chunks|);
    assert chunks[..|chunks|] == chunks;
    FlattenLength(chunks);
    if truncated {
      FitGreatest(chunks, MAX_LOG_FIELD_BYTES, i + 1);
    }
  }

  lemma {:induction false} FlattenPieces(rs: seq<int>)
    ensures Flatten(Pieces(rs)) == Utf8.Encode(rs)
  {
    if rs != [] {
      assert Pieces(rs)[1..] == Pieces(rs[1..]);
      FlattenPieces(rs[1..]);
    }
  }

  // ----- Runes of a field -----

  /** Text a log line can carry: no control characters. */
  predicate Clean(rs: seq<int>) {
    forall i :: 0 <= i < |rs| ==> Utf8.Scalar(rs[i]) && !Control(rs[i])
  }

  function ChunkRunes(r: int): seq<int> {
    if r == 13 || r == 10 || r == 9 then [32]
    else if Control(r) then
      [92, 120] + if r < 16 then [HexDigit(r) as int] else [HexDigit(r / 16) as int, HexDigit(r % 16) as int]
    else [r]
  }

  lemma ChunkEncodes(r: int)
    requires Utf8.Scalar(r)
    ensures Clean(ChunkRunes(r)) && Utf8.Encode(ChunkRunes(r)) == Chunk(r)
  {
    var rs := ChunkRunes(r);
    if Control(r) && |rs| > 1 {
      AsciiEncodes(rs);
      assert Chunk(r) == seq(|rs|, i requires 0 <= i < |rs| => rs[i] as byte);
    } else {
      Utf8.EncodeOne(rs[0]);
    }
  }

  lemma {:induction false} AsciiEncodes(rs: seq<int>)
    requires forall i :: 0 <= i < |rs| ==> 0 <= rs[i] < 0x80
    ensures Utf8.Encode(rs) == seq(|rs|, i requires 0 <= i < |rs| => rs[i] as byte)
  {
    if rs != [] { AsciiEncodes(rs[1..]); }
  }

  lemma {:induction false} ChunksEncode(rs: seq<int>) returns (text: seq<int>)
    requires Utf8.AllScalar(rs)
    ensures Clean(text) && Utf8.Encode(text) == Flatten(Chunks(rs))
  {
    if rs == [] {
      text := [];
    } else {
      var rest := ChunksEncode(rs[1..]);
      ChunkEncodes(rs[0]);
      text := ChunkRunes(rs[0]) + rest;
      Utf8.EncodeConcat(ChunkRunes(rs[0]), rest);
      assert Chunks(rs)[1..] == Chunks(rs[1..]);
    }
  }

  lemma CleanScalar(rs: seq<int>)
    requires Clean(rs)
    ensures Utf8.AllScalar(rs)
  {
  }

  /** The escaped prefix is the encoding of clean runes. */
  lemma FittingRunes(s: Bytes) returns (text: seq<int>)
    ensures Clean(text) && Utf8.Encode(text) == Fitting(Chunks(Utf8.Runes(s)), MAX_LOG_FIELD_BYTES)
  {
    var rs := Utf8.Runes(s);
    var k := Fit(Chunks(rs), MAX_LOG_FIELD_BYTES);
    Utf8.RunesAreScalar(s);
    text := ChunksEncode(rs[..k]);
    assert Chunks(rs)[..k] == Chunks(rs[..k]);
  }

  lemma TrimClean(rs: seq<int>)
    requires Clean(rs)
    ensures Clean(TrimRunes(rs)) && TrimSpace(Utf8.Encode(rs)) == Utf8.Encode(TrimRunes(rs))
    ensures Trimmed(TrimRunes(rs)) && |Utf8.Encode(TrimRunes(rs))| <= |Utf8.Encode(rs)|
  {
    CleanScalar(rs);
    TrimEncoding(rs);
    TrimRunesTrimmed(rs);
    TrimShrinks(Utf8.Encode(rs));
    var i, j := TrimRunesSlice(rs);
  }

  /** What `Field` returns, as runes. */
  lemma FieldRunes(s: Bytes) returns (text: seq<int>)
    ensures text != [] && Clean(text) && Trimmed(text) && Utf8.Encode(text) == Field(s)
    ensures |Field(s)| <= MAX_LOG_FIELD_BYTES
  {
    hide Fit, TrimSpace, TrimRunes, Chunks;
    var escaped := FittingRunes(s);
    FittingWithin(Chunks(Utf8.Runes(s)), MAX_LOG_FIELD_BYTES);
    TrimClean(escaped);
    var kept := TrimRunes(escaped);
    if Utf8.Encode(kept) == [] {
      Utf8.EncodeOne(45);
      text := [45];
    } else if TotalLength(Chunks(Utf8.Runes(s))) <= MAX_LOG_FIELD_BYTES {
      text := kept;
    } else {
      text := MarkedRunes(kept);
    }
  }

  lemma FittingWithin(parts: seq<Bytes>, budget: nat)
    ensures |Fitting(parts, budget)| <= budget
  {
    FitGreatest(parts, budget, Fit(parts, budget));
  }

  lemma MarkedRunes(kept: seq<int>) returns (text: seq<int>)
    requires Clean(kept)
    ensures text != [] && Clean(text) && Trimmed(text) && |Utf8.Encode(text)| <= MAX_LOG_FIELD_BYTES
    ensures Utf8.Encode(text) == TrimmedField(Utf8.Encode(kept), 157) + TRUNCATION_MARK
  {
    hide Fit, TrimSpace, TrimRunes, Pieces, Slices;
    CleanScalar(kept);
    SlicesOfText(kept);
    var cut := FittingPieces(kept, 157);
    FittingWithin(Pieces(kept), 157);
    TrimClean(cut);
    text := TrimRunes(cut) + MARK_RUNES;
    AppendMark(TrimRunes(cut));
  }

  const MARK_RUNES: seq<int> := [46, 46, 46]

  lemma MarkEncodes()
    ensures Utf8.Encode(MARK_RUNES) == TRUNCATION_MARK
  {
    AsciiEncodes(MARK_RUNES);
  }

  lemma AppendMark(rs: seq<int>)
    requires Clean(rs) && Trimmed(rs)
    ensures var text := rs + MARK_RUNES;
            text != [] && Clean(text) && Trimmed(text) && Utf8.Encode(text) == Utf8.Encode(rs) + TRUNCATION_MARK
  {
    hide Utf8.EncodeRune;
    Utf8.EncodeConcat(rs, MARK_RUNES);
    MarkEncodes();
  }

  lemma FittingPieces(rs: seq<int>, max: nat) returns (cut: seq<int>)
    ensures cut <= rs && Utf8.Encode(cut) == Fitting(Pieces(rs), max)
  {
    var k := Fit(Pieces(rs), max);
    cut := rs[..k];
    FlattenPieces(cut);
    assert Pieces(rs)[..k] == Pieces(cut);
  }

  lemma {:induction false} TrimLeftShrinks(s: Bytes)
    ensures |TrimLeft(s)| <= |s|
  {
    if s != [] && IsSpace(Utf8.Front(s)) { TrimLeftShrinks(s[Utf8.Width(s)..]); }
  }

  lemma {:induction false} TrimRightShrinks(s: Bytes)
    ensures |TrimRight(s)| <= |s|
  {
    if s != [] && IsSpace(Last(s)) { TrimRightShrinks(s[..|s| - LastWidth(s)]); }
  }

  lemma TrimShrinks(s: Bytes)
    ensures |TrimSpace(s)| <= |s|
  {
    TrimLeftShrinks(s);
    TrimRightShrinks(TrimLeft(s));
  }

  // ----- Main results -----

  /** A log field is never empty, at most 160 bytes, valid UTF-8 and free of control characters. */
  lemma FieldFit(s: Bytes)
    ensures var out := Field(s);
            && out != [] && |out| <= 160 && Utf8.Valid(out)
            && forall i :: 0 <= i < |out| ==> out[i] >= 0x20 && out[i] != 0x7F
  {
    var text := FieldRunes(s);
    var out := Field(s);
    Utf8.DecodeEncoded(text);
    forall i | 0 <= i < |out|
      ensures out[i] >= 0x20 && out[i] != 0x7F
    {
      if out[i] < 0x80 { Utf8.AsciiRunes(out, out[i]); }
    }
  }

  /** Sanitising a log field again changes nothing. */
  lemma FieldIdempotent(s: Bytes)
    ensures Field(Field(s)) == Field(s)
  {
    var text := FieldRunes(s);
    FieldOfText(text);
  }

  /** Trimmed text without control characters that fits is left alone. */
  lemma FieldOfText(text: seq<int>)
    requires text != [] && Clean(text) && Trimmed(text) && |Utf8.Encode(text)| <= MAX_LOG_FIELD_BYTES
    ensures Field(Utf8.Encode(text)) == Utf8.Encode(text)
  {
    hide Fit, TrimSpace, TrimRunes;
    CleanScalar(text);
    Utf8.DecodeEncoded(text);
    var pieces := Pieces(text);
    assert Chunks(text) == pieces;
    FlattenPieces(text);
    FlattenLength(pieces);
    WholeFits(pieces, MAX_LOG_FIELD_BYTES);
    TrimClean(text);
    TrimRunesTrimmed(text);
  }

  lemma WholeFits(parts: seq<Bytes>, budget: nat)
    requires TotalLength(parts) <= budget
    ensures Fitting(parts, budget) == Flatten(parts)
  {
    FlattenLength(parts);
    assert parts[..|parts|] == parts;
    FitGreatest(parts, budget, |parts|);
  }

  /**
   A field is cut exactly when its escaped form is longer than 160 bytes, and
   the mark is added exactly when it is cut and something is left.
   */
  lemma MarkedExactly(s: Bytes)
    ensures var escaped := Flatten(Chunks(Utf8.Runes(s)));
            var kept := TrimSpace(Fitting(Chunks(Utf8.Runes(s)), 160));
            Field(s) ==
              if |escaped| <= 160 then (if TrimSpace(escaped) == [] then DASH else TrimSpace(escaped))
              else if kept == [] then DASH
              else TrimSpace(Fitting(Slices(kept), 157)) + TRUNCATION_MARK
  {
    hide Fit, TrimSpace, Chunks, Slices;
    var chunks := Chunks(Utf8.Runes(s));
    FlattenLength(chunks);
    if TotalLength(chunks) <= 160 {
      WholeFits(chunks, 160);
    }
  }

  const HEX: Bytes := Ascii("0123456789abcdef")

  /** A rune as a log line shows it, in characters. */
  function WrittenRune(r: int): Bytes {
    if r == 9 || r == 10 || r == 13 then Ascii(" ")
    else if 0 <= r < 16 then Ascii("\\x") + [HEX[r]]
    else if 16 <= r < 32 || r == 127 then Ascii("\\x") + [HEX[r / 16], HEX[r % 16]]
    else Utf8.EncodeRune(r)
  }

  function Written(rs: seq<int>): Bytes {
    if rs == [] then [] else WrittenRune(rs[0]) + Written(rs[1..])
  }

  lemma ChunkWritten(r: int)
    ensures Chunk(r) == WrittenRune(r)
  {
    assert forall d :: 0 <= d < 16 ==> HexDigit(d) == HEX[d];
  }

  lemma {:induction false} ChunksWritten(rs: seq<int>)
    ensures Flatten(Chunks(rs)) == Written(rs)
  {
    if rs != [] {
      ChunkWritten(rs[0]);
      ChunksWritten(rs[1..]);
      assert Chunks(rs)[1..] == Chunks(rs[1..]);
    }
  }

  /** A field that fits is written rune by rune and trimmed. */
  lemma ShortFieldWritten(s: Bytes)
    requires |Written(Utf8.Runes(s))| <= 160
    ensures var shown := TrimSpace(Written(Utf8.Runes(s)));
            Field(s) == if shown == [] then Ascii("-") else shown
  {
    hide TrimSpace, Chunks, Field, Written, Fit;
    MarkedExactly(s);
    ChunksWritten(Utf8.Runes(s));
  }

  /** One that does not fit keeps the runes before the first that does not fit, less what the three dots need. */
  lemma LongFieldWritten(s: Bytes, k: nat)
    requires k < |Utf8.Runes(s)|
    requires |Written(Utf8.Runes(s)[..k])| <= 160 < |Written(Utf8.Runes(s)[..k + 1])|
    ensures var kept := TrimSpace(Written(Utf8.Runes(s)[..k]));
            Field(s) == if kept == [] then Ascii("-") else TrimSpace(Fitting(Slices(kept), 157)) + Ascii("...")
  {
    hide TrimSpace, Chunks, Field, Written, Fit, Slices;
    var rs := Utf8.Runes(s);
    var chunks := Chunks(rs);
    ChunksPrefix(rs, k);
    ChunksPrefix(rs, k + 1);
    FittingPrefix(chunks, k, 160);
    ChunksPrefix(rs, |rs|);
    assert rs[..|rs|] == rs;
    FitGreatest(chunks, 160, k + 1);
    FitGreatest(chunks, 160, |rs|);
    MarkedExactly(s);
  }

  lemma ChunksPrefix(rs: seq<int>, k: nat)
    requires k <= |rs|
    ensures |Chunks(rs)| == |rs| && Flatten(Chunks(rs)[..k]) == Written(rs[..k])
    ensures k == |rs| ==> Flatten(Chunks(rs)) == Written(rs)
  {
    ChunksWritten(rs[..k]);
    assert Chunks(rs)[..k] == Chunks(rs[..k]);
    ChunksWritten(rs);
  }

  /** The cut is at a rune boundary, and no later rune boundary would do. */
  lemma CutLongest(s: Bytes, max: nat, q: Bytes)
    requires Utf8.Valid(s) && Utf8.Valid(q) && q <= s && |q| <= max
    ensures var cut := Fitting(Slices(s), max);
            Utf8.Valid(cut) && q <= cut <= s && |cut| <= max
  {
    hide Fit;
    var rs := Utf8.Runes(s);
    var inner := Utf8.Runes(q);
    Utf8.RunesAreScalar(s);
    Utf8.EncodeDecoded(s);
    Utf8.EncodeDecoded(q);
    assert s == q + s[|q|..];
    Utf8.RunesConcat(q, s[|q|..]);
    SlicesOfText(rs);
    var cut := FittingPieces(rs, max);
    FittingWithin(Pieces(rs), max);
    Utf8.DecodeEncoded(cut);
    EncodePrefix(cut, rs);
    FittingContains(rs, inner, max);
  }

  lemma EncodePrefix(a: seq<int>, b: seq<int>)
    requires a <= b
    ensures Utf8.Encode(a) <= Utf8.Encode(b)
  {
    assert b == a + b[|a|..];
    Utf8.EncodeConcat(a, b[|a|..]);
  }

  lemma FittingContains(rs: seq<int>, inner: seq<int>, max: nat)
    requires inner <= rs && |Utf8.Encode(inner)| <= max
    ensures Utf8.Encode(inner) <= Fitting(Pieces(rs), max)
  {
    var j, k := |inner|, Fit(Pieces(rs), max);
    FlattenPieces(inner);
    assert Pieces(rs)[..j] == Pieces(inner);
    FitGreatest(Pieces(rs), max, j);
    FlattenPieces(rs[..k]);
    assert Pieces(rs)[..k] == Pieces(rs[..k]);
    EncodePrefix(inner, rs[..k]);
  }
}
