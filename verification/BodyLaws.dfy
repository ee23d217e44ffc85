/**
 What becomes of each code point of a body, in numbers: `sanitizeBody`,
 `validOutputRune` and `validOutputByte` in internal/server/server.go.
 */
module BodyLaws {
  import opened ByteStrings
  import opened Sanitize
  import Utf8

  /** Code points that go out unchanged. */
  predicate Ordinary(c: int) {
    c == 9 || 0x20 <= c <= 0x7E || c >= 0xA0
  }

  predicate NoLineEnd(cs: seq<int>) {
    forall i :: 0 <= i < |cs| ==> cs[i] != 13 && cs[i] != 10
  }

  /** Each ordinary code point as it is, each other one as a question mark. */
  function Shown(cs: seq<int>): seq<int> {
    seq(|cs|, i requires 0 <= i < |cs| => if Ordinary(cs[i]) then cs[i] else 63)
  }

  lemma {:induction false} NormaliseLine(cs: seq<int>)
    requires NoLineEnd(cs)
    ensures Normalise(cs, 13, 10) == cs
  {
    if cs != [] { NormaliseLine(cs[1..]); }
  }

  lemma {:induction false} RewriteLine(cs: seq<int>)
    requires NoLineEnd(cs) && forall i :: 0 <= i < |cs| ==> cs[i] >= 0
    ensures Rewrite(cs) == Shown(cs)
  {
    if cs != [] {
      RewriteLine(cs[1..]);
      assert Shown(cs) == Shown([cs[0]]) + Shown(cs[1..]);
      assert RewriteRune(cs[0]) == Shown([cs[0]]);
    }
  }

  lemma NonNegative(cs: seq<int>, utf8: bool)
    requires Encodable(cs, utf8)
    ensures forall i :: 0 <= i < |cs| ==> cs[i] >= 0
  {
  }

  /** A body without line ends, code point by code point: tab, 0x20 to 0x7E and 0xA0 up stay, the rest become 63. */
  lemma LineShown(cs: seq<int>, utf8: bool)
    requires Encodable(cs, utf8) && NoLineEnd(cs) && 0 !in cs
    ensures Sanitized(Encode(cs, utf8), utf8) == Ok(Encode(Shown(cs), utf8))
  {
    hide Rewrite, Normalise, Shown;
    DecodeEncoded(cs, utf8);
    DecodedAscii(Encode(cs, utf8), utf8, 0);
    NonNegative(cs, utf8);
    NormaliseLine(cs);
    RewriteLine(cs);
  }

  /** Ordinary code points are returned as they are, in both modes. */
  lemma OrdinaryUnchanged(cs: seq<int>, utf8: bool)
    requires Encodable(cs, utf8) && forall i :: 0 <= i < |cs| ==> Ordinary(cs[i])
    ensures Sanitized(Encode(cs, utf8), utf8) == Ok(Encode(cs, utf8))
  {
    assert Shown(cs) == cs;
    LineShown(cs, utf8);
  }

  /** A control between two ordinary pieces comes out as exactly 63. */
  lemma ControlReplaced(a: seq<int>, c: int, b: seq<int>, utf8: bool)
    requires Encodable(a + [c] + b, utf8)
    requires forall i :: 0 <= i < |a| ==> Ordinary(a[i])
    requires forall i :: 0 <= i < |b| ==> Ordinary(b[i])
    requires (0 < c < 0x20 && c != 9 && c != 10 && c != 13) || 0x7F <= c <= 0x9F
    ensures Sanitized(Encode(a + [c] + b, utf8), utf8) == Ok(Encode(a + [63] + b, utf8))
  {
    assert Shown(a + [c] + b) == a + [63] + b;
    LineShown(a + [c] + b, utf8);
  }

  /** A line end of any kind between two bodies comes out as CR LF, unless it is part of a longer one. */
  lemma LineEndsWritten(a: Bytes, b: Bytes, utf8: bool)
    requires Sanitized(a, utf8).Ok? && Sanitized(b, utf8).Ok?
    ensures var (x, y) := (Sanitized(a, utf8).value, Sanitized(b, utf8).value);
            && Sanitized(a + [13, 10] + b, utf8) == Ok(x + [13, 10] + y)
            && (!(b != [] && b[0] == 10) ==> Sanitized(a + [13] + b, utf8) == Ok(x + [13, 10] + y))
            && (!(a != [] && a[|a| - 1] == 13) ==> Sanitized(a + [10] + b, utf8) == Ok(x + [13, 10] + y))
  {
    hide Sanitized;
    LineEndAlone([13, 10], utf8);
    LineEndAlone([13], utf8);
    LineEndAlone([10], utf8);
    ThreePieces(a, [13, 10], b, utf8);
    if !(b != [] && b[0] == 10) { ThreePieces(a, [13], b, utf8); }
    if !(a != [] && a[|a| - 1] == 13) { ThreePieces(a, [10], b, utf8); }
  }

  lemma NormaliseEnd(cs: seq<int>)
    requires cs == [13, 10] || cs == [13] || cs == [10]
    ensures Canon(cs) == [13, 10]
  {
    assert |cs| == 2 ==> cs[2..] == [];
    assert |cs| == 1 ==> cs[1..] == [];
    assert Normalise(cs, 13, 10) == [10];
    assert [10][1..] == [];
  }

  lemma LineEndAlone(e: Bytes, utf8: bool)
    requires e == [13, 10] || e == [13] || e == [10]
    ensures Sanitized(e, utf8) == Ok([13, 10])
  {
    hide Canon, Encode, Utf8.Runes, Utf8.Valid;
    AsciiWiden(e);
    NormaliseEnd(Widen(e));
    EncodeCrlf(utf8);
  }

  lemma ThreePieces(a: Bytes, e: Bytes, b: Bytes, utf8: bool)
    requires Sanitized(a, utf8).Ok? && Sanitized(e, utf8).Ok? && Sanitized(b, utf8).Ok? && e != []
    requires !Splits(a, e, CR, LF) && !Splits(e, b, CR, LF)
    ensures Sanitized(a + e + b, utf8)
         == Ok(Sanitized(a, utf8).value + Sanitized(e, utf8).value + Sanitized(b, utf8).value)
  {
    hide Sanitized;
    SanitizeDistributes(a, e, utf8);
    assert (a + e)[|a + e| - 1] == e[|e| - 1];
    SanitizeDistributes(a + e, b, utf8);
  }

  /** A body is refused exactly for a NUL byte, or in UTF-8 mode for not being an encoding of scalar values. */
  lemma RefusedExactly(raw: Bytes, utf8: bool)
    ensures Sanitized(raw, utf8).Ok?
       <==> 0 !in raw && (utf8 ==> exists rs :: Utf8.AllScalar(rs) && Utf8.Encode(rs) == raw)
  {
    Utf8.ValidExactlyEncodings(raw);
  }
}
