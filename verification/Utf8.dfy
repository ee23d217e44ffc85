/**
 UTF-8 as the daemon sees it through Go's `unicode/utf8`: a decoder that yields
 U+FFFD for each malformed byte, a validity test and an encoder.  The accepted
 byte sequences are those of the grammar in section 4 of RFC 3629.
 */
module Utf8 {
  import opened ByteStrings

  /** The rune that stands for a malformed byte. */
  const RUNE_ERROR: int := 0xFFFD

  /** Unicode scalar values: code points that are not surrogates. */
  predicate Scalar(r: int) {
    0 <= r < 0xD800 || 0xE000 <= r < 0x11_0000
  }

  predicate Tail(b: byte) {
    0x80 <= b <= 0xBF
  }

  /** The second byte a lead byte of a three-byte sequence allows. */
  predicate Second3(lead: byte, b: byte) {
    if lead == 0xE0 then 0xA0 <= b <= 0xBF
    else if lead == 0xED then 0x80 <= b <= 0x9F
    else Tail(b)
  }

  /** The second byte a lead byte of a four-byte sequence allows. */
  predicate Second4(lead: byte, b: byte) {
    if lead == 0xF0 then 0x90 <= b <= 0xBF
    else if lead == 0xF4 then 0x80 <= b <= 0x8F
    else Tail(b)
  }

  /** Length of the well-formed sequence at the front of `s`; 0 if there is none. */
  function SizeAt(s: Bytes): (n: nat)
    ensures n <= |s| && n <= 4
  {
    if s == [] then 0
    else if s[0] < 0x80 then 1
    else if 0xC2 <= s[0] <= 0xDF && |s| >= 2 && Tail(s[1]) then 2
    else if 0xE0 <= s[0] <= 0xEF && |s| >= 3 && Second3(s[0], s[1]) && Tail(s[2]) then 3
    else if 0xF0 <= s[0] <= 0xF4 && |s| >= 4 && Second4(s[0], s[1]) && Tail(s[2]) && Tail(s[3]) then 4
    else 0
  }

  /** `utf8.DecodeRune`, first result. */
  function Front(s: Bytes): int
    requires s != []
  {
    match SizeAt(s)
    case 0 => RUNE_ERROR
    case 1 => s[0] as int
    case 2 => (s[0] as int - 0xC0) * 0x40 + (s[1] as int - 0x80)
    case 3 => ((s[0] as int - 0xE0) * 0x40 + (s[1] as int - 0x80)) * 0x40 + (s[2] as int - 0x80)
    case _ => (((s[0] as int - 0xF0) * 0x40 + (s[1] as int - 0x80)) * 0x40
               + (s[2] as int - 0x80)) * 0x40 + (s[3] as int - 0x80)
  }

  /** `utf8.DecodeRune`, second result: a malformed byte has width 1. */
  function Width(s: Bytes): (n: nat)
    requires s != []
    ensures 1 <= n <= |s| && n <= 4
  {
    if SizeAt(s) == 0 then 1 else SizeAt(s)
  }

  /** The runes a `range` loop over `s` visits. */
  function Runes(s: Bytes): seq<int> {
    if s == [] then [] else [Front(s)] + Runes(s[Width(s)..])
  }

  /** `utf8.Valid`. */
  predicate Valid(s: Bytes) {
    s == [] || (SizeAt(s) != 0 && Valid(s[SizeAt(s)..]))
  }

  /** `string(r)`: what is not a scalar value is written as U+FFFD. */
  function EncodeRune(r: int): (s: Bytes)
    ensures 1 <= |s| <= 4
  {
    if !Scalar(r) then [0xEF, 0xBF, 0xBD]
    else if r < 0x80 then [r as byte]
    else if r < 0x800 then [(0xC0 + r / 0x40) as byte, (0x80 + r % 0x40) as byte]
    else if r < 0x1_0000 then
      [(0xE0 + r / 0x40 / 0x40) as byte, (0x80 + r / 0x40 % 0x40) as byte, (0x80 + r % 0x40) as byte]
    else
      [(0xF0 + r / 0x40 / 0x40 / 0x40) as byte, (0x80 + r / 0x40 / 0x40 % 0x40) as byte,
       (0x80 + r / 0x40 % 0x40) as byte, (0x80 + r % 0x40) as byte]
  }

  function Encode(rs: seq<int>): Bytes {
    if rs == [] then [] else EncodeRune(rs[0]) + Encode(rs[1..])
  }

  predicate AllScalar(rs: seq<int>) {
    forall i :: 0 <= i < |rs| ==> Scalar(rs[i])
  }

  // ----- One character -----

  lemma DecodeEncodedRune(r: int, rest: Bytes)
    requires Scalar(r)
    ensures var s := EncodeRune(r) + rest;
            SizeAt(s) == |EncodeRune(r)| && Front(s) == r && s[SizeAt(s)..] == rest
  {
    var e := EncodeRune(r);
    DecodeRuneAlone(r);
    SizeOfExtension(e, rest);
    assert e[|e|..] == [];
  }

  lemma DecodeRuneAlone(r: int)
    requires Scalar(r)
    ensures SizeAt(EncodeRune(r)) == |EncodeRune(r)| && Front(EncodeRune(r)) == r
  {
    var q := r / 0x40;
    if r < 0x800 {
    } else if r < 0x1_0000 {
      assert r == q * 0x40 + r % 0x40 && q == (q / 0x40) * 0x40 + q % 0x40;
    } else {
      assert q == (q / 0x40) * 0x40 + q % 0x40;
    }
  }

  /** Splitting a number written in base 64. */
  lemma Base64(hi: nat, lo: nat)
    requires lo < 0x40
    ensures (hi * 0x40 + lo) / 0x40 == hi && (hi * 0x40 + lo) % 0x40 == lo
  {
  }

  lemma EncodeDecodedRune(s: Bytes)
    requires SizeAt(s) != 0
    ensures Scalar(Front(s)) && EncodeRune(Front(s)) == s[..SizeAt(s)]
  {
    match SizeAt(s)
    case 1 =>
    case 2 => EncodeDecoded2(s);
    case 3 => EncodeDecoded3(s);
    case _ => EncodeDecoded4(s);
  }

  lemma EncodeDecoded2(s: Bytes)
    requires SizeAt(s) == 2
    ensures Scalar(Front(s)) && EncodeRune(Front(s)) == s[..2]
  {
    Base64(s[0] as int - 0xC0, s[1] as int - 0x80);
  }

  lemma EncodeDecoded3(s: Bytes)
    requires SizeAt(s) == 3
    ensures Scalar(Front(s)) && EncodeRune(Front(s)) == s[..3]
  {
    var b0, b1, b2 := s[0] as int - 0xE0, s[1] as int - 0x80, s[2] as int - 0x80;
    var q := b0 * 0x40 + b1;
    Base64(b0, b1);
    Base64(q, b2);
    assert Front(s) == q * 0x40 + b2;
    assert 0x800 <= q * 0x40 + b2 < 0x1_0000 && Scalar(q * 0x40 + b2);
  }

  lemma EncodeDecoded4(s: Bytes)
    requires SizeAt(s) == 4
    ensures Scalar(Front(s)) && EncodeRune(Front(s)) == s[..4]
  {
    var b0, b1, b2, b3 := s[0] as int - 0xF0, s[1] as int - 0x80, s[2] as int - 0x80, s[3] as int - 0x80;
    var p := b0 * 0x40 + b1;
    var q := p * 0x40 + b2;
    Base64(b0, b1);
    Base64(p, b2);
    Base64(q, b3);
    assert Front(s) == q * 0x40 + b3;
    assert 0x1_0000 <= q * 0x40 + b3 < 0x11_0000;
  }

  predicate TwoBytes(s: Bytes) {
    |s| >= 2 && 0xC2 <= s[0] <= 0xDF && 0x80 <= s[1] <= 0xBF
  }

  predicate ThreeBytes(s: Bytes) {
    && |s| >= 3 && 0xE0 <= s[0] <= 0xEF && 0x80 <= s[1] <= 0xBF && 0x80 <= s[2] <= 0xBF
    && (s[0] == 0xE0 ==> s[1] >= 0xA0) && (s[0] == 0xED ==> s[1] <= 0x9F)
  }

  predicate FourBytes(s: Bytes) {
    && |s| >= 4 && 0xF0 <= s[0] <= 0xF4 && 0x80 <= s[1] <= 0xBF && 0x80 <= s[2] <= 0xBF && 0x80 <= s[3] <= 0xBF
    && (s[0] == 0xF0 ==> s[1] >= 0x90) && (s[0] == 0xF4 ==> s[1] <= 0x8F)
  }

  lemma FourByteValue(s: Bytes)
    requires FourBytes(s)
    ensures Width(s) == SizeAt(s) == 4
    ensures Front(s) == (s[0] as int % 8) * 0x4_0000 + (s[1] as int % 0x40) * 0x1000
                      + (s[2] as int % 0x40) * 0x40 + s[3] as int % 0x40
  {
  }

  /** What the bytes at the front stand for, in numbers (sections 3 and 4 of RFC 3629). */
  lemma FrontExactly(s: Bytes)
    requires s != []
    ensures var b0 := s[0] as int;
            if b0 < 0x80 then Width(s) == 1 && Front(s) == b0
            else if TwoBytes(s) then
              Width(s) == 2 && Front(s) == (b0 % 0x20) * 0x40 + s[1] as int % 0x40
            else if ThreeBytes(s) then
              Width(s) == 3 && Front(s) == (b0 % 0x10) * 0x1000 + (s[1] as int % 0x40) * 0x40 + s[2] as int % 0x40
            else if FourBytes(s) then
              Width(s) == 4 && Front(s) == (b0 % 8) * 0x4_0000 + (s[1] as int % 0x40) * 0x1000
                                         + (s[2] as int % 0x40) * 0x40 + s[3] as int % 0x40
            else Width(s) == 1 && Front(s) == 0xFFFD
    ensures SizeAt(s) == 0 <==> s[0] >= 0x80 && !TwoBytes(s) && !ThreeBytes(s) && !FourBytes(s)
  {
    if FourBytes(s) { FourByteValue(s); }
  }

  /** Every code point is written in the bytes that stand for it (section 3 of RFC 3629). */
  lemma EncodedBytes(r: int)
    requires 0 <= r < 0xD800 || 0xE000 <= r < 0x11_0000
    ensures var e := EncodeRune(r);
            if r < 0x80 then |e| == 1 && e[0] as int == r
            else if r < 0x800 then
              |e| == 2 && r == (e[0] as int - 0xC0) * 0x40 + (e[1] as int - 0x80)
              && 0 <= e[1] as int - 0x80 < 0x40
            else if r < 0x1_0000 then
              |e| == 3 && r == (e[0] as int - 0xE0) * 0x1000 + (e[1] as int - 0x80) * 0x40 + (e[2] as int - 0x80)
              && 0 <= e[1] as int - 0x80 < 0x40 && 0 <= e[2] as int - 0x80 < 0x40
            else
              |e| == 4 && r == (e[0] as int - 0xF0) * 0x4_0000 + (e[1] as int - 0x80) * 0x1000
                             + (e[2] as int - 0x80) * 0x40 + (e[3] as int - 0x80)
              && 0 <= e[1] as int - 0x80 < 0x40 && 0 <= e[2] as int - 0x80 < 0x40 && 0 <= e[3] as int - 0x80 < 0x40
  {
    var q := r / 0x40;
    assert r == q * 0x40 + r % 0x40 && q == (q / 0x40) * 0x40 + q % 0x40;
    assert q / 0x40 == (q / 0x40 / 0x40) * 0x40 + q / 0x40 % 0x40;
  }

  // ----- Whole strings -----

  lemma {:induction false} RunesAreScalar(s: Bytes)
    ensures AllScalar(Runes(s))
  {
    if s != [] {
      RunesAreScalar(s[Width(s)..]);
      if SizeAt(s) != 0 {
        EncodeDecodedRune(s);
      }
    }
  }

  /** Decoding undoes encoding. */
  lemma {:induction false} DecodeEncoded(rs: seq<int>)
    requires AllScalar(rs)
    ensures Valid(Encode(rs)) && Runes(Encode(rs)) == rs
  {
    if rs != [] {
      DecodeEncodedRune(rs[0], Encode(rs[1..]));
      DecodeEncoded(rs[1..]);
    }
  }

  /** Encoding undoes decoding on exactly the valid strings. */
  lemma {:induction false} EncodeDecoded(s: Bytes)
    ensures Valid(s) <==> Encode(Runes(s)) == s
  {
    hide EncodeRune;
    if s != [] {
      var n := Width(s);
      EncodeDecoded(s[n..]);
      EncodeOfRunes(s);
      assert s == s[..n] + s[n..];
      if SizeAt(s) != 0 {
        EncodeDecodedRune(s);
        CancelPrefix(s[..n], s[n..], Encode(Runes(s[n..])));
      } else {
        ErrorIsNotItself(s, Encode(Runes(s[n..])));
      }
    }
  }

  lemma CancelPrefix(a: Bytes, b: Bytes, c: Bytes)
    ensures a + b == a + c <==> b == c
  {
    if a + b == a + c {
      assert b == (a + b)[|a|..] && c == (a + c)[|a|..];
    }
  }

  lemma EncodeOfRunes(s: Bytes)
    requires s != []
    ensures Encode(Runes(s)) == EncodeRune(Front(s)) + Encode(Runes(s[Width(s)..]))
  {
    assert Runes(s)[1..] == Runes(s[Width(s)..]);
  }

  /** A malformed byte and the encoding of U+FFFD never coincide. */
  lemma ErrorIsNotItself(s: Bytes, rest: Bytes)
    requires s != [] && SizeAt(s) == 0
    ensures s != EncodeRune(RUNE_ERROR) + rest
  {
    DecodeEncodedRune(RUNE_ERROR, rest);
  }

  /** The valid strings are exactly the encodings of sequences of scalar values. */
  lemma ValidExactlyEncodings(s: Bytes)
    ensures Valid(s) <==> exists rs :: AllScalar(rs) && Encode(rs) == s
  {
    EncodeDecoded(s);
    RunesAreScalar(s);
    if rs :| AllScalar(rs) && Encode(rs) == s {
      DecodeEncoded(rs);
    }
  }

  /** What follows a complete sequence does not change how it is decoded. */
  lemma SizeOfExtension(a: Bytes, b: Bytes)
    requires SizeAt(a) != 0
    ensures SizeAt(a + b) == SizeAt(a) && Front(a + b) == Front(a)
    ensures (a + b)[SizeAt(a)..] == a[SizeAt(a)..] + b
  {
    assert forall i :: 0 <= i < |a| ==> (a + b)[i] == a[i];
  }

  lemma {:induction false} RunesConcat(a: Bytes, b: Bytes)
    requires Valid(a)
    ensures Runes(a + b) == Runes(a) + Runes(b)
    ensures Valid(a + b) <==> Valid(b)
  {
    if a == [] {
      assert a + b == b;
    } else {
      SizeOfExtension(a, b);
      RunesConcat(a[SizeAt(a)..], b);
    }
  }

  lemma {:induction false} EncodeConcat(a: seq<int>, b: seq<int>)
    ensures Encode(a + b) == Encode(a) + Encode(b)
  {
    if a == [] {
      assert a + b == b;
    } else {
      assert (a + b)[1..] == a[1..] + b;
      EncodeConcat(a[1..], b);
    }
  }

  lemma EncodeSnoc(rs: seq<int>, r: int)
    ensures Encode(rs + [r]) == Encode(rs) + EncodeRune(r)
  {
    EncodeConcat(rs, [r]);
    EncodeOne(r);
  }

  lemma EncodeOne(r: int)
    ensures Encode([r]) == EncodeRune(r)
  {
    assert Encode([r]) == EncodeRune(r) + Encode([r][1..]);
  }

  // ----- ASCII -----

  predicate IsAscii(s: Bytes) {
    forall i :: 0 <= i < |s| ==> s[i] < 0x80
  }

  lemma AsciiFront(s: Bytes)
    requires s != []
    ensures Front(s) < 0x80 <==> s[0] < 0x80
    ensures s[0] < 0x80 ==> Front(s) == s[0] as int && SizeAt(s) == Width(s) == 1
  {
    if SizeAt(s) != 0 { EncodeDecodedRune(s); }
  }

  lemma {:induction false} AsciiLast(s: Bytes, c: byte)
    requires Valid(s) && s != [] && c < 0x80
    ensures Runes(s) != [] && (Runes(s)[|Runes(s)| - 1] == c as int <==> s[|s| - 1] == c)
  {
    var n := SizeAt(s);
    if n == |s| {
      assert Runes(s) == [Front(s)] + Runes([]);
      EncodeDecodedRune(s);
    } else {
      AsciiLast(s[n..], c);
    }
  }

  /** An ASCII byte occurs in a string exactly where its rune is visited. */
  lemma {:induction false} AsciiRunes(s: Bytes, c: byte)
    requires c < 0x80
    ensures c in s <==> c as int in Runes(s)
  {
    if s != [] {
      var n := Width(s);
      AsciiRunes(s[n..], c);
      assert s == s[..n] + s[n..];
      if s[0] >= 0x80 {
        assert c !in s[..n];
        AsciiFront(s);
      } else {
        assert s[..n] == [s[0]];
      }
    }
  }
}
