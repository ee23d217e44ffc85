/**
 Content sanitising: `sanitizeBody` in internal/server/server.go.

 The specification reads the body as a sequence of code points: runes on a
 TLS (UTF-8) listener, plain bytes otherwise.  Line ends become CRLF, code
 points that must not reach a terminal become `?`, the rest is unchanged.  The
 method works on bytes, with the same two replacement passes and loops as the
 program, and is proved to compute that specification.
 */
module Sanitize {
  import opened ByteStrings
  import Utf8

  const QUESTION: int := 63

  datatype BodyError = ContainsNul | NotUtf8

  predicate ValidOutputRune(r: int) {
    if r == 9 then true
    else if r < 0x20 then false
    else !(r == 0x7F || 0x80 <= r <= 0x9F)
  }

  predicate ValidOutputByte(b: byte) {
    if b == TAB then true
    else if b < 0x20 then false
    else !(b == 0x7F || 0x80 <= b <= 0x9F)
  }

  // ----- Code points -----

  function Widen(s: Bytes): seq<int> {
    seq(|s|, i requires 0 <= i < |s| => s[i] as int)
  }

  function Narrow(cs: seq<int>): Bytes {
    seq(|cs|, i requires 0 <= i < |cs| => (cs[i] % 0x100) as byte)
  }

  /** The code points of a body, read the way the listener reads it. */
  function Decode(s: Bytes, utf8: bool): seq<int> {
    if utf8 then Utf8.Runes(s) else Widen(s)
  }

  function Encode(cs: seq<int>, utf8: bool): Bytes {
    if utf8 then Utf8.Encode(cs) else Narrow(cs)
  }

  predicate Encodable(cs: seq<int>, utf8: bool) {
    if utf8 then Utf8.AllScalar(cs) else forall i :: 0 <= i < |cs| ==> 0 <= cs[i] < 0x100
  }

  predicate Readable(s: Bytes, utf8: bool) {
    utf8 ==> Utf8.Valid(s)
  }

  // ----- Specification -----

  /** Every line end (CR LF, lone CR or lone LF) becomes a single `lf`. */
  function Normalise<T(==)>(s: seq<T>, cr: T, lf: T): seq<T> {
    if s == [] then []
    else if s[0] == cr then
      [lf] + Normalise(if |s| > 1 && s[1] == lf then s[2..] else s[1..], cr, lf)
    else [s[0]] + Normalise(s[1..], cr, lf)
  }

  function RewriteRune(r: int): seq<int> {
    if r == 10 then [13, 10]
    else if ValidOutputRune(r) then [r]
    else [QUESTION]
  }

  function Rewrite(cs: seq<int>): seq<int> {
    if cs == [] then [] else RewriteRune(cs[0]) + Rewrite(cs[1..])
  }

  /** What a body's code points become. */
  function Canon(cs: seq<int>): seq<int> {
    Rewrite(Normalise(cs, 13, 10))
  }

  /** `sanitizeBody` as a function on the meaning of the body. */
  function Sanitized(raw: Bytes, utf8: bool): Result<Bytes, BodyError> {
    if 0 in raw then Err(ContainsNul)
    else if !Readable(raw, utf8) then Err(NotUtf8)
    else Ok(Encode(Canon(Decode(raw, utf8)), utf8))
  }

  /** Every `cr` is directly followed by an `lf`, and every `lf` directly follows a `cr`. */
  predicate CrlfOnly<T(==)>(s: seq<T>, cr: T, lf: T) {
    s == []
    || (s[0] == cr && |s| > 1 && s[1] == lf && CrlfOnly(s[2..], cr, lf))
    || (s[0] != cr && s[0] != lf && CrlfOnly(s[1..], cr, lf))
  }

  /** Code points as they may go out on the wire. */
  predicate Wire(cs: seq<int>) {
    CrlfOnly(cs, 13, 10) && forall i :: 0 <= i < |cs| ==> cs[i] == 13 || cs[i] == 10 || ValidOutputRune(cs[i])
  }

  /** A body that may go out on the wire unchanged. */
  predicate Text(s: Bytes, utf8: bool) {
    Readable(s, utf8) && Wire(Decode(s, utf8))
  }

  // ----- The program -----

  method SanitizeBody(raw: Bytes, utf8Required: bool) returns (r: Result<Bytes, BodyError>)
    ensures r == Sanitized(raw, utf8Required)
  {
    if 0 in raw {
      return Err(ContainsNul);
    }
    var body := ReplaceAll(raw, CRLF, [LF]);
    body := ReplaceAll(body, [CR], [LF]);
    TwoPassesNormalise(raw, CR, LF);
    NormaliseDecoded(raw, utf8Required);

    if utf8Required {
      if !Utf8.Valid(body) {
        return Err(NotUtf8);
      }
      var out := RewriteUtf8(body);
      return Ok(out);
    }
    var out := RewriteBytes(body);
    return Ok(out);
  }

  /** The loop over runes. */
  method RewriteUtf8(body: Bytes) returns (out: Bytes)
    ensures out == Utf8.Encode(Rewrite(Utf8.Runes(body)))
  {
    out := [];
    var rest := body;
    while |rest| > 0
      invariant out + Utf8.Encode(Rewrite(Utf8.Runes(rest))) == Utf8.Encode(Rewrite(Utf8.Runes(body)))
      decreases |rest|
    {
      var rune, size := Utf8.Front(rest), Utf8.Width(rest);
      ghost var before, tail := out, Utf8.Encode(Rewrite(Utf8.Runes(rest[size..])));
      RewriteStep(rest);
      Associative(before, Utf8.Encode(RewriteRune(rune)), tail);
      rest := rest[size..];
      if rune == 10 {
        out := out + [CR, LF];
      } else if ValidOutputRune(rune) {
        out := out + Utf8.EncodeRune(rune);
      } else {
        out := out + [QUESTION as byte];
      }
    }
  }

  /** The loop over bytes. */
  method RewriteBytes(body: Bytes) returns (out: Bytes)
    ensures out == Narrow(Rewrite(Widen(body)))
  {
    out := [];
    for i := 0 to |body|
      invariant out == Narrow(Rewrite(Widen(body[..i])))
    {
      var b := body[i];
      if b == LF {
        out := out + [CR, LF];
      } else if ValidOutputByte(b) {
        out := out + [b];
      } else {
        out := out + [QUESTION as byte];
      }
      RewriteWidened(body, i);
    }
    assert body[..|body|] == body;
  }

  lemma Associative(a: Bytes, b: Bytes, c: Bytes)
    ensures (a + b) + c == a + (b + c)
  {
  }

  lemma RewriteStep(s: Bytes)
    requires s != []
    ensures Utf8.Encode(Rewrite(Utf8.Runes(s)))
         == Utf8.Encode(RewriteRune(Utf8.Front(s))) + Utf8.Encode(Rewrite(Utf8.Runes(s[Utf8.Width(s)..])))
    ensures Utf8.Encode(RewriteRune(Utf8.Front(s)))
         == if Utf8.Front(s) == 10 then [CR, LF]
            else if ValidOutputRune(Utf8.Front(s)) then Utf8.EncodeRune(Utf8.Front(s))
            else [QUESTION as byte]
  {
    var rest := Utf8.Runes(s[Utf8.Width(s)..]);
    assert Utf8.Runes(s)[1..] == rest;
    var head := RewriteRune(Utf8.Front(s));
    Utf8.EncodeConcat(head, Rewrite(rest));
    assert [13, 10][1..] == [10];
    assert Utf8.Encode(head) == Utf8.EncodeRune(head[0]) + Utf8.Encode(head[1..]);
  }

  lemma RewriteWidened(body: Bytes, i: nat)
    requires i < |body|
    ensures Narrow(Rewrite(Widen(body[..i + 1])))
         == Narrow(Rewrite(Widen(body[..i])))
            + if body[i] == LF then [CR, LF]
              else if ValidOutputByte(body[i]) then [body[i]]
              else [QUESTION as byte]
  {
    hide Rewrite;
    var cs, c := Widen(body[..i]), body[i] as int;
    assert Widen(body[..i + 1]) == cs + [c];
    RewriteSnoc(cs, c);
    assert Narrow(Rewrite(cs) + RewriteRune(c)) == Narrow(Rewrite(cs)) + Narrow(RewriteRune(c));
  }

  lemma RewriteSnoc(cs: seq<int>, c: int)
    ensures Rewrite(cs + [c]) == Rewrite(cs) + RewriteRune(c)
  {
    RewriteConcat(cs, [c]);
    assert Rewrite([c]) == RewriteRune(c) + Rewrite([c][1..]);
  }

  // ----- Newlines -----

  /** The two whole-buffer replacements normalise line ends. */
  lemma {:induction false} TwoPassesNormalise<T>(s: seq<T>, cr: T, lf: T)
    requires cr != lf
    ensures ReplaceAll(ReplaceAll(s, [cr, lf], [lf]), [cr], [lf]) == Normalise(s, cr, lf)
  {
    if s == [] {
    } else if |s| == 1 {
      ReplaceOne(s[0], [], cr, lf);
      assert s == [s[0]] + [];
    } else if s[0] == cr && s[1] == lf {
      assert s[..2] == [cr, lf];
      TwoPassesNormalise(s[2..], cr, lf);
      ReplaceOne(lf, ReplaceAll(s[2..], [cr, lf], [lf]), cr, lf);
    } else {
      assert s[..2] != [cr, lf] by { assert s[..2] == [s[0], s[1]]; }
      TwoPassesNormalise(s[1..], cr, lf);
      ReplaceOne(s[0], ReplaceAll(s[1..], [cr, lf], [lf]), cr, lf);
    }
  }

  lemma ReplaceOne<T>(x: T, t: seq<T>, cr: T, lf: T)
    ensures ReplaceAll([x] + t, [cr], [lf]) == [if x == cr then lf else x] + ReplaceAll(t, [cr], [lf])
  {
    var s := [x] + t;
    assert s[1..] == t && s[..1] == [x];
  }

  lemma {:induction false} NormaliseConcat<T>(a: seq<T>, b: seq<T>, cr: T, lf: T)
    requires cr != lf
    ensures Normalise(a + b, cr, lf)
         == Normalise(a, cr, lf) + Normalise(if Splits(a, b, cr, lf) then b[1..] else b, cr, lf)
  {
    hide Normalise;
    if a == [] {
      assert a + b == b;
      NormaliseEmpty(cr, lf);
    } else {
      var k := Span(a, cr, lf);
      NormaliseStep(a, cr, lf);
      NormaliseStep(a + b, cr, lf);
      assert (a + b)[k..] == a[k..] + b;
      if |a| == 1 {
        assert a[1..] == [] && a[1..] + b == b;
        NormaliseEmpty(cr, lf);
        assert Splits(a, b, cr, lf) ==> (a + b)[2..] == b[1..];
      } else {
        NormaliseConcat(a[k..], b, cr, lf);
      }
    }
  }

  /** How many elements the first element of the normal form stands for. */
  function Span<T(==)>(s: seq<T>, cr: T, lf: T): nat
    requires s != []
  {
    if s[0] == cr && |s| > 1 && s[1] == lf then 2 else 1
  }

  lemma NormaliseStep<T>(s: seq<T>, cr: T, lf: T)
    requires s != []
    ensures Normalise(s, cr, lf) == [if s[0] == cr then lf else s[0]] + Normalise(s[Span(s, cr, lf)..], cr, lf)
  {
    assert s[0] != cr ==> Normalise(s, cr, lf) == [s[0]] + Normalise(s[1..], cr, lf);
  }

  lemma NormaliseEmpty<T>(cr: T, lf: T)
    ensures Normalise([], cr, lf) == []
  {
  }

  /** The cut between `a` and `b` falls inside a CR LF pair. */
  predicate Splits<T(==)>(a: seq<T>, b: seq<T>, cr: T, lf: T) {
    a != [] && a[|a| - 1] == cr && b != [] && b[0] == lf
  }

  /** Normalising bytes and normalising code points is the same thing, and preserves validity both ways. */
  lemma NormaliseDecoded(raw: Bytes, utf8: bool)
    ensures Readable(Normalise(raw, CR, LF), utf8) <==> Readable(raw, utf8)
    ensures Decode(Normalise(raw, CR, LF), utf8) == Normalise(Decode(raw, utf8), 13, 10)
  {
    if utf8 {
      NormaliseRunes(raw);
    } else {
      NormaliseWiden(raw);
    }
  }

  lemma {:induction false} NormaliseWiden(s: Bytes)
    ensures Widen(Normalise(s, CR, LF)) == Normalise(Widen(s), 13, 10)
  {
    if s != [] {
      var k := if s[0] == CR && |s| > 1 && s[1] == LF then 2 else 1;
      assert Widen(s)[k..] == Widen(s[k..]);
      NormaliseWiden(s[k..]);
    }
  }

  lemma {:induction false} NormaliseRunes(s: Bytes)
    ensures Utf8.Runes(Normalise(s, CR, LF)) == Normalise(Utf8.Runes(s), 13, 10)
    ensures Utf8.Valid(Normalise(s, CR, LF)) <==> Utf8.Valid(s)
    decreases |s|
  {
    if s == [] {
    } else if s[0] == CR {
      if |s| > 1 && s[1] == LF {
        NormaliseRunes(s[2..]);
        LineFeedFirst(Normalise(s[2..], CR, LF));
        CrlfFirst(s);
      } else {
        NormaliseRunes(s[1..]);
        LineFeedFirst(Normalise(s[1..], CR, LF));
        assert Utf8.Runes(s) == [13] + Utf8.Runes(s[1..]);
        assert |s| > 1 ==> Utf8.Front(s[1..]) != 10 by {
          if |s| > 1 { FrontIsLineFeed(s[1..]); }
        }
      }
    } else {
      var n := Utf8.Width(s);
      NormaliseFront(s);
      NormaliseRunes(s[n..]);
      FrontIsCarriageReturn(s);
      assert Utf8.Runes(s)[1..] == Utf8.Runes(s[n..]);
    }
  }

  lemma LineFeedFirst(t: Bytes)
    ensures Utf8.Runes([LF] + t) == [10] + Utf8.Runes(t)
    ensures Utf8.Valid([LF] + t) <==> Utf8.Valid(t)
  {
    assert ([LF] + t)[1..] == t;
  }

  lemma CrlfFirst(s: Bytes)
    requires |s| > 1 && s[0] == CR && s[1] == LF
    ensures var rs := Utf8.Runes(s); |rs| > 1 && rs[0] == 13 && rs[1] == 10 && rs[2..] == Utf8.Runes(s[2..])
    ensures Utf8.Valid(s) <==> Utf8.Valid(s[2..])
  {
    var t := s[1..];
    assert t[1..] == s[2..];
    assert Utf8.Runes(t) == [10] + Utf8.Runes(s[2..]);
    assert Utf8.Runes(s) == [13] + Utf8.Runes(t);
  }

  lemma FrontIsLineFeed(s: Bytes)
    requires s != []
    ensures Utf8.Front(s) == 10 <==> s[0] == LF
  {
    Utf8.AsciiFront(s);
  }

  lemma FrontIsCarriageReturn(s: Bytes)
    requires s != []
    ensures Utf8.Front(s) == 13 <==> s[0] == CR
  {
    Utf8.AsciiFront(s);
  }

  /** A first character that is not CR survives normalisation, well-formed or not. */
  lemma NormaliseFront(s: Bytes)
    requires s != [] && s[0] != CR
    ensures var t := Normalise(s, CR, LF);
            && t != [] && Utf8.SizeAt(t) == Utf8.SizeAt(s) && Utf8.Front(t) == Utf8.Front(s)
            && t[Utf8.Width(t)..] == Normalise(s[Utf8.Width(s)..], CR, LF)
  {
    hide Normalise, Utf8.SizeAt, Utf8.Front;
    var t := Normalise(s, CR, LF);
    var k := HighRun(s);
    NormaliseKeeps(s, k);
    SameFront(s, t, k);
    NormaliseKeeps(s, Utf8.Width(s));
  }

  /** The first byte of `s` and the high bytes after it, at most four bytes in all. */
  function HighRun(s: Bytes): (k: nat)
    requires s != [] && s[0] != CR
    ensures 1 <= k <= |s| && k <= 4 && CR !in s[..k]
    ensures forall i :: 0 < i < k ==> s[i] >= 0x80
    ensures k == 4 || k == |s| || s[k] < 0x80
  {
    if |s| == 1 || s[1] < 0x80 then 1
    else if |s| == 2 || s[2] < 0x80 then 2
    else if |s| == 3 || s[3] < 0x80 then 3
    else 4
  }

  /** Decoding looks no further than the first low byte. */
  lemma SameFront(s: Bytes, t: Bytes, k: nat)
    requires 1 <= k <= 4 && k <= |s| && k <= |t| && s[..k] == t[..k]
    requires k == 4 || (|s| == k && |t| == k) || (|s| > k && |t| > k && s[k] < 0x80 && t[k] < 0x80)
    ensures Utf8.SizeAt(s) == Utf8.SizeAt(t) <= k && Utf8.Front(s) == Utf8.Front(t)
  {
    assert forall i :: 0 <= i < k ==> s[i] == t[i] by {
      assert forall i :: 0 <= i < k ==> s[..k][i] == s[i] && t[..k][i] == t[i];
    }
  }

  /** Bytes other than CR are kept, and what follows them starts with a high byte only if it did before. */
  lemma {:induction false} NormaliseKeeps(s: Bytes, k: nat)
    requires k <= |s| && CR !in s[..k]
    ensures var t := Normalise(s, CR, LF);
            && k <= |t| && t[..k] == s[..k] && t[k..] == Normalise(s[k..], CR, LF)
            && (|t| > k <==> |s| > k)
            && (|s| > k ==> t[k] == if s[k] == CR then LF else s[k])
  {
    if k == 0 {
      assert s[0..] == s;
    } else {
      assert s[..k] == [s[0]] + s[1..][..k - 1];
      NormaliseKeeps(s[1..], k - 1);
      assert s[1..][k - 1..] == s[k..];
    }
  }

  // ----- Laws of the two readings -----

  lemma DecodedEncodable(s: Bytes, utf8: bool)
    ensures Encodable(Decode(s, utf8), utf8)
  {
    if utf8 { Utf8.RunesAreScalar(s); }
  }

  lemma EncodeDecoded(s: Bytes, utf8: bool)
    requires Readable(s, utf8)
    ensures Encode(Decode(s, utf8), utf8) == s
  {
    if utf8 { Utf8.EncodeDecoded(s); }
  }

  lemma DecodeEncoded(cs: seq<int>, utf8: bool)
    requires Encodable(cs, utf8)
    ensures Readable(Encode(cs, utf8), utf8) && Decode(Encode(cs, utf8), utf8) == cs
  {
    hide Utf8.Encode, Utf8.Runes, Utf8.Valid;
    if utf8 {
      Utf8.DecodeEncoded(cs);
    } else {
      assert Widen(Narrow(cs)) == cs;
    }
  }

  lemma DecodeConcat(a: Bytes, b: Bytes, utf8: bool)
    requires Readable(a, utf8)
    ensures Decode(a + b, utf8) == Decode(a, utf8) + Decode(b, utf8)
    ensures Readable(a + b, utf8) <==> Readable(b, utf8)
  {
    if utf8 { Utf8.RunesConcat(a, b); }
  }

  lemma EncodeConcat(a: seq<int>, b: seq<int>, utf8: bool)
    ensures Encode(a + b, utf8) == Encode(a, utf8) + Encode(b, utf8)
  {
    if utf8 { Utf8.EncodeConcat(a, b); }
  }

  lemma DecodedAscii(s: Bytes, utf8: bool, c: byte)
    requires c < 0x80
    ensures c in s <==> c as int in Decode(s, utf8)
  {
    if utf8 {
      Utf8.AsciiRunes(s, c);
    } else if c in s {
      var i :| 0 <= i < |s| && s[i] == c;
      assert Widen(s)[i] == c as int;
    }
  }

  // ----- Code points: canonical form -----

  lemma {:induction false} RewriteConcat(a: seq<int>, b: seq<int>)
    ensures Rewrite(a + b) == Rewrite(a) + Rewrite(b)
  {
    if a == [] {
      assert a + b == b;
    } else {
      assert (a + b)[1..] == a[1..] + b;
      RewriteConcat(a[1..], b);
    }
  }

  lemma {:induction false} RewriteIsWire(cs: seq<int>)
    ensures Wire(Rewrite(cs))
  {
    if cs != [] {
      RewriteIsWire(cs[1..]);
      var head, rest := RewriteRune(cs[0]), Rewrite(cs[1..]);
      assert (head + rest)[|head|..] == rest;
    }
  }

  lemma {:induction false} WireIsCanonical(cs: seq<int>)
    requires Wire(cs)
    ensures Canon(cs) == cs
  {
    if cs != [] {
      var k := if cs[0] == 13 then 2 else 1;
      WireIsCanonical(cs[k..]);
      assert cs == cs[..k] + cs[k..];
    }
  }

  lemma {:induction false} RewriteEncodable(cs: seq<int>, utf8: bool)
    requires Encodable(cs, utf8)
    ensures Encodable(Rewrite(cs), utf8)
  {
    if cs != [] {
      RewriteEncodable(cs[1..], utf8);
    }
  }

  lemma {:induction false} NormaliseElements(cs: seq<int>, c: int)
    requires c in Normalise(cs, 13, 10)
    ensures c in cs || c == 10
  {
    if c != (if cs[0] == 13 then 10 else cs[0]) {
      NormaliseElements(if cs[0] == 13 && |cs| > 1 && cs[1] == 10 then cs[2..] else cs[1..], c);
    }
  }

  lemma CanonEncodable(cs: seq<int>, utf8: bool)
    requires Encodable(cs, utf8)
    ensures Encodable(Canon(cs), utf8)
  {
    var ns := Normalise(cs, 13, 10);
    forall i | 0 <= i < |ns|
      ensures ns[i] in cs || ns[i] == 10
    {
      NormaliseElements(cs, ns[i]);
    }
    RewriteEncodable(ns, utf8);
  }

  // ----- Main results -----

  /**
   Sanitising preserves meaning: the output is a body fit for the wire, and
   reads as the canonical form of the input.
   */
  lemma SanitizedMeaning(raw: Bytes, utf8: bool)
    requires Sanitized(raw, utf8).Ok?
    ensures var out := Sanitized(raw, utf8).value;
            Text(out, utf8) && Decode(out, utf8) == Rewrite(Normalise(Decode(raw, utf8), 13, 10))
  {
    var cs := Decode(raw, utf8);
    DecodedEncodable(raw, utf8);
    CanonEncodable(cs, utf8);
    DecodeEncoded(Canon(cs), utf8);
    RewriteIsWire(Normalise(cs, 13, 10));
  }

  /** The bodies sanitising leaves alone are exactly those fit for the wire. */
  lemma FixedExactlyText(s: Bytes, utf8: bool)
    ensures Sanitized(s, utf8) == Ok(s) <==> Text(s, utf8)
  {
    if Text(s, utf8) {
      DecodedAscii(s, utf8, 0);
      WireIsCanonical(Decode(s, utf8));
      EncodeDecoded(s, utf8);
    }
    if Sanitized(s, utf8) == Ok(s) {
      SanitizedMeaning(s, utf8);
    }
  }

  lemma SanitizeIdempotent(raw: Bytes, utf8: bool)
    requires Sanitized(raw, utf8).Ok?
    ensures Sanitized(Sanitized(raw, utf8).value, utf8) == Sanitized(raw, utf8)
  {
    SanitizedMeaning(raw, utf8);
    FixedExactlyText(Sanitized(raw, utf8).value, utf8);
  }

  /** Sanitising two pieces separately is sanitising the whole, except exactly when the cut splits a CR LF pair. */
  lemma SanitizeDistributes(a: Bytes, b: Bytes, utf8: bool)
    requires Sanitized(a, utf8).Ok? && Sanitized(b, utf8).Ok?
    ensures Sanitized(a + b, utf8).Ok?
    ensures Sanitized(a + b, utf8).value == Sanitized(a, utf8).value + Sanitized(b, utf8).value
       <==> !Splits(a, b, CR, LF)
  {
    var ca, cb := Decode(a, utf8), Decode(b, utf8);
    DecodeConcat(a, b, utf8);
    SplitsDecoded(a, b, utf8);
    var cb' := if Splits(a, b, CR, LF) then cb[1..] else cb;
    NormaliseConcat(ca, cb, 13, 10);
    RewriteConcat(Normalise(ca, 13, 10), Normalise(cb', 13, 10));
    EncodeConcat(Canon(ca), Canon(cb'), utf8);
    assert Sanitized(a + b, utf8).value == Encode(Canon(ca), utf8) + Encode(Canon(cb'), utf8);
    if Splits(a, b, CR, LF) {
      assert Canon(cb) == [13, 10] + Canon(cb');
      EncodeConcat([13, 10], Canon(cb'), utf8);
      EncodeCrlf(utf8);
    }
  }

  lemma EncodeCrlf(utf8: bool)
    ensures Encode([13, 10], utf8) == CRLF
  {
    assert [13, 10][1..] == [10];
    assert Utf8.Encode([13, 10]) == Utf8.EncodeRune(13) + Utf8.Encode([10]);
    assert Utf8.Encode([10]) == Utf8.EncodeRune(10) + Utf8.Encode([]);
  }

  lemma SplitsDecoded(a: Bytes, b: Bytes, utf8: bool)
    requires Readable(a, utf8) && Readable(b, utf8)
    ensures Splits(a, b, CR, LF) <==> Splits(Decode(a, utf8), Decode(b, utf8), 13, 10)
  {
    if utf8 {
      if a != [] { Utf8.AsciiLast(a, CR); }
      if b != [] { FrontIsLineFeed(b); }
    }
  }

  /** A reader that remembers only whether the previous code point was CR, with every code point written out. */
  function OnePass(cs: seq<int>, afterCR: bool): seq<int> {
    if cs == [] then []
    else if cs[0] == 10 then (if afterCR then [] else [13, 10]) + OnePass(cs[1..], false)
    else if cs[0] == 13 then [13, 10] + OnePass(cs[1..], true)
    else [if cs[0] == 9 || 0x20 <= cs[0] <= 0x7E || cs[0] >= 0xA0 then cs[0] else 63] + OnePass(cs[1..], false)
  }

  lemma {:induction false} OnePassCanon(cs: seq<int>, afterCR: bool)
    ensures OnePass(cs, afterCR) == Canon(if afterCR && cs != [] && cs[0] == 10 then cs[1..] else cs)
  {
    if cs != [] {
      OnePassCanon(cs[1..], cs[0] == 13);
      if cs[0] == 13 && |cs| > 1 && cs[1] == 10 {
        assert cs[1..][1..] == cs[2..];
      }
      if cs[0] != 13 {
        assert Normalise(cs, 13, 10) == [cs[0]] + Normalise(cs[1..], 13, 10);
      }
    }
  }

  /** Two passes and a loop refine the one-pass reader. */
  lemma SanitizeIsOnePass(raw: Bytes, utf8: bool)
    requires Sanitized(raw, utf8).Ok?
    ensures Sanitized(raw, utf8).value == Encode(OnePass(Decode(raw, utf8), false), utf8)
  {
    OnePassCanon(Decode(raw, utf8), false);
  }

  lemma {:induction false} RewriteLength(cs: seq<int>)
    ensures |Rewrite(cs)| == |cs| + Count(cs, 10)
  {
    if cs != [] {
      RewriteLength(cs[1..]);
    }
  }

  /** In byte mode the output is longer than the normalised input by one byte per line end. */
  lemma SanitizedLength(raw: Bytes)
    requires Sanitized(raw, false).Ok?
    ensures |Sanitized(raw, false).value| == |Normalise(raw, CR, LF)| + Count(Normalise(raw, CR, LF), LF)
  {
    NormaliseWiden(raw);
    RewriteLength(Widen(Normalise(raw, CR, LF)));
    CountWiden(Normalise(raw, CR, LF));
  }

  lemma {:induction false} CountWiden(s: Bytes)
    ensures Count(Widen(s), 10) == Count(s, LF)
  {
    if s != [] {
      assert Widen(s)[1..] == Widen(s[1..]);
      CountWiden(s[1..]);
    }
  }

  /** On ASCII bodies the two modes are the same. */
  lemma ModesAgreeOnAscii(raw: Bytes)
    requires Utf8.IsAscii(raw)
    ensures Sanitized(raw, true) == Sanitized(raw, false)
  {
    AsciiWiden(raw);
    var cs := Widen(raw);
    AsciiCanon(cs);
    AsciiNarrow(Canon(cs));
  }

  predicate AsciiCodes(cs: seq<int>) {
    forall i :: 0 <= i < |cs| ==> 0 <= cs[i] < 0x80
  }

  lemma {:induction false} AsciiWiden(s: Bytes)
    requires Utf8.IsAscii(s)
    ensures Utf8.Valid(s) && Utf8.Runes(s) == Widen(s) && AsciiCodes(Widen(s))
  {
    if s != [] {
      AsciiWiden(s[1..]);
      assert Widen(s) == [s[0] as int] + Widen(s[1..]);
    }
  }

  lemma {:induction false} AsciiNarrow(cs: seq<int>)
    requires AsciiCodes(cs)
    ensures Utf8.Encode(cs) == Narrow(cs)
  {
    if cs != [] {
      AsciiNarrow(cs[1..]);
      assert Narrow(cs) == Narrow([cs[0]]) + Narrow(cs[1..]);
    }
  }

  lemma AsciiCanon(cs: seq<int>)
    requires AsciiCodes(cs)
    ensures AsciiCodes(Canon(cs))
  {
    var ns := Normalise(cs, 13, 10);
    forall i | 0 <= i < |ns|
      ensures 0 <= ns[i] < 0x80
    {
      NormaliseElements(cs, ns[i]);
    }
    AsciiRewrite(ns);
  }

  lemma {:induction false} AsciiRewrite(cs: seq<int>)
    requires AsciiCodes(cs)
    ensures AsciiCodes(Rewrite(cs))
  {
    if cs != [] {
      AsciiRewrite(cs[1..]);
    }
  }

  // ----- Lines of a body -----

  /** `CrlfOnly` in terms of positions. */
  lemma {:induction false} CrlfOnlyMeaning<T>(s: seq<T>, cr: T, lf: T)
    requires cr != lf
    ensures CrlfOnly(s, cr, lf) <==>
              && (forall i :: 0 <= i < |s| && s[i] == cr ==> i + 1 < |s| && s[i + 1] == lf)
              && (forall i :: 0 <= i < |s| && s[i] == lf ==> 0 < i && s[i - 1] == cr)
  {
    if s != [] && s[0] != lf && (s[0] == cr ==> |s| > 1 && s[1] == lf) {
      var k := if s[0] == cr then 2 else 1;
      var t := s[k..];
      CrlfOnlyMeaning(t, cr, lf);
      assert forall i :: 0 <= i < |t| ==> t[i] == s[i + k];
      assert forall i :: k <= i < |s| ==> s[i] == t[i - k];
    }
  }

  /** Seen as bytes, a body fit for the wire has no NUL and only CRLF line ends. */
  lemma TextLines(s: Bytes, utf8: bool)
    requires Text(s, utf8)
    ensures 0 !in s && CrlfOnly(s, CR, LF)
  {
    DecodedAscii(s, utf8, 0);
    if utf8 {
      RunesLines(s);
    } else {
      WidenLines(s);
    }
  }

  /**
   A body fit for the wire holds no control byte other than tab and line ends,
   and no C1 control: as a byte in byte mode, as a code point in UTF-8 mode.
   */
  lemma TextHasNoControls(s: Bytes, utf8: bool)
    requires Text(s, utf8)
    ensures forall i :: 0 <= i < |s| ==>
              (s[i] >= 0x20 || s[i] == TAB || s[i] == CR || s[i] == LF) && s[i] != 0x7F
    ensures forall i :: 0 <= i < |Decode(s, utf8)| ==> !(0x80 <= Decode(s, utf8)[i] <= 0x9F)
  {
    forall i | 0 <= i < |s|
      ensures (s[i] >= 0x20 || s[i] == TAB || s[i] == CR || s[i] == LF) && s[i] != 0x7F
    {
      if s[i] < 0x80 { DecodedAscii(s, utf8, s[i]); }
    }
  }

  lemma {:induction false} WidenLines(s: Bytes)
    requires CrlfOnly(Widen(s), 13, 10)
    ensures CrlfOnly(s, CR, LF)
  {
    if s != [] {
      var k := if s[0] == CR then 2 else 1;
      assert Widen(s)[k..] == Widen(s[k..]);
      WidenLines(s[k..]);
    }
  }

  lemma {:induction false} RunesLines(s: Bytes)
    requires Utf8.Valid(s) && CrlfOnly(Utf8.Runes(s), 13, 10)
    ensures CrlfOnly(s, CR, LF)
    decreases |s|
  {
    hide Utf8.SizeAt, Utf8.Front;
    if s != [] {
      var n := Utf8.SizeAt(s);
      var rest := Utf8.Runes(s[n..]);
      Utf8.AsciiFront(s);
      assert Utf8.Runes(s) == [Utf8.Front(s)] + rest;
      FrontIsCarriageReturn(s);
      FrontIsLineFeed(s);
      if s[0] == CR {
        assert rest != [] && rest[0] == 10;
        FrontIsLineFeed(s[1..]);
        CrlfFirst(s);
        RunesLines(s[2..]);
      } else {
        assert Utf8.Runes(s)[1..] == rest;
        RunesLines(s[n..]);
        NoLineEndIn(s);
        NoLineEndPrefix(s[..n], s[n..]);
        assert s == s[..n] + s[n..];
      }
    }
  }

  lemma NoLineEndIn(s: Bytes)
    requires Utf8.SizeAt(s) != 0 && s[0] != CR && s[0] != LF
    ensures CR !in s[..Utf8.SizeAt(s)] && LF !in s[..Utf8.SizeAt(s)]
  {
  }

  lemma {:induction false} NoLineEndPrefix(a: Bytes, b: Bytes)
    requires CR !in a && LF !in a && CrlfOnly(b, CR, LF)
    ensures CrlfOnly(a + b, CR, LF)
  {
    if a == [] {
      assert a + b == b;
    } else {
      assert (a + b)[1..] == a[1..] + b;
      NoLineEndPrefix(a[1..], b);
    }
  }

  // ----- Putting bodies together -----

  lemma {:induction false} CrlfOnlyConcat<T>(a: seq<T>, b: seq<T>, cr: T, lf: T)
    requires CrlfOnly(a, cr, lf) && CrlfOnly(b, cr, lf)
    ensures CrlfOnly(a + b, cr, lf)
  {
    if a == [] {
      assert a + b == b;
    } else {
      var k := if a[0] == cr then 2 else 1;
      assert (a + b)[k..] == a[k..] + b;
      CrlfOnlyConcat(a[k..], b, cr, lf);
    }
  }

  lemma TextConcat(a: Bytes, b: Bytes, utf8: bool)
    requires Text(a, utf8) && Text(b, utf8)
    ensures Text(a + b, utf8)
  {
    DecodeConcat(a, b, utf8);
    CrlfOnlyConcat(Decode(a, utf8), Decode(b, utf8), 13, 10);
  }

  /** Printable ASCII, line ends written as CRLF, is fit for the wire on every listener. */
  lemma AsciiText(s: Bytes, utf8: bool)
    requires Utf8.IsAscii(s) && Wire(Widen(s))
    ensures Text(s, utf8)
  {
    AsciiWiden(s);
  }
}
