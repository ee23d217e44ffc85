/**
 White space as Go's `strings` package knows it, and `strings.TrimSpace`.
 */
module Spaces {
  import opened ByteStrings
  import Utf8

  /** `unicode.IsSpace`. */
  predicate IsSpace(r: int) {
    9 <= r <= 13 || r == 32 || r == 0x85 || r == 0xA0 || r == 0x1680 || 0x2000 <= r <= 0x200A
    || r == 0x2028 || r == 0x2029 || r == 0x202F || r == 0x205F || r == 0x3000
  }

  /** The last `k` bytes are one well-formed sequence. */
  predicate EndsIn(s: Bytes, k: nat) {
    k <= |s| && Utf8.SizeAt(s[|s| - k..]) == k
  }

  /** `utf8.DecodeLastRune`, second result: the well-formed sequence that ends `s`, else one byte. */
  function LastWidth(s: Bytes): (n: nat)
    requires s != []
    ensures 1 <= n <= |s| && n <= 4
  {
    if EndsIn(s, 2) then 2
    else if EndsIn(s, 3) then 3
    else if EndsIn(s, 4) then 4
    else 1
  }

  /** `utf8.DecodeLastRune`, first result. */
  function Last(s: Bytes): int
    requires s != []
  {
    Utf8.Front(s[|s| - LastWidth(s)..])
  }

  function TrimLeft(s: Bytes): Bytes {
    if s != [] && IsSpace(Utf8.Front(s)) then TrimLeft(s[Utf8.Width(s)..]) else s
  }

  function TrimRight(s: Bytes): Bytes {
    if s != [] && IsSpace(Last(s)) then TrimRight(s[..|s| - LastWidth(s)]) else s
  }

  function TrimSpace(s: Bytes): Bytes {
    TrimRight(TrimLeft(s))
  }

  // ----- The same on runes -----

  function TrimLeftRunes(rs: seq<int>): seq<int> {
    if rs != [] && IsSpace(rs[0]) then TrimLeftRunes(rs[1..]) else rs
  }

  function TrimRightRunes(rs: seq<int>): seq<int> {
    if rs != [] && IsSpace(rs[|rs| - 1]) then TrimRightRunes(rs[..|rs| - 1]) else rs
  }

  function TrimRunes(rs: seq<int>): seq<int> {
    TrimRightRunes(TrimLeftRunes(rs))
  }

  /** Neither end is white space. */
  predicate Trimmed(rs: seq<int>) {
    rs != [] ==> !IsSpace(rs[0]) && !IsSpace(rs[|rs| - 1])
  }

  /** The last rune of an encoding is the last rune that was encoded. */
  lemma LastOfEncoding(a: Bytes, r: int)
    requires Utf8.Scalar(r)
    ensures var s := a + Utf8.EncodeRune(r);
            Last(s) == r && LastWidth(s) == |Utf8.EncodeRune(r)| && s[..|s| - LastWidth(s)] == a
  {
    var e := Utf8.EncodeRune(r);
    var s := a + e;
    Utf8.DecodeRuneAlone(r);
    assert s[|s| - |e|..] == e;
    assert s[..|a|] == a;
    if |e| == 1 {
      NoWiderLast(s);
    } else {
      NoOtherLast(s, |e|);
    }
  }

  /** A string that ends in an ASCII byte ends in no longer sequence. */
  lemma NoWiderLast(s: Bytes)
    requires s != [] && s[|s| - 1] < 0x80
    ensures LastWidth(s) == 1
  {
  }

  /** At most one well-formed sequence of several bytes ends a string. */
  lemma NoOtherLast(s: Bytes, n: nat)
    requires 2 <= n <= |s| && Utf8.SizeAt(s[|s| - n..]) == n
    ensures LastWidth(s) == n
  {
    var t := s[|s| - n..];
    assert forall i :: 0 <= i < n ==> t[i] == s[|s| - n + i];
    assert t[0] >= 0xC0 && forall i :: 0 < i < n ==> t[i] < 0xC0;
  }

  lemma {:induction false} TrimLeftEncoding(rs: seq<int>)
    requires Utf8.AllScalar(rs)
    ensures TrimLeft(Utf8.Encode(rs)) == Utf8.Encode(TrimLeftRunes(rs)) && Utf8.AllScalar(TrimLeftRunes(rs))
  {
    if rs != [] {
      Utf8.DecodeEncodedRune(rs[0], Utf8.Encode(rs[1..]));
      TrimLeftEncoding(rs[1..]);
    }
  }

  lemma {:induction false} TrimRightEncoding(rs: seq<int>)
    requires Utf8.AllScalar(rs)
    ensures TrimRight(Utf8.Encode(rs)) == Utf8.Encode(TrimRightRunes(rs)) && Utf8.AllScalar(TrimRightRunes(rs))
  {
    if rs != [] {
      var a, r := rs[..|rs| - 1], rs[|rs| - 1];
      Utf8.EncodeSnoc(a, r);
      assert a + [r] == rs;
      LastOfEncoding(Utf8.Encode(a), r);
      TrimRightEncoding(a);
    }
  }

  /** On valid UTF-8, trimming bytes is trimming runes. */
  lemma TrimEncoding(rs: seq<int>)
    requires Utf8.AllScalar(rs)
    ensures TrimSpace(Utf8.Encode(rs)) == Utf8.Encode(TrimRunes(rs)) && Utf8.AllScalar(TrimRunes(rs))
  {
    TrimLeftEncoding(rs);
    TrimRightEncoding(TrimLeftRunes(rs));
  }

  lemma {:induction false} TrimRightRunesPrefix(rs: seq<int>)
    ensures TrimRightRunes(rs) <= rs
    ensures var t := TrimRightRunes(rs); t != [] ==> !IsSpace(t[|t| - 1])
  {
    if rs != [] && IsSpace(rs[|rs| - 1]) {
      TrimRightRunesPrefix(rs[..|rs| - 1]);
    }
  }

  lemma {:induction false} TrimLeftRunesSuffix(rs: seq<int>)
    ensures |TrimLeftRunes(rs)| <= |rs| && TrimLeftRunes(rs) == rs[|rs| - |TrimLeftRunes(rs)|..]
    ensures var t := TrimLeftRunes(rs); t != [] ==> !IsSpace(t[0])
  {
    if rs != [] && IsSpace(rs[0]) {
      TrimLeftRunesSuffix(rs[1..]);
    }
  }

  lemma TrimRunesTrimmed(rs: seq<int>)
    ensures Trimmed(TrimRunes(rs))
    ensures Trimmed(rs) ==> TrimRunes(rs) == rs
  {
    TrimLeftRunesSuffix(rs);
    TrimRightRunesPrefix(TrimLeftRunes(rs));
  }

  lemma TrimRunesSlice(rs: seq<int>) returns (i: nat, j: nat)
    ensures i <= j <= |rs| && TrimRunes(rs) == rs[i..j]
  {
    TrimLeftRunesSuffix(rs);
    TrimRightRunesPrefix(TrimLeftRunes(rs));
    i := |rs| - |TrimLeftRunes(rs)|;
    j := i + |TrimRunes(rs)|;
  }

  /** The white space of Unicode, as `unicode.IsSpace` lists it. */
  const WHITE: set<int> :=
    {0x09, 0x0A, 0x0B, 0x0C, 0x0D, 0x20, 0x85, 0xA0, 0x1680,
     0x2000, 0x2001, 0x2002, 0x2003, 0x2004, 0x2005, 0x2006, 0x2007, 0x2008, 0x2009, 0x200A,
     0x2028, 0x2029, 0x202F, 0x205F, 0x3000}

  lemma SpaceExactly(r: int)
    ensures IsSpace(r) <==> r in WHITE
  {
  }

  lemma {:induction false} TrimLeftDrops(rs: seq<int>)
    ensures forall i :: 0 <= i < |rs| - |TrimLeftRunes(rs)| ==> rs[i] in WHITE
  {
    if rs != [] && IsSpace(rs[0]) {
      TrimLeftDrops(rs[1..]);
      TrimLeftRunesSuffix(rs[1..]);
      SpaceExactly(rs[0]);
      assert forall i :: 0 < i < |rs| ==> rs[i] == rs[1..][i - 1];
    }
  }

  lemma {:induction false} TrimRightDrops(rs: seq<int>)
    ensures forall i :: |TrimRightRunes(rs)| <= i < |rs| ==> rs[i] in WHITE
  {
    if rs != [] && IsSpace(rs[|rs| - 1]) {
      TrimRightDrops(rs[..|rs| - 1]);
      SpaceExactly(rs[|rs| - 1]);
    }
  }

  /** Trimming runes drops white space at both ends, all of it and nothing else. */
  lemma TrimRunesExactly(rs: seq<int>) returns (i: nat, j: nat)
    ensures i <= j <= |rs| && TrimRunes(rs) == rs[i..j]
    ensures forall k :: 0 <= k < i || j <= k < |rs| ==> rs[k] in WHITE
    ensures i < j ==> rs[i] !in WHITE && rs[j - 1] !in WHITE
  {
    hide IsSpace, TrimLeftRunes, TrimRightRunes, WHITE;
    var left := TrimLeftRunes(rs);
    TrimLeftRunesSuffix(rs);
    TrimRightRunesPrefix(left);
    TrimLeftDrops(rs);
    TrimRightDrops(left);
    TrimRunesTrimmed(rs);
    i := |rs| - |left|;
    j := i + |TrimRunes(rs)|;
    assert TrimRunes(rs) == rs[i..j];
    if i < j {
      SpaceExactly(rs[i]);
      SpaceExactly(rs[j - 1]);
    }
    assert forall k :: j <= k < |rs| ==> rs[k] == left[k - i];
  }

  /** The same for valid UTF-8, byte by byte or rune by rune. */
  lemma TrimExactly(rs: seq<int>) returns (i: nat, j: nat)
    requires Utf8.AllScalar(rs)
    ensures i <= j <= |rs| && TrimSpace(Utf8.Encode(rs)) == Utf8.Encode(rs[i..j])
    ensures forall k :: 0 <= k < i || j <= k < |rs| ==> rs[k] in WHITE
    ensures i < j ==> rs[i] !in WHITE && rs[j - 1] !in WHITE
  {
    hide TrimSpace, TrimRunes, WHITE;
    TrimEncoding(rs);
    i, j := TrimRunesExactly(rs);
  }
}
