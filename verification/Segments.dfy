/**
 Assembling a response: `joinSegments` in internal/server/server.go.
 */
module Segments {
  import opened ByteStrings
  import opened Sanitize

  /** A segment with its last line closed. */
  function Closed(part: Bytes): Bytes {
    if HasSuffix(part, CRLF) then part else part + CRLF
  }

  /** The closed non-empty segments, one after the other. */
  function Join(parts: seq<Bytes>): Bytes {
    if parts == [] then []
    else (if parts[0] == [] then [] else Closed(parts[0])) + Join(parts[1..])
  }

  /** The program closes a segment only when the next one arrives, or at the end. */
  method JoinSegments(parts: seq<Bytes>) returns (out: Bytes)
    ensures out == Join(parts)
  {
    out := [];
    for i := 0 to |parts|
      invariant Join(parts[..i]) == if out == [] then [] else Closed(out)
    {
      var part := parts[i];
      JoinStep(parts, i, out);
      if |part| == 0 {
        continue;
      }
      if |out| > 0 && !HasSuffix(out, CRLF) {
        out := out + CRLF;
      }
      out := out + part;
    }
    if |out| > 0 && !HasSuffix(out, CRLF) {
      out := out + CRLF;
    }
    assert parts[..|parts|] == parts;
  }

  /** One round of the loop. */
  lemma JoinStep(parts: seq<Bytes>, i: nat, out: Bytes)
    requires i < |parts| && Join(parts[..i]) == if out == [] then [] else Closed(out)
    ensures parts[i] == [] ==> Join(parts[..i + 1]) == Join(parts[..i])
    ensures parts[i] != [] ==> Join(parts[..i + 1]) == Closed(Join(parts[..i]) + parts[i])
  {
    JoinSnoc(parts[..i], parts[i]);
    assert parts[..i + 1] == parts[..i] + [parts[i]];
    JoinEnds(parts[..i]);
    if parts[i] != [] {
      ClosedAfter(Join(parts[..i]), parts[i]);
    }
  }

  /** Whether a closed buffer followed by `part` ends a line depends on `part` alone. */
  lemma ClosedAfter(out: Bytes, part: Bytes)
    requires (out == [] || HasSuffix(out, CRLF)) && part != []
    ensures Closed(out + part) == out + Closed(part)
  {
    var all := out + part;
    if |part| >= 2 {
      assert all[|all| - 2..] == part[|part| - 2..];
    } else if out != [] {
      assert all[|all| - 2..] == [out[|out| - 1], part[0]];
      assert out[|out| - 2..][1] == LF;
    } else {
      assert all == part;
    }
    assert (out + part) + CRLF == out + (part + CRLF);
  }

  lemma {:induction false} JoinConcat(a: seq<Bytes>, b: seq<Bytes>)
    ensures Join(a + b) == Join(a) + Join(b)
  {
    if a == [] {
      assert a + b == b;
    } else {
      assert (a + b)[1..] == a[1..] + b;
      JoinConcat(a[1..], b);
    }
  }

  lemma JoinSnoc(parts: seq<Bytes>, part: Bytes)
    ensures Join(parts + [part]) == Join(parts) + if part == [] then [] else Closed(part)
  {
    JoinConcat(parts, [part]);
    assert Join([part]) == (if part == [] then [] else Closed(part)) + Join([part][1..]);
  }

  lemma {:induction false} JoinEnds(parts: seq<Bytes>)
    ensures Join(parts) == [] || HasSuffix(Join(parts), CRLF)
    ensures Join(parts) == [] <==> forall i :: 0 <= i < |parts| ==> parts[i] == []
  {
    if parts != [] {
      JoinEnds(parts[1..]);
      var head, rest := if parts[0] == [] then [] else Closed(parts[0]), Join(parts[1..]);
      if rest != [] {
        assert (head + rest)[|head + rest| - 2..] == rest[|rest| - 2..];
        assert exists i :: 0 <= i < |parts[1..]| && parts[1..][i] != [];
        var i :| 0 <= i < |parts[1..]| && parts[1..][i] != [];
        assert parts[i + 1] != [];
      } else {
        assert head + rest == head;
        assert forall i :: 0 < i < |parts| ==> parts[i] == parts[1..][i - 1];
      }
    }
  }

  /** Joining flattens: what has been joined already can be joined again with more. */
  lemma JoinFlattens(parts: seq<Bytes>, more: seq<Bytes>)
    ensures Join([Join(parts)] + more) == Join(parts + more)
  {
    JoinConcat(parts, more);
    JoinConcat([Join(parts)], more);
    JoinEnds(parts);
    JoinSnoc([], Join(parts));
    assert [] + [Join(parts)] == [Join(parts)];
  }

  /** The number of segments whose last line has to be closed. */
  function Unclosed(parts: seq<Bytes>): nat {
    if parts == [] then 0
    else (if parts[0] != [] && !HasSuffix(parts[0], CRLF) then 1 else 0) + Unclosed(parts[1..])
  }

  lemma {:induction false} JoinLength(parts: seq<Bytes>)
    ensures |Join(parts)| == TotalLength(parts) + 2 * Unclosed(parts)
  {
    if parts != [] {
      JoinLength(parts[1..]);
    }
  }

  /** Joining bodies fit for the wire gives a body fit for the wire. */
  lemma {:induction false} JoinText(parts: seq<Bytes>, utf8: bool)
    requires forall i :: 0 <= i < |parts| ==> Text(parts[i], utf8)
    ensures Text(Join(parts), utf8)
  {
    if parts != [] {
      JoinText(parts[1..], utf8);
      AsciiText(CRLF, utf8);
      TextConcat(parts[0], CRLF, utf8);
      if parts[0] != [] {
        TextConcat(Closed(parts[0]), Join(parts[1..]), utf8);
      } else {
        assert Join(parts) == Join(parts[1..]);
      }
    }
  }

  /** Joining segments whose line ends are all CRLF gives only CRLF line ends. */
  lemma {:induction false} JoinCrlfOnly(parts: seq<Bytes>)
    requires forall i :: 0 <= i < |parts| ==> CrlfOnly(parts[i], CR, LF)
    ensures CrlfOnly(Join(parts), CR, LF)
  {
    if parts != [] {
      JoinCrlfOnly(parts[1..]);
      CrlfOnlyConcat(parts[0], CRLF, CR, LF);
      if parts[0] != [] {
        CrlfOnlyConcat(Closed(parts[0]), Join(parts[1..]), CR, LF);
      } else {
        assert Join(parts) == Join(parts[1..]);
      }
    }
  }
}
