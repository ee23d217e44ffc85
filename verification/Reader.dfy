/**
 Reading a line from a connection: `readLine` and `discardLine` in
 internal/server/request.go.

 A connection delivers some bytes and then reports, for good, why there are no
 more.  The deadlines of the program appear as the `Timeout` report.
 */
module Reader {
  import opened ByteStrings
  import opened Requests
  import opened RequestLaws

  datatype End = Eof | Timeout | Broken

  datatype ReadError = Ended(end: End) | LineTooLong

  datatype LineRead = LineRead(line: Bytes, complete: bool, error: Option<ReadError>)

  class ByteReader {
    const data: Bytes
    const end: End
    var pos: nat

    ghost predicate Valid()
      reads this
    {
      pos <= |data|
    }

    /** What has not been read yet. */
    ghost function Rest(): Bytes
      requires Valid()
      reads this
    {
      data[pos..]
    }

    constructor (data: Bytes, end: End)
      ensures Valid() && Rest() == data && this.end == end
    {
      this.data := data;
      this.end := end;
      pos := 0;
    }

    method ReadByte() returns (r: Result<byte, End>)
      requires Valid()
      modifies this
      ensures Valid()
      ensures old(Rest()) == [] ==> r == Err(end) && pos == old(pos)
      ensures old(Rest()) != [] ==> r == Ok(old(Rest())[0]) && pos == old(pos) + 1
    {
      if pos == |data| {
        return Err(end);
      }
      r := Ok(data[pos]);
      pos := pos + 1;
    }

    method ReadLine(max: nat) returns (r: LineRead)
      requires Valid()
      modifies this
      ensures Valid()
      ensures (r, pos - old(pos)) == LineAt(old(Rest()), end, max)
    {
      ghost var start := pos;
      var b: Bytes := [];
      while true
        invariant Valid() && pos == start + |b|
        invariant b == data[start..pos] && LF !in b && |b| <= max + 2
        decreases |data| - pos
      {
        var ch := ReadByte();
        if ch.Err? {
          assert data[start..] == b;
          if ch.error == Eof {
            return LineRead(b, false, Some(Ended(Eof)));
          }
          return LineRead([], false, Some(Ended(ch.error)));
        }
        assert data[start..][..|b|] == b;
        if |b| >= max + 2 {
          return LineRead([], true, Some(LineTooLong));
        }
        b := b + [ch.value];
        if ch.value == LF {
          assert data[start..][..|b|] == b;
          return LineRead(b, true, None);
        }
      }
    }

    method DiscardLine() returns (complete: bool, error: Option<ReadError>)
      requires Valid()
      modifies this
      ensures Valid()
      ensures (complete, error, pos - old(pos)) == DiscardAt(old(Rest()), end)
    {
      ghost var start := pos;
      while true
        invariant Valid() && start <= pos && LF !in data[start..pos]
        decreases |data| - pos
      {
        var ch := ReadByte();
        if ch.Err? {
          assert data[start..] == data[start..pos];
          return false, Some(Ended(ch.error));
        }
        assert data[start..][..pos - start] == data[start..pos];
        if ch.value == LF {
          return true, None;
        }
      }
    }
  }

  /** The outcome of `readLine`, and how many bytes it takes, by the position of the first newline. */
  function LineAt(rest: Bytes, end: End, max: nat): (LineRead, nat) {
    var p := IndexOf(rest, LF);
    if p < |rest| && p <= max + 1 then (LineRead(rest[..p + 1], true, None), p + 1)
    else if |rest| >= max + 3 then (LineRead([], true, Some(LineTooLong)), max + 3)
    else (LineRead(if end == Eof then rest else [], false, Some(Ended(end))), |rest|)
  }

  function DiscardAt(rest: Bytes, end: End): (bool, Option<ReadError>, nat) {
    var p := IndexOf(rest, LF);
    if p < |rest| then (true, None, p + 1) else (false, Some(Ended(end)), |rest|)
  }

  // ----- Main results -----

  /** The position of a newline beyond a prefix that has none. */
  lemma IndexAfter(s: Bytes, n: nat, x: byte)
    requires n <= |s| && x !in s[..n]
    ensures IndexOf(s, x) == n + IndexOf(s[n..], x)
  {
    var j := IndexOf(s[n..], x);
    assert s[..n + j] == s[..n] + s[n..][..j];
    IndexUnique(s, x, n + j);
  }

  /**
   Reading a line and, if it is too long, discarding the rest of it, is decided
   by the position `p` of the first newline.  A newline at `max + 2` is itself
   the byte that overflows: it is lost, and discarding runs into the next line.
   */
  lemma ReadThenDiscard(rest: Bytes, end: End, max: nat)
    ensures var p := IndexOf(rest, LF);
            var (read, taken) := LineAt(rest, end, max);
            && taken <= |rest|
            && (p < |rest| && p <= max + 1 ==>
                  read == LineRead(rest[..p + 1], true, None) && taken == p + 1)
            && (p == |rest| && |rest| <= max + 2 ==>
                  !read.complete && read.error == Some(Ended(end)) && taken == |rest|)
            && (read.error == Some(LineTooLong) ==>
                  var (complete, error, more) := DiscardAt(rest[taken..], end);
                  && taken + more <= |rest|
                  && (max + 3 <= p < |rest| ==> complete && taken + more == p + 1)
                  && (p == |rest| ==> !complete && error == Some(Ended(end)) && taken + more == |rest|)
                  && (p == max + 2 < |rest| ==>
                        var q := IndexOf(rest[p + 1..], LF);
                        if q < |rest[p + 1..]| then complete && taken + more == p + 1 + q + 1
                        else !complete && taken + more == |rest|))
            && (read.error == Some(LineTooLong) <==> p >= max + 2 && |rest| >= max + 3)
  {
    var p := IndexOf(rest, LF);
    if p >= max + 3 {
      assert LF !in rest[..max + 3] by { assert rest[..max + 3] <= rest[..p]; }
      IndexAfter(rest, max + 3, LF);
    }
  }

  lemma IndexOfLine(line: Bytes, more: Bytes)
    requires LF !in line
    ensures IndexOf(line + CRLF + more, LF) == |line| + 1
    ensures (line + CRLF + more)[..|line| + 2] == line + CRLF
  {
    var s := line + CRLF + more;
    assert s[..|line| + 1] == line + [CR];
    IndexAfter(s, |line| + 1, LF);
    assert s[|line| + 1..][0] == LF;
  }

  /**
   If a CRLF line was read within the limit and accepted, its canonical form
   with CRLF is read within the same limit, whatever follows it.
   */
  lemma CanonicalIsReadable(rest: Bytes, end: End, max: nat, protocol: Protocol, extendFinger: bool, more: Bytes)
    requires LineAt(rest, end, max).0.error.None?
    requires HasSuffix(LineAt(rest, end, max).0.line, CRLF)
    requires ParseRequest(LineAt(rest, end, max).0.line, protocol, extendFinger).Ok?
    ensures var raw := LineAt(rest, end, max).0.line;
            var canonical := ParseRequest(raw, protocol, extendFinger).value.canonical;
            LineAt(canonical + CRLF + more, end, max) == (LineRead(canonical + CRLF, true, None), |canonical| + 2)
  {
    var raw := LineAt(rest, end, max).0.line;
    var q := ParseRequest(raw, protocol, extendFinger).value;
    var line := TrimLineEnding(raw);
    CrlfLine(raw);
    CanonicalShort(raw, protocol, extendFinger);
    assert raw == line + CRLF;
    CanonicalPrintable(raw, protocol, extendFinger);
    IndexOfLine(q.canonical, more);
  }
}
