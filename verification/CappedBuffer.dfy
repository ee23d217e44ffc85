/**
 The buffer that collects a program's output: `cappedBuffer` in
 internal/server/server.go.
 */
module CappedBuffer {
  import opened ByteStrings

  class Buffer {
    const max: nat
    var content: Bytes
    var exceeded: bool

    /** Everything ever written, kept or not. */
    ghost var written: Bytes

    /** The buffer holds the first `max` bytes written, and knows whether there were more. */
    ghost predicate Valid()
      reads this
    {
      && content <= written && |content| == (if |written| <= max then |written| else max)
      && (exceeded <==> |written| > max)
    }

    constructor (max: nat)
      ensures Valid() && written == [] && this.max == max
    {
      this.max := max;
      content, exceeded, written := [], false, [];
    }

    method Write(p: Bytes) returns (n: nat)
      requires Valid()
      modifies this
      ensures Valid() && written == old(written) + p
      ensures n == |p|
    {
      written := written + p;
      if exceeded {
        return |p|;
      }
      if |content| + |p| > max {
        var remain := max - |content|;
        if remain > 0 {
          content := content + p[..remain];
        }
        exceeded := true;
        return |p|;
      }
      content := content + p;
      return |p|;
    }

    /** How the output is cut into writes makes no difference. */
    method WriteAll(chunks: seq<Bytes>)
      requires Valid()
      modifies this
      ensures Valid() && written == old(written) + Flatten(chunks)
    {
      for i := 0 to |chunks|
        invariant Valid() && written == old(written) + Flatten(chunks[..i])
      {
        var n := Write(chunks[i]);
        FlattenSnoc(chunks[..i], chunks[i]);
        assert chunks[..i + 1] == chunks[..i] + [chunks[i]];
      }
      assert chunks[..|chunks|] == chunks;
    }
  }

  /** Two ways of cutting the same output into writes leave the same buffer. */
  method SameOutput(max: nat, chunks1: seq<Bytes>, chunks2: seq<Bytes>)
    returns (content1: Bytes, exceeded1: bool, content2: Bytes, exceeded2: bool)
    requires Flatten(chunks1) == Flatten(chunks2)
    ensures content1 == content2 && content1 <= Flatten(chunks1)
    ensures |content1| == if |Flatten(chunks1)| <= max then |Flatten(chunks1)| else max
    ensures exceeded1 == exceeded2 == (|Flatten(chunks1)| > max)
  {
    var buffer1 := new Buffer(max);
    var buffer2 := new Buffer(max);
    buffer1.WriteAll(chunks1);
    buffer2.WriteAll(chunks2);
    assert [] + Flatten(chunks1) == Flatten(chunks1);
    content1, exceeded1 := buffer1.content, buffer1.exceeded;
    content2, exceeded2 := buffer2.content, buffer2.exceeded;
  }
}
