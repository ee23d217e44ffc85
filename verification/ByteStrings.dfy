/**
 Byte strings, and the few operations of Go's `bytes` and `strings` packages
 that the daemon is built from.  A Go `string` and a Go `[]byte` are both byte
 strings here.
 */
module ByteStrings {

  newtype byte = b: int | 0 <= b < 0x100

  type Bytes = seq<byte>

  const TAB: byte := 9
  const LF: byte := 10
  const CR: byte := 13
  const SPACE: byte := 32
  const EQUALS: byte := 61
  const CRLF: Bytes := [CR, LF]

  /** Outcome of an operation that may fail. */
  datatype Result<+T, +E> = Ok(value: T) | Err(error: E)

  datatype Option<+T> = None | Some(value: T) {
    predicate IsFailure() {
      None?
    }

    function PropagateFailure<U>(): Option<U>
      requires None?
    {
      None
    }

    function Extract(): T
      requires Some?
    {
      value
    }
  }

  /** The bytes of an ASCII literal. */
  function Ascii(s: string): Bytes
    requires forall i :: 0 <= i < |s| ==> s[i] < 0x80 as char
  {
    seq(|s|, i requires 0 <= i < |s| => s[i] as byte)
  }

  predicate HasPrefix<T(==)>(s: seq<T>, prefix: seq<T>) {
    |prefix| <= |s| && s[..|prefix|] == prefix
  }

  predicate HasSuffix<T(==)>(s: seq<T>, suffix: seq<T>) {
    |suffix| <= |s| && s[|s| - |suffix|..] == suffix
  }

  function TrimSuffix<T(==)>(s: seq<T>, suffix: seq<T>): seq<T> {
    if HasSuffix(s, suffix) then s[..|s| - |suffix|] else s
  }

  /** `bytes.ReplaceAll`: non-overlapping occurrences, left to right. */
  function ReplaceAll<T(==)>(s: seq<T>, old_: seq<T>, new_: seq<T>): seq<T>
    requires old_ != []
  {
    if |s| < |old_| then s
    else if HasPrefix(s, old_) then new_ + ReplaceAll(s[|old_|..], old_, new_)
    else [s[0]] + ReplaceAll(s[1..], old_, new_)
  }

  /** `IndexByte`, with the length of `s` standing for "absent". */
  function IndexOf<T(==)>(s: seq<T>, x: T): (i: nat)
    ensures i <= |s| && x !in s[..i] && (i < |s| ==> s[i] == x)
  {
    if s == [] || s[0] == x then 0 else IndexOf(s[1..], x) + 1
  }

  lemma {:induction false} IndexUnique<T>(s: seq<T>, x: T, i: nat)
    requires i <= |s| && x !in s[..i] && (i < |s| ==> s[i] == x)
    ensures IndexOf(s, x) == i
  {
    if i > 0 {
      assert s[..i][0] == s[0];
      assert s[..i] == [s[0]] + s[1..][..i - 1];
      IndexUnique(s[1..], x, i - 1);
    }
  }

  lemma IndexAbsent<T>(s: seq<T>, x: T)
    ensures IndexOf(s, x) == |s| <==> x !in s
  {
    assert s[..|s|] == s;
  }

  function Count<T(==)>(s: seq<T>, x: T): nat {
    if s == [] then 0 else (if s[0] == x then 1 else 0) + Count(s[1..], x)
  }

  function Flatten<T>(parts: seq<seq<T>>): seq<T> {
    if parts == [] then [] else parts[0] + Flatten(parts[1..])
  }

  function TotalLength<T>(parts: seq<seq<T>>): nat {
    if parts == [] then 0 else |parts[0]| + TotalLength(parts[1..])
  }

  lemma {:induction false} FlattenConcat<T>(a: seq<seq<T>>, b: seq<seq<T>>)
    ensures Flatten(a + b) == Flatten(a) + Flatten(b)
  {
    if a == [] {
      assert a + b == b;
    } else {
      assert (a + b)[1..] == a[1..] + b;
      FlattenConcat(a[1..], b);
    }
  }

  lemma {:induction false} FlattenSnoc<T>(a: seq<seq<T>>, x: seq<T>)
    ensures Flatten(a + [x]) == Flatten(a) + x
  {
    FlattenConcat(a, [x]);
    assert Flatten([x]) == x + Flatten([x][1..]);
  }

  lemma {:induction false} CountConcat<T>(a: seq<T>, b: seq<T>, x: T)
    ensures Count(a + b, x) == Count(a, x) + Count(b, x)
  {
    if a == [] {
      assert a + b == b;
    } else {
      assert (a + b)[1..] == a[1..] + b;
      CountConcat(a[1..], b, x);
    }
  }
}
