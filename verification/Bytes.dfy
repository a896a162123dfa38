/** Byte strings shared by every module. Go strings and byte slices are both `seq<byte>`. */
module Bytes {

  type byte = b: int | 0 <= b < 0x100

  type bytes = seq<byte>

  const TWO32 := 0x1_0000_0000

  type uint32 = n: int | 0 <= n < TWO32

  datatype Option<+T> = None | Some(value: T)

  lemma {:induction false} Assoc(a: bytes, b: bytes, c: bytes)
    ensures a + b + c == a + (b + c)
  {}

  lemma {:induction false} Regroup<T>(a: seq<T>, b: seq<T>, c: seq<T>)
    ensures a + (b + c) == a + b + c && [] + c == c
  {}

  lemma {:induction false} Empty(a: bytes)
    ensures a + [] == a && [] + a == a
  {}

  lemma {:induction false} PrefixOfWhole(raw: bytes, line: bytes, rest: bytes, x: bytes)
    requires x <= raw + line
    ensures x <= raw + (line + rest)
  {
    Assoc(raw, line, rest);
  }

  /** Concatenation of a list of byte strings, in order. */
  function Concat(parts: seq<bytes>): bytes {
    if parts == [] then [] else parts[0] + Concat(parts[1..])
  }

  lemma {:induction false} ConcatAppend(a: seq<bytes>, b: seq<bytes>)
    ensures Concat(a + b) == Concat(a) + Concat(b)
  {
    if a == [] {
      assert a + b == b;
    } else {
      assert (a + b)[1..] == a[1..] + b;
      ConcatAppend(a[1..], b);
    }
  }
}
