/** A buffered reader: lines are cut at a newline, at a full buffer, or at the end of the stream. */
module BufReader {
  import opened Bytes
  import opened Text

  /** The smallest buffer the library allows. */
  const MIN_SIZE := 16

  datatype Slice = Line(text: bytes) | Full(text: bytes) | End(text: bytes)

  function NextSlice(rest: bytes, size: nat): (s: Slice)
    requires size >= MIN_SIZE
    ensures s.text <= rest
    ensures s.Line? ==> s.text != [] && |s.text| <= size && s.text[|s.text| - 1] == LF
    ensures s.Full? ==> |s.text| == size
  {
    var k := Find(rest, LF);
    if k < |rest| && k < size then Line(rest[..k + 1])
    else if |rest| >= size then Full(rest[..size])
    else End(rest)
  }

  class Reader {
    const size: nat
    const cut: bool       // the stream ends with an error of its own rather than at its end
    var rest: bytes

    ghost predicate Valid()
      reads this
    {
      size >= MIN_SIZE
    }

    constructor (size: nat, rest: bytes, cut: bool)
      requires size >= MIN_SIZE
      ensures Valid() && this.size == size && this.rest == rest && this.cut == cut
    {
      this.size := size;
      this.cut := cut;
      this.rest := rest;
    }

    method ReadSlice() returns (s: Slice)
      requires Valid()
      modifies this
      ensures s == NextSlice(old(rest), size) && s.text + rest == old(rest)
    {
      s := NextSlice(rest, size);
      rest := rest[|s.text|..];
    }
  }

  /** A line with its newline, which is its only one. */
  predicate IsLine(l: bytes) {
    l != [] && l[|l| - 1] == LF && LF !in l[..|l| - 1]
  }

  predicate IsBlank(l: bytes) {
    l == CRLF || l == [LF]
  }

  lemma {:induction false} SliceOfLine(l: bytes, more: bytes, size: nat)
    requires size >= MIN_SIZE && IsLine(l)
    ensures NextSlice(l + more, size) == if |l| <= size then Line(l) else Full(l[..size])
  {
    var m := |l| - 1;
    assert l + more == l[..m] + [LF] + more;
    FindAt(l[..m], LF, more);
    if |l| <= size {
      assert (l + more)[..m + 1] == l;
    } else {
      assert (l + more)[..size] == l[..size];
    }
  }
}
