/** HTTP/1.x heads: reading one off a connection, parsing it, and writing it back. */
module HttpHead {
  import opened Bytes
  import opened Text
  import opened BufReader

  const MAX_HEAD_BYTES := 0x1_0000

  // ---------------------------------------------------------------- reading a head

  datatype HeadError = Eof | UnexpectedEof | TooLarge | ReadFailed

  datatype HeadResult = Got(head: bytes, rest: bytes) | Bad(error: HeadError)

  /** The reading loop with `buf` gathered so far. Blank lines before the first line are skipped. */
  function ReadFrom(buf: bytes, rest: bytes, size: nat): (r: HeadResult)
    requires size >= MIN_SIZE
    ensures r.Got? ==> |r.head| <= MAX_HEAD_BYTES
    decreases |rest|
  {
    var s := NextSlice(rest, size);
    var rest' := rest[|s.text|..];
    if s.End? then Bad(if buf == [] && s.text == [] then Eof else UnexpectedEof)
    else if buf == [] && IsBlank(s.text) then ReadFrom(buf, rest', size)
    else
      var buf' := buf + s.text;
      if |buf'| > MAX_HEAD_BYTES then Bad(TooLarge)
      else if s.Line? && IsBlank(s.text) then Got(buf', rest')
      else ReadFrom(buf', rest', size)
  }

  /** A stream that was cut off gives its own error wherever its end would have given one. */
  function CutOff(r: HeadResult, cut: bool): HeadResult {
    if cut && r.Bad? && r.error != TooLarge then Bad(ReadFailed) else r
  }

  method ReadHead(br: Reader) returns (r: HeadResult)
    requires br.Valid()
    modifies br
    ensures br.Valid() && r == CutOff(ReadFrom([], old(br.rest), br.size), br.cut)
    ensures r.Got? ==> br.rest == r.rest
  {
    var buf: bytes := [];
    while true
      invariant br.Valid()
      invariant ReadFrom(buf, br.rest, br.size) == ReadFrom([], old(br.rest), br.size)
      decreases |br.rest|
    {
      ghost var before := br.rest;
      var s := br.ReadSlice();
      assert before[|s.text|..] == br.rest;
      if s.End? {
        return Bad(if br.cut then ReadFailed else if buf == [] && s.text == [] then Eof else UnexpectedEof);
      }
      if buf == [] && IsBlank(s.text) {
        continue;
      }
      buf := buf + s.text;
      if |buf| > MAX_HEAD_BYTES {
        return Bad(TooLarge);
      }
      if s.Full? {
        continue;
      }
      if IsBlank(s.text) {
        return Got(buf, br.rest);
      }
    }
  }

  /** The piece of a line that is left once full buffers have been cut off its front. */
  function LastPiece(l: bytes, size: nat): bytes
    requires size >= MIN_SIZE
    decreases |l|
  {
    if |l| <= size then l else LastPiece(l[size..], size)
  }

  /** A line longer than the buffer whose last piece looks like a blank line. */
  predicate LooksBlank(l: bytes, size: nat)
    requires size >= MIN_SIZE
  {
    |l| > size && (|l| % size == 1 || (|l| % size == 2 && l[|l| - 2] == CR))
  }

  lemma {:induction false} ModSub(n: nat, size: nat)
    requires 0 < size <= n
    ensures (n - size) % size == n % size
  {
    assert n == size * (n / size) + n % size;
    assert n - size == size * (n / size - 1) + n % size;
    ModUnique(n - size, size, n / size - 1, n % size);
  }

  lemma {:induction false} ModUnique(n: nat, size: nat, q: int, r: nat)
    requires size > 0 && r < size && n == size * q + r
    ensures n % size == r
  {
    var q', r' := n / size, n % size;
    assert n == size * q' + r';
    assert size * (q - q') == r' - r;
    MulBounds(size, q - q');
  }

  lemma {:induction false} MulBounds(size: int, d: int)
    requires size > 0
    ensures d >= 1 ==> size * d >= size
    ensures d <= -1 ==> size * d <= -size
  {}

  /** Cutting a full buffer off a longer line leaves a line. */
  lemma {:induction false} LineTail(l: bytes, size: nat)
    requires IsLine(l) && |l| > size
    ensures IsLine(l[size..]) && LF !in l[..size] && l[size..][|l| - size - 1] == LF
    ensures |l| - size >= 2 ==> l[size..][|l| - size - 2] == l[|l| - 2]
  {
    var body := l[..|l| - 1];
    assert l[size..][..|l| - size - 1] == body[size..];
    assert l[..size] == body[..size];
  }

  lemma {:induction false} LastPieceBlank(l: bytes, size: nat)
    requires size >= MIN_SIZE && IsLine(l)
    ensures IsBlank(LastPiece(l, size)) <==> |l| % size == 1 || (|l| % size == 2 && l[|l| - 2] == CR)
    decreases |l|
  {
    if |l| > size {
      ModSub(|l|, size);
      LineTail(l, size);
      LastPieceBlank(l[size..], size);
      if |l| - size == 1 {
        assert |l[size..]| % size == 1;
      }
    } else {
      assert |l| < size ==> |l| % size == |l|;
      assert |l| == 1 ==> l == [LF];
      assert |l| == 2 ==> l == [l[0], LF];
    }
  }

  /**
   * Reading one line that follows `buf`: it is gathered whole, and ends the head exactly if its last piece is blank.
   */
  ghost predicate LineRead(buf: bytes, l: bytes, more: bytes, size: nat, got: bytes)
    requires size >= MIN_SIZE
  {
    ReadFrom(buf, l + more, size)
    == if IsBlank(LastPiece(l, size)) then Got(got, more) else ReadFrom(got, more, size)
  }

  lemma {:induction false} ReadShortLine(buf: bytes, l: bytes, more: bytes, size: nat)
    requires size >= MIN_SIZE && IsLine(l) && |buf| + |l| <= MAX_HEAD_BYTES && |l| <= size
    requires buf != [] || !IsBlank(l)
    ensures LineRead(buf, l, more, size, buf + l)
  {
    SliceOfLine(l, more, size);
    assert (l + more)[|l|..] == more;
  }

  lemma {:induction false} ReadFullPiece(buf: bytes, l: bytes, more: bytes, size: nat)
    requires size >= MIN_SIZE && IsLine(l) && |buf| + |l| <= MAX_HEAD_BYTES && |l| > size
    ensures ReadFrom(buf, l + more, size) == ReadFrom(buf + l[..size], l[size..] + more, size)
  {
    SliceOfLine(l, more, size);
    assert (l + more)[size..] == l[size..] + more;
    assert |l[..size]| == size;
  }

  lemma {:induction false} ReadOneLine(buf: bytes, l: bytes, more: bytes, size: nat, got: bytes)
    requires size >= MIN_SIZE && IsLine(l) && |buf| + |l| <= MAX_HEAD_BYTES && got == buf + l
    requires buf != [] || !IsBlank(l)
    ensures LineRead(buf, l, more, size, got)
    decreases |l|
  {
    if |l| <= size {
      ReadShortLine(buf, l, more, size);
    } else {
      ReadFullPiece(buf, l, more, size);
      LineTail(l, size);
      assert buf + l[..size] + l[size..] == buf + l;
      ReadOneLine(buf + l[..size], l[size..], more, size, got);
    }
  }

  predicate HeadLines(lines: seq<bytes>) {
    forall l :: l in lines ==> IsLine(l) && !IsBlank(l)
  }

  /** Some line ends the head too early. */
  ghost predicate StopsEarly(lines: seq<bytes>, size: nat)
    requires size >= MIN_SIZE
  {
    exists l :: l in lines && LooksBlank(l, size)
  }

  ghost predicate LinesRead(buf: bytes, lines: seq<bytes>, more: bytes, size: nat)
    requires size >= MIN_SIZE
  {
    var r := ReadFrom(buf, Concat(lines) + more, size);
    if StopsEarly(lines, size) then r.Got? && |r.head| <= |buf| + |Concat(lines)|
    else r == ReadFrom(buf + Concat(lines), more, size)
  }

  lemma {:induction false} EndsHead(l: bytes, size: nat)
    requires size >= MIN_SIZE && IsLine(l) && !IsBlank(l)
    ensures IsBlank(LastPiece(l, size)) <==> LooksBlank(l, size)
  {
    LastPieceBlank(l, size);
  }

  lemma {:induction false} StopsEarlyCons(l: bytes, lines: seq<bytes>, size: nat)
    requires size >= MIN_SIZE
    ensures StopsEarly([l] + lines, size) <==> LooksBlank(l, size) || StopsEarly(lines, size)
  {
    assert l in [l] + lines;
    if StopsEarly(lines, size) {
      var x :| x in lines && LooksBlank(x, size);
      assert x in [l] + lines;
    }
  }

  lemma {:induction false} ConcatCons(buf: bytes, l: bytes, lines: seq<bytes>, more: bytes)
    ensures Concat([l] + lines) + more == l + (Concat(lines) + more)
    ensures buf + Concat([l] + lines) == buf + l + Concat(lines)
    ensures |Concat([l] + lines)| == |l| + |Concat(lines)|
  {
    var all := [l] + lines;
    assert all[1..] == lines;
    assert Concat(all) == l + Concat(lines);
  }

  lemma {:induction false} FirstLineRead(buf: bytes, l: bytes, lines: seq<bytes>, more: bytes, size: nat)
    requires size >= MIN_SIZE && IsLine(l) && !IsBlank(l)
    requires LineRead(buf, l, Concat(lines) + more, size, buf + l) && LinesRead(buf + l, lines, more, size)
    ensures LinesRead(buf, [l] + lines, more, size)
  {
    ConcatCons(buf, l, lines, more);
    EndsHead(l, size);
    StopsEarlyCons(l, lines, size);
    var r := ReadFrom(buf, l + (Concat(lines) + more), size);
    if LooksBlank(l, size) {
      assert r.Got? && |r.head| == |buf| + |l|;
    } else {
      assert r == ReadFrom(buf + l, Concat(lines) + more, size);
    }
  }

  lemma {:induction false} ReadLines(buf: bytes, lines: seq<bytes>, more: bytes, size: nat)
    requires size >= MIN_SIZE && HeadLines(lines) && |buf| + |Concat(lines)| <= MAX_HEAD_BYTES
    ensures LinesRead(buf, lines, more, size)
    decreases |lines|
  {
    if lines == [] {
      assert [] + more == more && buf + [] == buf;
    } else {
      var l := lines[0];
      assert l in lines;
      ReadOneLine(buf, l, Concat(lines[1..]) + more, size, buf + l);
      ReadLines(buf + l, lines[1..], more, size);
      FirstLineRead(buf, l, lines[1..], more, size);
      assert [l] + lines[1..] == lines;
    }
  }

  /**
   * A head made of proper lines is read back exactly, whatever follows it, if and only if it is at most 64 KiB and
   * none of its lines is longer than the buffer with a last piece that looks like the closing blank line.
   */
  lemma {:induction false} ReadBackIff(lines: seq<bytes>, rest: bytes, size: nat)
    requires size >= MIN_SIZE && lines != [] && HeadLines(lines)
    ensures var text := Concat(lines) + CRLF;
            ReadFrom([], text + rest, size) == Got(text, rest)
            <==> |text| <= 0x1_0000 && !StopsEarly(lines, size)
  {
    var text := Concat(lines) + CRLF;
    if |text| <= MAX_HEAD_BYTES {
      assert text + rest == Concat(lines) + (CRLF + rest);
      assert [] + Concat(lines) == Concat(lines);
      ReadLines([], lines, CRLF + rest, size);
      assert lines[0] in lines;
      ReadOneLine(Concat(lines), CRLF, rest, size, text);
    }
  }

  // ---------------------------------------------------------------- what is no head

  /** A line that does not fit any more, whole or in pieces. */
  lemma {:induction false} ReadTooLong(buf: bytes, l: bytes, more: bytes, size: nat)
    requires size >= MIN_SIZE && IsLine(l) && |buf| <= MAX_HEAD_BYTES < |buf| + |l|
    requires buf != [] || !IsBlank(l)
    ensures ReadFrom(buf, l + more, size) == Bad(TooLarge)
    decreases |l|
  {
    SliceOfLine(l, more, size);
    if |l| > size {
      assert (l + more)[size..] == l[size..] + more;
      assert |l[..size]| == size;
      if |buf| + size <= MAX_HEAD_BYTES {
        LineTail(l, size);
        ReadTooLong(buf + l[..size], l[size..], more, size);
      }
    }
  }

  lemma {:induction false} LinesTooLong(buf: bytes, lines: seq<bytes>, more: bytes, size: nat)
    requires size >= MIN_SIZE && HeadLines(lines) && !StopsEarly(lines, size)
    requires |buf| <= MAX_HEAD_BYTES < |buf| + |Concat(lines)|
    ensures ReadFrom(buf, Concat(lines) + more, size) == Bad(TooLarge)
    decreases |lines|
  {
    var l := lines[0];
    assert l in lines && [l] + lines[1..] == lines;
    ConcatCons(buf, l, lines[1..], more);
    StopsEarlyCons(l, lines[1..], size);
    if |buf| + |l| > MAX_HEAD_BYTES {
      ReadTooLong(buf, l, Concat(lines[1..]) + more, size);
    } else {
      ReadOneLine(buf, l, Concat(lines[1..]) + more, size, buf + l);
      EndsHead(l, size);
      LinesTooLong(buf + l, lines[1..], more, size);
    }
  }

  /** A head of more than 64 KiB, whose lines do not end it too early, is turned down as too large. */
  lemma {:induction false} TooLargeRefused(lines: seq<bytes>, rest: bytes, size: nat)
    requires size >= MIN_SIZE && lines != [] && HeadLines(lines) && !StopsEarly(lines, size)
    requires |Concat(lines) + CRLF| > 0x1_0000
    ensures ReadFrom([], Concat(lines) + CRLF + rest, size) == Bad(TooLarge)
  {
    Assoc(Concat(lines), CRLF, rest);
    if |Concat(lines)| > MAX_HEAD_BYTES {
      LinesTooLong([], lines, CRLF + rest, size);
    } else {
      ReadLines([], lines, CRLF + rest, size);
      Empty(Concat(lines));
      assert lines[0] in lines;
      ReadTooLong(Concat(lines), CRLF, rest, size);
    }
  }

  /** Nothing but line ends. */
  predicate OnlyBlank(src: bytes)
    decreases |src|
  {
    || src == []
    || (src[0] == 0x0A && OnlyBlank(src[1..]))
    || (|src| >= 2 && src[0] == 0x0D && src[1] == 0x0A && OnlyBlank(src[2..]))
  }

  /** Blank lines before a head are skipped. */
  lemma {:induction false} BlankSkipped(blank: bytes, src: bytes, size: nat)
    requires size >= MIN_SIZE && (blank == [0x0A] || blank == [0x0D, 0x0A])
    ensures ReadFrom([], blank + src, size) == ReadFrom([], src, size)
  {
    SliceOfLine(blank, src, size);
    assert (blank + src)[|blank|..] == src;
  }

  lemma {:induction false} BegunIsNotEof(buf: bytes, rest: bytes, size: nat)
    requires size >= MIN_SIZE && buf != []
    ensures ReadFrom(buf, rest, size) != Bad(Eof)
    decreases |rest|
  {
    var s := NextSlice(rest, size);
    if !s.End? && |buf + s.text| <= MAX_HEAD_BYTES && !(s.Line? && IsBlank(s.text)) {
      BegunIsNotEof(buf + s.text, rest[|s.text|..], size);
    }
  }

  lemma {:induction false} NoBlankFirst(src: bytes, size: nat)
    requires size >= MIN_SIZE && src != [] && src[0] != 0x0A && !(|src| >= 2 && src[0] == 0x0D && src[1] == 0x0A)
    ensures ReadFrom([], src, size) != Bad(Eof)
  {
    var s := NextSlice(src, size);
    if !s.End? {
      assert s.text[0] == src[0] && (|s.text| >= 2 ==> s.text[1] == src[1]);
      assert !IsBlank(s.text);
      Empty(s.text);
      if |s.text| <= MAX_HEAD_BYTES {
        BegunIsNotEof(s.text, src[|s.text|..], size);
      }
    }
  }

  /** The stream counts as ended, rather than broken off, exactly if nothing but line ends was left. */
  lemma {:induction false} EofIff(src: bytes, size: nat)
    requires size >= MIN_SIZE
    ensures ReadFrom([], src, size) == Bad(Eof) <==> OnlyBlank(src)
    decreases |src|
  {
    if src == [] {
      assert NextSlice(src, size).End?;
    } else if src[0] == 0x0A {
      assert [0x0A] + src[1..] == src;
      BlankSkipped([0x0A], src[1..], size);
      EofIff(src[1..], size);
    } else if |src| >= 2 && src[0] == 0x0D && src[1] == 0x0A {
      assert [0x0D, 0x0A] + src[2..] == src;
      BlankSkipped([0x0D, 0x0A], src[2..], size);
      EofIff(src[2..], size);
    } else {
      NoBlankFirst(src, size);
    }
  }

  /** Only more than 64 KiB are too large. */
  lemma {:induction false} TooLargeOnlyIf(buf: bytes, rest: bytes, size: nat)
    requires size >= MIN_SIZE && ReadFrom(buf, rest, size) == Bad(TooLarge)
    ensures |buf| + |rest| > 0x1_0000
    decreases |rest|
  {
    var s := NextSlice(rest, size);
    var more := rest[|s.text|..];
    if buf == [] && IsBlank(s.text) {
      TooLargeOnlyIf(buf, more, size);
    } else if |buf + s.text| <= MAX_HEAD_BYTES {
      TooLargeOnlyIf(buf + s.text, more, size);
    }
  }
}
