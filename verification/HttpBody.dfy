/** HTTP/1.x bodies: forwarding one with its framing intact while its payload is split off to a second writer. */
module HttpBody {
  import opened Bytes
  import opened Text
  import opened BufReader

  // ---------------------------------------------------------------- chunk sizes

  const MAX_INT64 := 0x7FFF_FFFF_FFFF_FFFF

  function HexDigit(b: byte): (d: Option<nat>)
    ensures d.Some? ==> d.value < 16 && b < 0x80 && !AsciiSpace(b) && b != SEMICOLON
  {
    if 0x30 <= b <= 0x39 then Some(b as int - 0x30)
    else if 0x41 <= b <= 0x46 then Some(b as int - 0x41 + 10)
    else if 0x61 <= b <= 0x66 then Some(b as int - 0x61 + 10)
    else None
  }

  predicate AllHex(s: bytes) {
    forall i :: 0 <= i < |s| ==> HexDigit(s[i]).Some?
  }

  function HexValue(s: bytes): nat
    requires AllHex(s)
  {
    if s == [] then 0 else HexValue(s[..|s| - 1]) * 16 + HexDigit(s[|s| - 1]).value
  }

  /** A signed hexadecimal number of 64 bits, as the size parser accepts it. */
  function ParseHex64(s: bytes): Option<int> {
    var neg := s != [] && s[0] == 0x2D;
    var digits := if neg || (s != [] && s[0] == 0x2B) then s[1..] else s;
    if digits == [] || !AllHex(digits) then None
    else
      var v: int := HexValue(digits);
      if neg then (if v <= MAX_INT64 + 1 then Some(-v) else None)
      else if v <= MAX_INT64 then Some(v) else None
  }

  /** The size text of a chunk line: everything before a semicolon, trimmed. */
  function SizeText(line: bytes): bytes {
    var s := TrimSpace(line);
    var i := Find(s, SEMICOLON);
    if i < |s| then TrimSpace(s[..i]) else s
  }

  function ChunkSize(line: bytes): (n: Option<nat>) {
    match ParseHex64(SizeText(line))
    case None => None
    case Some(v) => if v < 0 then None else Some(v)
  }

  // ---------------------------------------------------------------- hexadecimal numerals

  /** 0123456789abcdef */
  const LOWER_HEX: bytes :=
    [0x30, 0x31, 0x32, 0x33, 0x34, 0x35, 0x36, 0x37, 0x38, 0x39, 0x61, 0x62, 0x63, 0x64, 0x65, 0x66]

  /** 0123456789ABCDEF */
  const UPPER_HEX: bytes :=
    [0x30, 0x31, 0x32, 0x33, 0x34, 0x35, 0x36, 0x37, 0x38, 0x39, 0x41, 0x42, 0x43, 0x44, 0x45, 0x46]

  /** The numeral of `n`, without leading zeros. */
  function HexText(n: nat, digits: bytes): (s: bytes)
    requires |digits| == 16
    ensures s != []
  {
    if n < 16 then [digits[n]] else HexText(n / 16, digits) + [digits[n % 16]]
  }

  /** A numeral of `n` in letters of either case, with any number of leading zeros. */
  predicate Denotes(s: bytes, n: nat) {
    if s == [] then n == 0
    else
      var b := s[|s| - 1];
      (b == LOWER_HEX[n % 16] || b == UPPER_HEX[n % 16]) && Denotes(s[..|s| - 1], n / 16)
  }

  lemma {:induction false} HexDigitIff(b: byte, d: nat)
    requires d < 16
    ensures HexDigit(b) == Some(d) <==> b == LOWER_HEX[d] || b == UPPER_HEX[d]
  {}

  lemma {:induction false} ByDigits(v: nat, d: nat)
    requires d < 16
    ensures (v * 16 + d) / 16 == v && (v * 16 + d) % 16 == d
  {}

  /** Reading digits gives the number they denote, and only digits denote one. */
  lemma {:induction false} DenotesIff(s: bytes, n: nat)
    ensures Denotes(s, n) <==> AllHex(s) && HexValue(s) == n
    decreases |s|
  {
    if s != [] {
      var front, b := s[..|s| - 1], s[|s| - 1];
      DenotesIff(front, n / 16);
      HexDigitIff(b, n % 16);
      AllHexLast(s);
      if AllHex(s) {
        ByDigits(HexValue(front), HexDigit(b).value);
      }
    }
  }

  lemma {:induction false} AllHexLast(s: bytes)
    requires s != []
    ensures AllHex(s) <==> AllHex(s[..|s| - 1]) && HexDigit(s[|s| - 1]).Some?
  {}

  predicate AllZeros(s: bytes) {
    forall i :: 0 <= i < |s| ==> s[i] == 0x30
  }

  lemma {:induction false} ZerosDenote(zeros: bytes)
    requires AllZeros(zeros)
    ensures Denotes(zeros, 0)
    decreases |zeros|
  {
    if zeros != [] {
      ZerosDenote(zeros[..|zeros| - 1]);
    }
  }

  lemma {:induction false} OneMoreDigit(s: bytes, n: nat, b: byte)
    requires Denotes(s, n / 16) && (b == LOWER_HEX[n % 16] || b == UPPER_HEX[n % 16])
    ensures Denotes(s + [b], n)
  {
    assert (s + [b])[..|s|] == s && (s + [b])[|s|] == b;
  }

  /** Leading zeros change nothing. */
  lemma {:induction false} HexTextDenotes(n: nat, zeros: bytes, digits: bytes)
    requires AllZeros(zeros) && (digits == LOWER_HEX || digits == UPPER_HEX)
    ensures Denotes(zeros + HexText(n, digits), n)
    decreases n
  {
    if n < 16 {
      ZerosDenote(zeros);
      OneMoreDigit(zeros, n, digits[n]);
    } else {
      HexTextDenotes(n / 16, zeros, digits);
      OneMoreDigit(zeros + HexText(n / 16, digits), n, digits[n % 16]);
      Assoc(zeros, HexText(n / 16, digits), [digits[n % 16]]);
    }
  }

  function Power16(k: nat): nat {
    if k == 0 then 1 else 16 * Power16(k - 1)
  }

  lemma {:induction false} Distribute(v: nat, p: nat, w: nat, d: nat)
    ensures (v * p + w) * 16 + d == v * (16 * p) + (w * 16 + d)
  {}

  /** Numerals are positional. */
  lemma {:induction false} HexAppend(a: bytes, b: bytes)
    requires AllHex(a) && AllHex(b)
    ensures AllHex(a + b) && HexValue(a + b) == HexValue(a) * Power16(|b|) + HexValue(b)
    decreases |b|
  {
    if b == [] {
      assert a + b == a;
    } else {
      var front := b[..|b| - 1];
      assert (a + b)[..|a + b| - 1] == a + front;
      HexAppend(a, front);
      Distribute(HexValue(a), Power16(|front|), HexValue(front), HexDigit(b[|b| - 1]).value);
    }
  }

  /** The sign and the digits of a size text that is a size. */
  predicate SizeTextOf(s: bytes, sign: bytes, digits: bytes, n: nat) {
    && s == sign + digits && digits != [] && Denotes(digits, n) && n <= MAX_INT64
    && (sign == [] || sign == [0x2B] || (sign == [0x2D] && n == 0))
  }

  /** A line states the size `n` exactly if its text is a numeral of `n`; a sign passes where it means nothing. */
  lemma {:induction false} ChunkSizeIff(line: bytes, n: nat)
    ensures ChunkSize(line) == Some(n) <==> exists sign, digits :: SizeTextOf(SizeText(line), sign, digits, n)
  {
    ParsedIff(SizeText(line), n);
  }

  lemma {:induction false} ParsedIff(s: bytes, n: nat)
    ensures ParseHex64(s) == Some(n) <==> exists sign, digits :: SizeTextOf(s, sign, digits, n)
  {
    if ParseHex64(s) == Some(n) {
      SignAndDigits(s, n);
    }
    forall sign, digits | SizeTextOf(s, sign, digits, n) ensures ParseHex64(s) == Some(n) {
      DenotesIff(digits, n);
      SignedSize(s, sign, digits, n);
    }
  }

  lemma {:induction false} SignAndDigits(s: bytes, n: nat)
    requires ParseHex64(s) == Some(n)
    ensures exists sign, digits :: SizeTextOf(s, sign, digits, n)
  {
    var sign := if s[0] == 0x2D || s[0] == 0x2B then [s[0]] else [];
    var digits := s[|sign|..];
    DenotesIff(digits, n);
    assert SizeTextOf(s, sign, digits, n);
  }

  lemma {:induction false} SignedSize(s: bytes, sign: bytes, digits: bytes, n: nat)
    requires s == sign + digits && digits != [] && AllHex(digits) && HexValue(digits) == n <= MAX_INT64
    requires sign == [] || sign == [0x2B] || (sign == [0x2D] && n == 0)
    ensures ParseHex64(s) == Some(n)
  {
    assert HexDigit(digits[0]).Some?;
    if sign == [] {
      assert s == digits;
    } else {
      assert s[0] == sign[0] && s[1..] == digits;
    }
  }

  // ---------------------------------------------------------------- what copying does

  /** `raw` goes to the destination and `data` to the sink; `rest` is left unread when the copy succeeds. */
  datatype Copied = Copied(ok: bool, raw: bytes, data: bytes, rest: bytes)

  function Ahead(raw: bytes, data: bytes, c: Copied): Copied {
    Copied(c.ok, raw + c.raw, data + c.data, c.rest)
  }

  function LineOrNone(src: bytes, size: nat): (l: Option<bytes>)
    requires size >= MIN_SIZE
    ensures l.Some? ==> l.value != [] && l.value <= src
  {
    var s := NextSlice(src, size);
    if s.Line? then Some(s.text) else None
  }

  /** Trailer lines up to and including the blank one. */
  function CopiedTrailers(src: bytes, size: nat): Copied
    requires size >= MIN_SIZE
    decreases |src|
  {
    match LineOrNone(src, size)
    case None => Copied(false, [], [], [])
    case Some(l) =>
      if IsBlank(l) then Copied(true, l, [], src[|l|..])
      else Ahead(l, [], CopiedTrailers(src[|l|..], size))
  }

  /** The data of one chunk and the line that closes it. */
  function CopiedChunk(src: bytes, n: nat, size: nat): (c: Copied)
    requires size >= MIN_SIZE
    ensures c.ok ==> |c.rest| < |src|
  {
    if |src| < n then Copied(false, src, src, [])
    else
      var data := src[..n];
      match LineOrNone(src[n..], size)
      case None => Copied(false, data, data, [])
      case Some(l) => Copied(true, data + l, data, src[n + |l|..])
  }

  /** A size line and the size it states. */
  function SizeLineAt(src: bytes, size: nat): (r: Option<(bytes, nat)>)
    requires size >= MIN_SIZE
    ensures r.Some? ==> r.value.0 != [] && r.value.0 <= src
  {
    match LineOrNone(src, size)
    case None => None
    case Some(l) => match ChunkSize(l) case None => None case Some(n) => Some((l, n))
  }

  function CopiedChunks(src: bytes, size: nat): Copied
    requires size >= MIN_SIZE
    decreases |src|
  {
    match SizeLineAt(src, size)
    case None => Copied(false, [], [], [])
    case Some((l, n)) =>
      var rest := src[|l|..];
      if n == 0 then Ahead(l, [], CopiedTrailers(rest, size))
      else
        var c := CopiedChunk(rest, n, size);
        if !c.ok then Ahead(l, [], c)
        else Ahead(l + c.raw, c.data, CopiedChunks(c.rest, size))
  }

  // ---------------------------------------------------------------- the writers

  datatype Write = Raw(p: bytes) | Data(p: bytes)

  function RawOf(ws: seq<Write>): bytes {
    if ws == [] then [] else RawOf(ws[..|ws| - 1]) + if ws[|ws| - 1].Raw? then ws[|ws| - 1].p else []
  }

  function DataOf(ws: seq<Write>): bytes {
    if ws == [] then [] else DataOf(ws[..|ws| - 1]) + if ws[|ws| - 1].Data? then ws[|ws| - 1].p else []
  }

  lemma {:induction false} OneMore(ws: seq<Write>, w: Write)
    ensures RawOf(ws + [w]) == RawOf(ws) + if w.Raw? then w.p else []
    ensures DataOf(ws + [w]) == DataOf(ws) + if w.Data? then w.p else []
  {
    assert (ws + [w])[..|ws|] == ws;
  }

  lemma {:induction false} Partial(sofar: bytes, p: bytes, k: nat)
    requires k <= |p|
    ensures sofar <= sofar + p[..k] && sofar + p[..k] <= sofar + p && (k == |p| ==> p[..k] == p)
  {}

  /**
   * Destination and sink as one log of writes, with what each has received so far. Any write may fail after a part
   * of it; then `failed` is set.
   */
  class Writers {
    var log: seq<Write>
    var failed: bool
    ghost var raw: bytes
    ghost var data: bytes

    ghost predicate Valid()
      reads this
    {
      raw == RawOf(log) && data == DataOf(log)
    }

    constructor ()
      ensures Valid() && log == [] && !failed
    {
      log := [];
      failed := false;
      raw, data := [], [];
    }

    method WriteRaw(p: bytes) returns (ok: bool)
      requires Valid()
      modifies this
      ensures Valid() && data == old(data)
      ensures ok ==> failed == old(failed) && raw == old(raw) + p
      ensures !ok ==> failed && old(raw) <= raw && raw <= old(raw) + p
      ensures log == old(log) + [Raw(raw[|old(raw)|..])]
    {
      ok := *;
      var k :| 0 <= k <= |p| && (ok ==> k == |p|);
      OneMore(log, Raw(p[..k]));
      Partial(raw, p, k);
      log := log + [Raw(p[..k])];
      raw := raw + p[..k];
      if !ok {
        failed := true;
      }
    }

    method WriteData(p: bytes) returns (ok: bool)
      requires Valid()
      modifies this
      ensures Valid() && raw == old(raw)
      ensures ok ==> failed == old(failed) && data == old(data) + p
      ensures !ok ==> failed && old(data) <= data && data <= old(data) + p
      ensures log == old(log) + [Data(data[|old(data)|..])]
    {
      ok := *;
      var k :| 0 <= k <= |p| && (ok ==> k == |p|);
      OneMore(log, Data(p[..k]));
      Partial(data, p, k);
      log := log + [Data(p[..k])];
      data := data + p[..k];
      if !ok {
        failed := true;
      }
    }
  }

  // ---------------------------------------------------------------- the copying methods

  method ReadLine(src: Reader) returns (l: Option<bytes>)
    requires src.Valid()
    modifies src
    ensures src.Valid() && l == LineOrNone(old(src.rest), src.size)
    ensures l.Some? ==> src.rest == old(src.rest)[|l.value|..] && l.value + src.rest == old(src.rest)
  {
    var s := src.ReadSlice();
    l := if s.Line? then Some(s.text) else None;
  }

  /** At no moment has the destination received more of these bytes than the sink. */
  ghost predicate SinkLeads(ws: seq<Write>) {
    forall k :: 0 <= k <= |ws| ==> |RawOf(ws[..k])| <= |DataOf(ws[..k])|
  }

  lemma {:induction false} LeadsMore(ws: seq<Write>, w: Write)
    requires SinkLeads(ws) && (w.Raw? ==> |RawOf(ws)| + |w.p| <= |DataOf(ws)|)
    ensures SinkLeads(ws + [w])
  {
    OneMore(ws, w);
    assert ws[..|ws|] == ws && (ws + [w])[..|ws| + 1] == ws + [w];
    forall k | 0 <= k <= |ws| + 1 ensures |RawOf((ws + [w])[..k])| <= |DataOf((ws + [w])[..k])| {
      if k <= |ws| {
        assert (ws + [w])[..k] == ws[..k];
      }
    }
  }

  lemma {:induction false} LeadsByPiece(done: seq<Write>, d: bytes, r: bytes)
    requires SinkLeads(done) && |RawOf(done)| == |DataOf(done)| && |r| <= |d|
    ensures SinkLeads(done + [Data(d)]) && SinkLeads(done + [Data(d), Raw(r)])
    ensures |RawOf(done + [Data(d), Raw(r)])| == |RawOf(done)| + |r|
            && |DataOf(done + [Data(d), Raw(r)])| == |DataOf(done)| + |d|
  {
    var one := done + [Data(d)];
    OneMore(done, Data(d));
    LeadsMore(done, Data(d));
    LeadsMore(one, Raw(r));
    OneMore(one, Raw(r));
    assert one + [Raw(r)] == done + [Data(d), Raw(r)];
  }

  /** What a write of `p` has added. */
  lemma {:induction false} Added(before: bytes, after: bytes, p: bytes) returns (part: bytes)
    requires before <= after && after <= before + p
    ensures part == after[|before|..] && after == before + part && part <= p
    ensures after == before + p ==> part == p
  {
    part := after[|before|..];
    assert (before + p)[|before|..] == p;
  }

  lemma {:induction false} TwoMore(log: seq<Write>, a: Write, b: Write)
    ensures log + [a] + [b] == log + [a, b]
  {}

  /** One piece, to the sink first, and then what the sink took of it to the destination. */
  method WritePiece(w: Writers, piece: bytes) returns (ok: bool, ghost d: bytes, ghost r: bytes)
    requires w.Valid() && !w.failed
    modifies w
    ensures w.Valid() && (w.failed <==> !ok)
    ensures w.data == old(w.data) + d && w.raw == old(w.raw) + r && r <= d && d <= piece
    ensures ok ==> d == piece && r == piece
    ensures w.log == old(w.log) + [Data(d), Raw(r)]
  {
    ghost var log, raw, data := w.log, w.raw, w.data;
    ok := w.WriteData(piece);
    d := Added(data, w.data, piece);
    var sent := w.log[|w.log| - 1].p;
    var _ := w.WriteRaw(sent);
    ok := !w.failed;
    r := Added(raw, w.raw, d);
    TwoMore(log, Data(d), Raw(r));
  }

  /** A piece written; `done` is what a copy has written before. */
  method CopyPiece(w: Writers, piece: bytes, ghost done: seq<Write>) returns (ok: bool, ghost more: seq<Write>)
    requires w.Valid() && !w.failed && SinkLeads(done) && |RawOf(done)| == |DataOf(done)|
    modifies w
    ensures w.Valid() && (w.failed <==> !ok) && |old(w.raw)| <= |w.raw| && w.raw <= old(w.raw) + piece
    ensures ok ==> w.raw == old(w.raw) + piece && w.data == old(w.data) + piece
    ensures w.log == old(w.log) + more && SinkLeads(done + more)
    ensures ok ==> |RawOf(done + more)| == |DataOf(done + more)|
  {
    ghost var raw := w.raw;
    ghost var d, r;
    ok, d, r := WritePiece(w, piece);
    more := [Data(d), Raw(r)];
    LeadsByPiece(done, d, r);
    PrefixOfPart(raw, r, piece, w.raw);
  }

  lemma {:induction false} PrefixOfPart(raw: bytes, part: bytes, piece: bytes, x: bytes)
    requires part <= piece && x <= raw + part
    ensures x <= raw + piece
  {
    assert piece == part + piece[|part|..];
    PrefixOfWhole(raw, part, piece[|part|..], x);
  }

  /** The next piece of the source, of any size up to `max`. */
  method NextPiece(src: Reader, max: nat) returns (piece: bytes)
    requires max > 0 && src.rest != []
    modifies src
    ensures piece + src.rest == old(src.rest) && 0 < |piece| <= max
  {
    var k :| 1 <= k <= |src.rest| && k <= max;
    piece := src.rest[..k];
    src.rest := src.rest[k..];
  }

  /** Copies exactly `n` bytes in pieces of any size, each to the sink first and then to the destination. */
  method CopyN(src: Reader, w: Writers, n: nat) returns (ok: bool)
    requires src.Valid() && w.Valid() && !w.failed
    modifies src, w
    ensures src.Valid() && w.Valid() && (w.failed ==> !ok)
    ensures old(w.log) <= w.log && SinkLeads(w.log[|old(w.log)|..])
    ensures |old(w.raw)| <= |w.raw| && w.raw <= old(w.raw) + old(src.rest)
    ensures !w.failed ==> ok == (|old(src.rest)| >= n)
    ensures !w.failed && ok ==> w.raw == old(w.raw) + old(src.rest)[..n] && w.data == old(w.data) + old(src.rest)[..n]
    ensures !w.failed && ok ==> src.rest == old(src.rest)[n..]
    ensures !w.failed && !ok ==> w.raw == old(w.raw) + old(src.rest) && w.data == old(w.data) + old(src.rest)
  {
    ghost var raw, data, got: bytes := w.raw, w.data, [];
    ghost var written: seq<Write>, more: seq<Write> := [], [];
    Empty(raw);
    Empty(data);
    Empty(src.rest);
    var done := 0;
    while done < n
      invariant 0 <= done <= n && done == |got| && src.Valid() && w.Valid() && !w.failed
      invariant got + src.rest == old(src.rest)
      invariant w.raw == raw + got && w.data == data + got
      invariant w.log == old(w.log) + written && SinkLeads(written) && |RawOf(written)| == |DataOf(written)|
    {
      if |src.rest| == 0 {
        Empty(got);
        return false;
      }
      var piece := NextPiece(src, n - done);
      ok, more := CopyPiece(w, piece, written);
      assert old(w.log) + written + more == old(w.log) + (written + more);
      written := written + more;
      Assoc(got, piece, src.rest);
      Assoc(raw, got, piece);
      Assoc(data, got, piece);
      got := got + piece;
      if !ok {
        PrefixOfWhole(raw, got, src.rest, w.raw);
        return;
      }
      done := done + |piece|;
    }
    PrefixOfWhole(raw, got, src.rest, w.raw);
    ok := true;
  }

  /** What one copy has done to the two writers and the reader, if no write failed. */
  twostate predicate Did(src: Reader, w: Writers, ok: bool, c: Copied)
    reads src, w
  {
    ok == c.ok && w.raw == old(w.raw) + c.raw && w.data == old(w.data) + c.data && (ok ==> src.rest == c.rest)
  }

  /** Forwards one line; None when it could not be read or not be written. */
  method CopyLine(src: Reader, w: Writers) returns (l: Option<bytes>)
    requires src.Valid() && w.Valid() && !w.failed
    modifies src, w
    ensures src.Valid() && w.Valid() && w.data == old(w.data)
    ensures |old(w.raw)| <= |w.raw| && w.raw <= old(w.raw) + old(src.rest)
    ensures w.failed ==> l == None
    ensures !w.failed ==> l == LineOrNone(old(src.rest), src.size)
    ensures !w.failed ==> w.raw == old(w.raw) + if l.Some? then l.value else []
    ensures l.Some? ==> src.rest == old(src.rest)[|l.value|..] && w.raw + src.rest == old(w.raw) + old(src.rest)
  {
    ghost var all, raw := src.rest, w.raw;
    l := ReadLine(src);
    if l.Some? {
      assert l.value + src.rest == all;
      assert raw + l.value + src.rest == raw + all;
      var ok := w.WriteRaw(l.value);
      if !ok {
        l := None;
      }
    }
  }

  method CopyTrailers(src: Reader, w: Writers) returns (ok: bool)
    requires src.Valid() && w.Valid() && !w.failed
    modifies src, w
    ensures src.Valid() && w.Valid() && (w.failed ==> !ok)
    ensures |old(w.raw)| <= |w.raw| && w.raw <= old(w.raw) + old(src.rest)
    ensures ok ==> w.raw + src.rest == old(w.raw) + old(src.rest)
    ensures !w.failed ==> Did(src, w, ok, CopiedTrailers(old(src.rest), src.size))
  {
    ghost var x: bytes := [];
    ghost var c := CopiedTrailers(src.rest, src.size);
    Empty(c.raw);
    Empty(c.data);
    Empty(w.raw);
    while true
      invariant src.Valid() && w.Valid() && !w.failed
      invariant w.raw + src.rest == old(w.raw) + old(src.rest)
      invariant w.raw == old(w.raw) + x && w.data == old(w.data)
      invariant c == Ahead(x, [], CopiedTrailers(src.rest, src.size))
      decreases |src.rest|
    {
      ghost var before := src.rest;
      var l := CopyLine(src, w);
      if l == None {
        return false;
      }
      Assoc(old(w.raw), x, l.value);
      if IsBlank(l.value) {
        LastTrailerStep(before, l.value, src.size);
        return true;
      }
      TrailerStep(before, l.value, src.size);
      AheadAhead(x, [], l.value, [], CopiedTrailers(src.rest, src.size));
      x := x + l.value;
    }
  }

  lemma {:induction false} LastTrailerStep(src: bytes, line: bytes, size: nat)
    requires size >= MIN_SIZE && LineOrNone(src, size) == Some(line) && IsBlank(line)
    ensures CopiedTrailers(src, size) == Copied(true, line, [], src[|line|..])
  {}

  lemma {:induction false} TrailerStep(src: bytes, line: bytes, size: nat)
    requires size >= MIN_SIZE && LineOrNone(src, size) == Some(line) && !IsBlank(line)
    ensures CopiedTrailers(src, size) == Ahead(line, [], CopiedTrailers(src[|line|..], size))
  {}

  /** The data of one chunk and the line that closes it. */
  method CopyChunk(src: Reader, w: Writers, n: nat) returns (ok: bool)
    requires src.Valid() && w.Valid() && !w.failed
    modifies src, w
    ensures src.Valid() && w.Valid() && (w.failed ==> !ok)
    ensures |old(w.raw)| <= |w.raw| && w.raw <= old(w.raw) + old(src.rest)
    ensures ok ==> w.raw + src.rest == old(w.raw) + old(src.rest)
    ensures !w.failed ==> Did(src, w, ok, CopiedChunk(old(src.rest), n, src.size))
  {
    ghost var all, raw := src.rest, w.raw;
    ok := CopyN(src, w, n);
    if !ok {
      return;
    }
    Whole(all, n);
    Assoc(raw, all[..n], all[n..]);
    var l := CopyLine(src, w);
    ok := l.Some?;
    if ok {
      ChunkDone(all, n, l.value, src.size);
      Assoc(raw, all[..n], l.value);
    }
  }

  lemma {:induction false} Whole(all: bytes, n: nat)
    requires n <= |all|
    ensures all[..n] + all[n..] == all
  {}

  lemma {:induction false} ChunkDone(src: bytes, n: nat, l: bytes, size: nat)
    requires size >= MIN_SIZE && n <= |src| && LineOrNone(src[n..], size) == Some(l)
    ensures CopiedChunk(src, n, size) == Copied(true, src[..n] + l, src[..n], src[n..][|l|..])
  {
    assert src[n..][|l|..] == src[n + |l|..];
  }

  datatype Status = More | Done(ok: bool)

  /** Reads and checks a size line. */
  method ReadSize(src: Reader) returns (r: Option<(bytes, nat)>)
    requires src.Valid()
    modifies src
    ensures src.Valid() && r == SizeLineAt(old(src.rest), src.size)
    ensures r.Some? ==> src.rest == old(src.rest)[|r.value.0|..] && r.value.0 + src.rest == old(src.rest)
  {
    var l := ReadLine(src);
    if l == None {
      return None;
    }
    var n := ChunkSize(l.value);
    r := if n == None then None else Some((l.value, n.value));
  }

  /** Forwards a size line once it has been checked; None when it is bad or could not be written. */
  method CopySizeLine(src: Reader, w: Writers) returns (r: Option<(bytes, nat)>)
    requires src.Valid() && w.Valid() && !w.failed
    modifies src, w
    ensures src.Valid() && w.Valid() && w.data == old(w.data) && (w.failed ==> r == None)
    ensures |old(w.raw)| <= |w.raw| && w.raw <= old(w.raw) + old(src.rest)
    ensures !w.failed ==> r == SizeLineAt(old(src.rest), src.size)
    ensures !w.failed && r == None ==> w.raw == old(w.raw)
    ensures r.Some? ==> src.rest == old(src.rest)[|r.value.0|..] && w.raw == old(w.raw) + r.value.0
    ensures r.Some? ==> w.raw + src.rest == old(w.raw) + old(src.rest)
  {
    r := ReadSize(src);
    if r == None {
      return;
    }
    var line := r.value.0;
    Assoc(w.raw, line, src.rest);
    var ok := w.WriteRaw(line);
    PrefixOfWhole(old(w.raw), line, src.rest, w.raw);
    if !ok {
      r := None;
    }
  }

  /** One chunk: its size line, its data and closing line, or the trailers after a size of zero. */
  method CopyOneChunk(src: Reader, w: Writers) returns (status: Status, ghost x: bytes, ghost y: bytes)
    requires src.Valid() && w.Valid() && !w.failed
    modifies src, w
    ensures src.Valid() && w.Valid() && (w.failed ==> status == Done(false))
    ensures |old(w.raw)| <= |w.raw| && w.raw <= old(w.raw) + old(src.rest)
    ensures status != Done(false) ==> w.raw + src.rest == old(w.raw) + old(src.rest)
    ensures status.Done? && !w.failed ==> Did(src, w, status.ok, CopiedChunks(old(src.rest), src.size))
    ensures status.More? ==> w.raw == old(w.raw) + x && w.data == old(w.data) + y && |src.rest| < |old(src.rest)|
    ensures status.More? ==> CopiedChunks(old(src.rest), src.size) == Ahead(x, y, CopiedChunks(src.rest, src.size))
  {
    x, y := [], [];
    Empty(w.raw);
    Empty(w.data);
    ghost var all, raw := src.rest, w.raw;
    var sized := CopySizeLine(src, w);
    if sized == None {
      return Done(false), x, y;
    }
    var (line, n) := sized.value;
    if n == 0 {
      ghost var t := CopiedTrailers(src.rest, src.size);
      LastChunkStep(all, line, src.size);
      Assoc(raw, line, t.raw);
      Empty(t.data);
      var ok := CopyTrailers(src, w);
      return Done(ok), x, y;
    }
    ghost var c := CopiedChunk(src.rest, n, src.size);
    Assoc(raw, line, c.raw);
    Empty(c.data);
    var ok := CopyChunk(src, w, n);
    if w.failed {
      return Done(false), x, y;
    }
    if !ok {
      BadChunkStep(all, line, n, src.size);
      return Done(false), x, y;
    }
    GoodChunkStep(all, line, n, src.size);
    return More, line + c.raw, c.data;
  }

  /** Copies a whole chunked body, chunk by chunk, until a chunk of size zero and its trailers. */
  method CopyChunked(src: Reader, w: Writers) returns (ok: bool)
    requires src.Valid() && w.Valid() && !w.failed
    modifies src, w
    ensures src.Valid() && w.Valid() && (w.failed ==> !ok)
    ensures |old(w.raw)| <= |w.raw| && w.raw <= old(w.raw) + old(src.rest)
    ensures ok ==> w.raw + src.rest == old(w.raw) + old(src.rest)
    ensures !w.failed ==> Did(src, w, ok, CopiedChunks(old(src.rest), src.size))
  {
    ghost var x: bytes, y: bytes := [], [];
    ghost var c := CopiedChunks(src.rest, src.size);
    Empty(c.raw);
    Empty(c.data);
    Empty(w.raw);
    Empty(w.data);
    while true
      invariant src.Valid() && w.Valid() && !w.failed
      invariant w.raw + src.rest == old(w.raw) + old(src.rest)
      invariant w.raw == old(w.raw) + x && w.data == old(w.data) + y
      invariant c == Ahead(x, y, CopiedChunks(src.rest, src.size))
      decreases |src.rest|
    {
      ghost var now := CopiedChunks(src.rest, src.size);
      var status;
      ghost var dx, dy;
      status, dx, dy := CopyOneChunk(src, w);
      if status.Done? {
        Assoc(old(w.raw), x, now.raw);
        Assoc(old(w.data), y, now.data);
        return status.ok;
      }
      AheadAhead(x, y, dx, dy, CopiedChunks(src.rest, src.size));
      Assoc(old(w.raw), x, dx);
      Assoc(old(w.data), y, dy);
      x, y := x + dx, y + dy;
    }
  }

  lemma {:induction false} AheadAhead(x: bytes, y: bytes, x': bytes, y': bytes, c: Copied)
    ensures Ahead(x, y, Ahead(x', y', c)) == Ahead(x + x', y + y', c)
  {
    assert x + (x' + c.raw) == x + x' + c.raw && y + (y' + c.data) == y + y' + c.data;
  }

  lemma {:induction false} LastChunkStep(src: bytes, line: bytes, size: nat)
    requires size >= MIN_SIZE && SizeLineAt(src, size) == Some((line, 0))
    ensures CopiedChunks(src, size) == Ahead(line, [], CopiedTrailers(src[|line|..], size))
  {}

  lemma {:induction false} BadChunkStep(src: bytes, line: bytes, n: nat, size: nat)
    requires size >= MIN_SIZE && SizeLineAt(src, size) == Some((line, n)) && n > 0
    requires !CopiedChunk(src[|line|..], n, size).ok
    ensures CopiedChunks(src, size) == Ahead(line, [], CopiedChunk(src[|line|..], n, size))
  {}

  lemma {:induction false} GoodChunkStep(src: bytes, line: bytes, n: nat, size: nat)
    requires size >= MIN_SIZE && SizeLineAt(src, size) == Some((line, n)) && n > 0
    requires CopiedChunk(src[|line|..], n, size).ok
    ensures var c := CopiedChunk(src[|line|..], n, size);
            CopiedChunks(src, size) == Ahead(line + c.raw, c.data, CopiedChunks(c.rest, size))
  {}

  // ---------------------------------------------------------------- whole bodies

  datatype Framing = NoBody | Length(n: nat) | UntilClose | Chunked

  /** What copying a body does; `cut` says that the source ends with an error. */
  function CopiedBody(kind: Framing, src: bytes, size: nat, cut: bool): Copied
    requires size >= MIN_SIZE
  {
    match kind
    case NoBody => Copied(true, [], [], src)
    case Length(n) => if |src| < n then Copied(false, src, src, []) else Copied(true, src[..n], src[..n], src[n..])
    case UntilClose => Copied(!cut, src, src, [])
    case Chunked => CopiedChunks(src, size)
  }

  /** Forwards one body. Whatever fails, the destination has received a prefix of what was there to read. */
  method CopyBody(src: Reader, w: Writers, kind: Framing) returns (ok: bool)
    requires src.Valid() && w.Valid() && !w.failed
    modifies src, w
    ensures src.Valid() && w.Valid() && (w.failed ==> !ok)
    ensures old(w.raw) <= w.raw && w.raw <= old(w.raw) + old(src.rest)
    ensures !w.failed ==> Did(src, w, ok, CopiedBody(kind, old(src.rest), src.size, src.cut))
  {
    match kind {
      case NoBody =>
        Empty(w.raw);
        Empty(w.data);
        ok := true;
      case Length(n) =>
        ok := CopyN(src, w, n);
      case UntilClose =>
        var n := |src.rest|;
        assert src.rest[..n] == src.rest && src.rest[n..] == [];
        ok := CopyN(src, w, n);
        ok := ok && !src.cut;
      case Chunked =>
        ok := CopyChunked(src, w);
    }
  }

  // ---------------------------------------------------------------- nothing is lost or made up

  /** What is copied is a prefix of the source, and together with what is left it is all of it. */
  ghost predicate Conserves(src: bytes, c: Copied) {
    c.raw <= src && (c.ok ==> c.raw + c.rest == src)
  }

  lemma {:induction false} ConservesAhead(x: bytes, y: bytes, src: bytes, c: Copied)
    requires Conserves(src, c)
    ensures Conserves(x + src, Ahead(x, y, c))
  {
    assert x + src == x + c.raw + src[|c.raw|..];
    if c.ok {
      Assoc(x, c.raw, c.rest);
    }
  }

  lemma {:induction false} TrailersConserve(src: bytes, size: nat)
    requires size >= MIN_SIZE
    ensures Conserves(src, CopiedTrailers(src, size))
    decreases |src|
  {
    var l := LineOrNone(src, size);
    if l.Some? {
      assert l.value + src[|l.value|..] == src;
      TrailersConserve(src[|l.value|..], size);
      ConservesAhead(l.value, [], src[|l.value|..], CopiedTrailers(src[|l.value|..], size));
    }
  }

  lemma {:induction false} ChunkConserves(src: bytes, n: nat, size: nat)
    requires size >= MIN_SIZE
    ensures Conserves(src, CopiedChunk(src, n, size))
  {
    if |src| >= n {
      var l := LineOrNone(src[n..], size);
      if l.Some? {
        assert src[n..][|l.value|..] == src[n + |l.value|..];
        assert src[..n] + l.value + src[n + |l.value|..] == src;
      }
    }
  }

  lemma {:induction false} JoinConserved(line: bytes, c: Copied, m: Copied, rest: bytes)
    requires c.ok && Conserves(rest, c) && Conserves(c.rest, m)
    ensures Conserves(line + rest, Ahead(line + c.raw, c.data, m))
  {
    ConservesAhead(line + c.raw, c.data, c.rest, m);
    Assoc(line, c.raw, c.rest);
  }

  /** Copying a chunked body never invents, drops or reorders a byte, however broken the body is. */
  lemma {:induction false} ChunksConserve(src: bytes, size: nat)
    requires size >= MIN_SIZE
    ensures Conserves(src, CopiedChunks(src, size))
    decreases |src|
  {
    var sized := SizeLineAt(src, size);
    if sized.Some? {
      var (line, n) := sized.value;
      var rest := src[|line|..];
      assert line + rest == src;
      if n == 0 {
        LastChunkStep(src, line, size);
        TrailersConserve(rest, size);
        ConservesAhead(line, [], rest, CopiedTrailers(rest, size));
      } else {
        var c := CopiedChunk(rest, n, size);
        ChunkConserves(rest, n, size);
        if c.ok {
          GoodChunkStep(src, line, n, size);
          ChunksConserve(c.rest, size);
          JoinConserved(line, c, CopiedChunks(c.rest, size), rest);
        } else {
          BadChunkStep(src, line, n, size);
          ConservesAhead(line, [], rest, c);
        }
      }
    }
  }

  // ---------------------------------------------------------------- well-formed bodies

  /** A size line of section 7.1 of RFC 9112: hexadecimal digits, optional blanks, and an optional extension. */
  datatype SizeLine = SizeLine(digits: bytes, blanks: bytes, ext: bytes)

  /** A line that states the size `n`. */
  predicate GoodSizeLine(h: SizeLine, n: nat) {
    && h.digits != [] && Denotes(h.digits, n) && n <= MAX_INT64
    && (forall b :: b in h.blanks ==> b == SP || b == TAB)
    && (h.ext == [] || h.ext[0] == SEMICOLON) && LF !in h.ext
  }

  function SizeLineText(h: SizeLine): bytes {
    h.digits + h.blanks + h.ext + CRLF
  }

  datatype Chunk = Chunk(line: SizeLine, data: bytes)

  datatype Body = Body(chunks: seq<Chunk>, last: SizeLine, trailers: seq<bytes>)

  predicate GoodChunk(c: Chunk, size: nat) {
    GoodSizeLine(c.line, |c.data|) && |c.data| > 0 && |SizeLineText(c.line)| <= size
  }

  predicate GoodTrailer(t: bytes, size: nat) {
    IsLine(t) && !IsBlank(t) && |t| <= size
  }

  /** Every line fits the reader's buffer, every size is the size of its data, and only the last is zero. */
  predicate GoodBody(b: Body, size: nat) {
    && (forall i :: 0 <= i < |b.chunks| ==> GoodChunk(b.chunks[i], size))
    && GoodSizeLine(b.last, 0) && |SizeLineText(b.last)| <= size
    && (forall i :: 0 <= i < |b.trailers| ==> GoodTrailer(b.trailers[i], size))
  }

  function ChunkText(c: Chunk): bytes {
    SizeLineText(c.line) + c.data + CRLF
  }

  function ChunksText(cs: seq<Chunk>): bytes {
    if cs == [] then [] else ChunkText(cs[0]) + ChunksText(cs[1..])
  }

  function Payload(cs: seq<Chunk>): bytes {
    if cs == [] then [] else cs[0].data + Payload(cs[1..])
  }

  function BodyText(b: Body): bytes {
    ChunksText(b.chunks) + (SizeLineText(b.last) + (Concat(b.trailers) + CRLF))
  }

  lemma {:induction false} DigitsTrimmed(digits: bytes)
    requires digits != [] && AllHex(digits)
    ensures SpacePrefix(digits) == 0 && SpaceSuffix(digits) == 0
    ensures SEMICOLON !in digits && LF !in digits
  {
    assert HexDigit(digits[0]).Some? && HexDigit(digits[|digits| - 1]).Some?;
  }

  lemma {:induction false} DigitsThenBlanks(digits: bytes, blanks: bytes)
    requires digits != [] && AllHex(digits) && forall b :: b in blanks ==> AsciiSpace(b)
    ensures TrimSpace(digits + blanks) == digits
  {
    DigitsTrimmed(digits);
    var s := digits + blanks;
    assert s[0] == digits[0] && HexDigit(digits[0]).Some?;
    assert SpacePrefix(s) == 0;
    TrimAsciiTail(digits, blanks);
  }

  lemma {:induction false} PlainSizeText(h: SizeLine, n: nat)
    requires GoodSizeLine(h, n) && h.ext == []
    ensures SizeText(SizeLineText(h)) == h.digits
  {
    DenotesIff(h.digits, n);
    DigitsTrimmed(h.digits);
    assert SizeLineText(h) == h.digits + (h.blanks + CRLF);
    DigitsThenBlanks(h.digits, h.blanks + CRLF);
    FindNone(h.digits, SEMICOLON);
  }

  /** Trimming a text that has a semicolon keeps it and everything before it. */
  lemma {:induction false} TrimKeepsSemicolon(before: bytes, after: bytes)
    requires before != [] && HexDigit(before[0]).Some? && SEMICOLON !in before
    ensures var t := TrimSpace(before + [SEMICOLON] + after);
            Find(t, SEMICOLON) == |before| < |t| && t[..|before|] == before
  {
    var x := before + [SEMICOLON];
    var line := x + after;
    assert line[0] == before[0];
    assert SpacePrefix(line) == 0;
    TrimStopsAt(x, after);
    var t := TrimSpace(line);
    assert t == x + t[|x|..];
    FindAt(before, SEMICOLON, t[|x|..]);
  }

  lemma {:induction false} DigitsOfLine(h: SizeLine, n: nat)
    requires GoodSizeLine(h, n)
    ensures SizeText(SizeLineText(h)) == h.digits
  {
    DenotesIff(h.digits, n);
    if h.ext == [] {
      PlainSizeText(h, n);
    } else {
      var before, after := h.digits + h.blanks, h.ext[1..] + CRLF;
      DigitsTrimmed(h.digits);
      DigitsThenBlanks(h.digits, h.blanks);
      assert SizeLineText(h) == before + [SEMICOLON] + after by {
        assert h.ext == [SEMICOLON] + h.ext[1..];
      }
      TrimKeepsSemicolon(before, after);
    }
  }

  /** Blanks and extensions do not change the size that a line states. */
  lemma {:induction false} SizeOfGoodLine(h: SizeLine, n: nat)
    requires GoodSizeLine(h, n)
    ensures ChunkSize(SizeLineText(h)) == Some(n)
  {
    DigitsOfLine(h, n);
    Empty(h.digits);
    assert SizeTextOf(h.digits, [], h.digits, n);
    ChunkSizeIff(SizeLineText(h), n);
  }

  lemma {:induction false} NumeralIsSize(s: bytes, n: nat)
    requires s != [] && Denotes(s, n) && n <= MAX_INT64
    ensures ChunkSize(s + CRLF) == Some(n)
  {
    SizeOfGoodLine(SizeLine(s, [], []), n);
    assert SizeLineText(SizeLine(s, [], [])) == s + CRLF;
  }

  /** A numeral as it is usually written states its number. */
  lemma {:induction false} HexTextIsSize(n: nat, zeros: bytes, digits: bytes)
    requires n <= MAX_INT64 && AllZeros(zeros) && (digits == LOWER_HEX || digits == UPPER_HEX)
    ensures ChunkSize(zeros + HexText(n, digits) + CRLF) == Some(n)
  {
    HexTextDenotes(n, zeros, digits);
    NumeralIsSize(zeros + HexText(n, digits), n);
  }

  lemma {:induction false} LineOf(l: bytes, more: bytes, size: nat)
    requires size >= MIN_SIZE && IsLine(l) && |l| <= size
    ensures LineOrNone(l + more, size) == Some(l) && (l + more)[|l|..] == more
  {
    SliceOfLine(l, more, size);
  }

  lemma {:induction false} SizeLineIsLine(h: SizeLine, n: nat)
    requires GoodSizeLine(h, n)
    ensures IsLine(SizeLineText(h))
  {
    DenotesIff(h.digits, n);
    DigitsTrimmed(h.digits);
    var l := SizeLineText(h);
    assert l[..|l| - 1] == h.digits + h.blanks + h.ext + [CR];
  }

  lemma {:induction false} GoodTrailersCopied(ts: seq<bytes>, rest: bytes, size: nat)
    requires size >= MIN_SIZE && forall i :: 0 <= i < |ts| ==> GoodTrailer(ts[i], size)
    ensures CopiedTrailers(Concat(ts) + CRLF + rest, size) == Copied(true, Concat(ts) + CRLF, [], rest)
    decreases |ts|
  {
    if ts == [] {
      assert Concat(ts) + CRLF + rest == CRLF + rest && Concat(ts) + CRLF == CRLF;
      LineOf(CRLF, rest, size);
    } else {
      var t := ts[0];
      var more := Concat(ts[1..]) + CRLF + rest;
      assert Concat(ts) + CRLF + rest == t + more;
      LineOf(t, more, size);
      GoodTrailersCopied(ts[1..], rest, size);
      Assoc(t, Concat(ts[1..]), CRLF);
    }
  }

  lemma {:induction false} GoodChunkCopied(c: Chunk, more: bytes, size: nat)
    requires size >= MIN_SIZE && GoodChunk(c, size)
    ensures CopiedChunks(ChunkText(c) + more, size) == Ahead(ChunkText(c), c.data, CopiedChunks(more, size))
  {
    var line := SizeLineText(c.line);
    var src := ChunkText(c) + more;
    var rest := c.data + (CRLF + more);
    assert src == line + rest;
    SizeLineIsLine(c.line, |c.data|);
    LineOf(line, rest, size);
    SizeOfGoodLine(c.line, |c.data|);
    ChunkDataCopied(c.data, more, size);
    GoodChunkStep(src, line, |c.data|, size);
    Assoc(line, c.data, CRLF);
  }

  lemma {:induction false} ChunkDataCopied(data: bytes, more: bytes, size: nat)
    requires size >= MIN_SIZE
    ensures CopiedChunk(data + (CRLF + more), |data|, size) == Copied(true, data + CRLF, data, more)
  {
    var rest := data + (CRLF + more);
    assert rest[..|data|] == data && rest[|data|..] == CRLF + more;
    LineOf(CRLF, more, size);
    assert rest[|data| + 2..] == more;
  }

  lemma {:induction false} LastCopied(b: Body, rest: bytes, size: nat)
    requires size >= MIN_SIZE && GoodBody(b, size)
    ensures CopiedChunks(SizeLineText(b.last) + (Concat(b.trailers) + CRLF) + rest, size)
         == Copied(true, SizeLineText(b.last) + (Concat(b.trailers) + CRLF), [], rest)
  {
    var line := SizeLineText(b.last);
    var tail := Concat(b.trailers) + CRLF + rest;
    Assoc(line, Concat(b.trailers) + CRLF, rest);
    SizeLineIsLine(b.last, 0);
    LineOf(line, tail, size);
    SizeOfGoodLine(b.last, 0);
    GoodTrailersCopied(b.trailers, rest, size);
    LastChunkStep(line + tail, line, size);
  }

  lemma {:induction false} GoodChunksCopied(cs: seq<Chunk>, tail: bytes, size: nat)
    requires size >= MIN_SIZE && forall i :: 0 <= i < |cs| ==> GoodChunk(cs[i], size)
    ensures CopiedChunks(ChunksText(cs) + tail, size) == Ahead(ChunksText(cs), Payload(cs), CopiedChunks(tail, size))
    decreases |cs|
  {
    if cs == [] {
      Empty(tail);
      Empty(CopiedChunks(tail, size).raw);
      Empty(CopiedChunks(tail, size).data);
    } else {
      var c, more := cs[0], ChunksText(cs[1..]) + tail;
      Assoc(ChunkText(c), ChunksText(cs[1..]), tail);
      GoodChunkCopied(c, more, size);
      GoodChunksCopied(cs[1..], tail, size);
      AheadAhead(ChunkText(c), c.data, ChunksText(cs[1..]), Payload(cs[1..]), CopiedChunks(tail, size));
    }
  }

  /**
   * A well-formed chunked body followed by anything is copied verbatim, its chunk data in order goes to the sink,
   * and exactly the body is consumed.
   */
  lemma {:induction false} GoodBodyCopied(b: Body, rest: bytes, size: nat)
    requires size >= MIN_SIZE && GoodBody(b, size)
    ensures CopiedChunks(BodyText(b) + rest, size) == Copied(true, BodyText(b), Payload(b.chunks), rest)
  {
    var last := SizeLineText(b.last) + (Concat(b.trailers) + CRLF);
    Assoc(ChunksText(b.chunks), last, rest);
    GoodChunksCopied(b.chunks, last + rest, size);
    LastCopied(b, rest, size);
    Empty(Payload(b.chunks));
  }

  // ---------------------------------------------------------------- bodies that break off

  /** A copy that succeeded on the beginning of a source does the same on the whole of it, and leaves the rest. */
  ghost predicate Extends(c: Copied, whole: Copied, more: bytes) {
    c.ok ==> whole == Copied(true, c.raw, c.data, c.rest + more)
  }

  lemma {:induction false} LineExtends(src: bytes, more: bytes, size: nat)
    requires size >= MIN_SIZE && LineOrNone(src, size).Some?
    ensures LineOrNone(src + more, size) == LineOrNone(src, size)
    ensures var l := LineOrNone(src, size).value; (src + more)[|l|..] == src[|l|..] + more
  {
    var k := Find(src, LF);
    FindFirst(src, LF);
    var after := src[k + 1..] + more;
    assert src == src[..k] + [LF] + src[k + 1..];
    assert src + more == src[..k] + [LF] + after;
    FindAt(src[..k], LF, after);
    assert (src + more)[..k + 1] == src[..k + 1];
  }

  lemma {:induction false} AheadExtends(x: bytes, y: bytes, c: Copied, whole: Copied, more: bytes)
    requires Extends(c, whole, more)
    ensures Extends(Ahead(x, y, c), Ahead(x, y, whole), more)
  {}

  lemma {:induction false} TrailersExtend(src: bytes, more: bytes, size: nat)
    requires size >= MIN_SIZE
    ensures Extends(CopiedTrailers(src, size), CopiedTrailers(src + more, size), more)
    decreases |src|
  {
    var l := LineOrNone(src, size);
    if l.Some? {
      LineExtends(src, more, size);
      if IsBlank(l.value) {
        LastTrailerStep(src, l.value, size);
        LastTrailerStep(src + more, l.value, size);
      } else {
        TrailerStep(src, l.value, size);
        TrailerStep(src + more, l.value, size);
        TrailersExtend(src[|l.value|..], more, size);
        AheadExtends(l.value, [], CopiedTrailers(src[|l.value|..], size),
                     CopiedTrailers(src[|l.value|..] + more, size), more);
      }
    }
  }

  lemma {:induction false} ChunkExtends(src: bytes, n: nat, more: bytes, size: nat)
    requires size >= MIN_SIZE
    ensures Extends(CopiedChunk(src, n, size), CopiedChunk(src + more, n, size), more)
  {
    if CopiedChunk(src, n, size).ok {
      var l := LineOrNone(src[n..], size).value;
      assert (src + more)[..n] == src[..n] && (src + more)[n..] == src[n..] + more;
      LineExtends(src[n..], more, size);
      ChunkDone(src, n, l, size);
      ChunkDone(src + more, n, l, size);
    }
  }

  lemma {:induction false} SizeLineExtends(src: bytes, more: bytes, size: nat)
    requires size >= MIN_SIZE && SizeLineAt(src, size).Some?
    ensures SizeLineAt(src + more, size) == SizeLineAt(src, size)
    ensures var l := SizeLineAt(src, size).value.0; (src + more)[|l|..] == src[|l|..] + more
  {
    LineExtends(src, more, size);
  }

  lemma {:induction false} ChunksExtend(src: bytes, more: bytes, size: nat)
    requires size >= MIN_SIZE
    ensures Extends(CopiedChunks(src, size), CopiedChunks(src + more, size), more)
    decreases |src|
  {
    var sized := SizeLineAt(src, size);
    if sized.Some? {
      var (line, n) := sized.value;
      var rest := src[|line|..];
      SizeLineExtends(src, more, size);
      if n == 0 {
        LastChunkStep(src, line, size);
        LastChunkStep(src + more, line, size);
        TrailersExtend(rest, more, size);
        AheadExtends(line, [], CopiedTrailers(rest, size), CopiedTrailers(rest + more, size), more);
      } else {
        OneChunkExtends(src, line, n, rest, more, size);
      }
    }
  }

  lemma {:induction false} OneChunkExtends(src: bytes, line: bytes, n: nat, rest: bytes, more: bytes, size: nat)
    requires size >= MIN_SIZE && n > 0 && SizeLineAt(src, size) == Some((line, n)) && rest == src[|line|..]
    requires SizeLineAt(src + more, size) == Some((line, n)) && (src + more)[|line|..] == rest + more
    ensures Extends(CopiedChunks(src, size), CopiedChunks(src + more, size), more)
    decreases |src|, 0
  {
    var c := CopiedChunk(rest, n, size);
    if c.ok {
      ChunkExtends(rest, n, more, size);
      GoodChunkStep(src, line, n, size);
      GoodChunkStep(src + more, line, n, size);
      ChunksExtend(c.rest, more, size);
      AheadExtends(line + c.raw, c.data, CopiedChunks(c.rest, size), CopiedChunks(c.rest + more, size), more);
    } else {
      BadChunkStep(src, line, n, size);
    }
  }

  /** A well-formed chunked body that breaks off anywhere, be it inside its last line end, is never taken for whole. */
  lemma {:induction false} BrokenOffNoticed(b: Body, k: nat, size: nat)
    requires size >= MIN_SIZE && GoodBody(b, size) && k < |BodyText(b)|
    ensures !CopiedChunks(BodyText(b)[..k], size).ok
  {
    var text := BodyText(b);
    var src, more := text[..k], text[k..];
    assert src + more == text;
    Empty(text);
    GoodBodyCopied(b, [], size);
    ChunksExtend(src, more, size);
  }

  /** A body is whole exactly if all its announced bytes came; without a length, if the stream ended in no error. */
  lemma {:induction false} WholeIff(n: nat, src: bytes, size: nat, cut: bool)
    requires size >= MIN_SIZE
    ensures CopiedBody(Length(n), src, size, cut).ok <==> |src| >= n
    ensures CopiedBody(UntilClose, src, size, cut).ok <==> !cut
    ensures CopiedBody(NoBody, src, size, cut) == Copied(true, [], [], src)
    ensures CopiedBody(UntilClose, src, size, cut).raw == src && CopiedBody(UntilClose, src, size, cut).data == src
    ensures var c := CopiedBody(Length(n), src, size, cut); c.raw + c.rest == src && (c.ok ==> |c.data| == n)
  {}
}
