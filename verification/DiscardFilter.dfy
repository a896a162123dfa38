/**
 * The incremental filter that strips discard markers from terminal output. A marker is four magic bytes and
 * four logical index bytes; a terminal may echo a control byte of the index as a two-byte `^X` pair.
 */
module DiscardFilter {
  import opened Bytes

  const MAGIC: bytes := [0xFF, 0xC0, 0xC1, 0xFF]
  const CARET: byte := 0x5E
  const HOLDBACK_LIMIT := 10

  predicate IsEcho(b: byte) {
    0x3F <= b <= 0x5F
  }

  /** Bytes taken by the logical index byte at `i`. */
  function UnitLen(d: bytes, i: nat): (k: nat)
    requires i < |d|
    ensures 1 <= k <= 2 && i + k <= |d|
  {
    if d[i] == CARET && i + 1 < |d| && IsEcho(d[i + 1]) then 2 else 1
  }

  /** Where the `n` logical index bytes from `i` on end, or -1 when `d` runs out first. */
  function IndexEnd(d: bytes, i: nat, n: nat): (r: int)
    requires i <= |d|
    ensures r == -1 || i + n <= r <= |d|
    decreases |d| - i
  {
    if n == 0 then i
    else if i == |d| then -1
    else IndexEnd(d, i + UnitLen(d, i), n - 1)
  }

  predicate HasMagic(d: bytes) {
    |d| >= 4 && d[0] == 0xFF && d[1] == 0xC0 && d[2] == 0xC1 && d[3] == 0xFF
  }

  predicate PartOfMagic(d: bytes) {
    0 < |d| < 4 && d[0] == 0xFF && (|d| > 1 ==> d[1] == 0xC0) && (|d| > 2 ==> d[2] == 0xC1)
  }

  /** The rest of the input might be an unfinished marker. */
  predicate Holds(d: bytes) {
    PartOfMagic(d) || (HasMagic(d) && IndexEnd(d, 4, 4) < 0)
  }

  datatype Scanned = Scanned(out: bytes, held: bytes)

  /** One pass over all the bytes at hand: what is let through, and what is held back at the end. */
  function Scan(d: bytes): Scanned
    decreases |d|
  {
    if d == [] then Scanned([], [])
    else if Holds(d) then Scanned([], d)
    else if HasMagic(d) then Scan(d[IndexEnd(d, 4, 4)..])
    else
      var r := Scan(d[1..]);
      Scanned([d[0]] + r.out, r.held)
  }

  /** One call of the filter on top of what is held: an empty read changes nothing. */
  function Feed(held: bytes, data: bytes): Scanned {
    if data == [] then Scanned([], held) else Scan(held + data)
  }

  /** A whole run of the filter: the outputs joined, and what is held at the end. */
  function FeedAll(held: bytes, chunks: seq<bytes>): Scanned
    decreases |chunks|
  {
    if chunks == [] then Scanned([], held)
    else
      var r := Feed(held, chunks[0]);
      var t := FeedAll(r.held, chunks[1..]);
      Scanned(r.out + t.out, t.held)
  }

  // ---------------------------------------------------------------- the filter object

  method ConsumeMarkerIndex(data: bytes, pos: nat) returns (consumed: int)
    requires pos <= |data|
    ensures consumed == if IndexEnd(data, pos, 4) < 0 then -1 else IndexEnd(data, pos, 4) - pos
  {
    consumed := 0;
    for logical := 0 to 4
      invariant 0 <= consumed <= |data| - pos
      invariant IndexEnd(data, pos + consumed, 4 - logical) == IndexEnd(data, pos, 4)
    {
      if pos + consumed >= |data| {
        return -1;
      }
      var b := data[pos + consumed];
      if b == CARET && pos + consumed + 1 < |data| && IsEcho(data[pos + consumed + 1]) {
        consumed := consumed + 2;
      } else {
        consumed := consumed + 1;
      }
    }
  }

  /** The scanning loop over the bytes at hand. */
  method Scrub(d: bytes) returns (out: bytes, held: bytes)
    ensures Scanned(out, held) == Scan(d)
  {
    out := [];
    var i := 0;
    while i < |d|
      invariant 0 <= i <= |d|
      invariant Progress(d, i, out)
    {
      FromHere(d, i);
      if d[i] != 0xFF {
        EmitStep(d, i, out);
        out := out + [d[i]];
        i := i + 1;
        continue;
      }
      if |d| - i < 4 {
        if PartOfMagic(d[i..]) {
          HoldPrefixStep(d, i, out);
          held := d[i..];
          return;
        }
        EmitStep(d, i, out);
        out := out + [d[i]];
        i := i + 1;
        continue;
      }
      if !HasMagic(d[i..]) {
        EmitStep(d, i, out);
        out := out + [d[i]];
        i := i + 1;
        continue;
      }
      var indexBytes := ConsumeMarkerIndex(d, i + 4);
      if indexBytes < 0 {
        HoldMarkerStep(d, i, out);
        held := d[i..];
        return;
      }
      SkipStep(d, i, out);
      i := i + 4 + indexBytes;
    }
    held := [];
    assert d[i..] == [];
  }

  lemma {:induction false} FromHere(d: bytes, i: nat)
    requires i < |d|
    ensures d[i] != 0xFF ==> !PartOfMagic(d[i..]) && !HasMagic(d[i..])
    ensures |d| - i < 4 ==> !HasMagic(d[i..])
    ensures |d| - i >= 4 ==> !PartOfMagic(d[i..])
  {}

  class DiscardMarkerFilter {
    var partial: bytes

    constructor ()
      ensures partial == []
    {
      partial := [];
    }

    method Filter(data: bytes) returns (out: bytes)
      modifies this
      ensures Scanned(out, partial) == Feed(old(partial), data)
    {
      if |data| == 0 {
        return data;
      }
      var d := partial + data;
      if 0xFF !in d {
        NoMagicPasses(d);
        partial := [];
        return d;
      }
      var held;
      out, held := Scrub(d);
      partial := held;
    }
  }

  /** After `i` bytes `out` has been let through, and the scan of the rest completes the scan of it all. */
  ghost predicate Progress(d: bytes, i: nat, out: bytes)
    requires i <= |d|
  {
    Scan(d) == Scanned(out + Scan(d[i..]).out, Scan(d[i..]).held)
  }

  lemma {:induction false} EmitStep(d: bytes, i: nat, out: bytes)
    requires i < |d| && Progress(d, i, out)
    requires !PartOfMagic(d[i..]) && !HasMagic(d[i..])
    ensures Progress(d, i + 1, out + [d[i]])
  {
    assert d[i..][1..] == d[i + 1..];
  }

  lemma {:induction false} HoldPrefixStep(d: bytes, i: nat, out: bytes)
    requires i < |d| < i + 4 && Progress(d, i, out) && PartOfMagic(d[i..])
    ensures Scan(d) == Scanned(out, d[i..])
  {}

  /** The index of a marker does not depend on what stands before the marker. */
  lemma {:induction false} IndexEndShift(d: bytes, i: nat, p: nat, n: nat)
    requires i + p <= |d|
    ensures IndexEnd(d[i..], p, n) == if IndexEnd(d, i + p, n) < 0 then -1 else IndexEnd(d, i + p, n) - i
    decreases |d| - p
  {
    if n > 0 && i + p < |d| {
      assert UnitLen(d[i..], p) == UnitLen(d, i + p);
      IndexEndShift(d, i, p + UnitLen(d, i + p), n - 1);
    }
  }

  lemma {:induction false} HoldMarkerStep(d: bytes, i: nat, out: bytes)
    requires i + 4 <= |d| && Progress(d, i, out) && HasMagic(d[i..]) && IndexEnd(d, i + 4, 4) < 0
    ensures Scan(d) == Scanned(out, d[i..])
  {
    IndexEndShift(d, i, 4, 4);
  }

  lemma {:induction false} SkipStep(d: bytes, i: nat, out: bytes)
    requires i + 4 <= |d| && Progress(d, i, out) && HasMagic(d[i..]) && IndexEnd(d, i + 4, 4) >= 0
    ensures Progress(d, IndexEnd(d, i + 4, 4), out)
  {
    IndexEndShift(d, i, 4, 4);
    var n := IndexEnd(d, i + 4, 4);
    assert d[i..][n - i..] == d[n..];
    ScanSkips(d[i..], d[n..]);
  }

  lemma {:induction false} ScanSkips(d: bytes, rest: bytes)
    requires HasMagic(d) && IndexEnd(d, 4, 4) >= 0 && rest == d[IndexEnd(d, 4, 4)..]
    ensures !Holds(d) && Scan(d) == Scan(rest)
  {}

  lemma {:induction false} NoMagicPasses(d: bytes)
    requires 0xFF !in d
    ensures Scan(d) == Scanned(d, [])
  {
    if d != [] {
      assert d[0] in d;
      NoMagicPasses(d[1..]);
      assert [d[0]] + d[1..] == d;
    }
  }

  // ---------------------------------------------------------------- holdback

  lemma {:induction false} ShortIndex(d: bytes, i: nat, n: nat)
    requires i <= |d| && IndexEnd(d, i, n) < 0
    ensures n > 0 && |d| - i <= 2 * (n - 1)
    decreases |d| - i
  {
    if i < |d| {
      ShortIndex(d, i + UnitLen(d, i), n - 1);
    }
  }

  /** The filter never holds back more than ten bytes. */
  lemma {:induction false} HoldbackBound(d: bytes)
    ensures |Scan(d).held| <= HOLDBACK_LIMIT
    decreases |d|
  {
    if d == [] {
    } else if Holds(d) {
      if HasMagic(d) {
        ShortIndex(d, 4, 4);
      }
    } else if HasMagic(d) {
      HoldbackBound(d[IndexEnd(d, 4, 4)..]);
    } else {
      HoldbackBound(d[1..]);
    }
  }

  /** Ten is reached: magic and three echoed control bytes. */
  lemma {:induction false} HoldbackTight()
    ensures |Scan(MAGIC + [CARET, 0x40, CARET, 0x40, CARET, 0x40]).held| == HOLDBACK_LIMIT
  {
    var d := MAGIC + [CARET, 0x40, CARET, 0x40, CARET, 0x40];
    assert IndexEnd(d, 8, 2) == IndexEnd(d, 10, 1) == -1;
    assert IndexEnd(d, 4, 4) == IndexEnd(d, 6, 3) == IndexEnd(d, 8, 2);
  }

  // ---------------------------------------------------------------- read boundaries

  /** The last of the `n` logical index bytes from `i` on is a caret that is also the last byte of `d`. */
  predicate BareEnd(d: bytes, i: nat, n: nat)
    requires i <= |d|
    decreases |d| - i
  {
    && n > 0 && i < |d|
    && if n == 1 then i + 1 == |d| && d[i] == CARET else BareEnd(d, i + UnitLen(d, i), n - 1)
  }

  /** The bytes read so far end in a complete marker whose fourth index byte is a caret. */
  predicate EndsOnCaret(a: bytes)
    decreases |a|
  {
    && a != []
    && !Holds(a)
    && if HasMagic(a)
       then BareEnd(a, 4, 4) || EndsOnCaret(a[IndexEnd(a, 4, 4)..])
       else EndsOnCaret(a[1..])
  }

  /** A read boundary that cuts an echoed pair: the caret closed the marker, and its partner comes next. */
  predicate BadCut(a: bytes, b: bytes) {
    EndsOnCaret(a) && b != [] && IsEcho(b[0])
  }

  lemma {:induction false} IndexEndExtends(a: bytes, b: bytes, i: nat, n: nat)
    requires i <= |a| && IndexEnd(a, i, n) >= 0
    ensures BareEnd(a, i, n) ==> IndexEnd(a, i, n) == |a|
    ensures IndexEnd(a + b, i, n) == IndexEnd(a, i, n) + if BareEnd(a, i, n) && b != [] && IsEcho(b[0]) then 1 else 0
    decreases |a| - i
  {
    if n > 0 {
      if i + 1 == |a| {
        assert n == 1;
        assert IndexEnd(a + b, i + UnitLen(a + b, i), 0) == i + UnitLen(a + b, i);
      } else {
        assert UnitLen(a + b, i) == UnitLen(a, i);
        IndexEndExtends(a, b, i + UnitLen(a, i), n - 1);
      }
    }
  }

  /** The byte that gets through when the boundary cuts an echoed pair: the partner. */
  function Extra(a: bytes, b: bytes): bytes {
    if BadCut(a, b) then [b[0]] else []
  }

  /**
   * Two reads against one: the same bytes held; the second read lets `extra` through first, else the same comes out.
   */
  predicate Agree(s: Scanned, t: Scanned, w: Scanned, extra: bytes) {
    w.held == t.held && extra <= t.out && w.out == s.out + t.out[|extra|..]
  }

  /** Reading `a` and then `b`, against reading both at once. */
  ghost predicate SplitAgrees(a: bytes, b: bytes) {
    Agree(Scan(a), Scan(Scan(a).held + b), Scan(a + b), Extra(a, b))
  }

  /** The marker at the front grows by one byte when `b` comes with it: the partner of its last caret. */
  lemma {:induction false} SplitInMarker(a: bytes, b: bytes)
    requires HasMagic(a) && !Holds(a) && BareEnd(a, 4, 4) && b != [] && IsEcho(b[0])
    ensures SplitAgrees(a, b)
  {
    IndexEndExtends(a, b, 4, 4);
    ScanSkips(a, []);
    assert (a + b)[|a| + 1..] == b[1..];
    ScanSkips(a + b, b[1..]);
    assert [] + b == b;
    assert Scan(b).out == [b[0]] + Scan(b[1..]).out;
    assert Scan(b).out[1..] == Scan(b[1..]).out;
  }

  lemma {:induction false} SplitAfterMarker(a: bytes, b: bytes, rest: bytes)
    requires HasMagic(a) && !Holds(a) && !(BareEnd(a, 4, 4) && b != [] && IsEcho(b[0]))
    requires rest == a[IndexEnd(a, 4, 4)..] && SplitAgrees(rest, b)
    ensures SplitAgrees(a, b)
  {
    BothSkip(a, b, rest);
    SameCutBehind(a, b, rest);
  }

  lemma {:induction false} BothSkip(a: bytes, b: bytes, rest: bytes)
    requires HasMagic(a) && !Holds(a) && !(BareEnd(a, 4, 4) && b != [] && IsEcho(b[0]))
    requires rest == a[IndexEnd(a, 4, 4)..]
    ensures Scan(a) == Scan(rest) && Scan(a + b) == Scan(rest + b)
  {
    IndexEndExtends(a, b, 4, 4);
    assert (a + b)[IndexEnd(a, 4, 4)..] == rest + b;
    ScanSkips(a, rest);
    ScanSkips(a + b, rest + b);
  }

  lemma {:induction false} SameCutBehind(a: bytes, b: bytes, rest: bytes)
    requires HasMagic(a) && !Holds(a) && !(BareEnd(a, 4, 4) && b != [] && IsEcho(b[0]))
    requires rest == a[IndexEnd(a, 4, 4)..]
    ensures BadCut(a, b) <==> BadCut(rest, b)
    ensures Extra(a, b) == Extra(rest, b)
  {
    IndexEndExtends(a, b, 4, 4);
  }

  lemma {:induction false} SplitAtMarker(a: bytes, b: bytes)
    requires HasMagic(a) && !Holds(a)
    requires SplitAgrees(a[IndexEnd(a, 4, 4)..], b)
    ensures SplitAgrees(a, b)
  {
    if BareEnd(a, 4, 4) && b != [] && IsEcho(b[0]) {
      SplitInMarker(a, b);
    } else {
      SplitAfterMarker(a, b, a[IndexEnd(a, 4, 4)..]);
    }
  }

  lemma {:induction false} ScanPasses(d: bytes, b: byte, rest: bytes)
    requires d == [b] + rest && !Holds(d) && !HasMagic(d)
    ensures Scan(d) == Scanned([b] + Scan(rest).out, Scan(rest).held)
  {
    assert d[1..] == rest;
  }

  lemma {:induction false} SameCut(a: bytes, b: bytes, rest: bytes)
    requires a != [] && !Holds(a) && !HasMagic(a) && rest == a[1..]
    ensures BadCut(a, b) <==> BadCut(rest, b)
    ensures Extra(a, b) == Extra(rest, b)
  {}

  lemma {:induction false} SplitAtByte(a: bytes, b: bytes, rest: bytes)
    requires a != [] && !Holds(a) && !HasMagic(a)
    requires rest == a[1..] && SplitAgrees(rest, b)
    ensures SplitAgrees(a, b)
  {
    NotHeldExtends(a, b);
    ScanPasses(a, a[0], rest);
    assert a + b == [a[0]] + (rest + b);
    ScanPasses(a + b, a[0], rest + b);
    SameCut(a, b, rest);
    AgreeMore(a[0], Scan(rest), Scan(Scan(rest).held + b), Scan(rest + b), Extra(rest, b));
  }

  lemma {:induction false} AgreeMore(b: byte, s: Scanned, t: Scanned, w: Scanned, extra: bytes)
    requires Agree(s, t, w, extra)
    ensures Agree(Scanned([b] + s.out, s.held), t, Scanned([b] + w.out, w.held), extra)
  {
    Assoc([b], s.out, t.out[|extra|..]);
  }

  lemma {:induction false} SplitRead(a: bytes, b: bytes)
    ensures SplitAgrees(a, b)
    decreases |a|
  {
    if a == [] {
      assert a + b == b;
      assert Scan(a).held + b == b;
    } else if Holds(a) {
      assert !EndsOnCaret(a);
    } else if HasMagic(a) {
      SplitRead(a[IndexEnd(a, 4, 4)..], b);
      SplitAtMarker(a, b);
    } else {
      SplitRead(a[1..], b);
      SplitAtByte(a, b, a[1..]);
    }
  }

  lemma {:induction false} NotHeldExtends(a: bytes, b: bytes)
    requires a != [] && !Holds(a) && !HasMagic(a)
    ensures !Holds(a + b) && !HasMagic(a + b)
  {}

  /** How many of the boundaries between these reads cut an echoed pair, given the bytes read before. */
  function BadCuts(before: bytes, chunks: seq<bytes>): nat
    decreases |chunks|
  {
    if chunks == [] then 0
    else (if BadCut(before, chunks[0]) then 1 else 0) + BadCuts(before + chunks[0], chunks[1..])
  }

  /** The outputs of the reads joined, each without its extra byte. */
  function Mended(held: bytes, before: bytes, chunks: seq<bytes>): bytes
    decreases |chunks|
  {
    if chunks == [] then []
    else
      var r := Feed(held, chunks[0]);
      var extra := Extra(before, chunks[0]);
      (if extra <= r.out then r.out[|extra|..] else r.out) + Mended(r.held, before + chunks[0], chunks[1..])
  }

  /** Each read that starts at a cut pair lets the cut-off partner through first. */
  predicate ExtrasLead(held: bytes, before: bytes, chunks: seq<bytes>)
    decreases |chunks|
  {
    chunks == [] ||
    var r := Feed(held, chunks[0]);
    Extra(before, chunks[0]) <= r.out && ExtrasLead(r.held, before + chunks[0], chunks[1..])
  }

  lemma {:induction false} ExtrasCounted(held: bytes, before: bytes, chunks: seq<bytes>)
    requires ExtrasLead(held, before, chunks)
    ensures |FeedAll(held, chunks).out| == |Mended(held, before, chunks)| + BadCuts(before, chunks)
    ensures BadCuts(before, chunks) == 0 ==> FeedAll(held, chunks).out == Mended(held, before, chunks)
    decreases |chunks|
  {
    if chunks != [] {
      var r := Feed(held, chunks[0]);
      ExtrasCounted(r.held, before + chunks[0], chunks[1..]);
      assert r.out[0..] == r.out;
    }
  }

  ghost predicate ReadsAgree(before: bytes, chunks: seq<bytes>) {
    var s, w := Scan(before), Scan(before + Concat(chunks));
    && FeedAll(s.held, chunks).held == w.held
    && ExtrasLead(s.held, before, chunks)
    && w.out == s.out + Mended(s.held, before, chunks)
  }

  lemma {:induction false} FedRead(before: bytes, c: bytes)
    requires SplitAgrees(before, c)
    ensures Agree(Scan(before), Feed(Scan(before).held, c), Scan(before + c), Extra(before, c))
  {
    if c == [] {
      assert before + c == before;
      Empty(Scan(before).out);
    }
  }

  lemma {:induction false} FirstRead(before: bytes, c: bytes, chunks: seq<bytes>)
    requires SplitAgrees(before, c) && ReadsAgree(before + c, chunks)
    ensures ReadsAgree(before, [c] + chunks)
  {
    var all := [c] + chunks;
    assert all[0] == c && all[1..] == chunks;
    Assoc(before, c, Concat(chunks));
    FedRead(before, c);
    var s, r := Scan(before), Feed(Scan(before).held, c);
    Assoc(s.out, r.out[|Extra(before, c)|..], Mended(r.held, before + c, chunks));
  }

  lemma {:induction false} ReadsAfter(before: bytes, chunks: seq<bytes>)
    ensures ReadsAgree(before, chunks)
    decreases |chunks|
  {
    if chunks == [] {
      Empty(before);
      Empty(Scan(before).out);
    } else {
      SplitRead(before, chunks[0]);
      ReadsAfter(before + chunks[0], chunks[1..]);
      FirstRead(before, chunks[0], chunks[1..]);
      assert [chunks[0]] + chunks[1..] == chunks;
    }
  }

  /**
   * However a stream is cut into reads, the filter ends holding the same bytes as on one read of the whole stream. It
   * lets through exactly the same, but for one extra byte at every boundary that cuts an echoed pair: the partner,
   * which comes out first of that read.
   */
  lemma {:induction false} ReadBoundaries(chunks: seq<bytes>)
    ensures FeedAll([], chunks).held == Scan(Concat(chunks)).held
    ensures ExtrasLead([], [], chunks) && Scan(Concat(chunks)).out == Mended([], [], chunks)
    ensures |FeedAll([], chunks).out| == |Scan(Concat(chunks)).out| + BadCuts([], chunks)
    ensures FeedAll([], chunks) == Scan(Concat(chunks)) <==> BadCuts([], chunks) == 0
    ensures |FeedAll([], chunks).held| <= HOLDBACK_LIMIT
  {
    ReadsAfter([], chunks);
    assert [] + Concat(chunks) == Concat(chunks);
    assert [] + Mended([], [], chunks) == Mended([], [], chunks);
    ExtrasCounted([], [], chunks);
    HoldbackBound(Concat(chunks));
  }

  // ---------------------------------------------------------------- what is stripped

  /** How a terminal echoes a byte: control bytes as a caret and a partner, all others as they are. */
  function Echo(c: byte): (e: bytes)
    ensures |e| == 1 || |e| == 2
  {
    if c < 0x20 then [0x5E, c + 0x40] else if c == 0x7F then [0x5E, 0x3F] else [c]
  }

  /** The partners are exactly the bytes that echo a control byte behind a caret. */
  lemma {:induction false} PartnerIff(b: byte)
    ensures IsEcho(b) <==> exists c: byte :: Echo(c) == [0x5E, b]
  {
    if IsEcho(b) {
      var c: byte := if b == 0x3F then 0x7F else b - 0x40;
      assert Echo(c) == [0x5E, b];
    }
    forall c: byte | Echo(c) == [0x5E, b] ensures IsEcho(b) {
      assert [0x5E, b][1] == b && Echo(c)[1] == b;
    }
  }

  /** A caret counts for two with a partner from ? to _ behind it, and for one with any other byte or none. */
  lemma {:induction false} CaretPair(d: bytes, i: nat)
    requires i < |d|
    ensures UnitLen(d, i) == 2 <==> d[i] == 0x5E && i + 1 < |d| && 0x3F <= d[i + 1] <= 0x5F
    ensures UnitLen(d, i) == 1 || UnitLen(d, i) == 2
  {}

  /** A byte of a marker's index, and whether the terminal has echoed it. */
  datatype IndexByte = IndexByte(value: byte, echoed: bool)

  function IndexText(ix: seq<IndexByte>): bytes {
    if ix == [] then [] else (if ix[0].echoed then Echo(ix[0].value) else [ix[0].value]) + IndexText(ix[1..])
  }

  datatype Piece = Text(text: bytes) | Marker(index: seq<IndexByte>)

  predicate WellFormed(ps: seq<Piece>) {
    forall p :: p in ps ==> WellFormedPiece(p)
  }

  /** Text without the byte that starts a marker; or a marker whose index bytes are no carets. */
  predicate WellFormedPiece(p: Piece) {
    match p
    case Text(t) => 0xFF !in t
    case Marker(ix) => |ix| == 4 && NoCarets(ix)
  }

  predicate NoCarets(ix: seq<IndexByte>) {
    forall j :: 0 <= j < |ix| ==> ix[j].value != 0x5E
  }

  function Shown(ps: seq<Piece>): bytes {
    if ps == [] then []
    else (match ps[0] case Text(t) => t case Marker(ix) => MAGIC + IndexText(ix)) + Shown(ps[1..])
  }

  function TextOf(ps: seq<Piece>): bytes {
    if ps == [] then []
    else (match ps[0] case Text(t) => t case Marker(_) => []) + TextOf(ps[1..])
  }

  lemma {:induction false} EchoUnit(d: bytes, i: nat, u: bytes, c: IndexByte, more: bytes)
    requires i <= |d| && d[i..] == u + more && c.value != 0x5E
    requires u == if c.echoed then Echo(c.value) else [c.value]
    ensures i < |d| && UnitLen(d, i) == |u| && d[i + |u|..] == more
  {
    assert d[i] == d[i..][0] && (|u| == 2 ==> d[i + 1] == d[i..][1]);
    assert d[i + |u|..] == d[i..][|u|..];
  }

  lemma {:induction false} ShownIndexEnd(d: bytes, i: nat, ix: seq<IndexByte>, rest: bytes)
    requires i <= |d| && d[i..] == IndexText(ix) + rest && NoCarets(ix)
    ensures IndexEnd(d, i, |ix|) == i + |IndexText(ix)|
    decreases |ix|
  {
    if ix != [] {
      var u := if ix[0].echoed then Echo(ix[0].value) else [ix[0].value];
      Assoc(u, IndexText(ix[1..]), rest);
      EchoUnit(d, i, u, ix[0], IndexText(ix[1..]) + rest);
      ShownIndexEnd(d, i + |u|, ix[1..], rest);
    }
  }

  lemma {:induction false} TextPasses(t: bytes, d: bytes)
    requires 0xFF !in t
    ensures Scan(t + d) == Scanned(t + Scan(d).out, Scan(d).held)
  {
    if t == [] {
      Empty(d);
      Empty(Scan(d).out);
    } else {
      assert t[0] in t && 0xFF !in t[1..];
      TextPasses(t[1..], d);
      assert t == [t[0]] + t[1..];
      Assoc([t[0]], t[1..], d);
      ScanPasses(t + d, t[0], t[1..] + d);
      Assoc([t[0]], t[1..], Scan(d).out);
    }
  }

  /** A marker is stripped exactly, whichever of its index bytes the terminal has echoed and whatever follows. */
  lemma {:induction false} MarkerSkipped(ix: seq<IndexByte>, rest: bytes)
    requires |ix| == 4 && NoCarets(ix)
    ensures Scan([0xFF, 0xC0, 0xC1, 0xFF] + IndexText(ix) + rest) == Scan(rest)
  {
    var d := [0xFF, 0xC0, 0xC1, 0xFF] + IndexText(ix) + rest;
    assert d[4..] == IndexText(ix) + rest;
    ShownIndexEnd(d, 4, ix, rest);
    assert d[4 + |IndexText(ix)|..] == rest;
    ScanSkips(d, rest);
  }

  predicate MagicAt(d: bytes, i: nat) {
    i + 4 <= |d| && d[i] == 0xFF && d[i + 1] == 0xC0 && d[i + 2] == 0xC1 && d[i + 3] == 0xFF
  }

  predicate NoMagicIn(d: bytes) {
    forall i :: 0 <= i < |d| ==> !MagicAt(d, i)
  }

  /** The last `k` bytes could begin a marker. */
  predicate EndsLikeMagic(d: bytes, k: int) {
    && 0 < k < 4 && k <= |d| && d[|d| - k] == 0xFF
    && (k > 1 ==> d[|d| - k + 1] == 0xC0) && (k > 2 ==> d[|d| - k + 2] == 0xC1)
  }

  /** All comes out but for a beginning of the magic at the end, and that is held back as long as it can be. */
  ghost predicate PassedOn(d: bytes, s: Scanned) {
    && s.out + s.held == d && (s.held == [] || EndsLikeMagic(d, |s.held|))
    && forall k :: EndsLikeMagic(d, k) ==> k <= |s.held|
  }

  lemma {:induction false} EndOfMore(b: byte, d: bytes, all: bytes, k: int)
    requires all == [b] + d && !PartOfMagic(all)
    ensures EndsLikeMagic(all, k) <==> EndsLikeMagic(d, k)
  {
    if 0 < k <= |d| {
      assert forall i :: 0 <= i < |d| ==> all[i + 1] == d[i];
    }
  }

  lemma {:induction false} PassesMore(b: byte, d: bytes, t: Scanned, all: bytes)
    requires PassedOn(d, t) && all == [b] + d && !PartOfMagic(all)
    ensures PassedOn(all, Scanned([b] + t.out, t.held))
  {
    Assoc([b], t.out, t.held);
    EndOfMore(b, d, all, |t.held|);
    forall k | EndsLikeMagic(all, k) ensures k <= |t.held| {
      EndOfMore(b, d, all, k);
    }
  }

  lemma {:induction false} NoMagicBehind(d: bytes)
    requires d != [] && NoMagicIn(d)
    ensures NoMagicIn(d[1..])
  {
    forall i | 0 <= i < |d| - 1 ensures !MagicAt(d[1..], i) {
      assert !MagicAt(d, i + 1);
    }
  }

  /** Bytes without the magic, 0xFF included, are let through. */
  lemma {:induction false} UnmarkedPasses(d: bytes)
    requires NoMagicIn(d)
    ensures PassedOn(d, Scan(d))
    decreases |d|
  {
    if d != [] {
      assert !MagicAt(d, 0);
      if Holds(d) {
        Empty(d);
      } else {
        NoMagicBehind(d);
        UnmarkedPasses(d[1..]);
        assert d == [d[0]] + d[1..];
        ScanPasses(d, d[0], d[1..]);
        PassesMore(d[0], d[1..], Scan(d[1..]), d);
      }
    }
  }

  /** Any interleaving of text and shown markers comes out as the text alone, with nothing held. */
  lemma {:induction false} StripsExactlyMarkers(ps: seq<Piece>)
    requires WellFormed(ps)
    ensures Scan(Shown(ps)) == Scanned(TextOf(ps), [])
  {
    if ps != [] {
      assert WellFormedPiece(ps[0]) && WellFormed(ps[1..]);
      StripsExactlyMarkers(ps[1..]);
      match ps[0] {
        case Text(t) => TextPasses(t, Shown(ps[1..]));
        case Marker(ix) => MarkerSkipped(ix, Shown(ps[1..]));
      }
    }
  }

  /** One of the `n` bytes from `i` on is a caret that the filter will read as the start of an echoed pair. */
  predicate PairIn(d: bytes, i: nat, n: nat) {
    exists j :: i <= j < i + n && j + 1 < |d| && d[j] == 0x5E && 0x3F <= d[j + 1] <= 0x5F
  }

  lemma {:induction false} RawIndexEnd(d: bytes, i: nat, n: nat)
    requires i + n <= |d|
    ensures IndexEnd(d, i, n) == i + n <==> !PairIn(d, i, n)
    decreases |d| - i
  {
    if n > 0 && UnitLen(d, i) == 1 {
      RawIndexEnd(d, i + 1, n - 1);
    }
  }

  /**
   * A raw marker (its four index bytes unexpanded) is stripped as eight bytes exactly when no caret in its
   * index is followed by a byte that could be its partner.
   */
  lemma {:induction false} RawMarkerIff(ix: bytes, rest: bytes)
    requires |ix| == 4
    ensures IndexEnd(MAGIC + ix + rest, 4, 4) == 8 <==> !PairIn(MAGIC + ix + rest, 4, 4)
    ensures !PairIn(MAGIC + ix + rest, 4, 4) ==> Scan(MAGIC + ix + rest) == Scan(rest)
  {
    var d := MAGIC + ix + rest;
    RawIndexEnd(d, 4, 4);
    assert d[8..] == rest;
  }
}
