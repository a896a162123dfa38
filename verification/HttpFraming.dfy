/**
 * How the body of an HTTP/1.x message is framed: what the code computes from the header fields, and what the texts of
 * those fields say (section 6.3 of RFC 9112).
 */
module HttpFraming {
  import opened Bytes
  import opened Text
  import opened HttpParse
  import opened HttpBody

  // ---------------------------------------------------------------- header fields

  /** "Transfer-Encoding" */
  const TRANSFER_ENCODING: bytes :=
    [0x54, 0x72, 0x61, 0x6E, 0x73, 0x66, 0x65, 0x72, 0x2D, 0x45, 0x6E, 0x63, 0x6F, 0x64, 0x69, 0x6E, 0x67]

  /** "Content-Length" */
  const CONTENT_LENGTH: bytes := [0x43, 0x6F, 0x6E, 0x74, 0x65, 0x6E, 0x74, 0x2D, 0x4C, 0x65, 0x6E, 0x67, 0x74, 0x68]

  /** "chunked", "HEAD" and "CONNECT" */
  const CHUNKED: bytes := [0x63, 0x68, 0x75, 0x6E, 0x6B, 0x65, 0x64]
  const HEAD: bytes := [0x48, 0x45, 0x41, 0x44]
  const CONNECT: bytes := [0x43, 0x4F, 0x4E, 0x4E, 0x45, 0x43, 0x54]

  /** The trimmed parts that are not empty. Tokens are lower-cased where they are compared. */
  function KeepTokens(parts: seq<bytes>): seq<bytes> {
    if parts == [] then []
    else
      var t := TrimSpace(parts[0]);
      (if t == [] then [] else [t]) + KeepTokens(parts[1..])
  }

  /** The tokens of every field of that name, in order. */
  function Tokens(hs: seq<Header>, name: bytes): seq<bytes> {
    if hs == [] then []
    else (if EqualFold(hs[0].name, name) then KeepTokens(Split(hs[0].value, COMMA)) else []) + Tokens(hs[1..], name)
  }

  method TokensIn(value: bytes) returns (out: seq<bytes>)
    ensures out == KeepTokens(Split(value, COMMA))
  {
    var parts := Split(value, COMMA);
    out := [];
    for n := 0 to |parts|
      invariant out + KeepTokens(parts[n..]) == KeepTokens(parts)
    {
      assert parts[n..][1..] == parts[n + 1..];
      var t := TrimSpace(parts[n]);
      Regroup(out, [t], KeepTokens(parts[n + 1..]));
      if t != [] {
        out := out + [t];
      }
    }
  }

  method FieldTokens(hs: seq<Header>, name: bytes) returns (out: seq<bytes>)
    ensures out == Tokens(hs, name)
  {
    out := [];
    for n := 0 to |hs|
      invariant out + Tokens(hs[n..], name) == Tokens(hs, name)
    {
      assert hs[n..][1..] == hs[n + 1..];
      var here: seq<bytes> := [];
      if EqualFold(hs[n].name, name) {
        here := TokensIn(hs[n].value);
      }
      Regroup(out, here, Tokens(hs[n + 1..], name));
      out := out + here;
    }
  }

  /** The trimmed values of the fields of that name, in order. */
  function Values(hs: seq<Header>, name: bytes): seq<bytes> {
    if hs == [] then []
    else (if EqualFold(hs[0].name, name) then [TrimSpace(hs[0].value)] else []) + Values(hs[1..], name)
  }

  /** Empty values count only after one that is not. */
  function SkipEmpty(vs: seq<bytes>): seq<bytes> {
    if vs != [] && vs[0] == [] then SkipEmpty(vs[1..]) else vs
  }

  datatype LengthField = Absent | Given(n: nat) | Malformed

  predicate AllEqual(vs: seq<bytes>) {
    forall i :: 0 <= i < |vs| ==> vs[i] == vs[0]
  }

  /** A signed decimal of 64 bits that is not negative. */
  function ParseLength(v: bytes): LengthField {
    match Atoi(v)
    case None => Malformed
    case Some(n) => if 0 <= n <= MAX_INT64 then Given(n) else Malformed
  }

  /** All values must be the same, and a length. */
  function ContentLength(hs: seq<Header>): LengthField {
    var vs := SkipEmpty(Values(hs, CONTENT_LENGTH));
    if vs == [] then Absent else if !AllEqual(vs) then Malformed else ParseLength(vs[0])
  }

  lemma {:induction false} ValuesAppend(hs: seq<Header>, name: bytes, h: Header)
    ensures Values(hs + [h], name) == Values(hs, name) + if EqualFold(h.name, name) then [TrimSpace(h.value)] else []
    decreases |hs|
  {
    if hs == [] {
      assert hs + [h] == [h] && [h][1..] == [];
    } else {
      assert (hs + [h])[1..] == hs[1..] + [h];
      ValuesAppend(hs[1..], name, h);
      var here := if EqualFold(hs[0].name, name) then [TrimSpace(hs[0].value)] else [];
      Regroup(here, Values(hs[1..], name), if EqualFold(h.name, name) then [TrimSpace(h.value)] else []);
    }
  }

  lemma {:induction false} SkipEmptyAppend(vs: seq<bytes>, v: bytes)
    ensures SkipEmpty(vs + [v]) == if SkipEmpty(vs) == [] && v == [] then [] else SkipEmpty(vs) + [v]
    decreases |vs|
  {
    if vs == [] {
      assert vs + [v] == [v] && [v][1..] == [];
    } else if vs[0] == [] {
      assert (vs + [v])[1..] == vs[1..] + [v];
      SkipEmptyAppend(vs[1..], v);
    }
  }

  /** Once two values differ, no further field mends it. */
  lemma {:induction false} ConflictStays(hs: seq<Header>, name: bytes, n: nat)
    requires n <= |hs| && !AllEqual(SkipEmpty(Values(hs[..n], name)))
    ensures !AllEqual(SkipEmpty(Values(hs, name)))
    decreases |hs| - n
  {
    if n < |hs| {
      assert hs[..n + 1] == hs[..n] + [hs[n]];
      ValuesAppend(hs[..n], name, hs[n]);
      var vs := Values(hs[..n], name);
      if EqualFold(hs[n].name, name) {
        SkipEmptyAppend(vs, TrimSpace(hs[n].value));
        var i :| 0 <= i < |SkipEmpty(vs)| && SkipEmpty(vs)[i] != SkipEmpty(vs)[0];
        assert SkipEmpty(Values(hs[..n + 1], name))[i] == SkipEmpty(vs)[i];
      } else {
        assert Values(hs[..n + 1], name) == vs;
      }
      ConflictStays(hs, name, n + 1);
    } else {
      assert hs[..n] == hs;
    }
  }

  /** The values so far agree on `v`, which is empty when none of them counts. */
  predicate Agreed(hs: seq<Header>, name: bytes, v: bytes) {
    var vs := SkipEmpty(Values(hs, name));
    AllEqual(vs) && (if vs == [] then v == [] else v != [] && vs[0] == v)
  }

  lemma {:induction false} AgreesFurther(hs: seq<Header>, name: bytes, n: nat, v: bytes, val: bytes)
    requires n < |hs| && Agreed(hs[..n], name, v) && val == TrimSpace(hs[n].value)
    ensures !EqualFold(hs[n].name, name) ==> Agreed(hs[..n + 1], name, v)
    ensures EqualFold(hs[n].name, name) && (v == [] || v == val) ==> Agreed(hs[..n + 1], name, val)
    ensures EqualFold(hs[n].name, name) && v != [] && v != val ==> !AllEqual(SkipEmpty(Values(hs, name)))
  {
    var vs := Values(hs[..n], name);
    assert hs[..n + 1] == hs[..n] + [hs[n]] && vs + [] == vs;
    ValuesAppend(hs[..n], name, hs[n]);
    SkipEmptyAppend(vs, val);
    if EqualFold(hs[n].name, name) && v != [] && v != val {
      assert SkipEmpty(vs + [val])[|SkipEmpty(vs)|] == val;
      ConflictStays(hs, name, n + 1);
    }
  }

  method ReadContentLength(hs: seq<Header>) returns (r: LengthField)
    ensures r == ContentLength(hs)
  {
    var v: bytes := [];
    for n := 0 to |hs|
      invariant Agreed(hs[..n], CONTENT_LENGTH, v)
    {
      AgreesFurther(hs, CONTENT_LENGTH, n, v, TrimSpace(hs[n].value));
      if EqualFold(hs[n].name, CONTENT_LENGTH) {
        var val := TrimSpace(hs[n].value);
        if v != [] && v != val {
          return Malformed;
        }
        v := val;
      }
    }
    assert hs[..|hs|] == hs;
    if v == [] {
      return Absent;
    }
    r := ParseLength(v);
  }

  // ---------------------------------------------------------------- framing

  /** The last transfer coding: none, chunked, or another one. */
  datatype Coding = Uncoded | ChunkedLast | Another

  function CodingOf(hs: seq<Header>): Coding {
    var te := Tokens(hs, TRANSFER_ENCODING);
    if te == [] then Uncoded else if LowersTo(te[|te| - 1], CHUNKED) then ChunkedLast else Another
  }

  /** Transfer-Encoding decides before Content-Length. */
  function RequestFraming(r: RequestHead): Result<Framing> {
    match CodingOf(r.headers)
    case ChunkedLast => Ok(Chunked)
    case Another => Err
    case Uncoded =>
      match ContentLength(r.headers)
      case Malformed => Err
      case Given(n) => Ok(if n > 0 then Length(n) else NoBody)
      case Absent => Ok(NoBody)
  }

  /** Responses that never have a body. */
  predicate Bodyless(verb: bytes, status: int) {
    verb == HEAD || status == 204 || status == 304 || 100 <= status < 200
  }

  /** Responses that open a tunnel. */
  predicate Tunnel(verb: bytes, status: int) {
    verb == CONNECT && 200 <= status < 300
  }

  function ResponseFraming(verb: bytes, r: ResponseHead): Result<Framing> {
    if Bodyless(verb, r.status) then Ok(NoBody)
    else if Tunnel(verb, r.status) then Ok(UntilClose)
    else
      match CodingOf(r.headers)
      case ChunkedLast => Ok(Chunked)
      case Another => Ok(UntilClose)
      case Uncoded =>
        match ContentLength(r.headers)
        case Malformed => Err
        case Given(n) => Ok(if n > 0 then Length(n) else NoBody)
        case Absent => Ok(UntilClose)
  }

  // ---------------------------------------------------------------- what the header texts say

  /** Nothing but white space. */
  predicate Blank(parts: seq<bytes>) {
    forall j :: 0 <= j < |parts| ==> TrimSpace(parts[j]) == []
  }

  /** The last part that is not blank is number `j` and reads `t`. */
  predicate LastPart(parts: seq<bytes>, j: int, t: bytes) {
    0 <= j < |parts| && t != [] && TrimSpace(parts[j]) == t && Blank(parts[j + 1..])
  }

  /** The fields of that name hold commas and white space only. */
  predicate Silent(hs: seq<Header>, name: bytes) {
    forall i :: 0 <= i < |hs| && EqualFold(hs[i].name, name) ==> Blank(Split(hs[i].value, COMMA))
  }

  /** The last field of that name that is not silent is number `i`, and its last part is number `j` and reads `t`. */
  predicate LastToken(hs: seq<Header>, name: bytes, i: int, j: int, t: bytes) {
    && 0 <= i < |hs| && EqualFold(hs[i].name, name)
    && LastPart(Split(hs[i].value, COMMA), j, t) && Silent(hs[i + 1..], name)
  }

  /** The last token of the fields of that name reads `coding`, in any letter case. */
  ghost predicate EndsIn(hs: seq<Header>, name: bytes, coding: bytes) {
    exists i, j, t :: LastToken(hs, name, i, j, t) && LowersTo(t, coding)
  }

  /** The last transfer coding is chunked. */
  ghost predicate EndsChunked(hs: seq<Header>) {
    EndsIn(hs, TRANSFER_ENCODING, CHUNKED)
  }

  /** The fields of that name from `lo` up to `hi` all read `v`. */
  predicate ValuesRead(hs: seq<Header>, name: bytes, lo: int, hi: int, v: bytes)
    requires 0 <= lo && hi <= |hs|
  {
    forall i :: lo <= i < hi && EqualFold(hs[i].name, name) ==> TrimSpace(hs[i].value) == v
  }

  /** Field `i` has that name and reads `v`; those before it are empty, and those behind it read the same. */
  predicate ValueAt(hs: seq<Header>, name: bytes, i: int, v: bytes) {
    && 0 <= i < |hs| && EqualFold(hs[i].name, name) && v != [] && TrimSpace(hs[i].value) == v
    && ValuesRead(hs, name, 0, i, []) && ValuesRead(hs, name, i + 1, |hs|, v)
  }

  /** The fields agree on one number that fits 63 bits. */
  ghost predicate SaysLength(hs: seq<Header>, n: nat) {
    n <= MAX_INT64 && exists i, v :: ValueAt(hs, CONTENT_LENGTH, i, v) && Atoi(v) == Some(n)
  }

  /** What the fields of a request say: a transfer coding, else a length, else that there is no body. */
  ghost predicate RequestSays(hs: seq<Header>, kind: Framing) {
    match kind
    case Chunked => EndsChunked(hs)
    case Length(n) => Silent(hs, TRANSFER_ENCODING) && n > 0 && SaysLength(hs, n)
    case NoBody => Silent(hs, TRANSFER_ENCODING) && (ValuesRead(hs, CONTENT_LENGTH, 0, |hs|, []) || SaysLength(hs, 0))
    case UntilClose => false
  }

  /** What a response says: some have no body and some are tunnels, whatever their fields. */
  ghost predicate ResponseSays(verb: bytes, r: ResponseHead, kind: Framing) {
    if verb == [0x48, 0x45, 0x41, 0x44] || r.status in {204, 304} || 100 <= r.status <= 199 then kind == NoBody
    else if verb == [0x43, 0x4F, 0x4E, 0x4E, 0x45, 0x43, 0x54] && 200 <= r.status <= 299 then kind == UntilClose
    else
      match kind
      case Chunked => EndsChunked(r.headers)
      case Length(n) => Silent(r.headers, TRANSFER_ENCODING) && n > 0 && SaysLength(r.headers, n)
      case NoBody => Silent(r.headers, TRANSFER_ENCODING) && SaysLength(r.headers, 0)
      case UntilClose =>
        if Silent(r.headers, TRANSFER_ENCODING) then ValuesRead(r.headers, CONTENT_LENGTH, 0, |r.headers|, [])
        else !EndsChunked(r.headers)
  }

  lemma {:induction false} BlankFirst(parts: seq<bytes>)
    requires parts != []
    ensures Blank(parts) <==> TrimSpace(parts[0]) == [] && Blank(parts[1..])
  {
    assert forall j :: 1 <= j < |parts| ==> parts[j] == parts[1..][j - 1];
  }

  lemma {:induction false} KeepsNone(parts: seq<bytes>)
    ensures KeepTokens(parts) == [] <==> Blank(parts)
    decreases |parts|
  {
    if parts != [] {
      KeepsNone(parts[1..]);
      BlankFirst(parts);
    }
  }

  lemma {:induction false} LastPartLater(parts: seq<bytes>, k: int, t: bytes)
    requires parts != [] && k >= 0
    ensures LastPart(parts[1..], k, t) <==> LastPart(parts, k + 1, t)
  {
    if k + 1 < |parts| {
      assert parts[1..][k] == parts[k + 1] && parts[1..][k + 1..] == parts[k + 2..];
    }
  }

  lemma {:induction false} LastOfMore(t: bytes, ts: seq<bytes>)
    requires ts != []
    ensures ([t] + ts)[|[t] + ts| - 1] == ts[|ts| - 1]
  {}

  /** The last token stands in the last part that is not blank. */
  lemma {:induction false} LastKept(parts: seq<bytes>) returns (j: int)
    requires KeepTokens(parts) != []
    ensures j >= 0 && LastPart(parts, j, KeepTokens(parts)[|KeepTokens(parts)| - 1])
    decreases |parts|
  {
    var ts := KeepTokens(parts[1..]);
    if ts != [] {
      var k := LastKept(parts[1..]);
      LastPartLater(parts, k, ts[|ts| - 1]);
      LastOfMore(TrimSpace(parts[0]), ts);
      j := k + 1;
    } else {
      KeepsNone(parts[1..]);
      j := 0;
    }
  }

  /** The last part that is not blank is the last token. */
  lemma {:induction false} LastPartKept(parts: seq<bytes>, j: int, t: bytes)
    requires LastPart(parts, j, t)
    ensures var ts := KeepTokens(parts); ts != [] && ts[|ts| - 1] == t
    decreases |parts|
  {
    if j == 0 {
      KeepsNone(parts[1..]);
    } else {
      LastPartLater(parts, j - 1, t);
      LastPartKept(parts[1..], j - 1, t);
      LastOfMore(TrimSpace(parts[0]), KeepTokens(parts[1..]));
    }
  }

  lemma {:induction false} SilentFirst(hs: seq<Header>, name: bytes)
    requires hs != []
    ensures Silent(hs, name) <==>
            (EqualFold(hs[0].name, name) ==> Blank(Split(hs[0].value, COMMA))) && Silent(hs[1..], name)
  {
    assert forall i :: 1 <= i < |hs| ==> hs[i] == hs[1..][i - 1];
  }

  /** There is no token exactly if the fields are silent. */
  lemma {:induction false} NoTokens(hs: seq<Header>, name: bytes)
    ensures Tokens(hs, name) == [] <==> Silent(hs, name)
    decreases |hs|
  {
    if hs != [] {
      NoTokens(hs[1..], name);
      SilentFirst(hs, name);
      KeepsNone(Split(hs[0].value, COMMA));
    }
  }

  lemma {:induction false} LastTokenLater(hs: seq<Header>, name: bytes, k: int, j: int, t: bytes)
    requires hs != [] && k >= 0
    ensures LastToken(hs[1..], name, k, j, t) <==> LastToken(hs, name, k + 1, j, t)
  {
    if k + 1 < |hs| {
      assert hs[1..][k] == hs[k + 1] && hs[1..][k + 1..] == hs[k + 2..];
    }
  }

  lemma {:induction false} LastOfBoth(ts: seq<bytes>, us: seq<bytes>)
    ensures us != [] ==> (ts + us)[|ts + us| - 1] == us[|us| - 1]
    ensures us == [] ==> ts + us == ts
  {}

  /** The last token stands last in the last field that is not silent. */
  lemma {:induction false} LastTokenFound(hs: seq<Header>, name: bytes) returns (i: int, j: int)
    requires Tokens(hs, name) != []
    ensures i >= 0 && LastToken(hs, name, i, j, Tokens(hs, name)[|Tokens(hs, name)| - 1])
    decreases |hs|
  {
    var us := Tokens(hs[1..], name);
    var ts := KeepTokens(Split(hs[0].value, COMMA));
    LastOfBoth(ts, us);
    if us != [] {
      var k, l := LastTokenFound(hs[1..], name);
      LastTokenLater(hs, name, k, l, us[|us| - 1]);
      i, j := k + 1, l;
    } else {
      NoTokens(hs[1..], name);
      var l := LastKept(Split(hs[0].value, COMMA));
      i, j := 0, l;
    }
  }

  lemma {:induction false} LastTokenKept(hs: seq<Header>, name: bytes, i: int, j: int, t: bytes)
    requires LastToken(hs, name, i, j, t)
    ensures var ts := Tokens(hs, name); ts != [] && ts[|ts| - 1] == t
    decreases |hs|
  {
    LastOfBoth(KeepTokens(Split(hs[0].value, COMMA)), Tokens(hs[1..], name));
    if i == 0 {
      NoTokens(hs[1..], name);
      LastPartKept(Split(hs[0].value, COMMA), j, t);
    } else {
      LastTokenLater(hs, name, i - 1, j, t);
      LastTokenKept(hs[1..], name, i - 1, j, t);
    }
  }

  /** The tokens end in one that reads `coding` exactly when the texts do. */
  lemma {:induction false} EndsInIff(hs: seq<Header>, name: bytes, coding: bytes)
    ensures var ts := Tokens(hs, name);
            EndsIn(hs, name, coding) <==> ts != [] && LowersTo(ts[|ts| - 1], coding)
  {
    var ts := Tokens(hs, name);
    if ts != [] && LowersTo(ts[|ts| - 1], coding) {
      var i, j := LastTokenFound(hs, name);
    }
    if EndsIn(hs, name, coding) {
      var k, l, t :| LastToken(hs, name, k, l, t) && LowersTo(t, coding);
      LastTokenKept(hs, name, k, l, t);
    }
  }

  lemma {:induction false} CodingIff(hs: seq<Header>)
    ensures CodingOf(hs) == Uncoded <==> Silent(hs, TRANSFER_ENCODING)
    ensures CodingOf(hs) == ChunkedLast <==> EndsChunked(hs)
  {
    NoTokens(hs, TRANSFER_ENCODING);
    EndsInIff(hs, TRANSFER_ENCODING, CHUNKED);
  }

  lemma {:induction false} ReadShift(hs: seq<Header>, name: bytes, lo: int, hi: int, v: bytes)
    requires 1 <= lo && 1 <= hi <= |hs|
    ensures ValuesRead(hs, name, lo, hi, v) <==> ValuesRead(hs[1..], name, lo - 1, hi - 1, v)
  {
    assert forall i :: lo <= i < hi ==> hs[i] == hs[1..][i - 1];
    assert forall i :: lo - 1 <= i < hi - 1 ==> hs[1..][i] == hs[i + 1];
  }

  lemma {:induction false} ReadFirst(hs: seq<Header>, name: bytes, hi: int, v: bytes)
    requires 1 <= hi <= |hs|
    ensures ValuesRead(hs, name, 0, hi, v) <==>
            (EqualFold(hs[0].name, name) ==> TrimSpace(hs[0].value) == v) && ValuesRead(hs[1..], name, 0, hi - 1, v)
  {
    ReadShift(hs, name, 1, hi, v);
  }

  predicate AllAre(vs: seq<bytes>, v: bytes) {
    forall k :: 0 <= k < |vs| ==> vs[k] == v
  }

  lemma {:induction false} AllAreFirst(x: bytes, vs: seq<bytes>, v: bytes)
    ensures AllAre([x] + vs, v) <==> x == v && AllAre(vs, v)
    ensures AllEqual([x] + vs) <==> AllAre(vs, x)
  {
    assert ([x] + vs)[0] == x && forall k :: 0 <= k < |vs| ==> ([x] + vs)[k + 1] == vs[k];
  }

  lemma {:induction false} AllRead(hs: seq<Header>, name: bytes, v: bytes)
    ensures AllAre(Values(hs, name), v) <==> ValuesRead(hs, name, 0, |hs|, v)
    decreases |hs|
  {
    if hs != [] {
      AllRead(hs[1..], name, v);
      ReadFirst(hs, name, |hs|, v);
      AllAreFirst(TrimSpace(hs[0].value), Values(hs[1..], name), v);
      assert [] + Values(hs[1..], name) == Values(hs[1..], name);
    }
  }

  lemma {:induction false} SkipsAll(vs: seq<bytes>)
    ensures SkipEmpty(vs) == [] <==> AllAre(vs, [])
    decreases |vs|
  {
    if vs != [] {
      SkipsAll(vs[1..]);
      AllAreFirst(vs[0], vs[1..], []);
      assert [vs[0]] + vs[1..] == vs;
    }
  }

  /** The lengths of the rest, when the first field adds none that counts. */
  lemma {:induction false} SkipFirst(hs: seq<Header>, name: bytes)
    requires hs != [] && (EqualFold(hs[0].name, name) ==> TrimSpace(hs[0].value) == [])
    ensures SkipEmpty(Values(hs, name)) == SkipEmpty(Values(hs[1..], name))
  {
    var rest := Values(hs[1..], name);
    assert [] + rest == rest;
    assert ([[]] + rest)[1..] == rest;
  }

  /** The lengths when the first field is one that counts. */
  lemma {:induction false} TakeFirst(hs: seq<Header>, name: bytes)
    requires hs != [] && EqualFold(hs[0].name, name) && TrimSpace(hs[0].value) != []
    ensures var v := TrimSpace(hs[0].value);
            && SkipEmpty(Values(hs, name)) == [v] + Values(hs[1..], name)
            && (AllEqual(SkipEmpty(Values(hs, name))) <==> ValuesRead(hs, name, 1, |hs|, v))
  {
    var v := TrimSpace(hs[0].value);
    AllAreFirst(v, Values(hs[1..], name), v);
    AllRead(hs[1..], name, v);
    ReadShift(hs, name, 1, |hs|, v);
  }

  /** Lengths that agree are those of one field, with empty ones before it and equal ones behind it. */
  lemma {:induction false} ValueFound(hs: seq<Header>, name: bytes) returns (i: int)
    requires var vs := SkipEmpty(Values(hs, name)); vs != [] && AllEqual(vs)
    ensures ValueAt(hs, name, i, SkipEmpty(Values(hs, name))[0])
    decreases |hs|
  {
    if EqualFold(hs[0].name, name) && TrimSpace(hs[0].value) != [] {
      TakeFirst(hs, name);
      i := 0;
    } else {
      SkipFirst(hs, name);
      var k := ValueFound(hs[1..], name);
      i := k + 1;
      ValueShift(hs, name, k, SkipEmpty(Values(hs, name))[0]);
    }
  }

  lemma {:induction false} ValueShift(hs: seq<Header>, name: bytes, k: int, v: bytes)
    requires hs != [] && k >= 0 && (EqualFold(hs[0].name, name) ==> TrimSpace(hs[0].value) == [])
    ensures ValueAt(hs[1..], name, k, v) <==> ValueAt(hs, name, k + 1, v)
  {
    if k + 1 < |hs| {
      assert hs[1..][k] == hs[k + 1];
      ReadFirst(hs, name, k + 1, []);
      ReadShift(hs, name, k + 2, |hs|, v);
    }
  }

  lemma {:induction false} ValueKept(hs: seq<Header>, name: bytes, i: int, v: bytes)
    requires ValueAt(hs, name, i, v)
    ensures var vs := SkipEmpty(Values(hs, name)); vs != [] && AllEqual(vs) && vs[0] == v
    decreases |hs|
  {
    if i == 0 {
      TakeFirst(hs, name);
    } else {
      ReadFirst(hs, name, i, []);
      ValueShift(hs, name, i - 1, v);
      ValueKept(hs[1..], name, i - 1, v);
      SkipFirst(hs, name);
    }
  }

  /** The length that is computed is the one that the texts agree on. */
  lemma {:induction false} ContentLengthIff(hs: seq<Header>, n: nat)
    ensures ContentLength(hs) == Given(n) <==> SaysLength(hs, n)
    ensures ContentLength(hs) == Absent <==> ValuesRead(hs, CONTENT_LENGTH, 0, |hs|, [])
  {
    var vs := SkipEmpty(Values(hs, CONTENT_LENGTH));
    SkipsAll(Values(hs, CONTENT_LENGTH));
    AllRead(hs, CONTENT_LENGTH, []);
    if vs != [] && AllEqual(vs) {
      var i := ValueFound(hs, CONTENT_LENGTH);
      assert Atoi(vs[0]) == Some(n) && n <= MAX_INT64 ==> SaysLength(hs, n);
    }
    if SaysLength(hs, n) {
      var i, v :| ValueAt(hs, CONTENT_LENGTH, i, v) && Atoi(v) == Some(n);
      ValueKept(hs, CONTENT_LENGTH, i, v);
    }
  }

  /** A request is framed exactly as its fields say, and is an error exactly when they say nothing. */
  lemma {:induction false} RequestFramingIff(r: RequestHead, kind: Framing)
    ensures RequestFraming(r) == Ok(kind) <==> RequestSays(r.headers, kind)
  {
    CodingIff(r.headers);
    var n := if kind.Length? then kind.n else 0;
    ContentLengthIff(r.headers, n);
  }

  /** So is a response. */
  lemma {:induction false} ResponseFramingIff(verb: bytes, r: ResponseHead, kind: Framing)
    ensures ResponseFraming(verb, r) == Ok(kind) <==> ResponseSays(verb, r, kind)
  {
    CodingIff(r.headers);
    var n := if kind.Length? then kind.n else 0;
    ContentLengthIff(r.headers, n);
  }

  /** The framing of a request: what its fields say, and an error exactly if they say nothing. */
  method ChooseRequestFraming(r: RequestHead) returns (k: Result<Framing>)
    ensures k == RequestFraming(r)
    ensures forall kind :: k == Ok(kind) <==> RequestSays(r.headers, kind)
  {
    forall kind ensures RequestFraming(r) == Ok(kind) <==> RequestSays(r.headers, kind) {
      RequestFramingIff(r, kind);
    }
    var te := FieldTokens(r.headers, TRANSFER_ENCODING);
    if |te| > 0 {
      return if LowersTo(te[|te| - 1], CHUNKED) then Ok(Chunked) else Err;
    }
    var n := ReadContentLength(r.headers);
    match n {
      case Malformed => return Err;
      case Given(len) => return Ok(if len > 0 then Length(len) else NoBody);
      case Absent => return Ok(NoBody);
    }
  }

  /** The framing of a response to a request with method `verb`. */
  method ChooseResponseFraming(verb: bytes, r: ResponseHead) returns (k: Result<Framing>)
    ensures k == ResponseFraming(verb, r)
    ensures forall kind :: k == Ok(kind) <==> ResponseSays(verb, r, kind)
  {
    forall kind ensures ResponseFraming(verb, r) == Ok(kind) <==> ResponseSays(verb, r, kind) {
      ResponseFramingIff(verb, r, kind);
    }
    if verb == HEAD || r.status == 204 || r.status == 304 || 100 <= r.status < 200 {
      return Ok(NoBody);
    }
    if verb == CONNECT && 200 <= r.status < 300 {
      return Ok(UntilClose);
    }
    var te := FieldTokens(r.headers, TRANSFER_ENCODING);
    if |te| > 0 {
      return Ok(if LowersTo(te[|te| - 1], CHUNKED) then Chunked else UntilClose);
    }
    var n := ReadContentLength(r.headers);
    match n {
      case Malformed => return Err;
      case Given(len) => return Ok(if len > 0 then Length(len) else NoBody);
      case Absent => return Ok(UntilClose);
    }
  }

  // ---------------------------------------------------------------- the usual texts

  /** The names and words that are compared with. */
  lemma {:induction false} WordsAreSpelled()
    ensures TRANSFER_ENCODING == Spelled("Transfer-Encoding") && CONTENT_LENGTH == Spelled("Content-Length")
    ensures CHUNKED == Spelled("chunked") && HEAD == Spelled("HEAD") && CONNECT == Spelled("CONNECT")
    ensures HTTP == Spelled("HTTP/")
  {}

  predicate NoField(hs: seq<Header>, name: bytes) {
    forall i :: 0 <= i < |hs| ==> !EqualFold(hs[i].name, name)
  }

  /** Without a transfer coding, any number of Content-Length fields with the decimal text of n > 0 frame n bytes. */
  lemma {:induction false} LengthFramed(q: RequestHead, verb: bytes, r: ResponseHead, n: nat, i: nat)
    requires q.headers == r.headers && Silent(q.headers, TRANSFER_ENCODING) && 0 < n <= MAX_INT64
    requires i < |q.headers| && EqualFold(q.headers[i].name, CONTENT_LENGTH)
    requires ValuesRead(q.headers, CONTENT_LENGTH, 0, |q.headers|, Decimal(n))
    ensures RequestFraming(q) == Ok(Length(n))
    ensures !Bodyless(verb, r.status) && !Tunnel(verb, r.status) ==> ResponseFraming(verb, r) == Ok(Length(n))
  {
    var k := FirstField(q.headers, CONTENT_LENGTH, i);
    DecimalValue(n);
    AtoiItoa(n);
    assert ValueAt(q.headers, CONTENT_LENGTH, k, Decimal(n));
    RequestFramingIff(q, Length(n));
    ResponseFramingIff(verb, r, Length(n));
  }

  lemma {:induction false} FirstField(hs: seq<Header>, name: bytes, i: nat) returns (k: nat)
    requires i < |hs| && EqualFold(hs[i].name, name)
    ensures k < |hs| && EqualFold(hs[k].name, name)
    ensures forall j :: 0 <= j < k ==> !EqualFold(hs[j].name, name)
  {
    k := 0;
    while !EqualFold(hs[k].name, name)
      invariant k <= i && forall j :: 0 <= j < k ==> !EqualFold(hs[j].name, name)
      decreases i - k
    {
      k := k + 1;
    }
  }

  /** A Transfer-Encoding that ends in chunked, in any letter case, frames chunks, whatever stands before it. */
  lemma {:induction false} ChunkedFramed(q: RequestHead, verb: bytes, r: ResponseHead, i: nat, part: bytes)
    requires q.headers == r.headers && i < |q.headers| && EqualFold(q.headers[i].name, TRANSFER_ENCODING)
    requires NoField(q.headers[i + 1..], TRANSFER_ENCODING)
    requires var parts := Split(q.headers[i].value, COMMA); |parts| > 0 && part == parts[|parts| - 1]
    requires IsAscii(TrimSpace(part)) && ToLower(TrimSpace(part)) == CHUNKED
    ensures RequestFraming(q) == Ok(Chunked)
    ensures !Bodyless(verb, r.status) && !Tunnel(verb, r.status) ==> ResponseFraming(verb, r) == Ok(Chunked)
  {
    AsciiCase(TrimSpace(part));
    var parts := Split(q.headers[i].value, COMMA);
    assert LastToken(q.headers, TRANSFER_ENCODING, i, |parts| - 1, TrimSpace(part));
    RequestFramingIff(q, Chunked);
    ResponseFramingIff(verb, r, Chunked);
  }

  /** With neither field a request has no body and a response ends with the connection. */
  lemma {:induction false} UnframedBody(q: RequestHead, verb: bytes, r: ResponseHead)
    requires q.headers == r.headers
    requires NoField(q.headers, TRANSFER_ENCODING) && NoField(q.headers, CONTENT_LENGTH)
    ensures RequestFraming(q) == Ok(NoBody)
    ensures !Bodyless(verb, r.status) && !Tunnel(verb, r.status) ==> ResponseFraming(verb, r) == Ok(UntilClose)
  {
    RequestFramingIff(q, NoBody);
    ResponseFramingIff(verb, r, UntilClose);
  }

  /** A text that stays in one part and is not trimmed, as those that start and end with a letter. */
  lemma {:induction false} OnePart(value: bytes)
    requires Trimmed(value) && value != [] && COMMA !in value
    ensures LastPart(Split(value, COMMA), 0, value)
  {
    FindNone(value, COMMA);
    TrimSpaceIdempotent(value);
  }

  /** A Transfer-Encoding written with U+017F for its s, that reads chunked with U+212A for its k, frames chunks too. */
  lemma {:induction false} OddLettersFrame(q: RequestHead, name: bytes, value: bytes)
    requires name == TRANSFER_ENCODING[..4] + LONG_S + TRANSFER_ENCODING[5..]
    requires value == CHUNKED[..4] + KELVIN + CHUNKED[5..] && q.headers == [Header(name, value)]
    ensures RequestFraming(q) == Ok(Chunked)
  {
    OddName(name);
    OddValue(value);
    OnePart(value);
    assert LastToken(q.headers, TRANSFER_ENCODING, 0, 0, value);
    RequestFramingIff(q, Chunked);
  }

  lemma {:induction false} OddName(name: bytes)
    requires name == TRANSFER_ENCODING[..4] + LONG_S + TRANSFER_ENCODING[5..]
    ensures EqualFold(name, TRANSFER_ENCODING)
  {
    LongSFolds(TRANSFER_ENCODING[..4], TRANSFER_ENCODING[5..]);
    assert TRANSFER_ENCODING[..4] + [0x73] + TRANSFER_ENCODING[5..] == TRANSFER_ENCODING;
  }

  lemma {:induction false} OddValue(value: bytes)
    requires value == CHUNKED[..4] + KELVIN + CHUNKED[5..]
    ensures LowersTo(value, CHUNKED) && Trimmed(value) && value != [] && COMMA !in value
  {
    KelvinLowers(CHUNKED[..4], CHUNKED[5..]);
    assert CHUNKED[..4] + [0x6B] + CHUNKED[5..] == CHUNKED && ToLower(CHUNKED) == CHUNKED;
    assert value == [0x63, 0x68, 0x75, 0x6E, 0xE2, 0x84, 0xAA, 0x65, 0x64];
  }
}
