/** HTTP/1.x heads: parsing, writing, and which heads survive being written and parsed again. */
module HttpParse {
  import opened Bytes
  import opened Text
  import opened BufReader
  import HttpHead

  // ---------------------------------------------------------------- parsing

  datatype Result<T> = Ok(value: T) | Err

  datatype Header = Header(name: bytes, value: bytes)

  datatype RequestHead = RequestHead(verb: bytes, target: bytes, proto: bytes, headers: seq<Header>)

  datatype ResponseHead = ResponseHead(proto: bytes, status: int, reason: bytes, headers: seq<Header>)

  const HTTP: bytes := [0x48, 0x54, 0x54, 0x50, 0x2F]

  function TrimCR(l: bytes): bytes {
    TrimRight(l, {CR})
  }

  /**
   * What a header line looks like: blank, starting with white space, its trimmed text, and the header it would make.
   */
  datatype LineClass = LineClass(blank: bool, spaced: bool, text: bytes, header: Option<Header>)

  function Classify(l: bytes): LineClass {
    var i := Find(l, COLON);
    LineClass(
      l == [],
      l != [] && (l[0] == SP || l[0] == TAB),
      TrimSpace(l),
      if i == 0 || i == |l| then None else Some(Header(l[..i], TrimSpace(l[i + 1..]))))
  }

  /** A blank line adds nothing; a spaced line continues the header before it, if there is one. */
  function AddClass(hs: seq<Header>, c: LineClass): Result<seq<Header>> {
    if c.blank then Ok(hs)
    else if c.spaced && hs != [] then
      var last := hs[|hs| - 1];
      Ok(hs[..|hs| - 1] + [last.(value := last.value + [SP] + c.text)])
    else match c.header
      case None => Err
      case Some(h) => Ok(hs + [h])
  }

  function AddClasses(hs: seq<Header>, cs: seq<LineClass>): Result<seq<Header>>
    decreases |cs|
  {
    if cs == [] then Ok(hs)
    else match AddClass(hs, cs[0])
      case Err => Err
      case Ok(more) => AddClasses(more, cs[1..])
  }

  /** Header lines in order, each with its trailing carriage returns removed. */
  function Classes(lines: seq<bytes>): seq<LineClass> {
    seq(|lines|, i requires 0 <= i < |lines| => Classify(TrimCR(lines[i])))
  }

  function AddLines(lines: seq<bytes>): Result<seq<Header>> {
    AddClasses([], Classes(lines))
  }

  function HeadText(raw: bytes): bytes {
    TrimRight(raw, {CR, LF})
  }

  function SplitHead(raw: bytes): Result<(bytes, seq<Header>)> {
    var lines := Split(HeadText(raw), LF);
    match AddLines(lines[1..])
    case Err => Err
    case Ok(hs) => Ok((TrimCR(lines[0]), hs))
  }

  method SplitHeadLines(raw: bytes) returns (r: Result<(bytes, seq<Header>)>)
    ensures r == SplitHead(raw)
  {
    var lines := Split(HeadText(raw), LF);
    var first := TrimCR(lines[0]);
    var hs: seq<Header> := [];
    for n := 1 to |lines|
      invariant AddClasses(hs, Classes(lines[1..])[n - 1..]) == AddLines(lines[1..])
    {
      ghost var cs := Classes(lines[1..]);
      assert cs[n - 1..][0] == Classify(TrimCR(lines[n])) && cs[n - 1..][1..] == cs[n..];
      match AddClass(hs, Classify(TrimCR(lines[n]))) {
        case Err => return Err;
        case Ok(more) => hs := more;
      }
    }
    r := Ok((first, hs));
  }

  /** At most three fields separated by single spaces, the last one taking the rest. */
  function Fields(first: bytes): seq<bytes> {
    var i := Find(first, SP);
    if i == |first| then [first]
    else
      var rest := first[i + 1..];
      var j := Find(rest, SP);
      if j == |rest| then [first[..i], rest] else [first[..i], rest[..j], rest[j + 1..]]
  }

  function ParseRequest(raw: bytes): Result<RequestHead> {
    match SplitHead(raw)
    case Err => Err
    case Ok((first, hs)) =>
      var parts := Fields(first);
      if |parts| != 3 || !(HTTP <= parts[2]) then Err
      else Ok(RequestHead(parts[0], parts[1], parts[2], hs))
  }

  function ParseResponse(raw: bytes): Result<ResponseHead> {
    match SplitHead(raw)
    case Err => Err
    case Ok((first, hs)) =>
      var parts := Fields(first);
      if |parts| < 2 || !(HTTP <= parts[0]) then Err
      else match Atoi(parts[1])
        case None => Err
        case Some(code) =>
          if code < 100 || code > 999 then Err
          else Ok(ResponseHead(parts[0], code, if |parts| == 3 then parts[2] else [], hs))
  }

  // ---------------------------------------------------------------- writing

  function HeaderLine(h: Header): bytes {
    h.name + [COLON, SP] + h.value
  }

  function HeaderLines(hs: seq<Header>): bytes {
    if hs == [] then [] else HeaderLine(hs[0]) + CRLF + HeaderLines(hs[1..])
  }

  function Serialize(first: bytes, hs: seq<Header>): bytes {
    first + CRLF + HeaderLines(hs) + CRLF
  }

  method SerializeHead(first: bytes, hs: seq<Header>) returns (b: bytes)
    ensures b == Serialize(first, hs)
  {
    b := first + CRLF;
    for n := 0 to |hs|
      invariant b + HeaderLines(hs[n..]) == first + CRLF + HeaderLines(hs)
    {
      var line := HeaderLine(hs[n]) + CRLF;
      assert hs[n..][1..] == hs[n + 1..];
      Assoc(b, line, HeaderLines(hs[n + 1..]));
      b := b + line;
    }
    Empty(b);
    b := b + CRLF;
  }

  function RequestLine(r: RequestHead): bytes {
    r.verb + [SP] + r.target + [SP] + r.proto
  }

  function StatusLine(r: ResponseHead): bytes {
    r.proto + [SP] + Itoa(r.status) + if r.reason != [] then [SP] + r.reason else []
  }

  function SerializeRequest(r: RequestHead): bytes {
    Serialize(RequestLine(r), r.headers)
  }

  function SerializeResponse(r: ResponseHead): bytes {
    Serialize(StatusLine(r), r.headers)
  }

  // ---------------------------------------------------------------- which heads survive

  /** A header that is written as one line and read back from it; only the first may start with white space. */
  predicate GoodHeader(h: Header, follows: bool) {
    && h.name != [] && COLON !in h.name && LF !in h.name
    && (follows ==> h.name[0] != SP && h.name[0] != TAB)
    && LF !in h.value && Trimmed(h.value)
  }

  predicate GoodHeaders(hs: seq<Header>) {
    forall i :: 0 <= i < |hs| ==> GoodHeader(hs[i], i > 0)
  }

  /** Ends in no carriage return and holds no newline, so that it survives as the end of a line. */
  predicate GoodEnd(s: bytes) {
    LF !in s && (s == [] || s[|s| - 1] != CR)
  }

  predicate GoodRequest(r: RequestHead) {
    && SP !in r.verb && LF !in r.verb
    && SP !in r.target && LF !in r.target
    && HTTP <= r.proto && GoodEnd(r.proto)
    && GoodHeaders(r.headers)
  }

  predicate GoodResponse(r: ResponseHead) {
    && HTTP <= r.proto && SP !in r.proto && LF !in r.proto
    && 100 <= r.status <= 999
    && GoodEnd(r.reason)
    && GoodHeaders(r.headers)
  }

  /** The lines of a serialized head, without their line ends. */
  function LinesOf(hs: seq<Header>): seq<bytes> {
    if hs == [] then [] else [HeaderLine(hs[0])] + LinesOf(hs[1..])
  }

  lemma {:induction false} LinesOfAt(hs: seq<Header>)
    ensures |LinesOf(hs)| == |hs| && forall i :: 0 <= i < |hs| ==> LinesOf(hs)[i] == HeaderLine(hs[i])
  {
    if hs != [] {
      LinesOfAt(hs[1..]);
    }
  }

  predicate NoNewline(hs: seq<Header>) {
    forall i :: 0 <= i < |hs| ==> LF !in hs[i].name && LF !in hs[i].value
  }

  /** One line of the text as the parser sees it: its end removed, and perhaps carriage returns with it. */
  ghost predicate SameLines(parts: seq<bytes>, lines: seq<bytes>) {
    |parts| == |lines| && forall i :: 0 <= i < |parts| ==> TrimCR(parts[i]) == TrimCR(lines[i])
  }

  lemma {:induction false} TrimCRLine(x: bytes)
    ensures TrimCR(x + [CR]) == TrimCR(x)
  {
    assert (x + [CR])[..|x|] == x;
  }

  /** A line that holds something other than carriage returns keeps it when the line ends are trimmed off the text. */
  lemma {:induction false} TrimmedEnd(x: bytes)
    requires LF !in x && TrimCR(x) != []
    ensures HeadText(x + CRLF + CRLF) == TrimCR(x)
  {
    var y := TrimCR(x);
    var tail := x[|y|..] + CRLF + CRLF;
    assert x + CRLF + CRLF == y + tail;
    TrimRightCuts(x, {CR});
    assert forall b :: b in x[|y|..] ==> b == CR;
    assert y[|y| - 1] in x;
    TrimRightOf(y, tail, {CR, LF});
  }

  lemma {:induction false} HeadTextPrefix(p: bytes, x: bytes)
    requires HeadText(x) != []
    ensures HeadText(p + x) == p + HeadText(x)
  {
    var y := HeadText(x);
    TrimRightCuts(x, {CR, LF});
    assert p + x == (p + y) + x[|y|..];
    assert forall b :: b in x[|y|..] ==> b in {CR, LF};
    TrimRightOf(p + y, x[|y|..], {CR, LF});
  }

  ghost predicate SerializedSplits(first: bytes, hs: seq<Header>) {
    && HeadText(Serialize(first, hs)) != []
    && SameLines(Split(HeadText(Serialize(first, hs)), LF), [first] + LinesOf(hs))
  }

  lemma {:induction false} SplitFirstOnly(first: bytes)
    requires LF !in first && TrimCR(first) != []
    ensures SerializedSplits(first, [])
  {
    assert Serialize(first, []) == first + CRLF + CRLF;
    TrimmedEnd(first);
    var y := TrimCR(first);
    assert LF !in y;
    FindNone(y, LF);
    assert TrimCR(y) == y;
    assert Split(y, LF) == [y];
    assert [first] + LinesOf([]) == [first];
  }

  lemma {:induction false} SplitFirstLine(first: bytes, h: Header, hs: seq<Header>)
    requires LF !in first && SerializedSplits(HeaderLine(h), hs)
    ensures SerializedSplits(first, [h] + hs)
  {
    var line := HeaderLine(h);
    var rest := Serialize(line, hs);
    var all := [h] + hs;
    assert all[1..] == hs;
    assert Serialize(first, all) == first + CRLF + rest;
    HeadTextPrefix(first + CRLF, rest);
    var text := HeadText(rest);
    assert first + CRLF + text == first + [CR] + [LF] + text;
    SplitAt(first + [CR], LF, text);
    TrimCRLine(first);
    assert LinesOf(all) == [line] + LinesOf(hs);
  }

  lemma {:induction false} SplitSerialized(first: bytes, hs: seq<Header>)
    requires LF !in first && NoNewline(hs)
    requires hs == [] ==> TrimCR(first) != []
    ensures SerializedSplits(first, hs)
    decreases |hs|
  {
    if hs == [] {
      SplitFirstOnly(first);
    } else {
      var line := HeaderLine(hs[0]);
      LineKeepsName(hs[0]);
      SplitSerialized(line, hs[1..]);
      SplitFirstLine(first, hs[0], hs[1..]);
      assert [hs[0]] + hs[1..] == hs;
    }
  }

  lemma {:induction false} SameClasses(parts: seq<bytes>, lines: seq<bytes>)
    requires SameLines(parts, lines)
    ensures AddLines(parts) == AddLines(lines)
  {
    assert Classes(parts) == Classes(lines);
  }

  /** With no newline inside its parts, a serialized head parses to its trimmed first line and its own header lines. */
  lemma {:induction false} ParsedParts(first: bytes, hs: seq<Header>)
    requires LF !in first && NoNewline(hs)
    requires hs == [] ==> TrimCR(first) != []
    ensures SplitHead(Serialize(first, hs)) ==
            match AddLines(LinesOf(hs)) case Err => Err case Ok(r) => Ok((TrimCR(first), r))
  {
    SplitSerialized(first, hs);
    var parts := Split(HeadText(Serialize(first, hs)), LF);
    var lines := [first] + LinesOf(hs);
    assert lines[1..] == LinesOf(hs);
    SameClasses(parts[1..], lines[1..]);
    assert TrimCR(parts[0]) == TrimCR(lines[0]);
  }

  // ---------------------------------------------------------------- headers

  /** The colon and the space after it are never trimmed off a header line. */
  lemma {:induction false} LineKeepsName(h: Header)
    ensures var l := TrimCR(HeaderLine(h));
            l <= HeaderLine(h) && |h.name| + 2 <= |l| && l[..|h.name|] == h.name
  {
    var full := HeaderLine(h);
    var l := TrimCR(full);
    TrimRightCuts(full, {CR});
    assert full[|h.name| + 1] == SP;
    assert |l| > |h.name| + 1;
    assert l[..|h.name|] == full[..|h.name|] == h.name;
  }

  lemma {:induction false} GoodLineKept(h: Header)
    requires Trimmed(h.value)
    ensures TrimCR(HeaderLine(h)) == HeaderLine(h)
  {
    var full := HeaderLine(h);
    if h.value == [] {
      assert full[|full| - 1] == SP;
    } else {
      assert full[|full| - 1] == h.value[|h.value| - 1];
      assert !AsciiSpace(h.value[|h.value| - 1]);
    }
  }

  /** The line makes exactly this header, whether or not another one stands before it. */
  predicate Makes(c: LineClass, follows: bool, h: Header) {
    !c.blank && !(c.spaced && follows) && c.header == Some(h)
  }

  lemma {:induction false} GoodLineRead(h: Header, follows: bool)
    requires GoodHeader(h, follows)
    ensures Makes(Classify(TrimCR(HeaderLine(h))), follows, h)
  {
    GoodLineKept(h);
    var full := HeaderLine(h);
    var n := |h.name|;
    assert full == h.name + [COLON] + ([SP] + h.value);
    FindAt(h.name, COLON, [SP] + h.value);
    assert full[..n] == h.name && full[n + 1..] == [SP] + h.value;
    assert full[0] == h.name[0];
    TrimSpaceIdempotent(h.value);
  }

  lemma {:induction false} ReadLineIsGood(h: Header, follows: bool)
    requires LF !in h.name && LF !in h.value && Makes(Classify(TrimCR(HeaderLine(h))), follows, h)
    ensures GoodHeader(h, follows)
  {
    var l := TrimCR(HeaderLine(h));
    var i := Find(l, COLON);
    FindFirst(l, COLON);
    TrimSpaceTrims(l[i + 1..]);
    assert l[..i] == h.name;
    assert l[0] == h.name[0];
  }

  /** A header line makes that header exactly when the header is good. */
  lemma {:induction false} HeaderLineIff(h: Header, follows: bool)
    requires LF !in h.name && LF !in h.value
    ensures Makes(Classify(TrimCR(HeaderLine(h))), follows, h) <==> GoodHeader(h, follows)
  {
    if GoodHeader(h, follows) {
      GoodLineRead(h, follows);
    }
    if Makes(Classify(TrimCR(HeaderLine(h))), follows, h) {
      ReadLineIsGood(h, follows);
    }
  }

  /** The parser makes at most one header per line. */
  lemma {:induction false} AddClassesCount(acc: seq<Header>, cs: seq<LineClass>)
    requires AddClasses(acc, cs).Ok?
    ensures |AddClasses(acc, cs).value| <= |acc| + |cs|
    decreases |cs|
  {
    if cs != [] {
      AddClassesCount(AddClass(acc, cs[0]).value, cs[1..]);
    }
  }

  lemma {:induction false} AddClassesExtends(acc: seq<Header>, cs: seq<LineClass>)
    requires AddClasses(acc, cs).Ok? && |AddClasses(acc, cs).value| == |acc| + |cs|
    ensures acc <= AddClasses(acc, cs).value
    decreases |cs|
  {
    if cs != [] {
      var more := AddClass(acc, cs[0]).value;
      AddClassesCount(more, cs[1..]);
      AddClassesExtends(more, cs[1..]);
      assert acc <= more;
    }
  }

  /** As many lines as headers give back those headers exactly when each line makes its own. */
  lemma {:induction false} OneEachIff(acc: seq<Header>, cs: seq<LineClass>, hs: seq<Header>)
    requires |cs| == |hs|
    ensures AddClasses(acc, cs) == Ok(acc + hs) <==> forall i :: 0 <= i < |hs| ==> Makes(cs[i], |acc| + i > 0, hs[i])
    decreases |cs|
  {
    if cs == [] {
      assert acc + hs == acc;
    } else {
      var acc' := acc + [hs[0]];
      OneEachIff(acc', cs[1..], hs[1..]);
      assert acc' + hs[1..] == acc + hs;
      assert (forall i :: 0 <= i < |hs[1..]| ==> Makes(cs[1..][i], |acc'| + i > 0, hs[1..][i]))
        <==> (forall i :: 1 <= i < |hs| ==> Makes(cs[i], |acc| + i > 0, hs[i])) by {
        assert forall i :: 1 <= i < |hs| ==> cs[i] == cs[1..][i - 1] && hs[i] == hs[1..][i - 1];
      }
      if AddClasses(acc, cs) == Ok(acc + hs) {
        var more := AddClass(acc, cs[0]).value;
        AddClassesCount(more, cs[1..]);
        AddClassesExtends(more, cs[1..]);
        assert more[|acc|] == (acc + hs)[|acc|] == hs[0];
        assert more == acc';
      }
    }
  }

  lemma {:induction false} MadeIff(hs: seq<Header>, cs: seq<LineClass>)
    requires NoNewline(hs) && cs == Classes(LinesOf(hs)) && |cs| == |hs|
    ensures (forall i :: 0 <= i < |hs| ==> Makes(cs[i], i > 0, hs[i])) <==> GoodHeaders(hs)
  {
    LinesOfAt(hs);
    forall i | 0 <= i < |hs| ensures Makes(cs[i], i > 0, hs[i]) <==> GoodHeader(hs[i], i > 0) {
      HeaderLineIff(hs[i], i > 0);
    }
  }

  /** Header lines parse back to the headers they came from exactly when all are good. */
  lemma {:induction false} HeadersIff(hs: seq<Header>)
    requires NoNewline(hs)
    ensures AddLines(LinesOf(hs)) == Ok(hs) <==> GoodHeaders(hs)
  {
    LinesOfAt(hs);
    var cs := Classes(LinesOf(hs));
    OneEachIff([], cs, hs);
    assert [] + hs == hs;
    MadeIff(hs, cs);
  }

  // ---------------------------------------------------------------- nothing parsed holds a newline

  lemma {:induction false} TrimSpaceNoNewline(s: bytes)
    requires LF !in s
    ensures LF !in TrimSpace(s)
  {
    var t := TrimSpaceLeft(s);
    TrimSpaceLeftSuffix(s);
    assert LF !in t;
  }

  predicate CleanClass(c: LineClass) {
    LF !in c.text && (c.header.Some? ==> LF !in c.header.value.name && LF !in c.header.value.value)
  }

  lemma {:induction false} ClassifyClean(l: bytes)
    requires LF !in l
    ensures CleanClass(Classify(l))
  {
    TrimSpaceNoNewline(l);
    var i := Find(l, COLON);
    if i < |l| {
      TrimSpaceNoNewline(l[i + 1..]);
    }
  }

  lemma {:induction false} AddClassesClean(acc: seq<Header>, cs: seq<LineClass>)
    requires NoNewline(acc) && forall i :: 0 <= i < |cs| ==> CleanClass(cs[i])
    requires AddClasses(acc, cs).Ok?
    ensures NoNewline(AddClasses(acc, cs).value)
    decreases |cs|
  {
    if cs != [] {
      assert CleanClass(cs[0]);
      AddClassesClean(AddClass(acc, cs[0]).value, cs[1..]);
    }
  }

  lemma {:induction false} SplitHeadNoNewline(raw: bytes)
    requires SplitHead(raw).Ok?
    ensures LF !in SplitHead(raw).value.0 && NoNewline(SplitHead(raw).value.1)
    ensures var first := SplitHead(raw).value.0; first == [] || first[|first| - 1] != CR
  {
    var lines := Split(HeadText(raw), LF);
    SplitParts(HeadText(raw), LF);
    var cs := Classes(lines[1..]);
    forall i | 0 <= i < |cs| ensures CleanClass(cs[i]) {
      ClassifyClean(TrimCR(lines[i + 1]));
    }
    AddClassesClean([], cs);
  }

  // ---------------------------------------------------------------- first lines

  lemma {:induction false} CutAt(s: bytes, b: byte)
    ensures var i := Find(s, b);
            if i == |s| then b !in s else b !in s[..i] && s == s[..i] + [b] + s[i + 1..]
  {
    FindFirst(s, b);
    if Find(s, b) == |s| {
      FindIsLen(s, b);
    }
  }

  lemma {:induction false} Join3(a: bytes, b: bytes, c: bytes)
    ensures a + [SP] + (b + [SP] + c) == a + [SP] + b + [SP] + c
  {}

  lemma {:induction false} FieldsParts(first: bytes)
    ensures 1 <= |Fields(first)| <= 3
    ensures |Fields(first)| >= 2 ==> SP !in Fields(first)[0] && SP !in Fields(first)[1]
    ensures |Fields(first)| == 2 ==> first == Fields(first)[0] + [SP] + Fields(first)[1]
    ensures |Fields(first)| == 3 ==> first == Fields(first)[0] + [SP] + Fields(first)[1] + [SP] + Fields(first)[2]
  {
    var i := Find(first, SP);
    CutAt(first, SP);
    if i < |first| {
      var a, rest := first[..i], first[i + 1..];
      CutAt(rest, SP);
      var j := Find(rest, SP);
      if j < |rest| {
        var b, c := rest[..j], rest[j + 1..];
        assert Fields(first) == [a, b, c];
        Join3(a, b, c);
      } else {
        assert Fields(first) == [a, rest];
      }
    }
  }

  lemma {:induction false} FindIsLen(s: bytes, b: byte)
    requires Find(s, b) == |s|
    ensures b !in s
  {
    FindFirst(s, b);
    assert s[..|s|] == s;
  }

  lemma {:induction false} FieldsOf3(a: bytes, b: bytes, c: bytes)
    requires SP !in a && SP !in b
    ensures Fields(a + [SP] + b + [SP] + c) == [a, b, c]
  {
    var first := a + [SP] + b + [SP] + c;
    var rest := b + [SP] + c;
    assert first == a + [SP] + rest;
    FindAt(a, SP, rest);
    FindAt(b, SP, c);
    assert first[..|a|] == a && first[|a| + 1..] == rest;
    assert rest[..|b|] == b && rest[|b| + 1..] == c;
  }

  lemma {:induction false} FieldsOf2(a: bytes, b: bytes)
    requires SP !in a && SP !in b
    ensures Fields(a + [SP] + b) == [a, b]
  {
    var first := a + [SP] + b;
    FindAt(a, SP, b);
    FindNone(b, SP);
    assert first[..|a|] == a && first[|a| + 1..] == b;
  }

  lemma {:induction false} TrimCRKeeps(s: bytes)
    requires s == [] || s[|s| - 1] != CR
    ensures TrimCR(s) == s
  {}

  /** A request survives being written and parsed exactly when it is a good request. */
  lemma {:induction false} RequestRoundTripIff(r: RequestHead)
    ensures ParseRequest(SerializeRequest(r)) == Ok(r) <==> GoodRequest(r)
  {
    if GoodRequest(r) {
      GoodRequestSurvives(r);
    }
    if ParseRequest(SerializeRequest(r)) == Ok(r) {
      SurvivingRequestIsGood(r);
    }
  }

  lemma {:induction false} GoodRequestSurvives(r: RequestHead)
    requires GoodRequest(r)
    ensures ParseRequest(SerializeRequest(r)) == Ok(r)
  {
    var first := RequestLine(r);
    assert first[|first| - 1] == r.proto[|r.proto| - 1];
    TrimCRKeeps(first);
    ParsedParts(first, r.headers);
    HeadersIff(r.headers);
    FieldsOf3(r.verb, r.target, r.proto);
  }

  /** What a parsed request line says about its parts. */
  lemma {:induction false} ParsedRequestLine(first: bytes, r: RequestHead)
    requires LF !in first && (first == [] || first[|first| - 1] != CR)
    requires Fields(first) == [r.verb, r.target, r.proto] && HTTP <= r.proto
    ensures first == RequestLine(r) && TrimCR(first) == first
    ensures SP !in r.verb && LF !in r.verb && SP !in r.target && LF !in r.target && GoodEnd(r.proto)
  {
    FieldsParts(first);
    var n := |r.verb|;
    assert first[..n] == r.verb;
    assert first[n + 1..n + 1 + |r.target|] == r.target;
    assert first[|first| - |r.proto|..] == r.proto;
    assert first[|first| - 1] == r.proto[|r.proto| - 1];
    TrimCRKeeps(first);
  }

  lemma {:induction false} SurvivingRequestIsGood(r: RequestHead)
    requires ParseRequest(SerializeRequest(r)) == Ok(r)
    ensures GoodRequest(r)
  {
    var raw := SerializeRequest(r);
    var (first, hs) := SplitHead(raw).value;
    SplitHeadNoNewline(raw);
    assert Fields(first) == [r.verb, r.target, r.proto];
    ParsedRequestLine(first, r);
    ParsedParts(first, hs);
    HeadersIff(hs);
  }

  /** A response survives being written and parsed exactly when it is a good response. */
  lemma {:induction false} ResponseRoundTripIff(r: ResponseHead)
    ensures ParseResponse(SerializeResponse(r)) == Ok(r) <==> GoodResponse(r)
  {
    if GoodResponse(r) {
      GoodResponseSurvives(r);
    }
    if ParseResponse(SerializeResponse(r)) == Ok(r) {
      SurvivingResponseIsGood(r);
    }
  }

  lemma {:induction false} StatusLineFields(proto: bytes, code: bytes, reason: bytes)
    requires SP !in proto && SP !in code && code != []
    requires code[|code| - 1] != CR && GoodEnd(reason)
    ensures var first := proto + [SP] + code + if reason != [] then [SP] + reason else [];
            TrimCR(first) == first && Fields(first) == if reason != [] then [proto, code, reason] else [proto, code]
  {
    if reason == [] {
      var first := proto + [SP] + code;
      assert first + [] == first;
      assert first[|first| - 1] == code[|code| - 1];
      FieldsOf2(proto, code);
      TrimCRKeeps(first);
    } else {
      var first := proto + [SP] + code + [SP] + reason;
      assert proto + [SP] + code + ([SP] + reason) == first;
      assert first[|first| - 1] == reason[|reason| - 1];
      FieldsOf3(proto, code, reason);
      TrimCRKeeps(first);
    }
  }

  lemma {:induction false} ItoaShape(n: int)
    ensures Itoa(n) != [] && SP !in Itoa(n) && LF !in Itoa(n) && Itoa(n)[|Itoa(n)| - 1] != CR
  {
    AtoiItoa(n);
  }

  lemma {:induction false} StatusLineHeaders(proto: bytes, code: bytes, reason: bytes, hs: seq<Header>)
    requires HTTP <= proto && LF !in proto && LF !in code && LF !in reason && NoNewline(hs)
    ensures var first := proto + [SP] + code + if reason != [] then [SP] + reason else [];
            SplitHead(Serialize(first, hs)) ==
            match AddLines(LinesOf(hs)) case Err => Err case Ok(r) => Ok((TrimCR(first), r))
  {
    var first := proto + [SP] + code + if reason != [] then [SP] + reason else [];
    assert first[0] == proto[0] == HTTP[0];
    TrimRightCuts(first, {CR});
    assert TrimCR(first) != [];
    ParsedParts(first, hs);
  }

  lemma {:induction false} ParsedResponse(raw: bytes, first: bytes, code: bytes, r: ResponseHead)
    requires SplitHead(raw) == Ok((first, r.headers))
    requires Fields(first) == if r.reason != [] then [r.proto, code, r.reason] else [r.proto, code]
    requires HTTP <= r.proto && Atoi(code) == Some(r.status) && 100 <= r.status <= 999
    ensures ParseResponse(raw) == Ok(r)
  {}

  lemma {:induction false} GoodResponseSurvives(r: ResponseHead)
    requires GoodResponse(r)
    ensures ParseResponse(SerializeResponse(r)) == Ok(r)
  {
    var code := Itoa(r.status);
    ItoaShape(r.status);
    StatusLineFields(r.proto, code, r.reason);
    HeadersIff(r.headers);
    StatusLineHeaders(r.proto, code, r.reason, r.headers);
    AtoiItoa(r.status);
    ParsedResponse(SerializeResponse(r), StatusLine(r), code, r);
  }

  lemma {:induction false} SurvivingResponseIsGood(r: ResponseHead)
    requires ParseResponse(SerializeResponse(r)) == Ok(r)
    ensures GoodResponse(r)
  {
    var raw := SerializeResponse(r);
    var (first, hs) := SplitHead(raw).value;
    SplitHeadNoNewline(raw);
    ParsedReason(first, r);
    ItoaShape(r.status);
    StatusLineHeaders(r.proto, Itoa(r.status), r.reason, hs);
    HeadersIff(hs);
  }

  /** What a parsed status line says about its parts. */
  lemma {:induction false} ParsedReason(first: bytes, r: ResponseHead)
    requires LF !in first && (first == [] || first[|first| - 1] != CR)
    requires var parts := Fields(first);
             |parts| >= 2 && parts[0] == r.proto && r.reason == if |parts| == 3 then parts[2] else []
    ensures SP !in r.proto && LF !in r.proto && GoodEnd(r.reason)
  {
    FieldsParts(first);
    var parts := Fields(first);
    assert first[..|r.proto|] == r.proto;
    if |parts| == 3 && r.reason != [] {
      assert first[|first| - |r.reason|..] == r.reason;
      assert first[|first| - 1] == r.reason[|r.reason| - 1];
    }
  }

  // ---------------------------------------------------------------- every text

  predicate Spaced(l: bytes) {
    l != [] && (l[0] == 0x20 || l[0] == 0x09)
  }

  /** Some line before line `n` is not blank. */
  predicate Begun(lines: seq<bytes>, n: int) {
    exists j :: 0 <= j < n && j < |lines| && TrimCR(lines[j]) != []
  }

  /** A line that is neither blank, nor a continuation of a header before it, nor a name and a colon. */
  predicate BadLine(lines: seq<bytes>, i: int) {
    0 <= i < |lines| && BadText(TrimCR(lines[i]), Begun(lines, i))
  }

  predicate BadText(l: bytes, begun: bool) {
    l != [] && (0x3A !in l || l[0] == 0x3A) && !(Spaced(l) && begun)
  }

  lemma {:induction false} NoHeaderIff(l: bytes)
    ensures Classify(l).header == None <==> l == [] || 0x3A !in l || l[0] == 0x3A
    ensures Classify(l).blank == (l == []) && Classify(l).spaced == Spaced(l)
  {
    if l != [] {
      if COLON in l {
        FindFirst(l, COLON);
        if Find(l, COLON) == |l| {
          FindIsLen(l, COLON);
        }
      } else {
        FindNone(l, COLON);
      }
    }
  }

  lemma {:induction false} BadTextIff(hs: seq<Header>, l: bytes)
    ensures AddClass(hs, Classify(l)).Err? <==> BadText(l, hs != [])
    ensures AddClass(hs, Classify(l)).Ok? ==> (AddClass(hs, Classify(l)).value != [] <==> hs != [] || l != [])
  {
    NoHeaderIff(l);
  }

  lemma {:induction false} BegunNext(lines: seq<bytes>, n: nat)
    requires n < |lines|
    ensures Begun(lines, n + 1) <==> Begun(lines, n) || TrimCR(lines[n]) != []
  {
    if Begun(lines, n) {
      var j :| 0 <= j < n && TrimCR(lines[j]) != [];
      assert 0 <= j < n + 1;
    }
  }

  ghost predicate BadFrom(lines: seq<bytes>, n: int) {
    exists i :: n <= i < |lines| && BadLine(lines, i)
  }

  lemma {:induction false} BadFromNext(lines: seq<bytes>, n: nat)
    requires n < |lines|
    ensures BadFrom(lines, n) <==> BadLine(lines, n) || BadFrom(lines, n + 1)
  {}

  lemma {:induction false} BadFromIff(hs: seq<Header>, lines: seq<bytes>, n: nat)
    requires n <= |lines| && (hs != [] <==> Begun(lines, n))
    ensures AddClasses(hs, Classes(lines)[n..]).Err? <==> BadFrom(lines, n)
    decreases |lines| - n
  {
    if n < |lines| {
      var l := TrimCR(lines[n]);
      var cs := Classes(lines)[n..];
      assert cs[0] == Classify(l) && cs[1..] == Classes(lines)[n + 1..];
      BadTextIff(hs, l);
      BegunNext(lines, n);
      BadFromNext(lines, n);
      var r := AddClass(hs, Classify(l));
      if r.Ok? {
        BadFromIff(r.value, lines, n + 1);
      }
    }
  }

  /** A head is malformed exactly if one of its header lines is bad. */
  lemma {:induction false} MalformedIff(raw: bytes)
    ensures var lines := Split(HeadText(raw), LF);
            SplitHead(raw).Err? <==> exists i :: 0 <= i < |lines| - 1 && BadLine(lines[1..], i)
  {
    var lines := Split(HeadText(raw), LF);
    var more := lines[1..];
    BadFromIff([], more, 0);
    assert Classes(more)[0..] == Classes(more);
    assert AddLines(more).Err? <==> BadFrom(more, 0);
    assert SplitHead(raw).Err? <==> AddLines(more).Err?;
    assert |more| == |lines| - 1;
  }

  /** A request is accepted exactly with these three fields in its first line. */
  lemma {:induction false} RequestParsesIff(raw: bytes, r: RequestHead)
    ensures ParseRequest(raw) == Ok(r) <==>
            && SplitHead(raw) == Ok((r.verb + [0x20] + r.target + [0x20] + r.proto, r.headers))
            && 0x20 !in r.verb && 0x20 !in r.target && [0x48, 0x54, 0x54, 0x50, 0x2F] <= r.proto
  {
    if 0x20 !in r.verb && 0x20 !in r.target {
      FieldsOf3(r.verb, r.target, r.proto);
    }
    if ParseRequest(raw) == Ok(r) {
      FieldsParts(SplitHead(raw).value.0);
    }
  }

  /** The status line of a response: two or three fields, the second a status code. */
  predicate StatusFields(first: bytes, r: ResponseHead, code: bytes, tail: bytes) {
    && first == r.proto + [0x20] + code + tail && 0x20 !in r.proto && 0x20 !in code
    && ((tail == [] && r.reason == []) || tail == [0x20] + r.reason)
    && [0x48, 0x54, 0x54, 0x50, 0x2F] <= r.proto && Atoi(code) == Some(r.status) && 100 <= r.status <= 999
  }

  lemma {:induction false} StatusRead(first: bytes, r: ResponseHead, code: bytes, tail: bytes)
    requires StatusFields(first, r, code, tail)
    ensures Fields(first) == if tail == [] then [r.proto, code] else [r.proto, code, r.reason]
  {
    if tail == [] {
      assert first == r.proto + [SP] + code;
      FieldsOf2(r.proto, code);
    } else {
      Assoc(r.proto + [SP] + code, [SP], r.reason);
      FieldsOf3(r.proto, code, r.reason);
    }
  }

  /** A response is accepted exactly with such a status line. */
  lemma {:induction false} ResponseParsesIff(raw: bytes, r: ResponseHead)
    ensures ParseResponse(raw) == Ok(r) <==>
            && SplitHead(raw).Ok? && SplitHead(raw).value.1 == r.headers
            && exists code, tail :: StatusFields(SplitHead(raw).value.0, r, code, tail)
  {
    if SplitHead(raw).Ok? {
      var first := SplitHead(raw).value.0;
      forall code, tail | StatusFields(first, r, code, tail) && SplitHead(raw).value.1 == r.headers
        ensures ParseResponse(raw) == Ok(r)
      {
        StatusRead(first, r, code, tail);
      }
      if ParseResponse(raw) == Ok(r) {
        StatusParts(first, r);
      }
    }
  }

  lemma {:induction false} StatusParts(first: bytes, r: ResponseHead)
    requires var parts := Fields(first);
             && |parts| >= 2 && HTTP <= parts[0] && parts[0] == r.proto && Atoi(parts[1]) == Some(r.status)
             && 100 <= r.status <= 999 && r.reason == if |parts| == 3 then parts[2] else []
    ensures exists code, tail :: StatusFields(first, r, code, tail)
  {
    FieldsParts(first);
    var parts := Fields(first);
    var tail: bytes := if |parts| == 3 then [SP] + parts[2] else [];
    if |parts| == 3 {
      Assoc(parts[0] + [SP] + parts[1], [SP], parts[2]);
    } else {
      Empty(first);
    }
    assert StatusFields(first, r, parts[1], tail);
  }

  // ---------------------------------------------------------------- folded headers

  lemma {:induction false} JoinedTrimmed(v: bytes, t: bytes)
    requires v != [] && t != [] && Trimmed(v) && Trimmed(t)
    ensures Trimmed(v + [SP] + t)
  {
    var s := v + [SP] + t;
    assert s[0] == v[0] && (|v| > 1 ==> s[1] == v[1]) && (|v| > 2 ==> s[2] == v[2]) && s[|v|] == SP;
    var n, m := |s|, |t|;
    assert s[n - 1] == t[m - 1] && (m > 1 ==> s[n - 2] == t[m - 2]) && (m > 2 ==> s[n - 3] == t[m - 3]);
    assert s[n - m - 1] == SP;
  }

  lemma {:induction false} TrimmedEndsWell(v: bytes, x: bytes)
    requires v != [] && Trimmed(v)
    ensures TrimCR(x + v) == x + v
  {
    assert (x + v)[|x + v| - 1] == v[|v| - 1];
  }

  /** A header line that is no continuation makes its header. */
  lemma {:induction false} PlainLine(h: Header)
    requires h.name != [] && COLON !in h.name && !Spaced(h.name) && h.value != [] && Trimmed(h.value)
    ensures var c := Classify(TrimCR(HeaderLine(h))); !c.blank && !c.spaced && c.header == Some(h)
  {
    var l := HeaderLine(h);
    TrimmedEndsWell(h.value, h.name + [COLON, SP]);
    assert l == h.name + [COLON] + ([SP] + h.value);
    FindAt(h.name, COLON, [SP] + h.value);
    assert l[..|h.name|] == h.name && l[|h.name| + 1..] == [SP] + h.value && l[0] == h.name[0];
    TrimSpaceIdempotent(h.value);
  }

  lemma {:induction false} SpacedLine(space: byte, t: bytes)
    requires (space == 0x20 || space == 0x09) && t != [] && Trimmed(t)
    ensures var c := Classify(TrimCR([space] + t)); !c.blank && c.spaced && c.text == t
  {
    TrimmedEndsWell(t, [space]);
    assert ([space] + t)[1..] == t;
    TrimSpaceIdempotent(t);
  }

  lemma {:induction false} ClassesOf(x: seq<bytes>, y: seq<bytes>)
    ensures Classes(x + y) == Classes(x) + Classes(y)
  {}

  lemma {:induction false} AddBoth(hs: seq<Header>, x: seq<LineClass>, y: seq<LineClass>)
    ensures AddClasses(hs, x + y)
         == match AddClasses(hs, x) case Err => Err case Ok(more) => AddClasses(more, y)
    decreases |x|
  {
    if x == [] {
      assert x + y == y;
    } else {
      assert (x + y)[0] == x[0] && (x + y)[1..] == x[1..] + y;
      var r := AddClass(hs, x[0]);
      if r.Ok? {
        AddBoth(r.value, x[1..], y);
      }
    }
  }

  lemma {:induction false} AddedTwo(hs: seq<Header>, a: LineClass, b: LineClass)
    ensures AddClasses(hs, [a]) == AddClass(hs, a)
    ensures AddClasses(hs, [a, b]) == match AddClass(hs, a) case Err => Err case Ok(more) => AddClass(more, b)
  {
    assert [a][1..] == [] && [a, b][1..] == [b] && [b][1..] == [];
    var r := AddClass(hs, a);
    if r.Ok? {
      assert AddClasses(r.value, [b]) == AddClass(r.value, b);
    }
  }

  /** A header whose value goes on in a spaced line is the header with both parts on one line (obs-fold). */
  lemma {:induction false} FoldIsOneLine(before: seq<bytes>, h: Header, space: byte, t: bytes, after: seq<bytes>)
    requires h.name != [] && COLON !in h.name && !Spaced(h.name) && h.value != [] && Trimmed(h.value)
    requires (space == 0x20 || space == 0x09) && t != [] && Trimmed(t)
    ensures AddLines(before + [HeaderLine(h), [space] + t] + after)
         == AddLines(before + [HeaderLine(h.(value := h.value + [0x20] + t))] + after)
  {
    var joined := h.(value := h.value + [SP] + t);
    var two, one := [HeaderLine(h), [space] + t], [HeaderLine(joined)];
    JoinedTrimmed(h.value, t);
    PlainLine(h);
    PlainLine(joined);
    SpacedLine(space, t);
    FoldedClasses(Classes(before), Classes(two), Classes(one), Classes(after), h, t);
    ClassesOf(before + two, after);
    ClassesOf(before, two);
    ClassesOf(before + one, after);
    ClassesOf(before, one);
  }

  lemma {:induction false} FoldedClasses(
      before: seq<LineClass>, two: seq<LineClass>, one: seq<LineClass>, after: seq<LineClass>, h: Header, t: bytes)
    requires |two| == 2 && |one| == 1
    requires !two[0].blank && !two[0].spaced && two[0].header == Some(h)
    requires !two[1].blank && two[1].spaced && two[1].text == t
    requires !one[0].blank && !one[0].spaced && one[0].header == Some(h.(value := h.value + [SP] + t))
    ensures AddClasses([], before + two + after) == AddClasses([], before + one + after)
  {
    AddBoth([], before + two, after);
    AddBoth([], before, two);
    AddBoth([], before + one, after);
    AddBoth([], before, one);
    var r := AddClasses([], before);
    if r.Ok? {
      assert two == [two[0], two[1]] && one == [one[0]];
      AddedTwo(r.value, two[0], two[1]);
      AddedTwo(r.value, one[0], one[0]);
      LastChanged(r.value, h, h.(value := h.value + [SP] + t));
    }
  }

  lemma {:induction false} LastChanged(hs: seq<Header>, a: Header, b: Header)
    ensures (hs + [a])[..|hs + [a]| - 1] + [b] == hs + [b]
  {}

  // ---------------------------------------------------------------- over the wire

  /** The lines of a serialized head with their line ends, the closing blank line aside. */
  function WireLines(first: bytes, hs: seq<Header>): seq<bytes>
    decreases |hs|
  {
    [first + CRLF] + if hs == [] then [] else WireLines(HeaderLine(hs[0]), hs[1..])
  }

  lemma {:induction false} WireText(first: bytes, hs: seq<Header>)
    ensures Serialize(first, hs) == Concat(WireLines(first, hs)) + CRLF
    decreases |hs|
  {
    if hs == [] {
      assert WireLines(first, hs) == [first + CRLF];
      assert Concat(WireLines(first, hs)) == first + CRLF;
    } else {
      var line := HeaderLine(hs[0]);
      WireText(line, hs[1..]);
      assert WireLines(first, hs)[1..] == WireLines(line, hs[1..]);
      assert Serialize(first, hs) == first + CRLF + Serialize(line, hs[1..]);
    }
  }

  lemma {:induction false} WireLine(x: bytes)
    requires x != [] && LF !in x
    ensures IsLine(x + CRLF) && !IsBlank(x + CRLF)
  {
    var l := x + CRLF;
    assert l[..|l| - 1] == x + [CR];
  }

  lemma {:induction false} WireLinesAreLines(first: bytes, hs: seq<Header>)
    requires first != [] && LF !in first && NoNewline(hs)
    ensures HttpHead.HeadLines(WireLines(first, hs))
    decreases |hs|
  {
    WireLine(first);
    if hs != [] {
      WireLinesAreLines(HeaderLine(hs[0]), hs[1..]);
    }
  }

  /**
   * A serialized head without stray newlines, followed by anything, is read back exactly if and only if it is at
   * most 64 KiB and no line longer than the reader's buffer leaves a last piece that looks blank.
   */
  lemma {:induction false} ReadSerializedIff(first: bytes, hs: seq<Header>, rest: bytes, size: nat)
    requires size >= MIN_SIZE && first != [] && LF !in first && NoNewline(hs)
    ensures var text := Serialize(first, hs);
            HttpHead.ReadFrom([], text + rest, size) == HttpHead.Got(text, rest)
            <==> |text| <= 0x1_0000 && !HttpHead.StopsEarly(WireLines(first, hs), size)
  {
    WireText(first, hs);
    WireLinesAreLines(first, hs);
    HttpHead.ReadBackIff(WireLines(first, hs), rest, size);
  }

  /** Written, sent ahead of anything else, read and parsed: a good request that fits arrives unchanged. */
  lemma {:induction false} RequestArrives(r: RequestHead, rest: bytes, size: nat)
    requires size >= MIN_SIZE && GoodRequest(r)
    requires |SerializeRequest(r)| <= HttpHead.MAX_HEAD_BYTES
             && !HttpHead.StopsEarly(WireLines(RequestLine(r), r.headers), size)
    ensures var got := HttpHead.ReadFrom([], SerializeRequest(r) + rest, size);
            got.Got? && got.rest == rest && ParseRequest(got.head) == Ok(r)
  {
    ReadSerializedIff(RequestLine(r), r.headers, rest, size);
    GoodRequestSurvives(r);
  }

  lemma {:induction false} ResponseArrives(r: ResponseHead, rest: bytes, size: nat)
    requires size >= MIN_SIZE && GoodResponse(r)
    requires |SerializeResponse(r)| <= HttpHead.MAX_HEAD_BYTES
             && !HttpHead.StopsEarly(WireLines(StatusLine(r), r.headers), size)
    ensures var got := HttpHead.ReadFrom([], SerializeResponse(r) + rest, size);
            got.Got? && got.rest == rest && ParseResponse(got.head) == Ok(r)
  {
    ItoaShape(r.status);
    ReadSerializedIff(StatusLine(r), r.headers, rest, size);
    GoodResponseSurvives(r);
  }
}
