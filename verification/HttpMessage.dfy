/**
 * Whole HTTP/1.x messages: how a stream of them is taken apart again into exactly the messages that were put into it
 * (section 6 of RFC 9112).
 */
module HttpMessage {
  import opened Bytes
  import opened Text
  import opened BufReader
  import opened HttpParse
  import opened HttpBody
  import opened HttpFraming
  import HttpHead

  // ---------------------------------------------------------------- one message after the other

  /** A request as it was read: its head, the bytes of head and body as forwarded, and the payload. */
  datatype Message = Message(head: RequestHead, wire: bytes, payload: bytes)

  datatype Next = Took(m: Message, rest: bytes) | Stopped

  /** The next request of a stream. */
  function NextMessage(src: bytes, size: nat, cut: bool): Next
    requires size >= MIN_SIZE
  {
    match HttpHead.ReadFrom([], src, size)
    case Bad(_) => Stopped
    case Got(text, rest) =>
      match ParseRequest(text)
      case Err => Stopped
      case Ok(r) =>
        match RequestFraming(r)
        case Err => Stopped
        case Ok(kind) =>
          var c := CopiedBody(kind, rest, size, cut);
          if c.ok then Took(Message(r, text + c.raw, c.data), c.rest) else Stopped
  }

  lemma {:induction false} HeadConsumes(buf: bytes, src: bytes, size: nat)
    requires size >= MIN_SIZE
    ensures var r := HttpHead.ReadFrom(buf, src, size); r.Got? ==> |r.rest| < |src|
    decreases |src|
  {
    var s := NextSlice(src, size);
    if !s.End? {
      var rest := src[|s.text|..];
      HeadConsumes(buf, rest, size);
      HeadConsumes(buf + s.text, rest, size);
    }
  }

  lemma {:induction false} BodyLeaves(kind: Framing, src: bytes, size: nat, cut: bool)
    requires size >= MIN_SIZE
    ensures var c := CopiedBody(kind, src, size, cut); c.ok ==> |c.rest| <= |src|
  {
    if kind.Chunked? {
      ChunksConserve(src, size);
    }
  }

  lemma {:induction false} MessageConsumes(src: bytes, size: nat, cut: bool)
    requires size >= MIN_SIZE
    ensures var n := NextMessage(src, size, cut); n.Took? ==> |n.rest| < |src|
  {
    HeadConsumes([], src, size);
    var got := HttpHead.ReadFrom([], src, size);
    if got.Got? && ParseRequest(got.head).Ok? && RequestFraming(ParseRequest(got.head).value).Ok? {
      BodyLeaves(RequestFraming(ParseRequest(got.head).value).value, got.rest, size, cut);
    }
  }

  /** All the requests of a stream, up to the first that cannot be forwarded. */
  function Messages(src: bytes, size: nat, cut: bool): seq<Message>
    requires size >= MIN_SIZE
    decreases |src|
  {
    match NextMessage(src, size, cut)
    case Stopped => []
    case Took(m, rest) =>
      MessageConsumes(src, size, cut);
      [m] + Messages(rest, size, cut)
  }

  lemma {:induction false} MessagesStep(src: bytes, m: Message, rest: bytes, size: nat, cut: bool)
    requires size >= MIN_SIZE && NextMessage(src, size, cut) == Took(m, rest)
    ensures |rest| < |src| && Messages(src, size, cut) == [m] + Messages(rest, size, cut)
  {
    MessageConsumes(src, size, cut);
  }

  function WireOf(ms: seq<Message>): bytes {
    if ms == [] then [] else ms[0].wire + WireOf(ms[1..])
  }

  function PayloadOf(ms: seq<Message>): bytes {
    if ms == [] then [] else ms[0].payload + PayloadOf(ms[1..])
  }

  /** The bytes from which the beginning of a next request may come: none if not even its head can be read. */
  function Beyond(src: bytes, size: nat): bytes
    requires size >= MIN_SIZE
  {
    match HttpHead.ReadFrom([], src, size)
    case Bad(_) => []
    case Got(text, rest) => text + rest
  }

  /** The stream behind its first `k` requests. */
  function After(src: bytes, size: nat, cut: bool, k: nat): bytes
    requires size >= MIN_SIZE
    decreases k
  {
    if k == 0 then src else Left(After(src, size, cut, k - 1), size, cut)
  }

  function Left(src: bytes, size: nat, cut: bool): bytes
    requires size >= MIN_SIZE
  {
    match NextMessage(src, size, cut)
    case Stopped => src
    case Took(_, rest) => rest
  }

  /**
   * Forwards the next request; None when there is none to forward or a write failed. Then at most a beginning of what
   * could be read has been written.
   */
  method ForwardNext(br: Reader, w: Writers) returns (head: Option<RequestHead>)
    requires br.Valid() && w.Valid() && !w.failed
    modifies br, w
    ensures br.Valid() && w.Valid() && (w.failed ==> head == None)
    ensures !w.failed ==> (head.Some? <==> NextMessage(old(br.rest), br.size, br.cut).Took?)
    ensures head.Some? ==> Forwarded(br, w, head.value)
    ensures old(w.raw) <= w.raw && (!w.failed ==> old(w.data) <= w.data)
    ensures head == None ==> w.raw <= old(w.raw) + Beyond(old(br.rest), br.size)
  {
    var got := HttpHead.ReadHead(br);
    if got.Bad? {
      return None;
    }
    var parsed := Parsed(got.head);
    if parsed.Err? {
      return None;
    }
    var kind := ChooseRequestFraming(parsed.value);
    if kind.Err? {
      return None;
    }
    var ok := ForwardFramed(br, w, got.head, kind.value);
    head := if ok then Some(parsed.value) else None;
  }

  /** Writes a head as it was read and copies the body behind it. */
  method ForwardFramed(br: Reader, w: Writers, text: bytes, kind: Framing) returns (ok: bool)
    requires br.Valid() && w.Valid() && !w.failed
    modifies br, w
    ensures br.Valid() && w.Valid() && (w.failed ==> !ok)
    ensures old(w.raw) <= w.raw && w.raw <= old(w.raw) + (text + old(br.rest))
    ensures var c := CopiedBody(kind, old(br.rest), br.size, br.cut);
            !w.failed ==> Did(br, w, ok, Copied(c.ok, text + c.raw, c.data, c.rest))
  {
    ghost var rest, raw := br.rest, w.raw;
    ok := w.WriteRaw(text);
    if !ok {
      PrefixOfWhole(raw, text, rest, w.raw);
      return;
    }
    Assoc(raw, text, rest);
    Assoc(raw, text, CopiedBody(kind, rest, br.size, br.cut).raw);
    ok := CopyBody(br, w, kind);
  }

  /** The first `k` requests of the stream have been written out, and then at most the beginning of one more. */
  ghost predicate WrittenOut(src: bytes, size: nat, cut: bool, before: bytes, after: bytes, k: nat)
    requires size >= MIN_SIZE
  {
    var ms := Messages(src, size, cut);
    && k <= |ms| && before + WireOf(ms[..k]) <= after
    && after <= before + WireOf(ms[..k]) + Beyond(After(src, size, cut, k), size)
  }

  /**
   * Forwards request after request: all that the stream holds, or those before a failed write. They have been written
   * out in order, and after them at most the beginning of one that could not be finished.
   */
  method ForwardAll(br: Reader, w: Writers) returns (heads: seq<RequestHead>)
    requires br.Valid() && w.Valid() && !w.failed
    modifies br, w
    ensures br.Valid() && w.Valid()
    ensures var ms := Messages(old(br.rest), br.size, br.cut);
            && |heads| <= |ms| && heads == HeadsOf(ms[..|heads|])
            && (!w.failed ==> |heads| == |ms| && old(w.data) + PayloadOf(ms) <= w.data)
    ensures WrittenOut(old(br.rest), br.size, br.cut, old(w.raw), w.raw, |heads|)
  {
    heads := [];
    ghost var done: seq<Message> := [];
    ghost var src, raw, data := br.rest, w.raw, w.data;
    Empty(raw);
    Empty(data);
    assert [] + Messages(src, br.size, br.cut) == Messages(src, br.size, br.cut);
    while true
      invariant br.Valid() && w.Valid() && !w.failed && heads == HeadsOf(done)
      invariant TakenSoFar(src, br.size, br.cut, done, br.rest)
      invariant w.raw == raw + WireOf(done) && w.data == data + PayloadOf(done)
      decreases |br.rest|
    {
      ghost var before := br.rest;
      var head := ForwardNext(br, w);
      if head == None {
        Finished(src, br.size, br.cut, done, before, raw, w.raw);
        assert !w.failed ==> NextMessage(before, br.size, br.cut).Stopped?;
        return;
      }
      ghost var m := NextMessage(before, br.size, br.cut).m;
      TakesOneMore(src, br.size, br.cut, done, before, m, br.rest);
      Assoc(raw, WireOf(done), m.wire);
      Assoc(data, PayloadOf(done), m.payload);
      done := done + [m];
      heads := heads + [head.value];
    }
  }

  /** The requests of the stream are those `done` and those still in `rest`. */
  ghost predicate TakenSoFar(src: bytes, size: nat, cut: bool, done: seq<Message>, rest: bytes)
    requires size >= MIN_SIZE
  {
    Messages(src, size, cut) == done + Messages(rest, size, cut) && rest == After(src, size, cut, |done|)
  }

  lemma {:induction false} TakesOneMore(
      src: bytes, size: nat, cut: bool, done: seq<Message>, before: bytes, m: Message, rest: bytes)
    requires size >= MIN_SIZE && TakenSoFar(src, size, cut, done, before)
    requires NextMessage(before, size, cut) == Took(m, rest)
    ensures TakenSoFar(src, size, cut, done + [m], rest) && |rest| < |before|
    ensures WireOf(done + [m]) == WireOf(done) + m.wire && PayloadOf(done + [m]) == PayloadOf(done) + m.payload
    ensures HeadsOf(done + [m]) == HeadsOf(done) + [m.head]
  {
    MessagesStep(before, m, rest, size, cut);
    OneMoreMessage(done, m, Messages(rest, size, cut));
    assert After(src, size, cut, |done| + 1) == Left(before, size, cut);
  }

  lemma {:induction false} Finished(
      src: bytes, size: nat, cut: bool, done: seq<Message>, rest: bytes, before: bytes, after: bytes)
    requires size >= MIN_SIZE && TakenSoFar(src, size, cut, done, rest)
    requires before + WireOf(done) <= after && after <= before + WireOf(done) + Beyond(rest, size)
    ensures WrittenOut(src, size, cut, before, after, |done|)
    ensures var ms := Messages(src, size, cut); |HeadsOf(done)| == |done| <= |ms| && ms[..|done|] == done
    ensures NextMessage(rest, size, cut).Stopped? ==> Messages(src, size, cut) == done
  {
    FirstOf(done, Messages(rest, size, cut));
  }

  lemma {:induction false} FirstOf(done: seq<Message>, more: seq<Message>)
    ensures (done + more)[..|done|] == done && done + [] == done && |HeadsOf(done)| == |done|
  {
    HeadsCount(done);
  }

  lemma {:induction false} HeadsCount(ms: seq<Message>)
    ensures |HeadsOf(ms)| == |ms|
    decreases |ms|
  {
    if ms != [] {
      HeadsCount(ms[1..]);
    }
  }

  lemma {:induction false} OneMoreMessage(ms: seq<Message>, m: Message, more: seq<Message>)
    ensures ms + ([m] + more) == ms + [m] + more
    ensures WireOf(ms + [m]) == WireOf(ms) + m.wire && PayloadOf(ms + [m]) == PayloadOf(ms) + m.payload
    ensures HeadsOf(ms + [m]) == HeadsOf(ms) + [m.head]
    decreases |ms|
  {
    if ms == [] {
      assert ms + [m] == [m] && [m][1..] == [];
      Empty(m.wire);
      Empty(m.payload);
    } else {
      assert (ms + [m])[1..] == ms[1..] + [m];
      OneMoreMessage(ms[1..], m, more);
      Assoc(ms[0].wire, WireOf(ms[1..]), m.wire);
      Assoc(ms[0].payload, PayloadOf(ms[1..]), m.payload);
    }
  }

  function HeadsOf(ms: seq<Message>): seq<RequestHead> {
    if ms == [] then [] else [ms[0].head] + HeadsOf(ms[1..])
  }

  /** The next request of the stream has been taken from it and written out. */
  twostate predicate Forwarded(br: Reader, w: Writers, head: RequestHead)
    requires br.size >= MIN_SIZE
    reads br, w
  {
    var n := NextMessage(old(br.rest), br.size, br.cut);
    && n.Took? && n.m.head == head && br.rest == n.rest
    && w.raw == old(w.raw) + n.m.wire && w.data == old(w.data) + n.m.payload
  }

  method Parsed(raw: bytes) returns (r: Result<RequestHead>)
    ensures r == ParseRequest(raw)
  {
    var split := SplitHeadLines(raw);
    if split.Err? {
      return Err;
    }
    var (first, hs) := split.value;
    var parts := Fields(first);
    if |parts| != 3 || !(HTTP <= parts[2]) {
      return Err;
    }
    r := Ok(RequestHead(parts[0], parts[1], parts[2], hs));
  }

  // ---------------------------------------------------------------- good messages

  /** A good head that fits, and a body of the framing that the texts of its fields announce. */
  ghost predicate GoodMessage(m: Message, size: nat)
    requires size >= MIN_SIZE
  {
    && GoodRequest(m.head)
    && |SerializeRequest(m.head)| <= HttpHead.MAX_HEAD_BYTES
    && !HttpHead.StopsEarly(WireLines(RequestLine(m.head), m.head.headers), size)
    && exists kind :: RequestSays(m.head.headers, kind) && Carries(m, kind, size)
  }

  /** Head and then a body of that framing. */
  ghost predicate Carries(m: Message, kind: Framing, size: nat) {
    match kind
    case NoBody => m.wire == SerializeRequest(m.head) && m.payload == []
    case Length(n) => m.wire == SerializeRequest(m.head) + m.payload && |m.payload| == n
    case UntilClose => false
    case Chunked => exists b :: HasBody(m, b, size)
  }

  ghost predicate HasBody(m: Message, b: Body, size: nat) {
    GoodBody(b, size) && m.wire == SerializeRequest(m.head) + BodyText(b) && m.payload == Payload(b.chunks)
  }

  ghost predicate GoodMessages(ms: seq<Message>, size: nat)
    requires size >= MIN_SIZE
  {
    forall i :: 0 <= i < |ms| ==> GoodMessage(ms[i], size)
  }

  /** The body that follows a good head, and what copying it does. */
  lemma {:induction false} GoodBodyOf(m: Message, rest: bytes, size: nat, cut: bool) returns (body: bytes)
    requires size >= MIN_SIZE && GoodMessage(m, size)
    ensures m.wire == SerializeRequest(m.head) + body && RequestFraming(m.head).Ok?
    ensures CopiedBody(RequestFraming(m.head).value, body + rest, size, cut) == Copied(true, body, m.payload, rest)
  {
    var kind :| RequestSays(m.head.headers, kind) && Carries(m, kind, size);
    RequestFramingIff(m.head, kind);
    match kind {
      case NoBody =>
        body := [];
        Empty(m.wire);
        Empty(rest);
      case Length(n) =>
        body := m.payload;
        assert (body + rest)[..n] == body && (body + rest)[n..] == rest;
      case Chunked =>
        var b :| HasBody(m, b, size);
        body := BodyText(b);
        GoodBodyCopied(b, rest, size);
    }
  }

  /** A good message followed by anything is taken off the stream exactly. */
  lemma {:induction false} GoodMessageTaken(m: Message, rest: bytes, size: nat, cut: bool)
    requires size >= MIN_SIZE && GoodMessage(m, size)
    ensures NextMessage(m.wire + rest, size, cut) == Took(m, rest)
  {
    var body := GoodBodyOf(m, rest, size, cut);
    var text := SerializeRequest(m.head);
    Assoc(text, body, rest);
    ReadSerializedIff(RequestLine(m.head), m.head.headers, body + rest, size);
    GoodRequestSurvives(m.head);
  }

  /**
   * A stream that starts with good messages is taken apart at exactly their boundaries, however many there are and
   * whatever follows them.
   */
  lemma {:induction false} TakenApart(ms: seq<Message>, rest: bytes, size: nat, cut: bool)
    requires size >= MIN_SIZE && GoodMessages(ms, size)
    ensures Messages(WireOf(ms) + rest, size, cut) == ms + Messages(rest, size, cut)
    decreases |ms|
  {
    if ms == [] {
      Empty(rest);
      assert [] + Messages(rest, size, cut) == Messages(rest, size, cut);
    } else {
      var more := WireOf(ms[1..]) + rest;
      Assoc(ms[0].wire, WireOf(ms[1..]), rest);
      GoodMessageTaken(ms[0], more, size, cut);
      MessagesStep(WireOf(ms) + rest, ms[0], more, size, cut);
      TakenApart(ms[1..], rest, size, cut);
      FirstThenRest(ms, Messages(rest, size, cut));
    }
  }

  lemma {:induction false} FirstThenRest(ms: seq<Message>, more: seq<Message>)
    requires ms != []
    ensures [ms[0]] + (ms[1..] + more) == ms + more
  {}

  /** The framing is unambiguous: no stream of good messages is another one. */
  lemma {:induction false} Unambiguous(ms: seq<Message>, ns: seq<Message>, size: nat)
    requires size >= MIN_SIZE && GoodMessages(ms, size) && GoodMessages(ns, size)
    requires WireOf(ms) == WireOf(ns)
    ensures ms == ns
  {
    Empty(WireOf(ms));
    Empty(WireOf(ns));
    TakenApart(ms, [], size, false);
    TakenApart(ns, [], size, false);
    NothingLeft(size);
    assert ms + [] == ms && ns + [] == ns;
  }

  lemma {:induction false} NothingLeft(size: nat)
    requires size >= MIN_SIZE
    ensures Messages([], size, false) == []
  {
    assert NextSlice([], size).End?;
  }

  // ---------------------------------------------------------------- responses

  datatype Answer = Answer(head: ResponseHead, wire: bytes, payload: bytes)

  datatype NextAnswer = Answered(a: Answer, rest: bytes) | Unanswered

  /** The response to a request with that method. */
  function NextResponse(verb: bytes, src: bytes, size: nat, cut: bool): NextAnswer
    requires size >= MIN_SIZE
  {
    match HttpHead.ReadFrom([], src, size)
    case Bad(_) => Unanswered
    case Got(text, rest) =>
      match ParseResponse(text)
      case Err => Unanswered
      case Ok(r) =>
        match ResponseFraming(verb, r)
        case Err => Unanswered
        case Ok(kind) =>
          var c := CopiedBody(kind, rest, size, cut);
          if c.ok then Answered(Answer(r, text + c.raw, c.data), c.rest) else Unanswered
  }

  /** A good head that fits, and that says that the framing of its body is `kind`. */
  ghost predicate GoodAnswerHead(verb: bytes, r: ResponseHead, kind: Framing, size: nat)
    requires size >= MIN_SIZE
  {
    && GoodResponse(r)
    && |SerializeResponse(r)| <= HttpHead.MAX_HEAD_BYTES
    && !HttpHead.StopsEarly(WireLines(StatusLine(r), r.headers), size)
    && ResponseSays(verb, r, kind)
  }

  /** What follows a good response head is its body, exactly as the framing that the head announces copies it. */
  lemma {:induction false} AnswerTaken(
      verb: bytes, r: ResponseHead, kind: Framing, src: bytes, c: Copied, size: nat, cut: bool)
    requires size >= MIN_SIZE && GoodAnswerHead(verb, r, kind, size) && c == CopiedBody(kind, src, size, cut)
    ensures NextResponse(verb, SerializeResponse(r) + src, size, cut)
         == if c.ok then Answered(Answer(r, SerializeResponse(r) + c.raw, c.data), c.rest) else Unanswered
  {
    ResponseFramingIff(verb, r, kind);
    ItoaShape(r.status);
    ReadSerializedIff(StatusLine(r), r.headers, src, size);
    GoodResponseSurvives(r);
  }

  /** A chunked response followed by anything is taken off the stream exactly. */
  lemma {:induction false} ChunkedAnswerTaken(
      verb: bytes, r: ResponseHead, b: Body, src: bytes, rest: bytes, size: nat, cut: bool)
    requires size >= MIN_SIZE && GoodAnswerHead(verb, r, Chunked, size)
    requires GoodBody(b, size) && src == BodyText(b) + rest
    ensures NextResponse(verb, SerializeResponse(r) + src, size, cut)
         == Answered(Answer(r, SerializeResponse(r) + BodyText(b), Payload(b.chunks)), rest)
  {
    GoodBodyCopied(b, rest, size);
    AnswerTaken(verb, r, Chunked, src, Copied(true, BodyText(b), Payload(b.chunks), rest), size, cut);
  }
}
