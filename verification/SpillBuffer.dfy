/**
 * The buffer that holds a body for rewriting and gives up when it grows too large: it then sends the head and all
 * buffered bytes, and streams the rest. Framed bytes (raw) and payload (data) arrive interleaved.
 */
module SpillBuffer {
  import opened Bytes
  import opened BufReader
  import opened HttpBody

  const RAW_SLACK := 0x1_0000

  /**
   * `head` is what onSpill writes; `dst` and `sink` are what those two writers have received, and `writes` says of each
   * write to the destination whether it succeeded.
   */
  datatype Spill = Spill(
    limit: nat,
    head: bytes,
    raw: bytes,
    data: bytes,
    spilled: bool,
    failed: bool,
    dst: bytes,
    writes: seq<bool>,
    sink: bytes)

  function Fresh(limit: nat, head: bytes): Spill {
    Spill(limit, head, [], [], false, false, [], [], [])
  }

  /** How the destination takes a write: all of it, or an error after the first `n` bytes. */
  datatype Fate = Fine | Breaks(n: nat)

  function Taken(p: bytes, f: Fate): bytes {
    if f.Breaks? && f.n <= |p| then p[..f.n] else p
  }

  /** Sends the head, then what is buffered; a failure of either is remembered. */
  function SpillOut(s: Spill, onHead: Fate, onRaw: Fate): (r: (Spill, bool)) {
    if onHead.Breaks? then
      (s.(dst := s.dst + Taken(s.head, onHead), writes := s.writes + [false], failed := true), false)
    else if onRaw.Breaks? then
      (s.(dst := s.dst + s.head + Taken(s.raw, onRaw), writes := s.writes + [true, false], failed := true), false)
    else
      (s.(dst := s.dst + s.head + s.raw,
          writes := s.writes + [true, true],
          sink := s.sink + s.data,
          raw := [],
          data := [],
          spilled := true), true)
  }

  /** The fates of the up to three destination writes of one call. */
  datatype Fates = Fates(onHead: Fate, onRaw: Fate, onWrite: Fate)

  const NO_FAULT := Fates(Fine, Fine, Fine)

  function RawStep(s: Spill, p: bytes, f: Fates): (r: (Spill, bool)) {
    if s.failed then (s, false)
    else
      var (s1, ok) :=
        if !s.spilled && |s.raw| + |p| > s.limit + RAW_SLACK then SpillOut(s, f.onHead, f.onRaw) else (s, true);
      if !ok then (s1, false)
      else if s1.spilled then
        (s1.(dst := s1.dst + Taken(p, f.onWrite), writes := s1.writes + [f.onWrite.Fine?]), f.onWrite.Fine?)
      else (s1.(raw := s1.raw + p), true)
  }

  function DataStep(s: Spill, p: bytes, f: Fates): (r: (Spill, bool)) {
    if s.spilled then (s.(sink := s.sink + p), true)
    else
      var s1 := s.(data := s.data + p);
      if |s1.data| > s.limit then SpillOut(s1, f.onHead, f.onRaw) else (s1, true)
  }

  function Step(s: Spill, w: Write, f: Fates): (r: (Spill, bool)) {
    match w case Raw(p) => RawStep(s, p, f) case Data(p) => DataStep(s, p, f)
  }

  // ---------------------------------------------------------------- the buffer object

  class Buffer {
    const limit: nat
    const head: bytes
    var raw: bytes
    var data: bytes
    var spilled: bool
    var failed: bool
    var dst: bytes
    ghost var writes: seq<bool>
    var sink: bytes

    ghost function Value(): Spill
      reads this
    {
      Spill(limit, head, raw, data, spilled, failed, dst, writes, sink)
    }

    constructor (limit: nat, head: bytes)
      ensures Value() == Fresh(limit, head)
    {
      this.limit := limit;
      this.head := head;
      raw, data, dst, sink := [], [], [], [];
      spilled, failed := false, false;
      writes := [];
    }

    method SpillAll(f: Fates) returns (ok: bool)
      modifies this
      ensures (Value(), ok) == SpillOut(old(Value()), f.onHead, f.onRaw)
    {
      dst := dst + Taken(head, f.onHead);
      writes := writes + [f.onHead.Fine?];
      if f.onHead.Breaks? {
        failed := true;
        return false;
      }
      dst := dst + Taken(raw, f.onRaw);
      writes := writes + [f.onRaw.Fine?];
      assert old(writes) + [true] + [f.onRaw.Fine?] == old(writes) + [true, f.onRaw.Fine?];
      if f.onRaw.Breaks? {
        failed := true;
        return false;
      }
      sink := sink + data;
      raw := [];
      data := [];
      spilled := true;
      ok := true;
    }

    method WriteRaw(p: bytes, f: Fates) returns (ok: bool)
      modifies this
      ensures (Value(), ok) == RawStep(old(Value()), p, f)
    {
      if failed {
        return false;
      }
      if !spilled && |raw| + |p| > limit + RAW_SLACK {
        ok := SpillAll(f);
        if !ok {
          return;
        }
      }
      if spilled {
        dst := dst + Taken(p, f.onWrite);
        writes := writes + [f.onWrite.Fine?];
        return f.onWrite.Fine?;
      }
      raw := raw + p;
      ok := true;
    }

    method WriteData(p: bytes, f: Fates) returns (ok: bool)
      modifies this
      ensures (Value(), ok) == DataStep(old(Value()), p, f)
    {
      if spilled {
        sink := sink + p;
        return true;
      }
      data := data + p;
      if |data| > limit {
        ok := SpillAll(f);
        return;
      }
      ok := true;
    }
  }

  // ---------------------------------------------------------------- runs without faults

  function Run(s: Spill, ws: seq<Write>): Spill {
    if ws == [] then s else Step(Run(s, ws[..|ws| - 1]), ws[|ws| - 1], NO_FAULT).0
  }

  /** Kept whole in the buffers, or passed on whole: head once, all raw bytes in order, all payload to the sink. */
  ghost predicate NothingLost(s: Spill, ws: seq<Write>) {
    if s.spilled then s.raw == [] && s.data == [] && s.dst == s.head + RawOf(ws) && s.sink == DataOf(ws)
    else s.raw == RawOf(ws) && s.data == DataOf(ws) && s.dst == [] && s.sink == []
  }

  /** The buffer gives up exactly when the payload exceeds the limit or the framed bytes exceed it by 64 KiB. */
  ghost predicate GivesUp(limit: nat, ws: seq<Write>) {
    |DataOf(ws)| > limit || |RawOf(ws)| > limit + 0x1_0000
  }

  /** Where a run without faults stands after these writes. */
  ghost predicate Standing(s: Spill, limit: nat, head: bytes, raw: bytes, data: bytes) {
    && s.limit == limit && s.head == head && !s.failed
    && (s.spilled <==> |data| > limit || |raw| > limit + RAW_SLACK)
    && (s.spilled ==> s.raw == [] && s.data == [] && s.dst == head + raw && s.sink == data)
    && (!s.spilled ==> s.raw == raw && s.data == data && s.dst == [] && s.sink == [])
  }

  /** Giving up passes on the head and everything buffered. */
  lemma {:induction false} SpillPassesOn(s: Spill)
    requires s.dst == [] && s.sink == []
    ensures SpillOut(s, Fine, Fine)
         == (s.(dst := s.head + s.raw, writes := s.writes + [true, true], sink := s.data, raw := [], data := [],
             spilled := true), true)
  {
    Empty(s.head);
    Empty(s.data);
  }

  lemma {:induction false} RawKeepsAll(s: Spill, limit: nat, head: bytes, raw: bytes, data: bytes, p: bytes)
    requires Standing(s, limit, head, raw, data)
    ensures RawStep(s, p, NO_FAULT).1 && Standing(RawStep(s, p, NO_FAULT).0, limit, head, raw + p, data)
  {
    Assoc(head, raw, p);
    if !s.spilled {
      SpillPassesOn(s);
    }
  }

  lemma {:induction false} DataKeepsAll(s: Spill, limit: nat, head: bytes, raw: bytes, data: bytes, p: bytes)
    requires Standing(s, limit, head, raw, data)
    ensures DataStep(s, p, NO_FAULT).1 && Standing(DataStep(s, p, NO_FAULT).0, limit, head, raw, data + p)
  {
    if !s.spilled {
      SpillPassesOn(s.(data := data + p));
    }
  }

  /**
   * For every interleaving of raw and payload writes: nothing is lost or repeated, the buffers stay within their
   * bounds, and the buffer has given up exactly when a bound was exceeded.
   */
  lemma {:induction false} SpillConserves(limit: nat, head: bytes, ws: seq<Write>)
    ensures var s := Run(Fresh(limit, head), ws);
            && NothingLost(s, ws)
            && (s.spilled <==> GivesUp(limit, ws))
            && |s.raw| <= limit + RAW_SLACK && |s.data| <= limit
            && s.limit == limit && s.head == head && !s.failed
  {
    if ws != [] {
      var before, w := ws[..|ws| - 1], ws[|ws| - 1];
      var s := Run(Fresh(limit, head), before);
      SpillConserves(limit, head, before);
      assert before + [w] == ws;
      OneMore(before, w);
      match w {
        case Raw(p) =>
          RawKeepsAll(s, limit, head, RawOf(before), DataOf(before), p);
          Empty(DataOf(before));
        case Data(p) =>
          DataKeepsAll(s, limit, head, RawOf(before), DataOf(before), p);
          Empty(RawOf(before));
      }
    }
  }

  // ---------------------------------------------------------------- runs with faults

  ghost function RunFates(s: Spill, ws: seq<Write>, fs: seq<Fates>): Spill
    requires |ws| == |fs|
    decreases |ws|
  {
    if ws == [] then s else RunFates(Step(s, ws[0], fs[0]).0, ws[1..], fs[1..])
  }

  /** No write to the destination follows one that failed. */
  ghost predicate StopsWriting(writes: seq<bool>) {
    forall i :: 0 <= i < |writes| - 1 ==> writes[i]
  }

  predicate NoRaw(ws: seq<Write>) {
    forall i :: 0 <= i < |ws| ==> ws[i].Data?
  }

  /** No payload write finds more than `limit` bytes of payload, itself included, after `n` bytes of it. */
  predicate PayloadWithin(n: nat, limit: nat, ws: seq<Write>)
    decreases |ws|
  {
    || ws == []
    || (ws[0].Raw? && PayloadWithin(n, limit, ws[1..]))
    || (ws[0].Data? && n + |ws[0].p| <= limit && PayloadWithin(n + |ws[0].p|, limit, ws[1..]))
  }

  /**
   * What a writer must keep to after its first failed write: no raw write if that was a write to the destination
   * itself, and no payload write beyond the limit if it was a spill.
   */
  predicate Careful(s: Spill, ws: seq<Write>, fs: seq<Fates>)
    requires |ws| == |fs|
    decreases |ws|
  {
    || ws == []
    || (var (s', ok) := Step(s, ws[0], fs[0]);
        if ok then Careful(s', ws[1..], fs[1..])
        else if s'.spilled then NoRaw(ws[1..])
        else PayloadWithin(|s'.data|, s'.limit, ws[1..]))
  }

  /** Before any fault: what has been sent is the head and the raw bytes so far, or nothing yet. */
  ghost predicate Clean(s: Spill, raw: bytes) {
    && !s.failed
    && (forall i :: 0 <= i < |s.writes| ==> s.writes[i])
    && (s.spilled ==> s.raw == [] && s.dst == s.head + raw)
    && (!s.spilled ==> s.raw == raw && s.dst == [])
  }

  /** The last write to the destination failed: the spill, or a write after it. */
  ghost predicate Torn(s: Spill) {
    s.writes != [] && !s.writes[|s.writes| - 1] && StopsWriting(s.writes) && (s.spilled <==> !s.failed)
  }

  lemma {:induction false} TakenPrefix(a: bytes, p: bytes, f: Fate)
    ensures a + Taken(p, f) <= a + p
  {}

  lemma {:induction false} StaysClean(s: Spill, raw: bytes, w: Write, f: Fates)
    requires Clean(s, raw) && Step(s, w, f).1
    ensures Clean(Step(s, w, f).0, raw + if w.Raw? then w.p else [])
  {
    Empty(raw);
    Empty(s.head);
    Assoc(s.head, raw, w.p);
  }

  lemma {:induction false} FaultStep(s: Spill, raw: bytes, w: Write, f: Fates)
    requires Clean(s, raw)
    ensures var s' := Step(s, w, f).0;
            s'.head == s.head && s'.dst <= s.head + (raw + if w.Raw? then w.p else [])
  {
    var raw' := raw + if w.Raw? then w.p else [];
    Empty(raw);
    Empty(s.head);
    Assoc(s.head, raw, w.p);
    TakenPrefix([], s.head, f.onHead);
    TakenPrefix(s.head, s.raw, f.onRaw);
    TakenPrefix(s.head + raw, w.p, f.onWrite);
    PrefixGrows(s.head, raw, raw', Step(s, w, f).0.dst);
  }

  lemma {:induction false} FaultTears(s: Spill, raw: bytes, w: Write, f: Fates)
    requires Clean(s, raw) && !Step(s, w, f).1
    ensures Torn(Step(s, w, f).0)
  {}

  lemma {:induction false} PrefixGrows(head: bytes, raw: bytes, raw': bytes, d: bytes)
    requires raw <= raw'
    ensures d <= head ==> d <= head + raw'
    ensures d <= head + raw ==> d <= head + raw'
  {
    assert raw' == raw + raw'[|raw|..];
    assert head + raw' == head + raw + raw'[|raw|..];
  }

  lemma {:induction false} WritesGrow(s: Spill, ws: seq<Write>, fs: seq<Fates>)
    requires |ws| == |fs|
    ensures s.writes <= RunFates(s, ws, fs).writes
    decreases |ws|
  {
    if ws != [] {
      WritesGrow(Step(s, ws[0], fs[0]).0, ws[1..], fs[1..]);
    }
  }

  /** One more write to the destination after the last one failed, and the law is broken for good. */
  lemma {:induction false} BrokenForGood(s: Spill, s': Spill, ws: seq<Write>, fs: seq<Fates>)
    requires |ws| == |fs| && Torn(s) && s.writes < s'.writes
    ensures !StopsWriting(RunFates(s', ws, fs).writes)
  {
    WritesGrow(s', ws, fs);
    var writes := RunFates(s', ws, fs).writes;
    assert !writes[|s.writes| - 1];
  }

  /** After a failed write to the destination itself nothing is remembered: the next raw write goes out. */
  lemma {:induction false} TornStreamIff(s: Spill, ws: seq<Write>, fs: seq<Fates>)
    requires |ws| == |fs| && Torn(s) && s.spilled
    ensures StopsWriting(RunFates(s, ws, fs).writes) <==> NoRaw(ws)
    ensures NoRaw(ws) ==> RunFates(s, ws, fs).dst == s.dst
    decreases |ws|
  {
    if ws != [] {
      var s' := Step(s, ws[0], fs[0]).0;
      if ws[0].Raw? {
        BrokenForGood(s, s', ws[1..], fs[1..]);
      } else {
        TornStreamIff(s', ws[1..], fs[1..]);
        assert NoRaw(ws) <==> NoRaw(ws[1..]) by {
          assert forall i :: 0 < i < |ws| ==> ws[i] == ws[1..][i - 1];
        }
      }
    }
  }

  /** After a failed spill raw writes are refused, but a payload write beyond the limit spills again. */
  lemma {:induction false} TornSpillIff(s: Spill, ws: seq<Write>, fs: seq<Fates>)
    requires |ws| == |fs| && Torn(s) && !s.spilled
    ensures StopsWriting(RunFates(s, ws, fs).writes) <==> PayloadWithin(|s.data|, s.limit, ws)
    ensures PayloadWithin(|s.data|, s.limit, ws) ==> RunFates(s, ws, fs).dst == s.dst
    decreases |ws|
  {
    if ws != [] {
      var s' := Step(s, ws[0], fs[0]).0;
      if ws[0].Data? && |s.data| + |ws[0].p| > s.limit {
        BrokenForGood(s, s', ws[1..], fs[1..]);
      } else {
        TornSpillIff(s', ws[1..], fs[1..]);
      }
    }
  }

  /**
   * For every run, whatever the destination does and whether or not the writer stops: no write to the destination
   * follows one that failed, if and only if the writer was careful after its first failed write.
   */
  lemma {:induction false} StopsWritingIff(s: Spill, raw: bytes, ws: seq<Write>, fs: seq<Fates>)
    requires |ws| == |fs| && Clean(s, raw)
    ensures StopsWriting(RunFates(s, ws, fs).writes) <==> Careful(s, ws, fs)
    decreases |ws|
  {
    if ws != [] {
      var (s', ok) := Step(s, ws[0], fs[0]);
      var p := if ws[0].Raw? then ws[0].p else [];
      if ok {
        StaysClean(s, raw, ws[0], fs[0]);
        StopsWritingIff(s', raw + p, ws[1..], fs[1..]);
      } else {
        FaultTears(s, raw, ws[0], fs[0]);
        if s'.spilled {
          TornStreamIff(s', ws[1..], fs[1..]);
        } else {
          TornSpillIff(s', ws[1..], fs[1..]);
        }
      }
    }
  }

  /**
   * A careful run has sent a prefix of the head followed by the raw bytes: the head at most once, and nothing out of
   * place.
   */
  lemma {:induction false} CarefulSendsPrefix(s: Spill, raw: bytes, ws: seq<Write>, fs: seq<Fates>)
    requires |ws| == |fs| && Clean(s, raw) && Careful(s, ws, fs)
    ensures RunFates(s, ws, fs).dst <= s.head + (raw + AllRaw(ws))
    decreases |ws|
  {
    if ws == [] {
      Empty(raw);
      assert [] <= s.head + raw;
    } else {
      var (s', ok) := Step(s, ws[0], fs[0]);
      var p := if ws[0].Raw? then ws[0].p else [];
      FaultStep(s, raw, ws[0], fs[0]);
      Assoc(raw, p, AllRaw(ws[1..]));
      if ok {
        StaysClean(s, raw, ws[0], fs[0]);
        CarefulSendsPrefix(s', raw + p, ws[1..], fs[1..]);
      } else {
        FaultTears(s, raw, ws[0], fs[0]);
        if s'.spilled {
          TornStreamIff(s', ws[1..], fs[1..]);
        } else {
          TornSpillIff(s', ws[1..], fs[1..]);
        }
        PrefixGrows(s.head, raw + p, raw + p + AllRaw(ws[1..]), s'.dst);
      }
    }
  }

  function AllRaw(ws: seq<Write>): bytes {
    if ws == [] then [] else (if ws[0].Raw? then ws[0].p else []) + AllRaw(ws[1..])
  }

  /** A run that stops at the first write that fails, as a copy does. */
  ghost predicate StopsAtFault(s: Spill, ws: seq<Write>, fs: seq<Fates>)
    requires |ws| == |fs|
    decreases |ws|
  {
    ws == [] || (var (s', ok) := Step(s, ws[0], fs[0]); if ok then StopsAtFault(s', ws[1..], fs[1..]) else |ws| == 1)
  }

  lemma {:induction false} StoppingIsCareful(s: Spill, ws: seq<Write>, fs: seq<Fates>)
    requires |ws| == |fs| && StopsAtFault(s, ws, fs)
    ensures Careful(s, ws, fs)
    decreases |ws|
  {
    if ws != [] {
      var (s', ok) := Step(s, ws[0], fs[0]);
      if ok {
        StoppingIsCareful(s', ws[1..], fs[1..]);
      } else {
        assert ws[1..] == [];
      }
    }
  }

  /** Whatever the destination does, a body copied into a new buffer has sent a prefix of the head and the raw bytes. */
  lemma {:induction false} FaultsSendPrefix(limit: nat, head: bytes, ws: seq<Write>, fs: seq<Fates>)
    requires |ws| == |fs| && StopsAtFault(Fresh(limit, head), ws, fs)
    ensures RunFates(Fresh(limit, head), ws, fs).dst <= head + AllRaw(ws)
    ensures StopsWriting(RunFates(Fresh(limit, head), ws, fs).writes)
  {
    StoppingIsCareful(Fresh(limit, head), ws, fs);
    StopsWritingIff(Fresh(limit, head), [], ws, fs);
    CarefulSendsPrefix(Fresh(limit, head), [], ws, fs);
    Empty(AllRaw(ws));
  }

  lemma {:induction false} TwoSteps(s: Spill, ws: seq<Write>, fs: seq<Fates>)
    requires |ws| == |fs| == 2
    ensures RunFates(s, ws, fs) == Step(Step(s, ws[0], fs[0]).0, ws[1], fs[1]).0
  {
    var s1 := Step(s, ws[0], fs[0]).0;
    var s2 := Step(s1, ws[1], fs[1]).0;
    assert ws[1..] == [ws[1]] && fs[1..] == [fs[1]];
    assert RunFates(s2, ws[1..][1..], fs[1..][1..]) == s2;
    assert RunFates(s1, ws[1..], fs[1..]) == s2;
  }

  /** A payload write after a failed spill is not stopped: it spills again, and the head is sent a second time. */
  lemma {:induction false} HeadSentTwice(limit: nat, head: bytes, p: bytes)
    requires |p| > limit
    ensures var ws := [Data(p), Data([])];
            var fs := [Fates(Fine, Breaks(0), Fine), NO_FAULT];
            RunFates(Fresh(limit, head), ws, fs).dst == head + head
  {
    var ws := [Data(p), Data([])];
    var fs := [Fates(Fine, Breaks(0), Fine), NO_FAULT];
    var s1 := Step(Fresh(limit, head), ws[0], fs[0]).0;
    assert s1.data == p && s1.dst == head;
    assert s1.data + [] == p;
    TwoSteps(Fresh(limit, head), ws, fs);
  }

  /** A raw write after a failed one goes out: the destination gets the second without the first. */
  lemma {:induction false} HoleAfterFault(s: Spill, p: bytes, q: bytes)
    requires s.spilled && !s.failed
    ensures var ws := [Raw(p), Raw(q)];
            var fs := [Fates(Fine, Fine, Breaks(0)), NO_FAULT];
            RunFates(s, ws, fs).dst == s.dst + q && !StopsWriting(RunFates(s, ws, fs).writes)
  {
    var ws := [Raw(p), Raw(q)];
    var fs := [Fates(Fine, Fine, Breaks(0)), NO_FAULT];
    TwoSteps(s, ws, fs);
    Empty(s.dst);
    var writes := RunFates(s, ws, fs).writes;
    assert !writes[|s.writes|];
  }

  // ---------------------------------------------------------------- a body forwarded through the buffer

  /** What forwarding ends with when no rewrite applies: a body that fitted is sent now, after its head. */
  function Finish(s: Spill): Spill {
    if s.spilled then s else s.(dst := s.dst + (s.head + s.raw), sink := s.sink + s.data)
  }

  /**
   * A well-formed chunked body that no rewrite rule changes goes through unchanged: however its bytes were cut into
   * writes, and whether or not the buffer gave up, the destination gets the head and the body, the sink the payload.
   */
  lemma {:induction false} ForwardedUnchanged(b: Body, rest: bytes, size: nat, limit: nat, head: bytes, ws: seq<Write>)
    requires size >= MIN_SIZE && GoodBody(b, size)
    requires var c := CopiedChunks(BodyText(b) + rest, size); RawOf(ws) == c.raw && DataOf(ws) == c.data
    ensures var s := Finish(Run(Fresh(limit, head), ws));
            s.dst == head + BodyText(b) && s.sink == Payload(b.chunks)
  {
    GoodBodyCopied(b, rest, size);
    SpillConserves(limit, head, ws);
    Empty(head + BodyText(b));
    Empty(Payload(b.chunks));
  }
}
