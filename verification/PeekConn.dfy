/** A connection that can be peeked at, and whose consumed bytes can be recorded and replayed. */
module PeekConn {
  import opened Bytes

  const MAX_PEEK_RECORD := 0x1_0000
  const PEEK_CHUNK := 4096

  // ---------------------------------------------------------------- what a recording holds

  /** The record after these reads: a read that would overflow it is handed out but not kept. */
  function Recorded(chunks: seq<bytes>): (r: bytes)
    ensures |r| <= MAX_PEEK_RECORD
  {
    if chunks == [] then []
    else
      var before := Recorded(chunks[..|chunks| - 1]);
      var last := chunks[|chunks| - 1];
      if |before| + |last| > MAX_PEEK_RECORD then before else before + last
  }

  lemma {:induction false} ConcatLast(chunks: seq<bytes>)
    requires chunks != []
    ensures Concat(chunks) == Concat(chunks[..|chunks| - 1]) + chunks[|chunks| - 1]
  {
    var m := |chunks| - 1;
    assert chunks == chunks[..m] + [chunks[m]];
    ConcatAppend(chunks[..m], [chunks[m]]);
    assert Concat([chunks[m]]) == chunks[m] + Concat([]) == chunks[m];
  }

  /** One more chunk handed out leaves what was handed out and what is left the same stream. */
  lemma {:induction false} HandOut(chunks: seq<bytes>, b: bytes, left: bytes)
    ensures Concat(chunks + [b]) + left == Concat(chunks) + (b + left)
    ensures Recorded(chunks + [b])
         == if |Recorded(chunks)| + |b| > MAX_PEEK_RECORD then Recorded(chunks) else Recorded(chunks) + b
  {
    assert (chunks + [b])[..|chunks|] == chunks;
    ConcatLast(chunks + [b]);
  }

  /** The record is everything handed out exactly when that is at most 64 KiB; beyond, it is strictly shorter. */
  lemma {:induction false} RecordedIff(chunks: seq<bytes>)
    ensures |Recorded(chunks)| <= |Concat(chunks)|
    ensures Recorded(chunks) == Concat(chunks) <==> |Concat(chunks)| <= 0x1_0000
  {
    if chunks != [] {
      RecordedIff(chunks[..|chunks| - 1]);
      ConcatLast(chunks);
    }
  }

  /**
   * Replaying the record and then what is left gives back the whole stream exactly when at most 64 KiB was consumed.
   */
  lemma {:induction false} ReplayIff(chunks: seq<bytes>, left: bytes)
    ensures Recorded(chunks) + left == Concat(chunks) + left <==> |Concat(chunks)| <= 0x1_0000
  {
    RecordedIff(chunks);
    if Recorded(chunks) + left == Concat(chunks) + left {
      assert |Recorded(chunks)| == |Concat(chunks)|;
      assert Recorded(chunks) == (Recorded(chunks) + left)[..|Recorded(chunks)|];
      assert Concat(chunks) == (Concat(chunks) + left)[..|Concat(chunks)|];
    }
  }

  // ---------------------------------------------------------------- the connections

  /** The underlying connection: `rest` is what the peer has still to deliver. */
  class Wire {
    var rest: bytes

    constructor (rest: bytes)
      ensures this.rest == rest
    {
      this.rest := rest;
    }

    /** Any prefix may arrive, and any read may fail (end of stream, deadline); a read that succeeds makes progress. */
    method Read(max: nat) returns (chunk: bytes, failed: bool)
      modifies this
      ensures chunk + rest == old(rest) && |chunk| <= max
      ensures failed || max == 0 || |chunk| > 0
    {
      var n :| 0 <= n <= |rest| && n <= max;
      chunk := rest[..n];
      rest := rest[n..];
      failed :| n > 0 || failed;
    }
  }

  datatype Status = Fine | Failed | Overflow

  class PeekedConn {
    const wire: Wire
    var buf: bytes
    var recording: bool
    var recorded: bytes
    ghost var handed: seq<bytes>    // what Read has returned since startRecording
    ghost var origin: bytes         // the stream still unread at startRecording

    /** What this connection would still deliver. */
    ghost function Unread(): bytes
      reads this, wire
    {
      buf + wire.rest
    }

    ghost predicate Valid()
      reads this, wire
    {
      recording ==> Concat(handed) + Unread() == origin && recorded == Recorded(handed)
    }

    constructor (wire: Wire, buf: bytes)
      ensures this.wire == wire && this.buf == buf && !recording && Valid()
    {
      this.wire := wire;
      this.buf := buf;
      recording := false;
      recorded := [];
      handed, origin := [], [];
    }

    /** Looks at the next `n` bytes without consuming anything; on failure, at whatever has arrived. */
    method Peek(n: nat) returns (b: bytes, failed: bool)
      requires Valid()
      modifies this`buf, wire
      ensures Valid() && Unread() == old(Unread())
      ensures !failed ==> |b| == n && b <= Unread()
      ensures failed ==> b == buf && |b| <= |Unread()| && b <= Unread()
    {
      if |buf| >= n {
        return buf[..n], false;
      }
      while |buf| < n
        invariant Unread() == old(Unread())
        decreases |wire.rest|
      {
        var chunk;
        chunk, failed := wire.Read(PEEK_CHUNK);
        assert old(Unread()) == buf + (chunk + wire.rest) == buf + chunk + wire.rest;
        buf := buf + chunk;
        if failed {
          return buf, true;
        }
      }
      return buf[..n], false;
    }

    /** At most `max` bytes: from the buffer as long as it holds any, and otherwise from the wire. */
    method TakeNext(max: nat) returns (b: bytes, failed: bool)
      modifies this`buf, wire
      ensures |b| <= max && b + Unread() == old(Unread())
      ensures old(buf) != [] ==>
              |b| == (if max < |old(buf)| then max else |old(buf)|) && wire.rest == old(wire.rest) && !failed
    {
      if |buf| > 0 {
        var n := if max < |buf| then max else |buf|;
        b := buf[..n];
        buf := buf[n..];
        failed := false;
        assert b + buf == old(buf);
      } else {
        b, failed := wire.Read(max);
      }
      assert b + Unread() == old(Unread());
    }

    /** Consumes at most `max` bytes, and records them if they fit the record. */
    method Read(max: nat) returns (b: bytes, status: Status)
      requires Valid()
      modifies this`buf, this`recorded, this`handed, wire
      ensures Valid()
      ensures |b| <= max && b + Unread() == old(Unread())
      ensures old(buf) != [] ==>
              |b| == (if max < |old(buf)| then max else |old(buf)|) && wire.rest == old(wire.rest) && status != Failed
      ensures handed == old(handed) + [b] && (!recording ==> recorded == old(recorded))
      ensures status == Overflow <==> recording && |old(recorded)| + |b| > MAX_PEEK_RECORD && b != []
    {
      var failed;
      b, failed := TakeNext(max);
      HandOut(handed, b, Unread());
      handed := handed + [b];
      if recording && |b| > 0 {
        if |recorded| + |b| > MAX_PEEK_RECORD {
          return b, Overflow;
        }
        recorded := recorded + b;
      }
      status := if failed then Failed else Fine;
    }

    method StartRecording()
      modifies this
      ensures recording && Valid() && buf == old(buf) && handed == [] && origin == Unread() == old(Unread())
    {
      recording := true;
      recorded := [];
      handed := [];
      origin := Unread();
      assert [] + Unread() == Unread();
    }

    /**
     * A fresh connection over the same wire. Whatever peeks and reads came after startRecording, it delivers the
     * stream from the recording point on exactly when they consumed at most 64 KiB.
     */
    method Replay() returns (r: PeekedConn)
      requires Valid() && recording
      ensures fresh(r) && r.wire == wire && !r.recording && r.Valid()
      ensures r.Unread() == origin <==> |Concat(handed)| <= 0x1_0000
    {
      r := new PeekedConn(wire, recorded + buf);
      ReplayIff(handed, Unread());
      assert r.Unread() == recorded + Unread();
    }
  }
}
