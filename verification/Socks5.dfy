/**
 * The two ends of the SOCKS5 handshake (RFC 1928): the dialer that asks for a target, and the port forwarder that
 * serves it without authentication. Each end is a machine that waits for a number of bytes, consumes them, and may
 * write; together they run over two byte queues in any interleaving.
 */
module Socks5 {
  import opened Bytes
  import opened NetAddr

  /** A host as both sides understand it; an IPv4 address is the sixteen-byte mapped form of itself. */
  datatype Host = Ip(octets: Octets) | Domain(name: bytes)

  type Port = n: int | 0 <= n <= 0xFFFF

  function PortBytes(p: Port): bytes {
    [p / 0x100, p % 0x100]
  }

  function PortOf(b: bytes): Port
    requires |b| == 2
  {
    (b[0] as int) * 0x100 + b[1]
  }

  // ---------------------------------------------------------------- the dialer

  const HELLO: bytes := [0x05, 0x01, 0x00]

  /** The address type is chosen by the host; the length of a name is cut to one byte. */
  function AddrBytes(h: Host): bytes {
    match h
    case Ip(o) => if IsMapped(o) then [0x01] + o[12..] else [0x04] + o
    case Domain(d) => [0x03, |d| % 0x100] + d
  }

  function Request(h: Host, p: Port): bytes {
    [0x05, 0x01, 0x00] + AddrBytes(h) + PortBytes(p)
  }

  datatype ClientPc = Greet | AwaitMethod | AwaitReply | AwaitSkipLen | AwaitSkip(n: nat) | Connected | GaveUp

  function ClientNeeds(pc: ClientPc): nat {
    match pc
    case AwaitMethod => 2
    case AwaitReply => 4
    case AwaitSkipLen => 1
    case AwaitSkip(n) => n
    case _ => 0
  }

  predicate ClientOver(pc: ClientPc) {
    pc.Connected? || pc.GaveUp?
  }

  function ClientNext(pc: ClientPc, b: bytes, h: Host, p: Port): (ClientPc, bytes)
    requires !ClientOver(pc) && |b| == ClientNeeds(pc)
  {
    match pc
    case Greet => (AwaitMethod, HELLO)
    case AwaitMethod => if b[0] != 0x05 || b[1] != 0x00 then (GaveUp, []) else (AwaitReply, Request(h, p))
    case AwaitReply =>
      if b[0] != 0x05 || b[1] != 0x00 then (GaveUp, [])
      else if b[3] == 0x01 then (AwaitSkip(4 + 2), [])
      else if b[3] == 0x03 then (AwaitSkipLen, [])
      else if b[3] == 0x04 then (AwaitSkip(16 + 2), [])
      else (GaveUp, [])
    case AwaitSkipLen => (AwaitSkip(b[0] as int + 2), [])
    case AwaitSkip(_) => (Connected, [])
  }

  function ClientRank(pc: ClientPc): nat {
    match pc
    case Greet => 5
    case AwaitMethod => 4
    case AwaitReply => 3
    case AwaitSkipLen => 2
    case AwaitSkip(_) => 1
    case _ => 0
  }

  /**
   * Where the dialer gets with these bytes from the server: its last position, what it has written, what it has not
   * read.
   */
  function DriveClient(pc: ClientPc, input: bytes, h: Host, p: Port): (r: (ClientPc, bytes, bytes))
    decreases ClientRank(pc)
  {
    if ClientOver(pc) || |input| < ClientNeeds(pc) then (pc, [], input)
    else
      var n := ClientNeeds(pc);
      var (pc', out) := ClientNext(pc, input[..n], h, p);
      var (last, more, rest) := DriveClient(pc', input[n..], h, p);
      (last, out + more, rest)
  }

  // ---------------------------------------------------------------- the server

  const NO_AUTH: byte := 0x00

  datatype ServerPc =
    | AwaitHello
    | AwaitMethods(n: nat)
    | AwaitRequest
    | AwaitIPv4
    | AwaitIPv6
    | AwaitNameLen
    | AwaitName(n: nat)
    | AwaitPort(host: Host)
    | Asked(host: Host, port: Port)
    | Served(host: Host, port: Port)
    | Refused(rep: Option<byte>)

  function ServerNeeds(pc: ServerPc): nat {
    match pc
    case AwaitHello => 2
    case AwaitMethods(n) => n
    case AwaitRequest => 4
    case AwaitIPv4 => 4
    case AwaitIPv6 => 16
    case AwaitNameLen => 1
    case AwaitName(n) => n
    case AwaitPort(_) => 2
    case _ => 0
  }

  predicate ServerOver(pc: ServerPc) {
    pc.Served? || pc.Refused?
  }

  predicate HandshakeOver(pc: ServerPc) {
    pc.Asked? || ServerOver(pc)
  }

  function Mapped(q: Quad): Octets {
    MAPPED_PREFIX + q
  }

  function Reply(status: byte): bytes {
    [0x05, status, 0x00, 0x01, 0, 0, 0, 0, 0, 0]
  }

  function ServerNext(pc: ServerPc, b: bytes): (ServerPc, bytes)
    requires !HandshakeOver(pc) && |b| == ServerNeeds(pc)
  {
    match pc
    case AwaitHello => if b[0] != 0x05 then (Refused(None), []) else (AwaitMethods(b[1]), [])
    case AwaitMethods(_) => if NO_AUTH in b then (AwaitRequest, [0x05, NO_AUTH]) else (Refused(None), [0x05, 0xFF])
    case AwaitRequest =>
      if b[0] != 0x05 then (Refused(Some(0x01)), [])
      else if b[1] != 0x01 then (Refused(Some(0x07)), [])
      else if b[3] == 0x01 then (AwaitIPv4, [])
      else if b[3] == 0x03 then (AwaitNameLen, [])
      else if b[3] == 0x04 then (AwaitIPv6, [])
      else (Refused(Some(0x08)), [])
    case AwaitIPv4 => (AwaitPort(Ip(Mapped(b))), [])
    case AwaitIPv6 => (AwaitPort(Ip(b)), [])
    case AwaitNameLen => (AwaitName(b[0]), [])
    case AwaitName(_) => (AwaitPort(Domain(b)), [])
    case AwaitPort(host) => (Asked(host, PortOf(b)), [])
  }

  function Rank(pc: ServerPc): nat {
    match pc
    case AwaitHello => 8
    case AwaitMethods(_) => 7
    case AwaitRequest => 6
    case AwaitNameLen => 5
    case AwaitIPv4 => 4
    case AwaitIPv6 => 4
    case AwaitName(_) => 4
    case AwaitPort(_) => 3
    case _ => 0
  }

  /** Where the handshake gets with these bytes: its last position, what it has written, what it has not read. */
  function Drive(pc: ServerPc, input: bytes): (r: (ServerPc, bytes, bytes))
    decreases Rank(pc)
  {
    if HandshakeOver(pc) || |input| < ServerNeeds(pc) then (pc, [], input)
    else
      var n := ServerNeeds(pc);
      var (pc', out) := ServerNext(pc, input[..n]);
      var (last, more, rest) := Drive(pc', input[n..]);
      (last, out + more, rest)
  }

  /** A stream that ends early: an error without a reply before the method is agreed, and with reply 1 after. */
  function EndOfInput(pc: ServerPc): ServerPc {
    if HandshakeOver(pc) then pc
    else if pc.AwaitHello? || pc.AwaitMethods? then Refused(None)
    else Refused(Some(0x01))
  }

  // ---------------------------------------------------------------- the server as it is written

  /** One end of a connection: `input` is what will still arrive before reads fail; any write may fail part way. */
  class Conn {
    var input: bytes
    var output: bytes
    var failed: bool

    constructor (input: bytes)
      ensures this.input == input && output == [] && !failed
    {
      this.input := input;
      output := [];
      failed := false;
    }

    /** Some of the bytes that have arrived, at most `max`; none only when no more will. */
    method Read(max: nat) returns (chunk: bytes)
      requires max > 0
      modifies this`input
      ensures chunk + input == old(input) && |chunk| <= max
      ensures chunk == [] <==> old(input) == []
    {
      if input == [] {
        return [];
      }
      var k :| 1 <= k <= |input| && k <= max;
      chunk := input[..k];
      input := input[k..];
    }

    /** All `n` bytes in however many reads it takes, or nothing if the stream ends first. */
    method ReadFull(n: nat) returns (b: Option<bytes>)
      modifies this`input
      ensures b == if n <= |old(input)| then Some(old(input)[..n]) else None
      ensures b.Some? ==> input == old(input)[n..]
    {
      var got: bytes := [];
      Empty(input);
      while |got| < n
        invariant |got| <= n && got + input == old(input)
        decreases |input|
      {
        var chunk := Read(n - |got|);
        if chunk == [] {
          return None;
        }
        Assoc(got, chunk, input);
        got := got + chunk;
      }
      b := Some(got);
    }

    method Write(p: bytes) returns (ok: bool)
      modifies this`output, this`failed
      ensures ok ==> output == old(output) + p && failed == old(failed)
      ensures !ok ==> failed && output <= old(output) + p
    {
      ok := *;
      var k :| 0 <= k <= |p| && (ok ==> k == |p|);
      output := output + p[..k];
      if !ok {
        failed := true;
      }
    }
  }

  lemma {:induction false} DriveStep(pc: ServerPc, input: bytes)
    requires !HandshakeOver(pc) && ServerNeeds(pc) <= |input|
    ensures var n := ServerNeeds(pc);
            var (pc', out) := ServerNext(pc, input[..n]);
            Drive(pc, input) == (Drive(pc', input[n..]).0, out + Drive(pc', input[n..]).1, Drive(pc', input[n..]).2)
  {}

  /** A step that writes nothing. */
  lemma {:induction false} SilentStep(pc: ServerPc, input: bytes)
    requires !HandshakeOver(pc) && !pc.AwaitMethods? && ServerNeeds(pc) <= |input|
    ensures Drive(pc, input) == Drive(ServerNext(pc, input[..ServerNeeds(pc)]).0, input[ServerNeeds(pc)..])
  {
    var n := ServerNeeds(pc);
    SilentNext(pc, input[..n]);
    DriveStep(pc, input);
    NothingBefore(Drive(ServerNext(pc, input[..n]).0, input[n..]));
  }

  lemma {:induction false} NothingBefore(d: (ServerPc, bytes, bytes))
    ensures (d.0, [] + d.1, d.2) == d
  {
    Empty(d.1);
  }

  lemma {:induction false} SilentNext(pc: ServerPc, b: bytes)
    requires !HandshakeOver(pc) && !pc.AwaitMethods? && |b| == ServerNeeds(pc)
    ensures ServerNext(pc, b).1 == []
  {}

  /** Method negotiation: true once no authentication has been agreed and confirmed. */
  method Negotiate(conn: Conn) returns (ok: bool)
    requires !conn.failed
    modifies conn
    ensures conn.failed ==> !ok && conn.output <= old(conn.output) + Drive(AwaitHello, old(conn.input)).1
    ensures var d := Drive(AwaitHello, old(conn.input));
            && (ok ==>
                  var e := Drive(AwaitRequest, conn.input);
                  d == (e.0, [0x05, NO_AUTH] + e.1, e.2))
            && (ok ==> conn.output == old(conn.output) + [0x05, NO_AUTH])
            && (!ok && !conn.failed ==> EndOfInput(d.0) == Refused(None) && conn.output == old(conn.output) + d.1)
  {
    var header := conn.ReadFull(2);
    if header == None {
      return false;
    }
    SilentStep(AwaitHello, old(conn.input));
    if header.value[0] != 0x05 {
      return false;
    }
    var n := header.value[1];
    ghost var rest := conn.input;
    var methods := conn.ReadFull(n);
    if methods == None {
      return false;
    }
    DriveStep(AwaitMethods(n), rest);
    assert Drive(AwaitHello, old(conn.input)) == Drive(AwaitMethods(n), rest);
    if NO_AUTH !in methods.value {
      Empty([0x05, 0xFF]);
      var _ := conn.Write([0x05, 0xFF]);
      return false;
    }
    ok := conn.Write([0x05, NO_AUTH]);
    PrefixOfWhole(old(conn.output), [0x05, NO_AUTH], Drive(AwaitRequest, conn.input).1, conn.output);
  }

  /** The bytes that a position waits for, or the end of the stream. */
  method ReadHost(conn: Conn, atyp: byte) returns (host: Option<Host>)
    requires atyp == 0x01 || atyp == 0x03 || atyp == 0x04
    modifies conn`input
    ensures var d := Drive(AtypPc(atyp), old(conn.input));
            && (host.Some? ==> d == Drive(AwaitPort(host.value), conn.input))
            && (host == None ==> EndOfInput(d.0) == Refused(Some(0x01)) && d.1 == [])
  {
    if atyp == 0x01 {
      var ip := conn.ReadFull(4);
      if ip == None {
        return None;
      }
      SilentStep(AwaitIPv4, old(conn.input));
      return Some(Ip(Mapped(ip.value)));
    }
    if atyp == 0x03 {
      var len := conn.ReadFull(1);
      if len == None {
        return None;
      }
      SilentStep(AwaitNameLen, old(conn.input));
      ghost var rest := conn.input;
      var name := conn.ReadFull(len.value[0]);
      if name == None {
        return None;
      }
      SilentStep(AwaitName(len.value[0]), rest);
      return Some(Domain(name.value));
    }
    var ip := conn.ReadFull(16);
    if ip == None {
      return None;
    }
    SilentStep(AwaitIPv6, old(conn.input));
    return Some(Ip(ip.value));
  }

  /** Where the server waits for the address of a type it knows. */
  function AtypPc(atyp: byte): ServerPc {
    if atyp == 0x01 then AwaitIPv4 else if atyp == 0x03 then AwaitNameLen else AwaitIPv6
  }

  method ReadAddress(conn: Conn, atyp: byte) returns (r: ServerPc)
    requires atyp == 0x01 || atyp == 0x03 || atyp == 0x04
    modifies conn`input
    ensures var d := Drive(AtypPc(atyp), old(conn.input));
            r == EndOfInput(d.0) && d.1 == [] && (r.Asked? ==> conn.input == d.2)
  {
    var host := ReadHost(conn, atyp);
    if host == None {
      return Refused(Some(0x01));
    }
    ghost var rest := conn.input;
    var port := conn.ReadFull(2);
    if port == None {
      return Refused(Some(0x01));
    }
    SilentStep(AwaitPort(host.value), rest);
    r := Asked(host.value, PortOf(port.value));
  }

  /** The CONNECT request. */
  method ReadTarget(conn: Conn) returns (r: ServerPc)
    modifies conn`input
    ensures var d := Drive(AwaitRequest, old(conn.input));
            r == EndOfInput(d.0) && d.1 == [] && (r.Asked? ==> conn.input == d.2)
  {
    var req := conn.ReadFull(4);
    if req == None {
      return Refused(Some(0x01));
    }
    SilentStep(AwaitRequest, old(conn.input));
    if req.value[0] != 0x05 {
      return Refused(Some(0x01));
    }
    if req.value[1] != 0x01 {
      return Refused(Some(0x07));
    }
    var atyp := req.value[3];
    if atyp != 0x01 && atyp != 0x03 && atyp != 0x04 {
      return Refused(Some(0x08));
    }
    r := ReadAddress(conn, atyp);
  }

  method ServeHandshake(conn: Conn) returns (r: ServerPc)
    requires !conn.failed
    modifies conn
    ensures conn.failed ==> r == Refused(None) && conn.output <= old(conn.output) + Drive(AwaitHello, old(conn.input)).1
    ensures !conn.failed ==>
              var d := Drive(AwaitHello, old(conn.input));
              r == EndOfInput(d.0) && conn.output == old(conn.output) + d.1 && (r.Asked? ==> conn.input == d.2)
  {
    var ok := Negotiate(conn);
    if !ok {
      return Refused(None);
    }
    r := ReadTarget(conn);
  }

  lemma {:induction false} ClientStep(pc: ClientPc, input: bytes, h: Host, p: Port)
    requires !ClientOver(pc) && ClientNeeds(pc) <= |input|
    ensures var n := ClientNeeds(pc);
            var (pc', out) := ClientNext(pc, input[..n], h, p);
            var d := DriveClient(pc', input[n..], h, p);
            DriveClient(pc, input, h, p) == (d.0, out + d.1, d.2)
  {}

  /** Reads past the bound address in the reply, whose contents the dialer ignores. */
  method SkipBound(conn: Conn, atyp: byte, h: Host, p: Port) returns (ok: bool)
    requires atyp == 0x01 || atyp == 0x03 || atyp == 0x04
    modifies conn`input
    ensures var pc := if atyp == 0x01 then AwaitSkip(6) else if atyp == 0x03 then AwaitSkipLen else AwaitSkip(18);
            var d := DriveClient(pc, old(conn.input), h, p);
            ok == d.0.Connected? && d.1 == [] && (ok ==> conn.input == d.2)
  {
    var n := if atyp == 0x01 then 6 else 18;
    ghost var rest := conn.input;
    if atyp == 0x03 {
      var len := conn.ReadFull(1);
      if len == None {
        return false;
      }
      ClientStep(AwaitSkipLen, rest, h, p);
      rest := conn.input;
      n := len.value[0] as int + 2;
    }
    var skip := conn.ReadFull(n);
    if skip.Some? {
      ClientStep(AwaitSkip(n), rest, h, p);
    }
    ok := skip.Some?;
  }

  /** From the reply of the server on. */
  method ReadReply(conn: Conn, h: Host, p: Port) returns (ok: bool)
    modifies conn`input
    ensures var d := DriveClient(AwaitReply, old(conn.input), h, p);
            ok == d.0.Connected? && d.1 == [] && (ok ==> conn.input == d.2)
  {
    var reply := conn.ReadFull(4);
    if reply == None {
      return false;
    }
    ClientStep(AwaitReply, old(conn.input), h, p);
    if reply.value[0] != 0x05 || reply.value[1] != 0x00 {
      return false;
    }
    var atyp := reply.value[3];
    if atyp != 0x01 && atyp != 0x03 && atyp != 0x04 {
      return false;
    }
    ok := SkipBound(conn, atyp, h, p);
  }

  method DialHandshake(conn: Conn, h: Host, p: Port) returns (ok: bool)
    requires !conn.failed
    modifies conn
    ensures conn.failed ==> !ok && conn.output <= old(conn.output) + DriveClient(Greet, old(conn.input), h, p).1
    ensures !conn.failed ==>
              var d := DriveClient(Greet, old(conn.input), h, p);
              ok == d.0.Connected? && conn.output == old(conn.output) + d.1 && (ok ==> conn.input == d.2)
  {
    GreetStep(conn.input, h, p);
    ok := conn.Write(HELLO);
    PrefixOfWhole(old(conn.output), HELLO, DriveClient(AwaitMethod, conn.input, h, p).1, conn.output);
    if !ok {
      return;
    }
    var answer := conn.ReadFull(2);
    if answer == None {
      return false;
    }
    MethodStep(old(conn.input), h, p);
    if answer.value[0] != 0x05 || answer.value[1] != 0x00 {
      return false;
    }
    ghost var rest := DriveClient(AwaitReply, conn.input, h, p).1;
    ok := conn.Write(Request(h, p));
    InParts(old(conn.output), Request(h, p), rest);
    PrefixOfWhole(old(conn.output) + HELLO, Request(h, p), rest, conn.output);
    if !ok {
      return;
    }
    ok := ReadReply(conn, h, p);
    Empty(Request(h, p));
  }

  lemma {:induction false} InParts(output: bytes, request: bytes, rest: bytes)
    ensures output + HELLO + (request + rest) == output + (HELLO + (request + rest))
  {}

  lemma {:induction false} MethodStep(input: bytes, h: Host, p: Port)
    requires |input| >= 2
    ensures var d := DriveClient(AwaitReply, input[2..], h, p);
            DriveClient(AwaitMethod, input, h, p)
            == if input[0] != 0x05 || input[1] != 0x00 then (GaveUp, [], input[2..])
                else (d.0, Request(h, p) + d.1, d.2)
  {
    ClientStep(AwaitMethod, input, h, p);
    assert [] + DriveClient(GaveUp, input[2..], h, p).1 == [];
  }

  lemma {:induction false} GreetStep(input: bytes, h: Host, p: Port)
    ensures var d := DriveClient(AwaitMethod, input, h, p);
            DriveClient(Greet, input, h, p) == (d.0, HELLO + d.1, d.2)
    ensures HELLO + [] == HELLO
  {
    ClientStep(Greet, input, h, p);
    assert input[0..] == input;
  }

  // ---------------------------------------------------------------- what the server makes of a request

  /** A host that the one-byte length of a name can carry. */
  predicate Fits(h: Host) {
    h.Domain? ==> |h.name| <= 0xFF
  }

  function AddrPc(h: Host): ServerPc {
    match h
    case Ip(o) => if IsMapped(o) then AwaitIPv4 else AwaitIPv6
    case Domain(_) => AwaitNameLen
  }

  lemma {:induction false} StepOn(pc: ServerPc, b: bytes, rest: bytes)
    requires !HandshakeOver(pc) && !pc.AwaitMethods? && |b| == ServerNeeds(pc)
    ensures Drive(pc, b + rest) == Drive(ServerNext(pc, b).0, rest)
  {
    Cut(b, rest);
    SilentStep(pc, b + rest);
  }

  lemma {:induction false} Cut(b: bytes, rest: bytes)
    ensures (b + rest)[..|b|] == b && (b + rest)[|b|..] == rest
  {}

  /** A request is its four leading bytes and what follows the address type. */
  lemma {:induction false} RequestParts(addr: bytes, port: bytes, more: bytes)
    requires addr != []
    ensures [0x05, 0x01, 0x00] + addr + port + more == [0x05, 0x01, 0x00, addr[0]] + (addr[1..] + (port + more))
  {}

  lemma {:induction false} HeaderStep(h: Host)
    ensures |[0x05, 0x01, 0x00, AddrBytes(h)[0]]| == ServerNeeds(AwaitRequest)
    ensures ServerNext(AwaitRequest, [0x05, 0x01, 0x00, AddrBytes(h)[0]]) == (AddrPc(h), [])
  {}

  lemma {:induction false} RequestHeader(h: Host, p: Port, more: bytes)
    ensures Drive(AwaitRequest, Request(h, p) + more) == Drive(AddrPc(h), AddrBytes(h)[1..] + (PortBytes(p) + more))
  {
    var addr := AddrBytes(h);
    RequestParts(addr, PortBytes(p), more);
    HeaderStep(h);
    StepOn(AwaitRequest, [0x05, 0x01, 0x00, addr[0]], addr[1..] + (PortBytes(p) + more));
  }

  lemma {:induction false} PortRead(h: Host, p: Port, more: bytes)
    ensures Drive(AwaitPort(h), PortBytes(p) + more) == (Asked(h, p), [], more)
  {
    StepOn(AwaitPort(h), PortBytes(p), more);
  }

  /** What follows the address type in the bytes of a name. */
  lemma {:induction false} NameBytes(d: bytes, tail: bytes)
    ensures AddrBytes(Domain(d))[1..] + tail == [|d| % 0x100] + (d + tail)
    ensures |d| <= 0xFF ==> AddrBytes(Domain(d))[1..] + tail == [|d|] + (d + tail)
  {}

  lemma {:induction false} IpBytes(o: Octets)
    ensures AddrBytes(Ip(o))[1..] == if IsMapped(o) then o[12..] else o
    ensures IsMapped(o) ==> Mapped(o[12..]) == o
  {}

  lemma {:induction false} IpRead(o: Octets, tail: bytes)
    ensures Drive(AddrPc(Ip(o)), AddrBytes(Ip(o))[1..] + tail) == Drive(AwaitPort(Ip(o)), tail)
  {
    IpBytes(o);
    if IsMapped(o) {
      StepOn(AwaitIPv4, o[12..], tail);
    } else {
      StepOn(AwaitIPv6, o, tail);
    }
  }

  lemma {:induction false} NameAfterLen(d: bytes, tail: bytes)
    requires |d| <= 0xFF
    ensures Drive(AwaitNameLen, [|d|] + (d + tail)) == Drive(AwaitName(|d|), d + tail)
  {
    StepOn(AwaitNameLen, [|d|], d + tail);
  }

  lemma {:induction false} NameRead(d: bytes, tail: bytes)
    requires |d| <= 0xFF
    ensures Drive(AwaitNameLen, [|d|] + (d + tail)) == Drive(AwaitPort(Domain(d)), tail)
  {
    NameAfterLen(d, tail);
    StepOn(AwaitName(|d|), d, tail);
  }

  lemma {:induction false} FittingNameRead(d: bytes, tail: bytes)
    requires |d| <= 0xFF
    ensures Drive(AwaitNameLen, AddrBytes(Domain(d))[1..] + tail) == Drive(AwaitPort(Domain(d)), tail)
  {
    var input := AddrBytes(Domain(d))[1..] + tail;
    assert input == [|d|] + (d + tail) by {
      NameBytes(d, tail);
    }
    NameRead(d, tail);
  }

  lemma {:induction false} FittingHostRead(h: Host, tail: bytes)
    requires Fits(h)
    ensures Drive(AddrPc(h), AddrBytes(h)[1..] + tail) == Drive(AwaitPort(h), tail)
  {
    match h {
      case Ip(o) => IpRead(o, tail);
      case Domain(d) => FittingNameRead(d, tail);
    }
  }

  /** A name too long for its length byte is never the host the server ends up with. */
  lemma {:induction false} LongNameMisread(d: bytes, tail: bytes, p: Port)
    requires |d| > 0xFF
    ensures Drive(AwaitNameLen, AddrBytes(Domain(d))[1..] + tail).0 != Asked(Domain(d), p)
  {
    var n := |d| % 0x100;
    NameBytes(d, tail);
    StepOn(AwaitNameLen, [n], d + tail);
    SilentStep(AwaitName(n), d + tail);
    AskedKeepsHost(Domain((d + tail)[..n]), (d + tail)[n..]);
  }

  lemma {:induction false} AskedKeepsHost(h: Host, input: bytes)
    ensures Drive(AwaitPort(h), input).0.Asked? ==> Drive(AwaitPort(h), input).0.host == h
  {
    if |input| >= 2 {
      SilentStep(AwaitPort(h), input);
    }
  }

  /** The server reads back exactly the requested host and port if and only if the host fits its length byte. */
  lemma {:induction false} RequestUnderstoodIff(h: Host, p: Port, more: bytes)
    ensures Drive(AwaitRequest, Request(h, p) + more).0 == Asked(h, p) <==> Fits(h)
    ensures Fits(h) ==> Drive(AwaitRequest, Request(h, p) + more) == (Asked(h, p), [], more)
  {
    RequestHeader(h, p, more);
    if Fits(h) {
      FittingHostRead(h, PortBytes(p) + more);
      PortRead(h, p, more);
    } else {
      LongNameMisread(h.name, PortBytes(p) + more, p);
    }
  }

  // ---------------------------------------------------------------- both ends together

  /** Both positions and the bytes under way in either direction. */
  datatype Link = Link(client: ClientPc, server: ServerPc, up: bytes, down: bytes)

  const START := Link(Greet, AwaitHello, [], [])

  datatype Turn = ClientTurn | ServerTurn

  predicate CanMove(l: Link, t: Turn) {
    match t
    case ClientTurn => !ClientOver(l.client) && ClientNeeds(l.client) <= |l.down|
    case ServerTurn => !ServerOver(l.server) && ServerNeeds(l.server) <= |l.up|
  }

  /** `status` is what the server replies once it has dialed the target: 0 for success. */
  function Move(l: Link, t: Turn, h: Host, p: Port, status: byte): Link
    requires CanMove(l, t)
  {
    match t
    case ClientTurn =>
      var n := ClientNeeds(l.client);
      var (pc, out) := ClientNext(l.client, l.down[..n], h, p);
      Link(pc, l.server, l.up + out, l.down[n..])
    case ServerTurn =>
      if l.server.Asked? then Link(l.client, Served(l.server.host, l.server.port), l.up, l.down + Reply(status))
      else
        var n := ServerNeeds(l.server);
        var (pc, out) := ServerNext(l.server, l.up[..n]);
        Link(l.client, pc, l.up[n..], l.down + out)
  }

  /** The state of the link in every position the two ends can be in together. */
  ghost predicate LinkInv(l: Link, h: Host, p: Port, status: byte) {
    match l.client
    case Greet => l == START
    case AwaitMethod =>
      || l == Link(AwaitMethod, AwaitHello, HELLO, [])
      || l == Link(AwaitMethod, AwaitMethods(1), [NO_AUTH], [])
      || l == Link(AwaitMethod, AwaitRequest, [], [0x05, NO_AUTH])
    case AwaitReply =>
      || l == Link(AwaitReply, AwaitRequest, Request(h, p), [])
      || l == Link(AwaitReply, AddrPc(h), AddrBytes(h)[1..] + PortBytes(p), [])
      || (h.Domain? && l == Link(AwaitReply, AwaitName(|h.name|), h.name + PortBytes(p), []))
      || l == Link(AwaitReply, AwaitPort(h), PortBytes(p), [])
      || l == Link(AwaitReply, Asked(h, p), [], [])
      || l == Link(AwaitReply, Served(h, p), [], Reply(status))
    case AwaitSkip(n) => status == 0x00 && n == 6 && l == Link(l.client, Served(h, p), [], Reply(status)[4..])
    case AwaitSkipLen => false
    case Connected => status == 0x00 && l == Link(Connected, Served(h, p), [], [])
    case GaveUp => status != 0x00 && l == Link(GaveUp, Served(h, p), [], Reply(status)[4..])
  }

  lemma {:induction false} ClientKeeps(l: Link, h: Host, p: Port, status: byte)
    requires Fits(h) && LinkInv(l, h, p, status) && CanMove(l, ClientTurn)
    ensures LinkInv(Move(l, ClientTurn, h, p, status), h, p, status)
  {
    match l.client {
      case Greet => assert [] + HELLO == HELLO;
      case AwaitMethod =>
        assert l.down[..2] == [0x05, NO_AUTH] && l.down[2..] == [];
        assert [] + Request(h, p) == Request(h, p);
      case AwaitReply =>
        assert l.down[..4] == [0x05, status, 0x00, 0x01];
      case AwaitSkip(_) =>
        assert l.down[6..] == [];
    }
  }

  lemma {:induction false} ServerNegotiates(l: Link, h: Host, p: Port, status: byte)
    requires Fits(h) && LinkInv(l, h, p, status) && CanMove(l, ServerTurn) && (l.client.Greet? || l.client.AwaitMethod?)
    ensures LinkInv(Move(l, ServerTurn, h, p, status), h, p, status)
  {
    if l.server.AwaitHello? {
      assert l.up[..2] == [0x05, 0x01] && l.up[2..] == [NO_AUTH];
    } else {
      assert l.up[..1] == [NO_AUTH] && l.up[1..] == [];
    }
  }

  /** A move of the server on the bytes it waits for. */
  lemma {:induction false} ServerMoves(pc: ServerPc, b: bytes, rest: bytes, h: Host, p: Port, status: byte)
    requires !HandshakeOver(pc) && !pc.AwaitMethods? && |b| == ServerNeeds(pc)
    ensures var l := Link(AwaitReply, pc, b + rest, []);
            CanMove(l, ServerTurn) && Move(l, ServerTurn, h, p, status)
                == Link(AwaitReply, ServerNext(pc, b).0, rest, [])
  {
    Cut(b, rest);
    SilentNext(pc, b);
  }

  lemma {:induction false} ServerReadsAddr(h: Host, p: Port, status: byte)
    requires Fits(h)
    ensures var l := Link(AwaitReply, AddrPc(h), AddrBytes(h)[1..] + PortBytes(p), []);
            CanMove(l, ServerTurn) && LinkInv(Move(l, ServerTurn, h, p, status), h, p, status)
  {
    match h {
      case Ip(o) =>
        IpBytes(o);
        if IsMapped(o) {
          ServerMoves(AwaitIPv4, o[12..], PortBytes(p), h, p, status);
        } else {
          ServerMoves(AwaitIPv6, o, PortBytes(p), h, p, status);
        }
      case Domain(d) =>
        NameBytes(d, PortBytes(p));
        ServerMoves(AwaitNameLen, [|d|], d + PortBytes(p), h, p, status);
    }
  }

  lemma {:induction false} ServerReadsHeader(h: Host, p: Port, status: byte)
    ensures var l := Link(AwaitReply, AwaitRequest, Request(h, p), []);
            && CanMove(l, ServerTurn)
            && Move(l, ServerTurn, h, p, status) == Link(AwaitReply, AddrPc(h), AddrBytes(h)[1..] + PortBytes(p), [])
  {
    var addr := AddrBytes(h);
    RequestParts(addr, PortBytes(p), []);
    assert Request(h, p) + [] == Request(h, p) && PortBytes(p) + [] == PortBytes(p);
    HeaderStep(h);
    ServerMoves(AwaitRequest, [0x05, 0x01, 0x00, addr[0]], addr[1..] + PortBytes(p), h, p, status);
  }

  lemma {:induction false} PortSplit(b: bytes, p: Port)
    requires |b| == 2
    ensures PortOf(b) == p <==> b == [p / 0x100, p % 0x100]
  {
    if b == [p / 0x100, p % 0x100] {
      assert b[0] == p / 0x100 && b[1] == p % 0x100;
    }
    assert PortOf(b) / 0x100 == b[0] && PortOf(b) % 0x100 == b[1];
  }

  lemma {:induction false} ServerReadsName(h: Host, p: Port, status: byte)
    requires Fits(h) && h.Domain?
    ensures var l := Link(AwaitReply, AwaitName(|h.name|), h.name + PortBytes(p), []);
            && CanMove(l, ServerTurn)
            && Move(l, ServerTurn, h, p, status) == Link(AwaitReply, AwaitPort(h), PortBytes(p), [])
  {
    ServerMoves(AwaitName(|h.name|), h.name, PortBytes(p), h, p, status);
  }

  lemma {:induction false} ServerReadsPort(h: Host, p: Port, status: byte)
    ensures var l := Link(AwaitReply, AwaitPort(h), PortBytes(p), []);
            CanMove(l, ServerTurn) && Move(l, ServerTurn, h, p, status) == Link(AwaitReply, Asked(h, p), [], [])
  {
    Empty(PortBytes(p));
    PortSplit(PortBytes(p), p);
    ServerMoves(AwaitPort(h), PortBytes(p), [], h, p, status);
  }

  lemma {:induction false} ServerReadsRequest(l: Link, h: Host, p: Port, status: byte)
    requires Fits(h) && LinkInv(l, h, p, status) && CanMove(l, ServerTurn) && l.client.AwaitReply?
    ensures LinkInv(Move(l, ServerTurn, h, p, status), h, p, status)
  {
    if l.server.AwaitRequest? {
      ServerReadsHeader(h, p, status);
    } else if l.server == AddrPc(h) {
      ServerReadsAddr(h, p, status);
    } else if l.server.AwaitName? {
      ServerReadsName(h, p, status);
    } else if l.server.AwaitPort? {
      ServerReadsPort(h, p, status);
    } else {
      assert l.server == Asked(h, p);
    }
  }

  // ---------------------------------------------------------------- runs

  ghost predicate IsRun(l: Link, run: seq<Turn>, h: Host, p: Port, status: byte)
    decreases |run|
  {
    run == [] || (CanMove(l, run[0]) && IsRun(Move(l, run[0], h, p, status), run[1..], h, p, status))
  }

  ghost function After(l: Link, run: seq<Turn>, h: Host, p: Port, status: byte): Link
    requires IsRun(l, run, h, p, status)
    decreases |run|
  {
    if run == [] then l else After(Move(l, run[0], h, p, status), run[1..], h, p, status)
  }

  lemma {:induction false} RunKeepsInv(l: Link, run: seq<Turn>, h: Host, p: Port, status: byte)
    requires Fits(h) && LinkInv(l, h, p, status) && IsRun(l, run, h, p, status)
    ensures LinkInv(After(l, run, h, p, status), h, p, status)
    decreases |run|
  {
    if run != [] {
      match run[0] {
        case ClientTurn => ClientKeeps(l, h, p, status);
        case ServerTurn =>
          if l.client.AwaitReply? {
            ServerReadsRequest(l, h, p, status);
          } else {
            ServerNegotiates(l, h, p, status);
          }
      }
      RunKeepsInv(Move(l, run[0], h, p, status), run[1..], h, p, status);
    }
  }

  /**
   * In every interleaving, for every host that fits and every port: the server never learns anything but that host
   * and port and never refuses; when neither end can move, the server has served exactly that target, and the
   * dialer is connected with every byte read on both sides if the target was reached, and has given up if not.
   */
  lemma {:induction false} HandshakeAgrees(run: seq<Turn>, h: Host, p: Port, status: byte)
    requires Fits(h) && IsRun(START, run, h, p, status)
    ensures var l := After(START, run, h, p, status);
            && !l.server.Refused?
            && (l.server.Asked? || l.server.Served? ==> l.server.host == h && l.server.port == p)
            && (!CanMove(l, ClientTurn) && !CanMove(l, ServerTurn) ==>
                  && l.server == Served(h, p)
                  && if status == 0x00 then l.client == Connected && l.up == [] && l.down == [] else l.client == GaveUp)
  {
    RunKeepsInv(START, run, h, p, status);
    var l := After(START, run, h, p, status);
    if l.client.AwaitReply? && l.server == AddrPc(h) {
      ServerReadsAddr(h, p, status);
    }
  }

  /** How many moves are left at most: every move of either end makes this smaller, so every run comes to an end. */
  function Remaining(l: Link): nat {
    ClientRank(l.client) + ServerRank(l.server)
  }

  function ServerRank(pc: ServerPc): nat {
    if pc.Asked? then 1 else Rank(pc)
  }

  lemma {:induction false} MovesRunOut(l: Link, t: Turn, h: Host, p: Port, status: byte)
    requires CanMove(l, t)
    ensures Remaining(Move(l, t, h, p, status)) < Remaining(l)
  {}
}
