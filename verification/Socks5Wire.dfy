/**
 * What either end of the SOCKS5 handshake makes of any bytes at all, said in the bytes of RFC 1928: which streams are
 * served, how the others are answered, and which replies connect the dialer.
 */
module Socks5Wire {
  import opened Bytes
  import opened NetAddr
  import opened Socks5

  // ---------------------------------------------------------------- what the server makes of any bytes

  /** An address on the wire: type 1 and four bytes, type 3 and a counted name, or type 4 and sixteen bytes. */
  predicate AddressText(addr: bytes, h: Host) {
    match h
    case Domain(d) => |d| < 0x100 && addr == [0x03, |d|] + d
    case Ip(o) =>
      || addr == [0x04] + o
      || (o[..12] == [0, 0, 0, 0, 0, 0, 0, 0, 0, 0, 0xFF, 0xFF] && addr == [0x01] + o[12..])
  }

  /** A greeting that offers `methods`. */
  predicate Greets(input: bytes, methods: bytes, rest: bytes) {
    |methods| < 0x100 && input == [0x05, |methods|] + (methods + rest)
  }

  /** A CONNECT request for that target. */
  predicate Requests(input: bytes, reserved: byte, addr: bytes, h: Host, p: Port, rest: bytes) {
    AddressText(addr, h) && input == [0x05, 0x01, reserved] + (addr + ([p / 0x100, p % 0x100] + rest))
  }

  /** Behind the address: two bytes of port. */
  lemma {:induction false} PortIff(host: Host, input: bytes, h: Host, p: Port, rest: bytes)
    ensures Drive(AwaitPort(host), input) == (Asked(h, p), [], rest)
            <==> h == host && input == [p / 0x100, p % 0x100] + rest
  {
    if |input| >= 2 {
      PortSplit(input[..2], p);
      SilentStep(AwaitPort(host), input);
      assert input == input[..2] + input[2..];
    }
    if input == [p / 0x100, p % 0x100] + rest {
      assert input[..2] == [p / 0x100, p % 0x100] && input[2..] == rest;
    }
  }

  /** The bytes of an address of known length, and then the port. */
  lemma {:induction false} FixedIff(pc: ServerPc, host: Host, b: bytes, input: bytes, h: Host, p: Port, rest: bytes)
    requires !HandshakeOver(pc) && !pc.AwaitMethods? && |b| == ServerNeeds(pc) <= |input|
    requires b == input[..ServerNeeds(pc)] && ServerNext(pc, b).0 == AwaitPort(host)
    ensures Drive(pc, input) == (Asked(h, p), [], rest)
            <==> h == host && input == b + ([p / 0x100, p % 0x100] + rest)
  {
    SilentStep(pc, input);
    PortIff(host, input[|b|..], h, p, rest);
    Sliced(b, input);
    Sliced2(b, [p / 0x100, p % 0x100] + rest, input);
  }

  lemma {:induction false} Sliced(b: bytes, input: bytes)
    requires |b| <= |input| && b == input[..|b|]
    ensures input == b + input[|b|..]
  {}

  lemma {:induction false} Sliced2(b: bytes, more: bytes, input: bytes)
    ensures input == b + more ==> |b| <= |input| && input[..|b|] == b && input[|b|..] == more
  {}

  /** Where the header leads for an address type. */
  function AddressPc(atyp: byte): ServerPc
    requires atyp == 0x01 || atyp == 0x03 || atyp == 0x04
  {
    if atyp == 0x01 then AwaitIPv4 else if atyp == 0x03 then AwaitNameLen else AwaitIPv6
  }

  /** Address and port in the bytes behind the address type. */
  predicate AddressAt(atyp: byte, tail: bytes, addr: bytes, h: Host, p: Port, rest: bytes) {
    AddressText(addr, h) && addr[0] == atyp && tail == addr[1..] + ([p / 0x100, p % 0x100] + rest)
  }

  lemma {:induction false} MappedParts(b: Quad, o: Octets)
    ensures Mapped(b)[..12] == [0, 0, 0, 0, 0, 0, 0, 0, 0, 0, 0xFF, 0xFF] && Mapped(b)[12..] == b
    ensures o[..12] == [0, 0, 0, 0, 0, 0, 0, 0, 0, 0, 0xFF, 0xFF] ==> o == Mapped(o[12..])
  {
    assert o == o[..12] + o[12..];
  }

  lemma {:induction false} TypeOnly(atyp: byte, b: bytes)
    ensures ([atyp] + b)[0] == atyp && ([atyp] + b)[1..] == b
  {}

  lemma {:induction false} FourRead(tail: bytes, addr: bytes, h: Host, p: Port, rest: bytes)
    ensures AddressAt(0x01, tail, addr, h, p, rest) ==> Drive(AwaitIPv4, tail) == (Asked(h, p), [], rest)
    ensures Drive(AwaitIPv4, tail) == (Asked(h, p), [], rest) ==>
              |tail| >= 4 && AddressAt(0x01, tail, [0x01] + tail[..4], h, p, rest)
  {
    if AddressAt(0x01, tail, addr, h, p, rest) && h.Ip? {
      TypeOnly(0x01, h.octets[12..]);
      TypeOnly(0x04, h.octets);
      Sliced2(h.octets[12..], [p / 0x100, p % 0x100] + rest, tail);
      MappedParts(h.octets[12..], h.octets);
    }
    if |tail| >= 4 {
      var b: Quad := tail[..4];
      FixedIff(AwaitIPv4, Ip(Mapped(b)), b, tail, h, p, rest);
      TypeOnly(0x01, b);
      MappedParts(b, Mapped(b));
    }
  }

  lemma {:induction false} SixteenRead(tail: bytes, addr: bytes, h: Host, p: Port, rest: bytes)
    ensures AddressAt(0x04, tail, addr, h, p, rest) ==> Drive(AwaitIPv6, tail) == (Asked(h, p), [], rest)
    ensures Drive(AwaitIPv6, tail) == (Asked(h, p), [], rest) ==>
              |tail| >= 16 && AddressAt(0x04, tail, [0x04] + tail[..16], h, p, rest)
  {
    if AddressAt(0x04, tail, addr, h, p, rest) && h.Ip? {
      TypeOnly(0x01, h.octets[12..]);
      TypeOnly(0x04, h.octets);
      Sliced2(h.octets, [p / 0x100, p % 0x100] + rest, tail);
    }
    if |tail| >= 16 {
      FixedIff(AwaitIPv6, Ip(tail[..16]), tail[..16], tail, h, p, rest);
      TypeOnly(0x04, tail[..16]);
    }
  }

  /** A name behind its length. */
  lemma {:induction false} CountedRead(n: byte, tail: bytes, d: bytes, p: Port, rest: bytes)
    ensures |d| == n && tail == d + ([p / 0x100, p % 0x100] + rest) ==>
              Drive(AwaitName(n), tail) == (Asked(Domain(d), p), [], rest)
    ensures forall h :: Drive(AwaitName(n), tail) == (Asked(h, p), [], rest) ==>
              n <= |tail| && h == Domain(tail[..n]) && tail == tail[..n] + ([p / 0x100, p % 0x100] + rest)
  {
    Sliced2(d, [p / 0x100, p % 0x100] + rest, tail);
    if n <= |tail| {
      forall h
        ensures Drive(AwaitName(n), tail) == (Asked(h, p), [], rest) <==>
                h == Domain(tail[..n]) && tail == tail[..n] + ([p / 0x100, p % 0x100] + rest)
      {
        FixedIff(AwaitName(n), Domain(tail[..n]), tail[..n], tail, h, p, rest);
      }
    }
  }

  lemma {:induction false} NameTail(d: bytes, more: bytes, addr: bytes, tail: bytes)
    requires |d| < 0x100 && addr == [0x03, |d|] + d
    ensures addr[0] == 0x03 && addr[1..] + more == [|d|] + (d + more)
  {
    assert addr[1..] == [|d|] + d;
    Assoc([|d|], d, more);
  }

  lemma {:induction false} NameWasRead(tail: bytes, h: Host, p: Port, rest: bytes) returns (addr: bytes)
    requires |tail| >= 1 && Drive(AwaitName(tail[0]), tail[1..]) == (Asked(h, p), [], rest)
    ensures AddressAt(0x03, tail, addr, h, p, rest)
  {
    var n, more := tail[0], tail[1..];
    CountedRead(n, more, [], p, rest);
    addr := NameForm(tail, n, more, more[..n], [p / 0x100, p % 0x100] + rest);
  }

  lemma {:induction false} NameForm(tail: bytes, n: byte, more: bytes, d: bytes, port: bytes) returns (addr: bytes)
    requires |tail| >= 1 && tail[0] == n && tail[1..] == more && |d| == n && more == d + port
    ensures AddressText(addr, Domain(d)) && addr[0] == 0x03 && tail == addr[1..] + port
  {
    addr := [0x03, |d|] + d;
    NameTail(d, port, addr, tail);
    assert tail == [n] + more;
  }

  lemma {:induction false} NamedRead(tail: bytes, addr: bytes, h: Host, p: Port, rest: bytes)
    ensures AddressAt(0x03, tail, addr, h, p, rest) ==> Drive(AwaitNameLen, tail) == (Asked(h, p), [], rest)
    ensures Drive(AwaitNameLen, tail) == (Asked(h, p), [], rest) ==>
              exists a :: AddressAt(0x03, tail, a, h, p, rest)
  {
    if AddressAt(0x03, tail, addr, h, p, rest) {
      NameIsRead(tail, addr, h, p, rest);
    }
    if Drive(AwaitNameLen, tail) == (Asked(h, p), [], rest) {
      LengthRead(tail);
      var a := NameWasRead(tail, h, p, rest);
    }
  }

  lemma {:induction false} LengthRead(tail: bytes)
    requires Drive(AwaitNameLen, tail).0.Asked?
    ensures |tail| >= 1 && Drive(AwaitNameLen, tail) == Drive(AwaitName(tail[0]), tail[1..])
  {
    NotEnough(AwaitNameLen, tail);
    SilentStep(AwaitNameLen, tail);
  }

  lemma {:induction false} NotEnough(pc: ServerPc, input: bytes)
    requires !HandshakeOver(pc)
    ensures |input| < ServerNeeds(pc) ==> Drive(pc, input) == (pc, [], input)
  {}

  lemma {:induction false} NameIsRead(tail: bytes, addr: bytes, h: Host, p: Port, rest: bytes)
    requires AddressAt(0x03, tail, addr, h, p, rest)
    ensures Drive(AwaitNameLen, tail) == (Asked(h, p), [], rest)
  {
    if h.Ip? {
      TypeOnly(0x01, h.octets[12..]);
      TypeOnly(0x04, h.octets);
    } else {
      var port := [p / 0x100, p % 0x100] + rest;
      NameTail(h.name, port, addr, tail);
      Sliced2([|h.name|], h.name + port, tail);
      SilentStep(AwaitNameLen, tail);
      CountedRead(|h.name|, h.name + port, h.name, p, rest);
    }
  }

  lemma {:induction false} AddressRead(atyp: byte, tail: bytes, addr: bytes, h: Host, p: Port, rest: bytes)
    requires atyp == 0x01 || atyp == 0x03 || atyp == 0x04
    ensures AddressAt(atyp, tail, addr, h, p, rest) ==> Drive(AddressPc(atyp), tail) == (Asked(h, p), [], rest)
    ensures Drive(AddressPc(atyp), tail) == (Asked(h, p), [], rest) ==>
              exists a :: AddressAt(atyp, tail, a, h, p, rest)
  {
    if atyp == 0x01 {
      FourRead(tail, addr, h, p, rest);
    } else if atyp == 0x03 {
      NamedRead(tail, addr, h, p, rest);
    } else {
      SixteenRead(tail, addr, h, p, rest);
    }
  }

  lemma {:induction false} AddressType(addr: bytes, h: Host)
    requires AddressText(addr, h)
    ensures addr != [] && (addr[0] == 0x01 || addr[0] == 0x03 || addr[0] == 0x04)
  {
    if h.Ip? {
      TypeOnly(0x01, h.octets[12..]);
      TypeOnly(0x04, h.octets);
    }
  }

  lemma {:induction false} HeaderParts(input: bytes, reserved: byte, addr: bytes, more: bytes)
    requires addr != []
    ensures input == [0x05, 0x01, reserved] + (addr + more) <==>
            && |input| >= 4 && input[0] == 0x05 && input[1] == 0x01 && input[2] == reserved && input[3] == addr[0]
            && input[4..] == addr[1..] + more
  {
    var all := [0x05, 0x01, reserved] + (addr + more);
    assert all[3] == addr[0] && all[4..] == addr[1..] + more && all[..3] == [0x05, 0x01, reserved];
    if |input| >= 4 && input[..3] == [0x05, 0x01, reserved] && input[3] == addr[0] && input[4..] == all[4..] {
      assert input == input[..3] + [input[3]] + input[4..];
      assert all == all[..3] + [all[3]] + all[4..];
    }
  }

  /** A request is understood as a target exactly if it is a CONNECT request for it, byte for byte. */
  lemma {:induction false} RequestReadIff(input: bytes, h: Host, p: Port, rest: bytes)
    ensures Drive(AwaitRequest, input) == (Asked(h, p), [], rest)
            <==> exists reserved, addr :: Requests(input, reserved, addr, h, p, rest)
  {
    var port := [p / 0x100, p % 0x100] + rest;
    forall reserved: byte, addr: bytes | Requests(input, reserved, addr, h, p, rest)
      ensures Drive(AwaitRequest, input) == (Asked(h, p), [], rest)
    {
      AddressType(addr, h);
      HeaderParts(input, reserved, addr, port);
      RequestStep(input);
      AddressRead(addr[0], input[4..], addr, h, p, rest);
    }
    if Drive(AwaitRequest, input) == (Asked(h, p), [], rest) {
      RequestTargets(input, h, p, rest);
    }
  }

  lemma {:induction false} RequestStep(input: bytes)
    requires |input| >= 4 && input[0] == 0x05 && input[1] == 0x01
    requires input[3] == 0x01 || input[3] == 0x03 || input[3] == 0x04
    ensures Drive(AwaitRequest, input) == Drive(AddressPc(input[3]), input[4..])
  {
    SilentStep(AwaitRequest, input);
    assert input[..4][0] == input[0] && input[..4][1] == input[1] && input[..4][3] == input[3];
  }

  lemma {:induction false} HeaderAsked(input: bytes)
    requires Drive(AwaitRequest, input).0.Asked?
    ensures |input| >= 4 && input[0] == 0x05 && input[1] == 0x01
    ensures input[3] == 0x01 || input[3] == 0x03 || input[3] == 0x04
  {
    NotEnough(AwaitRequest, input);
    RequestTurnedDown(input);
  }

  lemma {:induction false} RequestTargets(input: bytes, h: Host, p: Port, rest: bytes)
    requires Drive(AwaitRequest, input) == (Asked(h, p), [], rest)
    ensures exists reserved, addr :: Requests(input, reserved, addr, h, p, rest)
  {
    HeaderAsked(input);
    RequestStep(input);
    AddressRead(input[3], input[4..], [], h, p, rest);
    var a :| AddressAt(input[3], input[4..], a, h, p, rest);
    RequestForm(input, a, h, p, rest);
  }

  lemma {:induction false} RequestForm(input: bytes, addr: bytes, h: Host, p: Port, rest: bytes)
    requires |input| >= 4 && input[0] == 0x05 && input[1] == 0x01 && AddressAt(input[3], input[4..], addr, h, p, rest)
    ensures Requests(input, input[2], addr, h, p, rest)
  {
    HeaderParts(input, input[2], addr, [p / 0x100, p % 0x100] + rest);
  }

  /** The answers for greetings, each in all its forms. */
  lemma {:induction false} GreetingTurnedDown(input: bytes, methods: bytes, rest: bytes)
    requires |input| >= 2
    ensures input[0] != 0x05 ==> Drive(AwaitHello, input) == (Refused(None), [], input[2..])
    ensures Greets(input, methods, rest) && 0x00 !in methods ==>
              Drive(AwaitHello, input) == (Refused(None), [0x05, 0xFF], rest)
    ensures Greets(input, methods, rest) && 0x00 in methods ==>
              var d := Drive(AwaitRequest, rest);
              Drive(AwaitHello, input) == (d.0, [0x05, 0x00] + d.1, d.2)
  {
    SilentStep(AwaitHello, input);
    if Greets(input, methods, rest) {
      Sliced2([0x05, |methods|], methods + rest, input);
      assert input[..2][0] == 0x05 && input[..2][1] == |methods|;
      Sliced2(methods, rest, methods + rest);
      DriveStep(AwaitMethods(|methods|), methods + rest);
      Empty([0x05, 0xFF]);
    }
  }

  /** The reply codes for requests: version 1, command 7, address type 8. */
  lemma {:induction false} RequestTurnedDown(input: bytes)
    requires |input| >= 4
    ensures input[0] != 0x05 ==> Drive(AwaitRequest, input) == (Refused(Some(0x01)), [], input[4..])
    ensures input[0] == 0x05 && input[1] != 0x01 ==> Drive(AwaitRequest, input) == (Refused(Some(0x07)), [], input[4..])
    ensures input[0] == 0x05 && input[1] == 0x01 && input[3] != 0x01 && input[3] != 0x03 && input[3] != 0x04 ==>
              Drive(AwaitRequest, input) == (Refused(Some(0x08)), [], input[4..])
  {
    SilentStep(AwaitRequest, input);
    assert input[..4][0] == input[0] && input[..4][1] == input[1] && input[..4][3] == input[3];
  }

  /** A request is served for a target exactly if the greeting offers no authentication and the request asks for it. */
  lemma {:induction false} ServedIff(input: bytes, h: Host, p: Port, rest: bytes)
    ensures Drive(AwaitHello, input) == (Asked(h, p), [0x05, 0x00], rest) <==>
            exists methods, reserved, addr, more ::
              Greets(input, methods, more) && 0x00 in methods && Requests(more, reserved, addr, h, p, rest)
  {
    forall methods: bytes, reserved: byte, addr: bytes, more: bytes
      | Greets(input, methods, more) && 0x00 in methods && Requests(more, reserved, addr, h, p, rest)
      ensures Drive(AwaitHello, input) == (Asked(h, p), [0x05, 0x00], rest)
    {
      GreetingTurnedDown(input, methods, more);
      RequestReadIff(more, h, p, rest);
      Empty([0x05, 0x00]);
    }
    if Drive(AwaitHello, input) == (Asked(h, p), [0x05, 0x00], rest) {
      var methods, more := GreetingOf(input);
      GreetingTurnedDown(input, methods, more);
      WritesNothing(AwaitRequest, more);
      RequestReadIff(more, h, p, rest);
    }
  }

  /** After the negotiation the server writes nothing until it has dialed. */
  lemma {:induction false} WritesNothing(pc: ServerPc, input: bytes)
    requires !pc.AwaitHello? && !pc.AwaitMethods?
    ensures Drive(pc, input).1 == []
    decreases Rank(pc)
  {
    if !HandshakeOver(pc) {
      NotEnough(pc, input);
      if ServerNeeds(pc) <= |input| {
        var n := ServerNeeds(pc);
        NextPc(pc, input[..n]);
        SilentStep(pc, input);
        WritesNothing(ServerNext(pc, input[..n]).0, input[n..]);
      }
    }
  }

  lemma {:induction false} NextPc(pc: ServerPc, b: bytes)
    requires !HandshakeOver(pc) && !pc.AwaitHello? && |b| == ServerNeeds(pc)
    ensures var next := ServerNext(pc, b).0; !next.AwaitHello? && !next.AwaitMethods? && Rank(next) < Rank(pc)
  {}

  lemma {:induction false} MethodsAsked(n: byte, tail: bytes)
    requires Drive(AwaitMethods(n), tail).0.Asked?
    ensures n <= |tail| && 0x00 in tail[..n]
  {
    NotEnough(AwaitMethods(n), tail);
    DriveStep(AwaitMethods(n), tail);
  }

  lemma {:induction false} HelloAsked(input: bytes)
    requires Drive(AwaitHello, input).0.Asked?
    ensures |input| >= 2 && input[0] == 0x05 && Drive(AwaitHello, input) == Drive(AwaitMethods(input[1]), input[2..])
  {
    NotEnough(AwaitHello, input);
    SilentStep(AwaitHello, input);
    assert input[..2][0] == input[0] && input[..2][1] == input[1];
  }

  lemma {:induction false} GreetingOf(input: bytes) returns (methods: bytes, more: bytes)
    requires Drive(AwaitHello, input).0.Asked?
    ensures |input| >= 2 && Greets(input, methods, more) && 0x00 in methods
  {
    HelloAsked(input);
    var n, tail := input[1], input[2..];
    MethodsAsked(n, tail);
    methods, more := tail[..n], tail[n..];
    GreetingForm(input, n, tail, methods, more);
  }

  lemma {:induction false} GreetingForm(input: bytes, n: byte, tail: bytes, methods: bytes, more: bytes)
    requires |input| >= 2 && input[0] == 0x05 && input[1] == n && tail == input[2..] && n <= |tail|
    requires methods == tail[..n] && more == tail[n..]
    ensures Greets(input, methods, more)
  {
    assert tail == methods + more;
    assert input == [0x05, |methods|] + tail;
  }

  // ---------------------------------------------------------------- a stream that ends early

  /** More bytes continue where the first ones have led. */
  lemma {:induction false} DriveMore(pc: ServerPc, a: bytes, b: bytes)
    ensures var d := Drive(pc, a);
            var e := Drive(d.0, d.2 + b);
            Drive(pc, a + b) == (e.0, d.1 + e.1, e.2)
    decreases Rank(pc)
  {
    if HandshakeOver(pc) || |a| < ServerNeeds(pc) {
      DriveStops(pc, a);
      Empty(Drive(pc, a + b).1);
    } else {
      var n := ServerNeeds(pc);
      var (next, out) := ServerNext(pc, a[..n]);
      assert (a + b)[..n] == a[..n] && (a + b)[n..] == a[n..] + b;
      DriveStep(pc, a);
      DriveStep(pc, a + b);
      RankFalls(pc, a[..n]);
      DriveMore(next, a[n..], b);
      var d := Drive(next, a[n..]);
      Assoc(out, d.1, Drive(d.0, d.2 + b).1);
    }
  }

  lemma {:induction false} DriveStops(pc: ServerPc, a: bytes)
    requires HandshakeOver(pc) || |a| < ServerNeeds(pc)
    ensures Drive(pc, a) == (pc, [], a)
  {}

  lemma {:induction false} RankFalls(pc: ServerPc, b: bytes)
    requires !HandshakeOver(pc) && |b| == ServerNeeds(pc)
    ensures Rank(ServerNext(pc, b).0) < Rank(pc)
  {}

  /** Whether the methods have been agreed on depends on how much of the greeting has arrived. */
  lemma {:induction false} GreetingPart(a: bytes, methods: bytes, rest: bytes, k: nat)
    requires Greets(a, methods, rest) && 0x00 in methods && k <= |a|
    ensures var pc := Drive(AwaitHello, a[..k]).0;
            (pc.AwaitHello? || pc.AwaitMethods?) <==> k < 2 + |methods|
  {
    var b := a[..k];
    if k < 2 {
      DriveStops(AwaitHello, b);
    } else if k < 2 + |methods| {
      assert b[..2] == a[..2] && b[0] == 0x05 && b[1] == |methods|;
      assert b[..2][0] == 0x05 && b[..2][1] == |methods|;
      SilentStep(AwaitHello, b);
      DriveStops(AwaitMethods(|methods|), b[2..]);
    } else {
      GreetingThen(b, methods, a, rest);
    }
  }

  lemma {:induction false} GreetingThen(b: bytes, methods: bytes, a: bytes, rest: bytes)
    requires Greets(a, methods, rest) && 0x00 in methods && b <= a && |b| >= 2 + |methods|
    ensures var pc := Drive(AwaitHello, b).0; !pc.AwaitHello? && !pc.AwaitMethods?
  {
    var more := b[2 + |methods|..];
    assert a[..2 + |methods|] == [0x05, |methods|] + methods;
    assert b == b[..2 + |methods|] + more && b[..2 + |methods|] == a[..2 + |methods|];
    Assoc([0x05, |methods|], methods, more);
    GreetingTurnedDown(b, methods, more);
    NeverBack(AwaitRequest, more);
  }

  lemma {:induction false} NeverBack(pc: ServerPc, input: bytes)
    requires !pc.AwaitHello? && !pc.AwaitMethods?
    ensures var last := Drive(pc, input).0; !last.AwaitHello? && !last.AwaitMethods?
    decreases Rank(pc)
  {
    if HandshakeOver(pc) || |input| < ServerNeeds(pc) {
      DriveStops(pc, input);
    } else {
      var n := ServerNeeds(pc);
      NextPc(pc, input[..n]);
      SilentStep(pc, input);
      NeverBack(ServerNext(pc, input[..n]).0, input[n..]);
    }
  }

  /**
   * A client that breaks off a good handshake anywhere is turned down: without a reply during the greeting, and with
   * reply 1 during the request.
   */
  lemma {:induction false} BrokenOff(
      input: bytes, methods: bytes, reserved: byte, addr: bytes, more: bytes, h: Host, p: Port, k: nat)
    requires Greets(input, methods, more) && 0x00 in methods && Requests(more, reserved, addr, h, p, []) && k < |input|
    ensures EndOfInput(Drive(AwaitHello, input[..k]).0)
         == if k < 2 + |methods| then Refused(None) else Refused(Some(0x01))
  {
    ServedIff(input, h, p, []);
    GreetingPart(input, methods, more, k);
    NotOverYet(input, k, h, p);
  }

  lemma {:induction false} NotOverYet(input: bytes, k: nat, h: Host, p: Port)
    requires k < |input| && Drive(AwaitHello, input) == (Asked(h, p), [0x05, 0x00], [])
    ensures !HandshakeOver(Drive(AwaitHello, input[..k]).0)
  {
    var a, b := input[..k], input[k..];
    assert input == a + b;
    DriveMore(AwaitHello, a, b);
    var d := Drive(AwaitHello, a);
    if HandshakeOver(d.0) {
      DriveStops(d.0, d.2 + b);
    }
  }

  // ---------------------------------------------------------------- what the dialer makes of any bytes

  /** A bound address of a reply, whatever it says: type 1, 3 or 4 with as many bytes as that takes. */
  predicate BoundText(addr: bytes) {
    && addr != []
    && (addr[0] == 0x01 ==> |addr| == 5)
    && (addr[0] == 0x03 ==> |addr| >= 2 && |addr| == 2 + addr[1] as int)
    && (addr[0] == 0x04 ==> |addr| == 17)
    && addr[0] in [0x01, 0x03, 0x04]
  }

  lemma {:induction false} ClientSilent(pc: ClientPc, input: bytes, h: Host, p: Port)
    requires (pc.AwaitReply? || pc.AwaitSkipLen? || pc.AwaitSkip?) && ClientNeeds(pc) <= |input|
    ensures DriveClient(pc, input, h, p)
         == DriveClient(ClientNext(pc, input[..ClientNeeds(pc)], h, p).0, input[ClientNeeds(pc)..], h, p)
  {
    var n := ClientNeeds(pc);
    ClientSilentNext(pc, input[..n], h, p);
    ClientStep(pc, input, h, p);
    NothingWritten(DriveClient(ClientNext(pc, input[..n], h, p).0, input[n..], h, p));
  }

  lemma {:induction false} ClientSilentNext(pc: ClientPc, b: bytes, h: Host, p: Port)
    requires (pc.AwaitReply? || pc.AwaitSkipLen? || pc.AwaitSkip?) && |b| == ClientNeeds(pc)
    ensures ClientNext(pc, b, h, p).1 == []
  {}

  lemma {:induction false} NothingWritten(d: (ClientPc, bytes, bytes))
    ensures (d.0, [] + d.1, d.2) == d
  {
    Empty(d.1);
  }

  lemma {:induction false} Skipped(n: nat, input: bytes, h: Host, p: Port)
    ensures DriveClient(AwaitSkip(n), input, h, p)
         == if n <= |input| then (Connected, [], input[n..]) else (AwaitSkip(n), [], input)
  {
    if n <= |input| {
      ClientSilent(AwaitSkip(n), input, h, p);
    }
  }

  /** How many bytes an address and a port take, by the type and the byte behind it. */
  function BoundSize(atyp: byte, tail: bytes): nat {
    if atyp == 0x01 then 6 else if atyp == 0x04 then 18 else if tail != [] then 3 + tail[0] as int else 3
  }

  lemma {:induction false} BoundSkipped(atyp: byte, tail: bytes, h: Host, p: Port)
    requires atyp in [0x01, 0x03, 0x04]
    ensures var pc := if atyp == 0x01 then AwaitSkip(6) else if atyp == 0x03 then AwaitSkipLen else AwaitSkip(18);
            var d := DriveClient(pc, tail, h, p);
            var n := BoundSize(atyp, tail);
            (d.0.Connected? <==> n <= |tail|) && (n <= |tail| ==> d == (Connected, [], tail[n..]))
  {
    if atyp == 0x01 {
      Skipped(6, tail, h, p);
    } else if atyp == 0x04 {
      Skipped(18, tail, h, p);
    } else if tail != [] {
      ClientSilent(AwaitSkipLen, tail, h, p);
      Skipped(tail[0] as int + 2, tail[1..], h, p);
      assert tail[..1][0] == tail[0];
      if tail[0] as int + 3 <= |tail| {
        assert tail[1..][tail[0] as int + 2..] == tail[tail[0] as int + 3..];
      }
    }
  }

  lemma {:induction false} BoundForm(input: bytes, n: nat, addr: bytes, port: bytes, rest: bytes)
    requires |input| >= 4 && n == BoundSize(input[3], input[4..]) && n <= |input| - 4
    requires input[3] in [0x01, 0x03, 0x04]
    requires addr == input[3..2 + n] && port == input[2 + n..4 + n] && rest == input[4 + n..]
    ensures BoundText(addr) && |port| == 2 && input == input[..3] + (addr + (port + rest))
  {
    assert addr[0] == input[3] && (|addr| >= 2 ==> addr[1] == input[4]);
  }

  lemma {:induction false} BoundRead(input: bytes, reserved: byte, addr: bytes, port: bytes, rest: bytes)
    requires BoundText(addr) && |port| == 2 && input == [0x05, 0x00, reserved] + (addr + (port + rest))
    ensures |input| >= 4 && input[0] == 0x05 && input[1] == 0x00 && input[3] == addr[0]
    ensures var n := BoundSize(input[3], input[4..]); n <= |input| - 4 && input[4..][n..] == rest
  {
    var tail := addr[1..] + (port + rest);
    assert input[3] == addr[0] && input[4..] == tail;
    assert addr[0] == 0x03 ==> tail[0] == addr[1];
    assert tail[|addr| + 1..] == rest;
  }

  /** The dialer is connected exactly by a reply of success with a bound address of any type, and reads no further. */
  lemma {:induction false} ReplyReadIff(input: bytes, h: Host, p: Port, rest: bytes)
    ensures DriveClient(AwaitReply, input, h, p) == (Connected, [], rest) <==>
            exists reserved, addr, port ::
              BoundText(addr) && |port| == 2 && input == [0x05, 0x00, reserved] + (addr + (port + rest))
  {
    forall reserved: byte, addr: bytes, port: bytes
      | BoundText(addr) && |port| == 2 && input == [0x05, 0x00, reserved] + (addr + (port + rest))
      ensures DriveClient(AwaitReply, input, h, p) == (Connected, [], rest)
    {
      BoundRead(input, reserved, addr, port, rest);
      ReplyStep(input, h, p);
      BoundSkipped(input[3], input[4..], h, p);
    }
    if DriveClient(AwaitReply, input, h, p) == (Connected, [], rest) {
      ReplyParts(input, h, p, rest);
    }
  }

  /** Any other reply makes it give up. */
  lemma {:induction false} ReplyStep(input: bytes, h: Host, p: Port)
    requires |input| >= 4
    ensures input[0] == 0x05 && input[1] == 0x00 && input[3] in [0x01, 0x03, 0x04] ==>
              var atyp := input[3];
              var pc := if atyp == 0x01 then AwaitSkip(6) else if atyp == 0x03 then AwaitSkipLen else AwaitSkip(18);
              DriveClient(AwaitReply, input, h, p) == DriveClient(pc, input[4..], h, p)
    ensures !(input[0] == 0x05 && input[1] == 0x00 && input[3] in [0x01, 0x03, 0x04]) ==>
              DriveClient(AwaitReply, input, h, p) == (GaveUp, [], input[4..])
  {
    ClientSilent(AwaitReply, input, h, p);
    assert input[..4][0] == input[0] && input[..4][1] == input[1] && input[..4][3] == input[3];
  }

  lemma {:induction false} ReplyParts(input: bytes, h: Host, p: Port, rest: bytes)
    requires DriveClient(AwaitReply, input, h, p) == (Connected, [], rest)
    ensures exists reserved, addr, port ::
              BoundText(addr) && |port| == 2 && input == [0x05, 0x00, reserved] + (addr + (port + rest))
  {
    var n := ReplySize(input, h, p, rest);
    var addr, port := input[3..2 + n], input[2 + n..4 + n];
    BoundForm(input, n, addr, port, rest);
    assert input[..3] == [0x05, 0x00, input[2]];
  }

  lemma {:induction false} ReplySize(input: bytes, h: Host, p: Port, rest: bytes) returns (n: nat)
    requires DriveClient(AwaitReply, input, h, p) == (Connected, [], rest)
    ensures |input| >= 4 && input[0] == 0x05 && input[1] == 0x00 && input[3] in [0x01, 0x03, 0x04]
    ensures n == BoundSize(input[3], input[4..]) <= |input| - 4 && rest == input[4 + n..]
  {
    ReplyLongEnough(input, h, p);
    ReplyStep(input, h, p);
    BoundSkipped(input[3], input[4..], h, p);
    n := BoundSize(input[3], input[4..]);
    DropTwice(input, 4, n);
  }

  lemma {:induction false} DropTwice(s: bytes, i: nat, j: nat)
    requires i + j <= |s|
    ensures s[i..][j..] == s[i + j..]
  {}

  lemma {:induction false} ReplyLongEnough(input: bytes, h: Host, p: Port)
    requires DriveClient(AwaitReply, input, h, p).0.Connected?
    ensures |input| >= 4
  {}
}
