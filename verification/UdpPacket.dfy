/** The DNS responder's IP/UDP packets: ones'-complement checksums, the builder, and the parser. */
module UdpPacket {
  import opened Bytes
  import opened NetAddr

  const IP_PROTO_TCP: byte := 6
  const IP_PROTO_UDP: byte := 17

  type uint16 = n: int | 0 <= n < 0x1_0000

  datatype AddrPort = AddrPort(addr: Addr, port: uint16)

  // ---------------------------------------------------------------- big-endian words

  function Get16(b: bytes, i: nat): uint16
    requires i + 2 <= |b|
  {
    (b[i] as int) * 0x100 + b[i + 1]
  }

  /** The two bytes a 16-bit store writes: the value is truncated to its low sixteen bits. */
  function BE16(n: nat): (b: bytes)
    ensures |b| == 2
    ensures Get16(b, 0) == n % 0x1_0000
  {
    [n / 0x100 % 0x100, n % 0x100]
  }

  // ---------------------------------------------------------------- checksums

  /** The exact integer sum of the big-endian words, an odd last byte being the high half of a word. */
  function WordSum(b: bytes): nat {
    if |b| == 0 then 0
    else if |b| == 1 then (b[0] as int) * 0x100
    else Get16(b, 0) + WordSum(b[2..])
  }

  function Fold(sum: nat): uint16
    decreases sum
  {
    if sum > 0xFFFF then Fold(sum / 0x1_0000 + sum % 0x1_0000) else 0xFFFF - sum
  }

  lemma {:induction false} WrapAdd(a: nat, b: nat)
    ensures (a % TWO32 + b) % TWO32 == (a + b) % TWO32
  {
    var q := a / TWO32;
    assert a == q * TWO32 + a % TWO32;
    WrapMultiple(q, a % TWO32 + b);
  }

  lemma {:induction false} WrapMultiple(q: nat, r: nat)
    ensures (q * TWO32 + r) % TWO32 == r % TWO32
  {}

  method ChecksumAdd(sum: uint32, b: bytes) returns (r: uint32)
    ensures r == (sum + WordSum(b)) % TWO32
  {
    r := sum;
    var rest := b;
    while |rest| >= 2
      invariant (r + WordSum(rest)) % TWO32 == (sum + WordSum(b)) % TWO32
      decreases |rest|
    {
      WrapAdd(r + Get16(rest, 0), WordSum(rest[2..]));
      r := (r + Get16(rest, 0)) % TWO32;
      rest := rest[2..];
    }
    if |rest| == 1 {
      r := (r + (rest[0] as int) * 0x100) % TWO32;
    }
  }

  method ChecksumFold(sum: uint32) returns (r: uint16)
    ensures r == Fold(sum)
  {
    var s: nat := sum;
    while s > 0xFFFF
      invariant Fold(s) == Fold(sum)
      decreases s
    {
      s := s / 0x1_0000 + s % 0x1_0000;
    }
    r := 0xFFFF - s;
  }

  /** Folding takes off multiples of 65535 only, and only the sum zero folds to nothing. */
  lemma {:induction false} FoldQuotient(sum: nat) returns (q: nat)
    ensures sum == q * 0xFFFF + (0xFFFF - Fold(sum))
    ensures Fold(sum) == 0xFFFF <==> sum == 0
  {
    if sum > 0xFFFF {
      var high, low := sum / 0x1_0000, sum % 0x1_0000;
      var q' := FoldQuotient(high + low);
      q := q' + high;
    } else {
      q := 0;
    }
  }

  lemma {:induction false} MultipleOf(q: nat, r: nat)
    requires r < 0xFFFF
    ensures (q * 0xFFFF + r) % 0xFFFF == r
  {}

  /** A sum checks exactly when it is a positive multiple of 65535. */
  lemma {:induction false} FoldZeroIff(sum: nat)
    ensures Fold(sum) == 0 <==> sum > 0 && sum % 0xFFFF == 0
  {
    var q := FoldQuotient(sum);
    var r := 0xFFFF - Fold(sum);
    if r == 0xFFFF {
      MultipleOf(q + 1, 0);
    } else {
      MultipleOf(q, r);
    }
  }

  /** Storing the folded complement where a zero word was makes the sum check. */
  lemma {:induction false} ComplementChecks(sum: nat)
    requires sum > 0
    ensures Fold(sum + Fold(sum)) == 0
    ensures Fold(sum) == 0 ==> Fold(sum + 0xFFFF) == 0
  {
    var q := FoldQuotient(sum);
    MultipleOf(q + 1, 0);
    MultipleOf(q + 2, 0);
    FoldZeroIff(sum + Fold(sum));
    if Fold(sum) == 0 {
      FoldZeroIff(sum + 0xFFFF);
    }
  }

  lemma {:induction false} WordSumConcat(a: bytes, b: bytes)
    requires |a| % 2 == 0
    ensures WordSum(a + b) == WordSum(a) + WordSum(b)
  {
    if a == [] {
      assert a + b == b;
    } else {
      assert (a + b)[2..] == a[2..] + b;
      WordSumConcat(a[2..], b);
    }
  }

  lemma {:induction false} WordSumBound(b: bytes)
    ensures WordSum(b) <= 0xFFFF * ((|b| + 1) / 2)
  {
    if |b| >= 2 {
      WordSumBound(b[2..]);
    }
  }

  // ---------------------------------------------------------------- the packet

  function Header4(total: nat, checksum: uint16, s: Quad, d: Quad): (h: bytes)
    ensures |h| == 20
  {
    [0x45, 0] + BE16(total) + [0, 0, 0, 0, 64, IP_PROTO_UDP] + BE16(checksum) + s + d
  }

  function Header6(udpLen: nat, s: Octets, d: Octets): (h: bytes)
    ensures |h| == 40
  {
    [0x60, 0, 0, 0] + BE16(udpLen) + [IP_PROTO_UDP, 64] + s + d
  }

  function Datagram(sport: uint16, dport: uint16, checksum: uint16, payload: bytes): bytes {
    BE16(sport) + BE16(dport) + BE16(8 + |payload|) + BE16(checksum) + payload
  }

  /** The checksum stored in a datagram: a computed zero is sent as 0xffff, since zero means "none". */
  function StoredSum(sum: nat): (c: uint16)
    ensures c != 0
  {
    var folded := Fold(sum % TWO32);
    if folded == 0 then 0xFFFF else folded
  }

  function UdpChecksum(addrs: bytes, sport: uint16, dport: uint16, payload: bytes): uint16 {
    var udpLen := 8 + |payload|;
    var pseudo := (WordSum(addrs) % TWO32 + (IP_PROTO_UDP + udpLen) % TWO32) % TWO32;
    StoredSum(pseudo + WordSum(Datagram(sport, dport, 0, payload)))
  }

  /** A source with four bytes needs a destination that has a four-byte form; the Go accessor panics otherwise. */
  predicate Buildable(src: AddrPort, dst: AddrPort) {
    src.addr.V4? ==> HasQuad(dst.addr)
  }

  function HeaderSum4(total: nat, s: Quad, d: Quad): uint16 {
    Fold(WordSum(Header4(total, 0, s, d)) % TWO32)
  }

  function Packet(src: AddrPort, dst: AddrPort, payload: bytes): bytes
    requires Buildable(src, dst)
  {
    var udpLen := 8 + |payload|;
    match src.addr
    case V4(s) =>
      var d := As4(dst.addr);
      Header4(20 + udpLen, HeaderSum4(20 + udpLen, s, d), s, d)
      + Datagram(src.port, dst.port, UdpChecksum(s + d, src.port, dst.port, payload), payload)
    case V6(s) =>
      var d := As16(dst.addr);
      Header6(udpLen, s, d)
      + Datagram(src.port, dst.port, UdpChecksum(s + d, src.port, dst.port, payload), payload)
  }

  // ---------------------------------------------------------------- building in place

  /** Overwriting part of a buffer. */
  function Splice(buf: bytes, off: nat, part: bytes): (r: bytes)
    requires off + |part| <= |buf|
    ensures |r| == |buf|
  {
    buf[..off] + part + buf[off + |part|..]
  }

  method CopyInto(buf: array<byte>, off: nat, part: bytes)
    requires off + |part| <= buf.Length
    modifies buf
    ensures buf[..] == Splice(old(buf[..]), off, part)
  {
    assert Splice(buf[..], off, part[..0]) == buf[..];
    for i := 0 to |part|
      invariant buf[..] == Splice(old(buf[..]), off, part[..i])
    {
      ghost var before := buf[..];
      buf[off + i] := part[i];
      assert buf[..] == before[off + i := part[i]];
      SpliceNext(old(buf[..]), off, part, i);
    }
    assert part[..|part|] == part;
  }

  lemma {:induction false} SpliceNext(buf: bytes, off: nat, part: bytes, i: nat)
    requires off + |part| <= |buf| && i < |part|
    ensures Splice(buf, off, part[..i])[off + i := part[i]] == Splice(buf, off, part[..i + 1])
  {}

  function Zeros(n: nat): bytes {
    seq(n, _ => 0)
  }

  /** A store beyond what is filled so far leaves a zero gap and extends the filled part. */
  lemma {:induction false} FillNext(filled: bytes, n: nat, off: nat, part: bytes)
    requires |filled| <= off && off + |part| <= |filled| + n
    ensures Splice(filled + Zeros(n), off, part)
         == filled + Zeros(off - |filled|) + part + Zeros(|filled| + n - off - |part|)
  {
    var z := off - |filled|;
    assert (filled + Zeros(n))[..off] == filled + Zeros(z);
    assert (filled + Zeros(n))[off + |part|..] == Zeros(|filled| + n - off - |part|);
  }

  /** A store into the middle replaces just that part. */
  lemma {:induction false} FillMiddle(before: bytes, was: bytes, part: bytes, after: bytes)
    requires |was| == |part|
    ensures Splice(before + was + after, |before|, part) == before + part + after
  {}

  /** One store of the builder: `filled` is what the buffer holds so far, and the rest of it is still zero. */
  method Store(pkt: array<byte>, ghost filled: bytes, off: nat, part: bytes) returns (ghost next: bytes)
    requires |filled| <= off && off + |part| <= pkt.Length
    requires pkt[..] == filled + Zeros(pkt.Length - |filled|)
    modifies pkt
    ensures next == filled + Zeros(off - |filled|) + part && |next| == off + |part|
    ensures pkt[..] == next + Zeros(pkt.Length - |next|)
  {
    CopyInto(pkt, off, part);
    FillNext(filled, pkt.Length - |filled|, off, part);
    next := filled + Zeros(off - |filled|) + part;
  }

  /** Everything of the IPv4 header but its checksum, whose place stays zero. */
  method FillFields4(pkt: array<byte>, total: bytes, s: Quad, d: Quad)
    requires pkt.Length >= 20 && pkt[..] == Zeros(pkt.Length) && |total| == 2
    modifies pkt
    ensures pkt[..] == [0x45, 0] + total + [0, 0, 0, 0, 64, IP_PROTO_UDP] + [0, 0] + s + d + Zeros(pkt.Length - 20)
  {
    assert pkt[..] == [] + Zeros(pkt.Length);
    ghost var h := Store(pkt, [], 0, [0x45]);
    h := Store(pkt, h, 2, total);
    assert h == [0x45, 0] + total;
    h := Store(pkt, h, 8, [64]);
    h := Store(pkt, h, 9, [IP_PROTO_UDP]);
    assert h == [0x45, 0] + total + [0, 0, 0, 0, 64, IP_PROTO_UDP];
    h := Store(pkt, h, 12, s);
    h := Store(pkt, h, 16, d);
    assert h == [0x45, 0] + total + [0, 0, 0, 0, 64, IP_PROTO_UDP] + [0, 0] + s + d;
  }

  method FillHeader4(pkt: array<byte>, s: Quad, d: Quad)
    requires pkt.Length >= 20 && pkt[..] == Zeros(pkt.Length)
    modifies pkt
    ensures pkt[..] == Header4(pkt.Length, HeaderSum4(pkt.Length, s, d), s, d) + Zeros(pkt.Length - 20)
  {
    FillFields4(pkt, BE16(pkt.Length), s, d);
    ghost var h := [0x45, 0] + BE16(pkt.Length) + [0, 0, 0, 0, 64, IP_PROTO_UDP];
    ghost var rest := s + d + Zeros(pkt.Length - 20);
    assert pkt[..] == h + [0, 0] + rest;
    assert BE16(0) == [0, 0];
    assert pkt[..20] == pkt[..][..20] == Header4(pkt.Length, 0, s, d);
    var sum := ChecksumAdd(0, pkt[..20]);
    var folded := ChecksumFold(sum);
    assert folded == HeaderSum4(pkt.Length, s, d);
    CopyInto(pkt, 10, BE16(folded));
    FillMiddle(h, [0, 0], BE16(folded), rest);
    assert h + BE16(folded) + rest == Header4(pkt.Length, folded, s, d) + Zeros(pkt.Length - 20);
  }

  method FillHeader6(pkt: array<byte>, udpLen: nat, s: Octets, d: Octets)
    requires pkt.Length >= 40 && pkt[..] == Zeros(pkt.Length)
    modifies pkt
    ensures pkt[..] == Header6(udpLen, s, d) + Zeros(pkt.Length - 40)
  {
    var len := BE16(udpLen);
    assert pkt[..] == [] + Zeros(pkt.Length);
    ghost var h := Store(pkt, [], 0, [0x60]);
    h := Store(pkt, h, 4, len);
    assert h == [0x60, 0, 0, 0] + len;
    h := Store(pkt, h, 6, [IP_PROTO_UDP]);
    h := Store(pkt, h, 7, [64]);
    assert h == [0x60, 0, 0, 0] + len + [IP_PROTO_UDP, 64];
    h := Store(pkt, h, 8, s);
    h := Store(pkt, h, 24, d);
    assert h == Header6(udpLen, s, d);
  }

  method FillFieldsUdp(pkt: array<byte>, ghost header: bytes, hlen: nat, sport: bytes, dport: bytes, len: bytes,
      payload: bytes)
    requires hlen == |header| && pkt[..] == header + Zeros(8 + |payload|)
    requires |sport| == |dport| == |len| == 2
    modifies pkt
    ensures pkt[..] == header + (sport + dport + len) + [0, 0] + payload
  {
    assert pkt.Length == hlen + 8 + |payload|;
    ghost var h := Store(pkt, header, hlen, sport);
    h := Store(pkt, h, hlen + 2, dport);
    h := Store(pkt, h, hlen + 4, len);
    assert h == header + (sport + dport + len);
    h := Store(pkt, h, hlen + 8, payload);
    assert h == header + (sport + dport + len) + [0, 0] + payload;
  }

  method DatagramChecksum(pseudo: uint32, l4: bytes) returns (c: uint16)
    ensures c == StoredSum(pseudo + WordSum(l4))
  {
    var sum := ChecksumAdd(pseudo, l4);
    c := ChecksumFold(sum);
    if c == 0 {
      c := 0xFFFF;
    }
  }

  lemma {:induction false} DatagramParts(sport: uint16, dport: uint16, payload: bytes, c: uint16)
    ensures Datagram(sport, dport, 0, payload) == BE16(sport) + BE16(dport) + BE16(8 + |payload|) + [0, 0] + payload
    ensures Datagram(sport, dport, c, payload) == BE16(sport) + BE16(dport) + BE16(8 + |payload|) + BE16(c) + payload
  {}

  /** Ports, length, payload, then the checksum over the pseudo-header sum and the datagram so far. */
  method FillDatagram(pkt: array<byte>, ghost header: bytes, hlen: nat, pseudo: uint32, sport: uint16, dport: uint16,
      payload: bytes)
    requires hlen == |header| && pkt[..] == header + Zeros(8 + |payload|)
    modifies pkt
    ensures var sum := StoredSum(pseudo + WordSum(Datagram(sport, dport, 0, payload)));
            pkt[..] == header + Datagram(sport, dport, sum, payload)
  {
    var sp, dp, len := BE16(sport), BE16(dport), BE16(8 + |payload|);
    FillFieldsUdp(pkt, header, hlen, sp, dp, len, payload);
    ghost var fields := sp + dp + len;
    assert pkt[hlen..] == pkt[..][hlen..] == fields + [0, 0] + payload;
    var sum := DatagramChecksum(pseudo, pkt[hlen..]);
    DatagramParts(sport, dport, payload, sum);
    StoreChecksum(pkt, header + fields, hlen + 6, BE16(sum), payload);
    assert header + fields + BE16(sum) + payload == header + (fields + BE16(sum) + payload);
  }

  method StoreChecksum(pkt: array<byte>, ghost before: bytes, off: nat, c: bytes, ghost after: bytes)
    requires |c| == 2 && off == |before| && pkt[..] == before + [0, 0] + after
    modifies pkt
    ensures pkt[..] == before + c + after
  {
    CopyInto(pkt, off, c);
    FillMiddle(before, [0, 0], c, after);
  }

  lemma {:induction false} HeaderAddrs4(total: nat, checksum: uint16, s: Quad, d: Quad)
    ensures Header4(total, checksum, s, d)[12..] == s + d
  {}

  lemma {:induction false} HeaderAddrs6(udpLen: nat, s: Octets, d: Octets)
    ensures Header6(udpLen, s, d)[8..] == s + d
  {}

  /** The part common to both families: the pseudo-header sum over the addresses at `lo`, then the datagram. */
  method FinishPacket(pkt: array<byte>, ghost header: bytes, lo: nat, hlen: nat, sport: uint16, dport: uint16,
      payload: bytes)
    requires lo <= hlen == |header| && pkt[..] == header + Zeros(8 + |payload|)
    modifies pkt
    ensures pkt[..] == header + Datagram(sport, dport, UdpChecksum(header[lo..], sport, dport, payload), payload)
  {
    var udpLen := 8 + |payload|;
    assert pkt[lo..hlen] == pkt[..][lo..hlen] == header[lo..];
    var addrs := ChecksumAdd(0, pkt[lo..hlen]);
    var pseudo := (addrs + (IP_PROTO_UDP + udpLen) % TWO32) % TWO32;
    FillDatagram(pkt, header, hlen, pseudo, sport, dport, payload);
  }

  method BuildFrom4(s: Quad, d: Quad, sport: uint16, dport: uint16, payload: bytes) returns (pkt: array<byte>)
    ensures fresh(pkt) && pkt[..] == Packet(AddrPort(V4(s), sport), AddrPort(V4(d), dport), payload)
  {
    var total := 20 + (8 + |payload|);
    pkt := new byte[total](_ => 0);
    FillHeader4(pkt, s, d);
    HeaderAddrs4(total, HeaderSum4(total, s, d), s, d);
    FinishPacket(pkt, Header4(total, HeaderSum4(total, s, d), s, d), 12, 20, sport, dport, payload);
  }

  method BuildFrom6(s: Octets, d: Octets, sport: uint16, dport: uint16, payload: bytes) returns (pkt: array<byte>)
    ensures fresh(pkt) && pkt[..] == Packet(AddrPort(V6(s), sport), AddrPort(V6(d), dport), payload)
  {
    var udpLen := 8 + |payload|;
    pkt := new byte[40 + udpLen](_ => 0);
    FillHeader6(pkt, udpLen, s, d);
    HeaderAddrs6(udpLen, s, d);
    FinishPacket(pkt, Header6(udpLen, s, d), 8, 40, sport, dport, payload);
  }

  method BuildUDPPacket(src: AddrPort, dst: AddrPort, payload: bytes) returns (pkt: array<byte>)
    requires Buildable(src, dst)
    ensures fresh(pkt) && pkt[..] == Packet(src, dst, payload)
  {
    match src.addr {
      case V4(s) => pkt := BuildFrom4(s, As4(dst.addr), src.port, dst.port, payload);
      case V6(s) => pkt := BuildFrom6(s, As16(dst.addr), src.port, dst.port, payload);
    }
  }

  // ---------------------------------------------------------------- the checksums verify

  const MAX_PAYLOAD_4 := 65507
  const MAX_PAYLOAD_6 := 65527

  predicate FitsLength(src: Addr, payload: bytes) {
    |payload| <= if src.V4? then MAX_PAYLOAD_4 else MAX_PAYLOAD_6
  }

  /** What a receiver adds up for the UDP checksum: addresses, protocol, length, and the datagram itself. */
  function PseudoSum(addrs: bytes, l4: bytes): nat {
    WordSum(addrs) + IP_PROTO_UDP + |l4| + WordSum(l4)
  }

  lemma {:induction false} WordSum2(b: bytes)
    requires |b| == 2
    ensures WordSum(b) == Get16(b, 0)
  {
    assert b[2..] == [];
  }

  /** Filling in a word that was zero adds its value to the sum. */
  lemma {:induction false} SumWithWord(before: bytes, c: uint16, after: bytes)
    requires |before| % 2 == 0
    ensures WordSum(before + BE16(c) + after) == WordSum(before + BE16(0) + after) + c
  {
    forall v: uint16
      ensures WordSum(before + BE16(v) + after) == WordSum(before) + v + WordSum(after)
    {
      WordSumConcat(before + BE16(v), after);
      WordSumConcat(before, BE16(v));
      WordSum2(BE16(v));
    }
  }

  lemma {:induction false} HeaderWithSum(total: nat, c: uint16, s: Quad, d: Quad)
    ensures WordSum(Header4(total, c, s, d)) == WordSum(Header4(total, 0, s, d)) + c
  {
    var before := [0x45, 0] + BE16(total) + [0, 0, 0, 0, 64, IP_PROTO_UDP];
    assert Header4(total, c, s, d) == before + BE16(c) + (s + d);
    assert Header4(total, 0, s, d) == before + BE16(0) + (s + d);
    SumWithWord(before, c, s + d);
  }

  lemma {:induction false} HeaderChecks4(total: nat, s: Quad, d: Quad)
    ensures WordSum(Header4(total, HeaderSum4(total, s, d), s, d)) < TWO32
    ensures Fold(WordSum(Header4(total, HeaderSum4(total, s, d), s, d))) == 0
  {
    var c := HeaderSum4(total, s, d);
    HeaderWithSum(total, c, s, d);
    WordSumBound(Header4(total, 0, s, d));
    var sum := WordSum(Header4(total, 0, s, d));
    assert sum > 0 by {
      assert Get16(Header4(total, 0, s, d), 0) == 0x4500;
    }
    assert c == Fold(sum);
    ComplementChecks(sum);
  }

  /** Within the length bound no 32-bit accumulator wraps, so the stored checksum is that of the exact sum. */
  lemma {:induction false} ExactChecksum(addrs: bytes, sport: uint16, dport: uint16, payload: bytes)
    requires |addrs| == 8 || |addrs| == 32
    requires |payload| <= MAX_PAYLOAD_6
    ensures PseudoSum(addrs, Datagram(sport, dport, 0, payload)) + 0xFFFF < TWO32
    ensures UdpChecksum(addrs, sport, dport, payload) == StoredSum(PseudoSum(addrs, Datagram(sport, dport, 0, payload)))
  {
    var zero := Datagram(sport, dport, 0, payload);
    var sum := WordSum(zero);
    assert WordSum(addrs) <= 0xFFFF * 16 by {
      WordSumBound(addrs);
    }
    assert sum <= 0xFFFF * 0x8000 by {
      WordSumBound(zero);
    }
    NoWrap(WordSum(addrs), IP_PROTO_UDP + (8 + |payload|));
    assert |zero| == 8 + |payload|;
  }

  lemma {:induction false} NoWrap(a: nat, b: nat)
    requires a + b < TWO32
    ensures (a % TWO32 + b % TWO32) % TWO32 == a + b
  {}

  lemma {:induction false} StoredSumChecks(sum: nat)
    requires 0 < sum < TWO32
    ensures Fold(sum + StoredSum(sum)) == 0
  {
    ComplementChecks(sum);
    assert sum % TWO32 == sum;
  }

  lemma {:induction false} DatagramChecks(addrs: bytes, sport: uint16, dport: uint16, payload: bytes)
    requires |addrs| == 8 || |addrs| == 32
    requires |payload| <= MAX_PAYLOAD_6
    ensures PseudoSum(addrs, Datagram(sport, dport, UdpChecksum(addrs, sport, dport, payload), payload)) < TWO32
    ensures Fold(PseudoSum(addrs, Datagram(sport, dport, UdpChecksum(addrs, sport, dport, payload), payload))) == 0
  {
    var c := UdpChecksum(addrs, sport, dport, payload);
    var zero := Datagram(sport, dport, 0, payload);
    var sum := PseudoSum(addrs, zero);
    ExactChecksum(addrs, sport, dport, payload);
    assert PseudoSum(addrs, Datagram(sport, dport, c, payload)) == sum + c by {
      SumWithWord(BE16(sport) + BE16(dport) + BE16(8 + |payload|), c, payload);
    }
    StoredSumChecks(sum);
  }

  // ---------------------------------------------------------------- parsing

  /** `l4` is empty when the packet is not a first fragment, so that its ports are unknown. */
  datatype PacketInfo = PacketInfo(src: Addr, dst: Addr, proto: byte, l4: bytes, ports: Option<(uint16, uint16)>)

  function Ports(proto: byte, l4: bytes): Option<(uint16, uint16)> {
    if (proto == IP_PROTO_TCP || proto == IP_PROTO_UDP) && |l4| >= 8
    then Some((Get16(l4, 0), Get16(l4, 2))) else None
  }

  /** Total on every input: a short, truncated or foreign packet is rejected, never read past its end. */
  function ParseIPPacket(pkt: bytes): (r: Option<PacketInfo>)
    ensures r.Some? ==> |r.value.l4| <= |pkt| && exists k :: 0 <= k <= |pkt| && r.value.l4 <= pkt[k..]
  {
    if |pkt| < 1 then None
    else if pkt[0] / 16 == 4 then
      if |pkt| < 20 then None
      else
        var ihl := pkt[0] % 16 * 4;
        var total := Get16(pkt, 2);
        if ihl < 20 || total < ihl || total > |pkt| then None
        else
          var l4 := if Get16(pkt, 6) % 0x2000 == 0 then pkt[ihl..total] else [];
          assert l4 <= pkt[ihl..];
          Some(PacketInfo(V4(pkt[12..16]), V4(pkt[16..20]), pkt[9], l4, Ports(pkt[9], l4)))
    else if pkt[0] / 16 == 6 then
      if |pkt| < 40 then None
      else
        var payloadLen := Get16(pkt, 4);
        if 40 + payloadLen > |pkt| then None
        else
          var l4 := pkt[40..40 + payloadLen];
          assert l4 <= pkt[40..];
          Some(PacketInfo(V6(pkt[8..24]), V6(pkt[24..40]), pkt[6], l4, Ports(pkt[6], l4)))
    else None
  }

  function UdpPayload(info: PacketInfo): Option<bytes> {
    if info.proto != IP_PROTO_UDP || |info.l4| < 8 then None
    else
      var n := Get16(info.l4, 4);
      if n < 8 || n > |info.l4| then None else Some(info.l4[8..n])
  }

  /** The parser gives back everything that went into the packet. */
  predicate Recovers(pkt: bytes, src: AddrPort, dst: AddrPort, payload: bytes) {
    var r := ParseIPPacket(pkt);
    && r.Some?
    && r.value.src == src.addr && r.value.dst == dst.addr
    && r.value.ports == Some((src.port, dst.port))
    && UdpPayload(r.value) == Some(payload)
  }

  lemma {:induction false} Get16Of(before: bytes, n: nat, after: bytes)
    ensures Get16(before + BE16(n) + after, |before|) == n % 0x1_0000
  {}

  lemma {:induction false} FourWords(a: bytes, b: bytes, c: bytes, d: bytes, payload: bytes)
    requires |a| == |b| == |c| == |d| == 2
    ensures var l4 := a + b + c + d + payload;
            Get16(l4, 0) == Get16(a, 0) && Get16(l4, 2) == Get16(b, 0) && Get16(l4, 4) == Get16(c, 0)
                && l4[8..] == payload
  {}

  lemma {:induction false} ParsedDatagram(sport: uint16, dport: uint16, c: uint16, payload: bytes)
    requires |payload| <= MAX_PAYLOAD_6
    ensures var l4 := Datagram(sport, dport, c, payload);
            && |l4| == 8 + |payload|
            && Get16(l4, 0) == sport && Get16(l4, 2) == dport && Get16(l4, 4) == |l4| && l4[8..] == payload
  {
    FourWords(BE16(sport), BE16(dport), BE16(8 + |payload|), BE16(c), payload);
  }

  /** The bytes of an IPv4 header as they are built (RFC 791): no options, not fragmented, 64 hops, UDP. */
  lemma {:induction false} Layout4(total: uint16, c: uint16, s: Quad, d: Quad, l4: bytes)
    ensures var pkt := Header4(total, c, s, d) + l4;
            && pkt[0] == 0x45 && pkt[1] == 0 && pkt[8] == 64 && pkt[9] == 17
            && Get16(pkt, 2) == total && Get16(pkt, 4) == 0 && Get16(pkt, 6) == 0
            && pkt[12..16] == s && pkt[16..20] == d && pkt[20..] == l4
  {
    var pkt := Header4(total, c, s, d) + l4;
    var after := [0, 0, 0, 0, 64, IP_PROTO_UDP] + BE16(c) + s + d + l4;
    Get16Of([0x45, 0], total, after);
    assert pkt == [0x45, 0] + BE16(total) + after;
    assert forall i :: 0 <= i < 6 ==> pkt[i + 4] == after[i];
  }

  lemma {:induction false} Parsed4(total: uint16, c: uint16, s: Quad, d: Quad, l4: bytes)
    requires total == 20 + |l4|
    ensures ParseIPPacket(Header4(total, c, s, d) + l4)
            == Some(PacketInfo(V4(s), V4(d), IP_PROTO_UDP, l4, Ports(IP_PROTO_UDP, l4)))
  {
    Layout4(total, c, s, d, l4);
    var pkt := Header4(total, c, s, d) + l4;
    assert pkt[20..total] == pkt[20..];
  }

  /** The same for IPv6 (section 3 of RFC 8200). */
  lemma {:induction false} Layout6(udpLen: uint16, s: Octets, d: Octets, l4: bytes)
    ensures var pkt := Header6(udpLen, s, d) + l4;
            && pkt[..4] == [0x60, 0, 0, 0] && pkt[6] == 17 && pkt[7] == 64 && Get16(pkt, 4) == udpLen
            && pkt[8..24] == s && pkt[24..40] == d && pkt[40..] == l4
  {
    var pkt := Header6(udpLen, s, d) + l4;
    var after := [IP_PROTO_UDP, 64] + s + d + l4;
    Get16Of([0x60, 0, 0, 0], udpLen, after);
    assert pkt == [0x60, 0, 0, 0] + BE16(udpLen) + after;
    assert pkt[..4] == [0x60, 0, 0, 0] && pkt[6] == after[0] && pkt[7] == after[1];
  }

  lemma {:induction false} Parsed6(udpLen: uint16, s: Octets, d: Octets, l4: bytes)
    requires udpLen == |l4|
    ensures ParseIPPacket(Header6(udpLen, s, d) + l4)
            == Some(PacketInfo(V6(s), V6(d), IP_PROTO_UDP, l4, Ports(IP_PROTO_UDP, l4)))
  {
    Layout6(udpLen, s, d, l4);
    var pkt := Header6(udpLen, s, d) + l4;
    assert pkt[40..40 + udpLen] == pkt[40..];
  }

  /** Sixteen bits, high byte first. */
  function Word(a: byte, b: byte): uint16 {
    (a as int) * 0x100 + b
  }

  /** An IPv4 header of `ihl` bytes in front of a transport part that ends at `total`. */
  predicate Whole4(pkt: bytes, ihl: int, total: int) {
    && |pkt| >= 20 && 20 <= ihl <= total <= |pkt|
    && 0x40 <= pkt[0] <= 0x4F && ihl == (pkt[0] as int - 0x40) * 4 && total == Word(pkt[2], pkt[3])
  }

  /** Byte by byte: what is read from an IPv4 packet, for TCP and UDP, for other protocols and for later fragments. */
  lemma {:induction false} Read4(pkt: bytes, ihl: int, total: int)
    requires Whole4(pkt, ihl, total)
    ensures var r := ParseIPPacket(pkt);
            && r.Some? && r.value.src == V4(pkt[12..16]) && r.value.dst == V4(pkt[16..20]) && r.value.proto == pkt[9]
            && r.value.l4 == if pkt[6] % 0x20 == 0 && pkt[7] == 0 then pkt[ihl..total] else []
    ensures var r := ParseIPPacket(pkt);
            r.value.ports
            == if (pkt[9] == 6 || pkt[9] == 17) && pkt[6] % 0x20 == 0 && pkt[7] == 0 && total - ihl >= 8
               then Some((Word(pkt[ihl], pkt[ihl + 1]), Word(pkt[ihl + 2], pkt[ihl + 3]))) else None
  {
    Nibbles(pkt[0], 0x40);
    FirstFragment(pkt[6], pkt[7]);
  }

  lemma {:induction false} Nibbles(b: byte, high: int)
    requires high == 0x40 || high == 0x60
    ensures b / 16 == high / 16 <==> high <= b <= high + 0x0F
    ensures high <= b <= high + 0x0F ==> b % 16 == b - high
  {}

  lemma {:induction false} FirstFragment(a: byte, b: byte)
    ensures Word(a, b) % 0x2000 == 0 <==> a % 0x20 == 0 && b == 0
  {
    var q, r := a as int / 0x20, a as int % 0x20;
    assert (a as int) * 0x100 + b == q * 0x2000 + (r * 0x100 + b);
    assert 0 <= r * 0x100 + b < 0x2000;
  }

  /** The same for IPv6, whose header has a fixed length. */
  lemma {:induction false} Read6(pkt: bytes, end: int)
    requires |pkt| >= 40 && 0x60 <= pkt[0] <= 0x6F && end == 40 + Word(pkt[4], pkt[5]) <= |pkt|
    ensures var r := ParseIPPacket(pkt);
            && r.Some? && r.value.src == V6(pkt[8..24]) && r.value.dst == V6(pkt[24..40]) && r.value.proto == pkt[6]
            && r.value.l4 == pkt[40..end]
            && r.value.ports
               == if (pkt[6] == 6 || pkt[6] == 17) && end >= 48
                  then Some((Word(pkt[40], pkt[41]), Word(pkt[42], pkt[43]))) else None
  {
    Nibbles(pkt[0], 0x60);
  }

  /** Everything else is turned down. */
  lemma {:induction false} ReadIff(pkt: bytes)
    ensures ParseIPPacket(pkt).Some? <==>
            || (exists ihl, total :: Whole4(pkt, ihl, total))
            || (|pkt| >= 40 && 0x60 <= pkt[0] <= 0x6F && 40 + Word(pkt[4], pkt[5]) <= |pkt|)
  {
    if |pkt| >= 1 {
      Nibbles(pkt[0], 0x40);
      Nibbles(pkt[0], 0x60);
      if |pkt| >= 20 {
        var ihl, total := (pkt[0] as int - 0x40) * 4, Word(pkt[2], pkt[3]);
        assert 0x40 <= pkt[0] <= 0x4F && 20 <= ihl <= total <= |pkt| ==> Whole4(pkt, ihl, total);
      }
    }
  }

  /** The transport part of a parsed packet always fits the 16-bit length field it was cut by. */
  lemma {:induction false} ParsedBound(pkt: bytes)
    ensures var r := ParseIPPacket(pkt);
            r.Some? && UdpPayload(r.value).Some? ==>
              |UdpPayload(r.value).value| <= if r.value.src.V4? then MAX_PAYLOAD_4 else MAX_PAYLOAD_6
    ensures var r := ParseIPPacket(pkt);
            r.Some? ==> (r.value.src.V4? <==> r.value.dst.V4?)
  {}

  /**
   * Build then parse gives back addresses, ports and payload exactly when the two addresses are of one
   * family and the payload fits the 16-bit length fields.
   */
  lemma {:induction false} RoundTripIff(src: AddrPort, dst: AddrPort, payload: bytes)
    requires Buildable(src, dst)
    ensures Recovers(Packet(src, dst, payload), src, dst, payload)
       <==> (src.addr.V4? <==> dst.addr.V4?) && FitsLength(src.addr, payload)
  {
    var pkt := Packet(src, dst, payload);
    ParsedBound(pkt);
    if (src.addr.V4? <==> dst.addr.V4?) && FitsLength(src.addr, payload) {
      RoundTrip(src, dst, payload);
    }
  }

  lemma {:induction false} PayloadOf(src: Addr, dst: Addr, sport: uint16, dport: uint16, c: uint16, payload: bytes)
    requires |payload| <= MAX_PAYLOAD_6
    ensures var l4 := Datagram(sport, dport, c, payload);
            && Ports(IP_PROTO_UDP, l4) == Some((sport, dport))
            && UdpPayload(PacketInfo(src, dst, IP_PROTO_UDP, l4, Ports(IP_PROTO_UDP, l4))) == Some(payload)
  {
    ParsedDatagram(sport, dport, c, payload);
    var l4 := Datagram(sport, dport, c, payload);
    assert l4[8..|l4|] == l4[8..];
  }

  lemma {:induction false} RoundTrip(src: AddrPort, dst: AddrPort, payload: bytes)
    requires src.addr.V4? <==> dst.addr.V4?
    requires FitsLength(src.addr, payload)
    ensures Recovers(Packet(src, dst, payload), src, dst, payload)
  {
    match src.addr {
      case V4(s) =>
        var d := As4(dst.addr);
        var c := UdpChecksum(s + d, src.port, dst.port, payload);
        PayloadOf(src.addr, dst.addr, src.port, dst.port, c, payload);
        Parsed4(28 + |payload|, HeaderSum4(28 + |payload|, s, d), s, d, Datagram(src.port, dst.port, c, payload));
      case V6(s) =>
        var d := As16(dst.addr);
        var c := UdpChecksum(s + d, src.port, dst.port, payload);
        PayloadOf(src.addr, dst.addr, src.port, dst.port, c, payload);
        Parsed6(8 + |payload|, s, d, Datagram(src.port, dst.port, c, payload));
    }
  }

  /**
   * A receiver that parses a built packet and re-adds it gets zero for the IPv4 header and for the UDP
   * pseudo-header sum, no 32-bit accumulator wraps, and the stored UDP checksum is never the zero that
   * would mean "no checksum".
   */
  lemma {:induction false} ChecksumsVerify(src: AddrPort, dst: AddrPort, payload: bytes)
    requires Buildable(src, dst) && FitsLength(src.addr, payload)
    ensures var pkt := Packet(src, dst, payload);
            var h := if src.addr.V4? then 20 else 40;
            var addrs := if src.addr.V4? then pkt[12..20] else pkt[8..40];
            && (src.addr.V4? ==> WordSum(pkt[..20]) < TWO32 && Fold(WordSum(pkt[..20])) == 0)
            && PseudoSum(addrs, pkt[h..]) < TWO32
            && Fold(PseudoSum(addrs, pkt[h..])) == 0
            && Get16(pkt, h + 6) != 0
  {
    var pkt := Packet(src, dst, payload);
    match src.addr {
      case V4(s) =>
        var d := As4(dst.addr);
        var total := 28 + |payload|;
        var sum := HeaderSum4(total, s, d);
        var c := UdpChecksum(s + d, src.port, dst.port, payload);
        HeaderChecks4(total, s, d);
        HeaderAddrs4(total, sum, s, d);
        DatagramChecks(s + d, src.port, dst.port, payload);
        StoredAt(Header4(total, sum, s, d), src.port, dst.port, c, payload);
        assert pkt[..20] == Header4(total, sum, s, d);
        assert pkt[12..20] == pkt[..20][12..];
      case V6(s) =>
        var d := As16(dst.addr);
        var c := UdpChecksum(s + d, src.port, dst.port, payload);
        HeaderAddrs6(8 + |payload|, s, d);
        DatagramChecks(s + d, src.port, dst.port, payload);
        StoredAt(Header6(8 + |payload|, s, d), src.port, dst.port, c, payload);
        assert pkt[..40] == Header6(8 + |payload|, s, d);
        assert pkt[8..40] == pkt[..40][8..];
    }
  }

  /** The sum of a receiver is that over the pseudo-header bytes (section 8.1 of RFC 8200, RFC 768) and the datagram. */
  lemma {:induction false} PseudoHeader(addrs: bytes, l4: bytes)
    requires |addrs| % 2 == 0 && |l4| < 0x1_0000
    ensures PseudoSum(addrs, l4) == WordSum(addrs + ([0, 17] + [|l4| / 0x100, |l4| % 0x100])) + WordSum(l4)
  {
    var len: bytes := [|l4| / 0x100, |l4| % 0x100];
    var tail := [0, 17] + len;
    WordSumConcat(addrs, tail);
    WordSumConcat([0, 17], len);
    WordSum2([0, 17]);
    WordSum2(len);
    assert Get16(len, 0) == |l4| / 0x100 * 0x100 + |l4| % 0x100 == |l4|;
  }

  lemma {:induction false} StoredAt(header: bytes, sport: uint16, dport: uint16, c: uint16, payload: bytes)
    ensures (header + Datagram(sport, dport, c, payload))[|header|..] == Datagram(sport, dport, c, payload)
    ensures Get16(header + Datagram(sport, dport, c, payload), |header| + 6) == c
  {
    var before := header + BE16(sport) + BE16(dport) + BE16(8 + |payload|);
    Get16Of(before, c, payload);
    assert header + Datagram(sport, dport, c, payload) == before + BE16(c) + payload;
  }
}
