/** IP addresses as the tunnel handles them: four bytes, or sixteen bytes that may hold a mapped IPv4 address. */
module NetAddr {
  import opened Bytes

  type Quad = b: bytes | |b| == 4 witness [0, 0, 0, 0]
  type Octets = b: bytes | |b| == 16 witness [0, 0, 0, 0, 0, 0, 0, 0, 0, 0, 0, 0, 0, 0, 0, 0]

  datatype Addr = V4(quad: Quad) | V6(octets: Octets)

  const MAPPED_PREFIX: bytes := [0, 0, 0, 0, 0, 0, 0, 0, 0, 0, 0xFF, 0xFF]

  predicate IsMapped(o: Octets) {
    o[..12] == MAPPED_PREFIX
  }

  predicate HasQuad(a: Addr) {
    a.V4? || IsMapped(a.octets)
  }

  function As4(a: Addr): Quad
    requires HasQuad(a)
  {
    match a
    case V4(q) => q
    case V6(o) => o[12..]
  }

  function As16(a: Addr): Octets {
    match a
    case V4(q) => MAPPED_PREFIX + q
    case V6(o) => o
  }

  /** The canonical form used as a cache key: a mapped IPv4 address becomes the plain IPv4 address. */
  function Unmap(a: Addr): (u: Addr)
    ensures u.V6? ==> !IsMapped(u.octets)
    ensures As16(u) == As16(a)
  {
    if HasQuad(a) then V4(As4(a)) else a
  }

  /** Two addresses share a cache key exactly when they are the same address in sixteen-byte form. */
  lemma {:induction false} UnmapIdentifies(a: Addr, b: Addr)
    ensures Unmap(a) == Unmap(b) <==> As16(a) == As16(b)
  {
    assert As16(a)[12..] == As16(Unmap(a))[12..];
    assert forall q: Quad :: (MAPPED_PREFIX + q)[12..] == q && (MAPPED_PREFIX + q)[..12] == MAPPED_PREFIX;
  }
}
