/** Addresses, the NAT kinds, and the "quasi-STUN" header that carries an address in front of a
packet between a NATed host and the NAT. */
module NatWire {
  import opened Bytes

  type uint16 = n: nat | n < 0x1_0000

  /** An IP address; the bits are its numeric value in host order. */
  datatype IPAddress = Unspec | V4(v4: nat) | V6(v6: nat)

  /** Addresses taken from packets have no host name. */
  datatype SocketAddress = SocketAddress(ip: IPAddress, port: uint16)

  const NIL: SocketAddress := SocketAddress(Unspec, 0)

  predicate InRange(ip: IPAddress) {
    match ip
    case Unspec => true
    case V4(n) => n < Pow256(4)
    case V6(n) => n < Pow256(16)
  }

  function Rank(ip: IPAddress): nat {
    match ip
    case Unspec => 0
    case V4(_) => 1
    case V6(_) => 2
  }

  function Value(ip: IPAddress): nat {
    match ip
    case Unspec => 0
    case V4(n) => n
    case V6(n) => n
  }

  /** `IPAddress::operator<`. */
  predicate IpLess(a: IPAddress, b: IPAddress) {
    Rank(a) < Rank(b) || (Rank(a) == Rank(b) && Value(a) < Value(b))
  }

  /** `SocketAddress::operator<`. */
  predicate AddressLess(a: SocketAddress, b: SocketAddress) {
    if IpLess(a.ip, b.ip) then true
    else if IpLess(b.ip, a.ip) then false
    else a.port < b.port
  }

  // ---------- NAT kinds ----------

  datatype NATType = OpenCone | AddressRestricted | PortRestricted | Symmetric {
    predicate IsSymmetric() { Symmetric? }
    predicate FiltersIP() { !OpenCone? }
    predicate FiltersPort() { PortRestricted? || Symmetric? }
  }

  datatype Route = Route(source: SocketAddress, destination: SocketAddress)

  /** `RouteCmp`. */
  predicate RouteLess(nat_: NATType, r1: Route, r2: Route) {
    if AddressLess(r1.source, r2.source) then true
    else if AddressLess(r2.source, r1.source) then false
    else if nat_.IsSymmetric() && AddressLess(r1.destination, r2.destination) then true
    else false
  }

  /** `AddrCmp`. */
  predicate AddrLess(nat_: NATType, a1: SocketAddress, a2: SocketAddress) {
    if nat_.FiltersIP() && IpLess(a1.ip, a2.ip) then true
    else if nat_.FiltersIP() && IpLess(a2.ip, a1.ip) then false
    else if nat_.FiltersPort() && a1.port < a2.port then true
    else false
  }

  /** What std::map and std::set take for the same key. */
  predicate SameRoute(nat_: NATType, r1: Route, r2: Route) {
    !RouteLess(nat_, r1, r2) && !RouteLess(nat_, r2, r1)
  }

  predicate SamePeer(nat_: NATType, a1: SocketAddress, a2: SocketAddress) {
    !AddrLess(nat_, a1, a2) && !AddrLess(nat_, a2, a1)
  }

  /** Same mapping: the same inside host and, for a symmetric NAT, the same destination. */
  lemma SameRouteMeans(nat_: NATType, r1: Route, r2: Route)
    ensures SameRoute(nat_, r1, r2)
            <==> r1.source == r2.source && (nat_ == Symmetric ==> r1.destination == r2.destination)
  {
    IpTrichotomy(r1.source.ip, r2.source.ip);
    IpTrichotomy(r1.destination.ip, r2.destination.ip);
  }

  /** Same peer: equal in the parts that the NAT filters. */
  lemma SamePeerMeans(nat_: NATType, a1: SocketAddress, a2: SocketAddress)
    ensures SamePeer(nat_, a1, a2)
            <==> match nat_
                 case OpenCone => true
                 case AddressRestricted => a1.ip == a2.ip
                 case _ => a1 == a2
  {
    IpTrichotomy(a1.ip, a2.ip);
  }

  lemma IpTrichotomy(a: IPAddress, b: IPAddress)
    ensures !IpLess(a, b) && !IpLess(b, a) <==> a == b
  {
  }

  /** Both comparators are strict weak orders, as std::map and std::set require. */
  lemma StrictWeakOrders(nat_: NATType, r1: Route, r2: Route, r3: Route)
    ensures !RouteLess(nat_, r1, r1)
    ensures RouteLess(nat_, r1, r2) && RouteLess(nat_, r2, r3) ==> RouteLess(nat_, r1, r3)
    ensures SameRoute(nat_, r1, r2) && SameRoute(nat_, r2, r3) ==> SameRoute(nat_, r1, r3)
    ensures var (a1, a2, a3) := (r1.destination, r2.destination, r3.destination);
      && !AddrLess(nat_, a1, a1)
      && (AddrLess(nat_, a1, a2) && AddrLess(nat_, a2, a3) ==> AddrLess(nat_, a1, a3))
      && (SamePeer(nat_, a1, a2) && SamePeer(nat_, a2, a3) ==> SamePeer(nat_, a1, a3))
  {
    SameRouteMeans(nat_, r1, r2);
    SameRouteMeans(nat_, r2, r3);
    SameRouteMeans(nat_, r1, r3);
  }

  // ---------- the address header ----------

  const AF_INET: byte := 2
  const AF_INET6: byte := 10

  /** `n` as `k` bytes in network order. */
  function BigEndian(n: nat, k: nat): (r: bytes)
    ensures |r| == k
  {
    if k == 0 then [] else BigEndian(n / 256, k - 1) + [n % 256]
  }

  function FromBigEndian(s: bytes): nat {
    if s == [] then 0 else FromBigEndian(s[..|s| - 1]) * 256 + s[|s| - 1]
  }

  lemma {:induction false} BigEndianReadsBack(n: nat, k: nat)
    requires n < Pow256(k)
    ensures FromBigEndian(BigEndian(n, k)) == n
  {
    if k > 0 {
      BigEndianReadsBack(n / 256, k - 1);
      assert BigEndian(n, k)[..k - 1] == BigEndian(n / 256, k - 1);
    }
  }

  /** `PackAddressForNAT`; nothing for an address of no family. */
  function PackAddress(a: SocketAddress): (r: bytes) {
    match a.ip
    case Unspec => []
    case V4(n) => [0, AF_INET] + BigEndian(a.port, 2) + BigEndian(n, 4)
    case V6(n) => [0, AF_INET6] + BigEndian(a.port, 2) + BigEndian(n, 16)
  }

  /** `UnpackAddressFromNAT`: the address and the length of the header; None where the source
  asserts. */
  function UnpackAddress(buf: bytes): (r: Option<(SocketAddress, nat)>)
    ensures r.Some? ==> r.value.1 <= |buf|
  {
    if |buf| < 8 || buf[0] != 0 then None
    else
      var port := FromBigEndian(buf[2..4]) % 0x1_0000;
      if buf[1] == AF_INET then Some((SocketAddress(V4(FromBigEndian(buf[4..8])), port), 8))
      else if buf[1] == AF_INET6 then
        if |buf| < 20 then None
        else Some((SocketAddress(V6(FromBigEndian(buf[4..20])), port), 20))
      else Some((NIL, 0))
  }

  lemma FieldReadsBack(buf: bytes, i: nat, n: nat, k: nat)
    requires n < Pow256(k) && i + k <= |buf| && buf[i..i + k] == BigEndian(n, k)
    ensures FromBigEndian(buf[i..i + k]) == n
  {
    BigEndianReadsBack(n, k);
  }

  /** A packed address reads back from the front of any packet, and leaves the packet's data. */
  lemma AddressReadsBack(a: SocketAddress, data: bytes)
    requires a.ip != Unspec && InRange(a.ip)
    ensures UnpackAddress(PackAddress(a) + data) == Some((a, |PackAddress(a)|))
    ensures (PackAddress(a) + data)[|PackAddress(a)|..] == data
  {
    assert Pow256(2) == 0x1_0000;
    hide BigEndian, FromBigEndian, Pow256;
    var buf, port := PackAddress(a) + data, BigEndian(a.port, 2);
    match a.ip
    case V4(n) =>
      FieldsAt(AF_INET, port, BigEndian(n, 4), data);
      FieldReadsBack(buf, 2, a.port, 2);
      FieldReadsBack(buf, 4, n, 4);
    case V6(n) =>
      FieldsAt(AF_INET6, port, BigEndian(n, 16), data);
      FieldReadsBack(buf, 2, a.port, 2);
      FieldReadsBack(buf, 4, n, 16);
    case Unspec =>
  }

  lemma FieldsAt(family: byte, port: bytes, ip: bytes, data: bytes)
    requires |port| == 2
    ensures var buf := [0, family] + port + ip + data;
      && buf[0] == 0 && buf[1] == family && buf[2..4] == port && buf[4..4 + |ip|] == ip && buf[4 + |ip|..] == data
  {
  }

  /** The header of the address a.b.c.d:port, byte by byte. */
  lemma HeaderIs(a: byte, b: byte, c: byte, d: byte, port: uint16)
    ensures PackAddress(SocketAddress(V4(((a * 256 + b) * 256 + c) * 256 + d), port))
            == [0, 2, port / 256, port % 256, a, b, c, d]
  {
    assert BigEndian(a, 1) == [] + [a];
    assert BigEndian(a * 256 + b, 2) == BigEndian(a, 1) + [b];
    assert BigEndian((a * 256 + b) * 256 + c, 3) == BigEndian(a * 256 + b, 2) + [c];
    assert BigEndian(((a * 256 + b) * 256 + c) * 256 + d, 4) == BigEndian((a * 256 + b) * 256 + c, 3) + [d];
    assert BigEndian(port / 256, 1) == [] + [port / 256];
    assert BigEndian(port, 2) == BigEndian(port / 256, 1) + [port % 256];
  }

  /** Only a packet that is too short for its header, or does not begin with a zero byte, has none. */
  lemma HeaderRefused(buf: bytes)
    ensures UnpackAddress(buf) == None
            <==> |buf| < 8 || buf[0] != 0 || (buf[1] == 10 && |buf| < 20)
  {
  }
}
