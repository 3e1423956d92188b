// The meaning of the two flow trackers at the level of their P4 headers. They differ only
// in the network header: IPv4 or IPv6.

module FlowTrackerP4 {
  import opened Wrappers
  import opened Bytes
  import opened WireFormat

  datatype Family = Inet4 | Inet6

  datatype Net = V4(ip4: Ipv4) | V6(ip6: Ipv6)

  datatype Headers = Headers(eth: Option<Ethernet>, net: Option<Net>, tcp: Option<Ports>, udp: Option<Ports>)

  datatype Parsed = Rejected | Accepted(hdr: Headers, consumed: nat)

  const NoHeaders := Headers(None, None, None, None)

  function NetType(f: Family): bv16 {
    if f.Inet4? then 0x0800 else 0x86DD
  }

  function NetSize(f: Family): nat {
    if f.Inet4? then 20 else 40
  }

  predicate NetWellFormed(n: Net) {
    n.V6? ==> Ipv6WellFormed(n.ip6)
  }

  function FamilyOf(n: Net): Family {
    if n.V4? then Inet4 else Inet6
  }

  function NetBytes(n: Net): (r: seq<bv8>)
    requires NetWellFormed(n)
    ensures |r| == NetSize(FamilyOf(n))
  {
    match n
    case V4(h) => Ipv4Bytes(h)
    case V6(h) => Ipv6Bytes(h)
  }

  function NetOf(f: Family, b: seq<bv8>): (n: Net)
    requires |b| == NetSize(f)
    ensures NetWellFormed(n) && FamilyOf(n) == f
  {
    if f.Inet4? then V4(Ipv4Of(b)) else V6(Ipv6Of(b))
  }

  function Protocol(n: Net): bv8 {
    match n
    case V4(h) => h.protocol
    case V6(h) => h.nextHdr
  }

  lemma NetRoundTripBytes(f: Family, b: seq<bv8>)
    requires |b| == NetSize(f)
    ensures NetBytes(NetOf(f, b)) == b
  {
    hide Ipv4Of, Ipv4Bytes, Ipv6Of, Ipv6Bytes;
    if f.Inet4? {
      Ipv4RoundTripBytes(b);
    } else {
      Ipv6RoundTripBytes(b);
    }
  }

  // ---- parser and deparser ----

  function ParsePorts(p: seq<bv8>, hdr: Headers, at: nat): Parsed
    requires at <= |p| && hdr.net.Some?
  {
    var protocol := Protocol(hdr.net.value);
    if protocol != 0x06 && protocol != 0x11 then Rejected else
    if |p| < at + 4 then Accepted(hdr, at) else
    var ports := Some(PortsOf(p[at..at + 4]));
    Accepted(if protocol == 0x06 then hdr.(tcp := ports) else hdr.(udp := ports), at + 4)
  }

  function Parse(f: Family, p: seq<bv8>): Parsed {
    if |p| < 14 then Accepted(NoHeaders, 0) else
    var eth := EthernetOf(p[..14]);
    var hdr := NoHeaders.(eth := Some(eth));
    if eth.etherType != NetType(f) then Rejected else
    var at := 14 + NetSize(f);
    if |p| < at then Accepted(hdr, 14) else ParsePorts(p, hdr.(net := Some(NetOf(f, p[14..at]))), at)
  }

  ghost predicate HeadersOf(f: Family, hdr: Headers) {
    && (hdr.net.Some? ==> hdr.eth.Some? && NetWellFormed(hdr.net.value) && FamilyOf(hdr.net.value) == f)
    && (hdr.tcp.Some? || hdr.udp.Some? ==> hdr.net.Some?)
    && !(hdr.tcp.Some? && hdr.udp.Some?)
  }

  function EmitPortsOption(h: Option<Ports>): seq<bv8> {
    if h.Some? then PortsBytes(h.value) else []
  }

  function Emit(hdr: Headers): seq<bv8>
    requires hdr.net.Some? ==> NetWellFormed(hdr.net.value)
  {
    (if hdr.eth.Some? then EthernetBytes(hdr.eth.value) else []) +
    (if hdr.net.Some? then NetBytes(hdr.net.value) else []) +
    EmitPortsOption(hdr.tcp) + EmitPortsOption(hdr.udp)
  }

  function Width(f: Family, hdr: Headers): nat {
    (if hdr.eth.Some? then 14 else 0) + (if hdr.net.Some? then NetSize(f) else 0) +
    (if hdr.tcp.Some? then 4 else 0) + (if hdr.udp.Some? then 4 else 0)
  }

  /** On every path that continues, the cursor is the summed width of the valid headers. */
  lemma ParsedFits(f: Family, p: seq<bv8>)
    ensures Parse(f, p).Accepted? ==> Parse(f, p).consumed == Width(f, Parse(f, p).hdr) <= |p|
    ensures Parse(f, p).Accepted? ==> HeadersOf(f, Parse(f, p).hdr)
  {
    hide EthernetOf, NetOf, PortsOf, NetWellFormed, Protocol;
  }

  /** Deparsing what was parsed restores every byte, truncated packets included. */
  lemma EmitRestores(f: Family, p: seq<bv8>)
    requires Parse(f, p).Accepted?
    ensures HeadersOf(f, Parse(f, p).hdr)
    ensures Parse(f, p).consumed <= |p| && Emit(Parse(f, p).hdr) + p[Parse(f, p).consumed..] == p
  {
    hide EthernetOf, EthernetBytes, NetOf, NetBytes, PortsOf, PortsBytes, NetWellFormed, Protocol;
    ParsedFits(f, p);
    var hdr, at := Parse(f, p).hdr, 14 + NetSize(f);
    if hdr.eth.Some? {
      EthernetRoundTripBytes(p[..14]);
    }
    if hdr.net.Some? {
      NetRoundTripBytes(f, p[14..at]);
      assert p[..at] == p[..14] + p[14..at];
    }
    if hdr.tcp.Some? || hdr.udp.Some? {
      PortsRoundTripBytes(p[at..at + 4]);
      assert p[..at + 4] == p[..at] + p[at..at + 4];
    }
  }

  // ---- the flow key ----

  /** What a flow is: addresses in network order, absent fields zero. */
  datatype FlowKey = FlowKey(port: bv32, src: seq<bv8>, dst: seq<bv8>, protocol: bv8, srcPort: bv16, dstPort: bv16)

  function AddressSize(f: Family): nat {
    if f.Inet4? then 4 else 16
  }

  predicate KeyWellFormed(f: Family, k: FlowKey) {
    |k.src| == AddressSize(f) && |k.dst| == AddressSize(f)
  }

  /** TCP ports if there is a TCP header, else UDP ports, else zeros. */
  function EffectivePorts(hdr: Headers): Ports {
    if hdr.tcp.Some? then hdr.tcp.value else if hdr.udp.Some? then hdr.udp.value else Ports(0, 0)
  }

  function KeyOf(f: Family, hdr: Headers, port: bv32): (k: FlowKey)
    requires HeadersOf(f, hdr)
    ensures KeyWellFormed(f, k)
  {
    var ports := EffectivePorts(hdr);
    match hdr.net
    case None => FlowKey(port, Zeros(AddressSize(f)), Zeros(AddressSize(f)), 0, ports.srcPort, ports.dstPort)
    case Some(V4(h)) => FlowKey(port, Row(h.srcAddr), Row(h.dstAddr), h.protocol, ports.srcPort, ports.dstPort)
    case Some(V6(h)) => FlowKey(port, h.srcAddr, h.dstAddr, h.nextHdr, ports.srcPort, ports.dstPort)
  }

  /** The keysz member: the summed widths of the key fields in bits. */
  function KeySize(f: Family): bv32 {
    if f.Inet4? then 136 else 328
  }

  /** The fields of the key in the order of struct Main_ct_flow_table_key. */
  function KeyFields(k: FlowKey): seq<bv8> {
    Mem32(k.port) + k.src + k.dst + [k.protocol] + Half(k.srcPort) + Half(k.dstPort)
  }

  /** The memory of the key: packed, cleared first, and padded to a multiple of eight. */
  function KeyBytes(f: Family, k: FlowKey): seq<bv8> {
    Mem32(KeySize(f)) + Mem32(0) + KeyFields(k) + Zeros(7)
  }

  lemma MemInjective(x: bv32, y: bv32)
    requires Mem32(x) == Mem32(y)
    ensures x == y
  {
    var m, n := Mem32(x), Mem32(y);
    assert m[0] == n[0] && m[1] == n[1] && m[2] == n[2] && m[3] == n[3];
    FromMem(x);
    FromMem(y);
  }

  lemma FromMem(x: bv32)
    ensures Le32((x & 0xFF) as bv8, ((x >> 8) & 0xFF) as bv8, ((x >> 16) & 0xFF) as bv8, (x >> 24) as bv8) == x
  {
  }

  lemma HalfInjective(x: bv16, y: bv16)
    requires Half(x) == Half(y)
    ensures x == y
  {
    hide Hi, Lo;
    assert Half(x)[0] == Half(y)[0] && Half(x)[1] == Half(y)[1];
    HalfRoundTrip(x);
    HalfRoundTrip(y);
  }

  /** keysz is the length of the key fields in bits, and the struct is a multiple of eight bytes. */
  lemma KeySizeIsFieldWidth(f: Family, k: FlowKey)
    requires KeyWellFormed(f, k)
    ensures KeySize(f) as int == 8 * |KeyFields(k)|
    ensures |KeyBytes(f, k)| % 8 == 0
  {
    hide Mem32, Half;
  }

  lemma KeySlices(f: Family, k: FlowKey)
    requires KeyWellFormed(f, k)
    ensures var b := KeyBytes(f, k); var n := AddressSize(f);
      |b| == 24 + 2 * n && b[8..12] == Mem32(k.port) && b[12..12 + n] == k.src && b[12 + n..12 + 2 * n] == k.dst &&
      b[12 + 2 * n] == k.protocol &&
      b[13 + 2 * n..15 + 2 * n] == Half(k.srcPort) && b[15 + 2 * n..17 + 2 * n] == Half(k.dstPort)
  {
    hide Mem32, Half, Zeros;
    var n, head, pad := AddressSize(f), Mem32(KeySize(f)) + Mem32(0), Zeros(7);
    var u, v := Mem32(k.port) + k.src + k.dst, [k.protocol] + Half(k.srcPort) + Half(k.dstPort);
    ThreeSlices(Mem32(k.port), k.src, k.dst);
    ThreeSlices([k.protocol], Half(k.srcPort), Half(k.dstPort));
    assert KeyFields(k) == u + v;
    TwoGroups(head, u, v, pad);
    InnerSlice(head, u, v + pad, 0, 4);
    InnerSlice(head, u, v + pad, 4, 4 + n);
    InnerSlice(head, u, v + pad, 4 + n, 4 + 2 * n);
    InnerSlice(head + u, v, pad, 0, 1);
    InnerSlice(head + u, v, pad, 1, 3);
    InnerSlice(head + u, v, pad, 3, 5);
    assert KeyBytes(f, k)[12 + 2 * n..13 + 2 * n][0] == k.protocol;
  }

  lemma ThreeSlices(x: seq<bv8>, y: seq<bv8>, z: seq<bv8>)
    ensures var b, i, j := x + y + z, |x|, |x| + |y|; b[0..i] == x && b[i..j] == y && b[j..j + |z|] == z
  {
  }

  lemma TwoGroups(head: seq<bv8>, u: seq<bv8>, v: seq<bv8>, pad: seq<bv8>)
    ensures head + (u + v) + pad == head + u + (v + pad) == (head + u) + v + pad
  {
  }

  lemma InnerSlice(head: seq<bv8>, b: seq<bv8>, tail: seq<bv8>, i: nat, j: nat)
    requires i <= j <= |b|
    ensures (head + b + tail)[|head| + i..|head| + j] == b[i..j]
  {
  }

  /** Two keys have the same bytes exactly when all six fields agree. */
  lemma KeyInjective(f: Family, j: FlowKey, k: FlowKey)
    requires KeyWellFormed(f, j) && KeyWellFormed(f, k)
    ensures KeyBytes(f, j) == KeyBytes(f, k) <==> j == k
  {
    hide Mem32, Half, Zeros, KeyBytes;
    if KeyBytes(f, j) == KeyBytes(f, k) {
      KeySlices(f, j);
      KeySlices(f, k);
      MemInjective(j.port, k.port);
      HalfInjective(j.srcPort, k.srcPort);
      HalfInjective(j.dstPort, k.dstPort);
    }
  }
}
