// The trackers on bytes: for every packet, whether it is tracked and under which key, said
// without parser, headers or structs.

module FlowBytes {
  import opened Wrappers
  import opened Bytes
  import opened WireFormat
  import opened HeaderLayout
  import opened FlowTrackerP4
  import opened FlowTable
  import opened FlowTracker
  import opened FlowTheorems

  /** The end of the network header, 20 bytes for IPv4 and 40 for IPv6. */
  function NetEnd(f: Family): nat {
    if f.Inet4? then 34 else 54
  }

  /** A packet is tracked if its type is that of the family and its protocol is TCP or UDP, as far
      as it reaches; one cut short before that is tracked, too. */
  predicate Followed(f: Family, p: seq<bv8>) {
    |p| < 14 ||
    ((if f.Inet4? then p[12] == 0x08 && p[13] == 0x00 else p[12] == 0x86 && p[13] == 0xDD) &&
     (|p| < NetEnd(f) || p[if f.Inet4? then 23 else 20] == 6 || p[if f.Inet4? then 23 else 20] == 17))
  }

  /** Addresses and protocol. */
  function NetPart(f: Family, p: seq<bv8>): seq<bv8> {
    if |p| < NetEnd(f) then Zeros(if f.Inet4? then 9 else 33)
    else if f.Inet4? then p[26..34] + [p[23]] else p[22..54] + [p[20]]
  }

  function PortsPart(f: Family, p: seq<bv8>): seq<bv8> {
    if |p| < NetEnd(f) + 4 then Zeros(4) else p[NetEnd(f)..NetEnd(f) + 4]
  }

  /** The key of a packet that came in by `port`: the size in bits, the port, the addresses, the
      protocol and the ports as they stand in the packet; what it is too short for is zero. */
  function KeyFor(f: Family, p: seq<bv8>, port: bv32): Key {
    (if f.Inet4? then [136, 0, 0, 0] else [72, 1, 0, 0]) + Zeros(4) + Mem32(port) +
    NetPart(f, p) + PortsPart(f, p) + Zeros(7)
  }

  // ---- which packets are tracked ----

  lemma Type6Bits(a: bv8, b: bv8)
    ensures Be16(a, b) == 0x86DD <==> a == 0x86 && b == 0xDD
  {
  }

  lemma TypeOfFamily(f: Family, p: seq<bv8>)
    requires |p| >= 14
    ensures EthernetOf(p[..14]).etherType == NetType(f) <==>
            if f.Inet4? then p[12] == 0x08 && p[13] == 0x00 else p[12] == 0x86 && p[13] == 0xDD
  {
    hide Be16;
    TypeBits(p[12], p[13]);
    Type6Bits(p[12], p[13]);
  }

  lemma ProtocolByte(f: Family, p: seq<bv8>)
    requires |p| >= NetEnd(f)
    ensures Protocol(NetOf(f, p[14..NetEnd(f)])) == p[if f.Inet4? then 23 else 20]
  {
    hide Ipv4Of, Ipv6Of, Row;
    NetFlowFields(f, p[14..NetEnd(f)]);
  }

  /** Exactly which packets the parser accepts. */
  lemma TrackedExactly(f: Family, a: Arrival)
    ensures Tracked(f, a) <==> Followed(f, a.bytes)
  {
    hide EthernetOf, NetOf, PortsOf, Protocol;
    var p := a.bytes;
    if |p| >= 14 {
      TypeOfFamily(f, p);
    }
    if |p| >= NetEnd(f) {
      ProtocolByte(f, p);
    }
  }

  // ---- their keys ----

  lemma HeadOfKey(f: Family)
    ensures Mem32(KeySize(f)) + Mem32(0) == (if f.Inet4? then [136, 0, 0, 0] else [72, 1, 0, 0]) + Zeros(4)
  {
  }

  lemma NoPorts()
    ensures Half(0) + Half(0) == Zeros(4)
  {
  }

  lemma PortsBack(p: seq<bv8>, at: nat)
    requires at + 4 <= |p|
    ensures Half(Be16(p[at], p[at + 1])) + Half(Be16(p[at + 2], p[at + 3])) == p[at..at + 4]
  {
    hide Half, Be16;
    HalfRoundTripBytes(p[at], p[at + 1]);
    HalfRoundTripBytes(p[at + 2], p[at + 3]);
  }

  /** The headers of a tracked packet, by its length. */
  lemma TrackedHeaders(f: Family, p: seq<bv8>)
    requires Parse(f, p).Accepted?
    ensures var hdr, at := Parse(f, p).hdr, NetEnd(f);
      hdr.net == (if |p| < at then None else Some(NetOf(f, p[14..at]))) &&
      EffectivePorts(hdr) == if |p| < at + 4 then Ports(0, 0) else PortsOf(p[at..at + 4])
  {
    hide EthernetOf, NetOf, PortsOf, Protocol;
  }

  lemma ZerosJoin(m: nat, n: nat)
    ensures Zeros(m) + Zeros(n) == Zeros(m + n) && [0] == Zeros(1)
  {
  }

  /** The key fields of a network header that is there. */
  lemma NetPartRead(f: Family, p: seq<bv8>)
    requires |p| >= NetEnd(f)
    ensures var at, n := NetEnd(f), AddressSize(f);
      NetPart(f, p) == p[at - 2 * n..at - n] + p[at - n..at] + [p[if f.Inet4? then 23 else 20]]
    ensures match NetOf(f, p[14..NetEnd(f)])
      case V4(h) => Row(h.srcAddr) + Row(h.dstAddr) + [h.protocol] == NetPart(f, p)
      case V6(h) => h.srcAddr + h.dstAddr + [h.nextHdr] == NetPart(f, p)
  {
    hide Ipv4Of, Ipv6Of, Row, Zeros;
    var n, at := AddressSize(f), NetEnd(f);
    NetFlowFields(f, p[14..at]);
    SliceOfSlice(p, 14, at - 14, at - 14 - 2 * n, at - 14 - n);
    SliceOfSlice(p, 14, at - 14, at - 14 - n, at - 14);
    assert p[at - 2 * n..at] == p[at - 2 * n..at - n] + p[at - n..at];
  }

  lemma KeyNetPart(f: Family, p: seq<bv8>, hdr: Headers, port: bv32)
    requires HeadersOf(f, hdr) && hdr.net == if |p| < NetEnd(f) then None else Some(NetOf(f, p[14..NetEnd(f)]))
    ensures var k := KeyOf(f, hdr, port); k.src + k.dst + [k.protocol] == NetPart(f, p)
  {
    hide NetOf, Row, Zeros;
    if |p| >= NetEnd(f) {
      hide NetPart;
      NetPartRead(f, p);
    } else {
      var n := AddressSize(f);
      ZerosJoin(n, n);
      ZerosJoin(2 * n, 1);
    }
  }

  lemma KeyPortsPart(f: Family, p: seq<bv8>, ports: Ports)
    requires ports == if |p| < NetEnd(f) + 4 then Ports(0, 0) else PortsOf(p[NetEnd(f)..NetEnd(f) + 4])
    ensures Half(ports.srcPort) + Half(ports.dstPort) == PortsPart(f, p)
  {
    hide Half, Be16, Zeros;
    NoPorts();
    if |p| >= NetEnd(f) + 4 {
      PortsBack(p, NetEnd(f));
    }
  }

  /** The key of every tracked packet, whole or cut short. */
  lemma KeyExpected(f: Family, a: Arrival)
    requires Tracked(f, a)
    ensures PacketKey(f, a.bytes, a.port) == KeyFor(f, a.bytes, a.port)
  {
    hide Parse, KeyOf, Mem32, Half, Zeros, NetPart, PortsPart, PortsOf, NetOf;
    var p, hdr := a.bytes, Parse(f, a.bytes).hdr;
    ParsedFits(f, p);
    TrackedHeaders(f, p);
    KeyNetPart(f, p, hdr, a.port);
    KeyPortsPart(f, p, EffectivePorts(hdr));
    HeadOfKey(f);
    KeyHasPorts(f, hdr, a.port);
  }

  lemma KeyHasPorts(f: Family, hdr: Headers, port: bv32)
    requires HeadersOf(f, hdr)
    ensures var k := KeyOf(f, hdr, port);
      k.port == port && Ports(k.srcPort, k.dstPort) == EffectivePorts(hdr)
  {
    hide Row, Zeros;
  }
}
