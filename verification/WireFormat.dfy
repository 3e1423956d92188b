// The headers of the P4 programs: exact bit widths, serialized in declared order,
// drawn as 32-bit rows in network order.

module WireFormat {
  import opened Bytes

  datatype Ethernet = Ethernet(dstAddr: bv48, srcAddr: bv48, etherType: bv16)

  /** section 3.1 of RFC 791 */
  datatype Ipv4 = Ipv4(
    version: bv4, ihl: bv4, diffserv: bv8, totalLen: bv16,
    identification: bv16, flags: bv3, fragOffset: bv13,
    ttl: bv8, protocol: bv8, hdrChecksum: bv16,
    srcAddr: bv32,
    dstAddr: bv32)

  /** section 3 of RFC 8200 */
  datatype Ipv6 = Ipv6(
    version: bv4, trafficClass: bv8, flowLabel: bv20,
    payloadLen: bv16, nextHdr: bv8, hopLimit: bv8,
    srcAddr: seq<bv8>,
    dstAddr: seq<bv8>)

  // ---- Ethernet ----

  function Mac(x: bv48): (r: seq<bv8>)
    ensures |r| == 6
  {
    [(x >> 40) as bv8, ((x >> 32) & 0xFF) as bv8, ((x >> 24) & 0xFF) as bv8,
     ((x >> 16) & 0xFF) as bv8, ((x >> 8) & 0xFF) as bv8, (x & 0xFF) as bv8]
  }

  function MacOf(b: seq<bv8>): bv48
    requires |b| == 6
  {
    ((b[0] as bv48) << 40) | ((b[1] as bv48) << 32) | ((b[2] as bv48) << 24) |
    ((b[3] as bv48) << 16) | ((b[4] as bv48) << 8) | (b[5] as bv48)
  }

  function EthernetBytes(h: Ethernet): (r: seq<bv8>)
    ensures |r| == 14
  {
    Mac(h.dstAddr) + Mac(h.srcAddr) + Half(h.etherType)
  }

  function EthernetOf(b: seq<bv8>): Ethernet
    requires |b| == 14
  {
    Ethernet(MacOf(b[..6]), MacOf(b[6..12]), Be16(b[12], b[13]))
  }

  lemma MacRoundTrip(x: bv48)
    ensures MacOf(Mac(x)) == x
  {
  }

  lemma MacRoundTripBytes(b: seq<bv8>)
    requires |b| == 6
    ensures Mac(MacOf(b)) == b
  {
  }

  lemma HalfRoundTrip(x: bv16)
    ensures Be16(Hi(x), Lo(x)) == x
  {
  }

  lemma HalfRoundTripBytes(a: bv8, b: bv8)
    ensures Half(Be16(a, b)) == [a, b]
  {
  }

  lemma EthernetRoundTrip(h: Ethernet)
    ensures EthernetOf(EthernetBytes(h)) == h
  {
    hide Mac, MacOf, Be16, Hi, Lo;
    var b := EthernetBytes(h);
    assert b[..6] == Mac(h.dstAddr) && b[6..12] == Mac(h.srcAddr);
    MacRoundTrip(h.dstAddr);
    MacRoundTrip(h.srcAddr);
    HalfRoundTrip(h.etherType);
  }

  lemma EthernetRoundTripBytes(b: seq<bv8>)
    requires |b| == 14
    ensures EthernetBytes(EthernetOf(b)) == b
  {
    hide Mac, MacOf, Be16, Half;
    MacRoundTripBytes(b[..6]);
    MacRoundTripBytes(b[6..12]);
    HalfRoundTripBytes(b[12], b[13]);
    assert b == b[..6] + b[6..12] + [b[12], b[13]];
  }

  // ---- IPv4 ----

  function PackRow0(version: bv4, ihl: bv4, diffserv: bv8, totalLen: bv16): bv32 {
    ((version as bv32) << 28) | ((ihl as bv32) << 24) | ((diffserv as bv32) << 16) | (totalLen as bv32)
  }

  function PackRow1(identification: bv16, flags: bv3, fragOffset: bv13): bv32 {
    ((identification as bv32) << 16) | ((flags as bv32) << 13) | (fragOffset as bv32)
  }

  function PackRow2(ttl: bv8, protocol: bv8, hdrChecksum: bv16): bv32 {
    ((ttl as bv32) << 24) | ((protocol as bv32) << 16) | (hdrChecksum as bv32)
  }

  function Ipv4Row0(h: Ipv4): bv32 {
    PackRow0(h.version, h.ihl, h.diffserv, h.totalLen)
  }

  function Ipv4Row1(h: Ipv4): bv32 {
    PackRow1(h.identification, h.flags, h.fragOffset)
  }

  function Ipv4Row2(h: Ipv4): bv32 {
    PackRow2(h.ttl, h.protocol, h.hdrChecksum)
  }

  function Ipv4Bytes(h: Ipv4): (r: seq<bv8>)
    ensures |r| == 20
  {
    Row(Ipv4Row0(h)) + Row(Ipv4Row1(h)) + Row(Ipv4Row2(h)) + Row(h.srcAddr) + Row(h.dstAddr)
  }

  function RowOf(b: seq<bv8>, k: nat): bv32
    requires 4 * k + 4 <= |b|
  {
    Be32(b[4 * k], b[4 * k + 1], b[4 * k + 2], b[4 * k + 3])
  }

  // fields of a row, named by the position of their lowest bit

  function Bits28(r: bv32): bv4 {
    (r >> 28) as bv4
  }

  function Bits24(r: bv32): bv4 {
    ((r >> 24) & 0xF) as bv4
  }

  function TopByte(r: bv32): bv8 {
    (r >> 24) as bv8
  }

  function Bits16(r: bv32): bv8 {
    ((r >> 16) & 0xFF) as bv8
  }

  function HighHalf(r: bv32): bv16 {
    (r >> 16) as bv16
  }

  function LowHalf(r: bv32): bv16 {
    (r & 0xFFFF) as bv16
  }

  function Bits13(r: bv32): bv3 {
    ((r >> 13) & 7) as bv3
  }

  function Bits0(r: bv32): bv13 {
    (r & 0x1FFF) as bv13
  }

  function Ipv4OfRows(r0: bv32, r1: bv32, r2: bv32, src: bv32, dst: bv32): Ipv4 {
    Ipv4(Bits28(r0), Bits24(r0), Bits16(r0), LowHalf(r0),
         HighHalf(r1), Bits13(r1), Bits0(r1),
         TopByte(r2), Bits16(r2), LowHalf(r2),
         src, dst)
  }

  function Ipv4Of(b: seq<bv8>): Ipv4
    requires |b| == 20
  {
    Ipv4OfRows(RowOf(b, 0), RowOf(b, 1), RowOf(b, 2), RowOf(b, 3), RowOf(b, 4))
  }

  lemma Row2Bits(ttl: bv8, protocol: bv8, hdrChecksum: bv16)
    ensures Row(PackRow2(ttl, protocol, hdrChecksum)) == [ttl, protocol, Hi(hdrChecksum), Lo(hdrChecksum)]
  {
  }

  function FirstEight(h: Ipv4): (r: seq<bv8>)
    ensures |r| == 8
  {
    Row(Ipv4Row0(h)) + Row(Ipv4Row1(h))
  }

  lemma ThirdRow(h: Ipv4)
    ensures Ipv4Bytes(h) == FirstEight(h) + [h.ttl, h.protocol, Hi(h.hdrChecksum), Lo(h.hdrChecksum)] +
                            (Row(h.srcAddr) + Row(h.dstAddr))
  {
    hide Row, PackRow2, Ipv4Row0, Ipv4Row1, Hi, Lo;
    Row2Bits(h.ttl, h.protocol, h.hdrChecksum);
  }

  lemma FirstEightKept(h: Ipv4, t: bv8, c: bv16)
    ensures FirstEight(h.(ttl := t, hdrChecksum := c)) == FirstEight(h)
  {
    hide Row, PackRow0, PackRow1;
  }

  lemma SpliceThirdRow(a: seq<bv8>, ttl: bv8, protocol: bv8, c0: bv8, c1: bv8, d: seq<bv8>, t: bv8, e0: bv8, e1: bv8)
    requires |a| == 8
    ensures Splice(Splice(a + [ttl, protocol, c0, c1] + d, 8, [t]), 10, [e0, e1]) == a + [t, protocol, e0, e1] + d
  {
  }

  /** On the wire, changing ttl and checksum changes byte 8 and bytes 10 and 11. */
  lemma ChangedTtlBytes(h: Ipv4, t: bv8, c: bv16)
    ensures Ipv4Bytes(h.(ttl := t, hdrChecksum := c)) == Splice(Splice(Ipv4Bytes(h), 8, [t]), 10, Half(c))
  {
    hide Row, FirstEight, Ipv4Bytes, Splice, Hi, Lo;
    var g := h.(ttl := t, hdrChecksum := c);
    ThirdRow(h);
    ThirdRow(g);
    FirstEightKept(h, t, c);
    SpliceThirdRow(FirstEight(h), h.ttl, h.protocol, Hi(h.hdrChecksum), Lo(h.hdrChecksum),
                   Row(h.srcAddr) + Row(h.dstAddr), t, Hi(c), Lo(c));
  }

  lemma RowRoundTrip(x: bv32)
    ensures Be32(Row(x)[0], Row(x)[1], Row(x)[2], Row(x)[3]) == x
  {
  }

  lemma RowRoundTripBytes(a: bv8, b: bv8, c: bv8, d: bv8)
    ensures Row(Be32(a, b, c, d)) == [a, b, c, d]
  {
  }

  lemma Ipv4Fields0(h: Ipv4)
    ensures var r := Ipv4Row0(h);
      Bits28(r) == h.version && Bits24(r) == h.ihl && Bits16(r) == h.diffserv && LowHalf(r) == h.totalLen
  {
  }

  lemma Ipv4Fields1(h: Ipv4)
    ensures var r := Ipv4Row1(h);
      HighHalf(r) == h.identification && Bits13(r) == h.flags && Bits0(r) == h.fragOffset
  {
  }

  lemma Ipv4Fields2(h: Ipv4)
    ensures var r := Ipv4Row2(h);
      TopByte(r) == h.ttl && Bits16(r) == h.protocol && LowHalf(r) == h.hdrChecksum
  {
  }

  lemma Row0OfBits(r: bv32)
    ensures PackRow0(Bits28(r), Bits24(r), Bits16(r), LowHalf(r)) == r
  {
  }

  lemma Row1OfBits(r: bv32)
    ensures PackRow1(HighHalf(r), Bits13(r), Bits0(r)) == r
  {
  }

  lemma Row2OfBits(r: bv32)
    ensures PackRow2(TopByte(r), Bits16(r), LowHalf(r)) == r
  {
  }

  lemma Ipv4Rows(r0: bv32, r1: bv32, r2: bv32, src: bv32, dst: bv32)
    ensures var h := Ipv4OfRows(r0, r1, r2, src, dst);
      Ipv4Row0(h) == r0 && Ipv4Row1(h) == r1 && Ipv4Row2(h) == r2 && h.srcAddr == src && h.dstAddr == dst
  {
    hide Bits28, Bits24, Bits16, TopByte, HighHalf, LowHalf, Bits13, Bits0, PackRow0, PackRow1, PackRow2;
    Row0OfBits(r0);
    Row1OfBits(r1);
    Row2OfBits(r2);
  }

  lemma TtlFields(a: bv8, b: bv8, c: bv8, d: bv8)
    ensures var r := Be32(a, b, c, d); a == TopByte(r) && b == Bits16(r) && Be16(c, d) == LowHalf(r)
  {
  }

  lemma Ipv4Fields(h: Ipv4)
    ensures Ipv4OfRows(Ipv4Row0(h), Ipv4Row1(h), Ipv4Row2(h), h.srcAddr, h.dstAddr) == h
  {
    hide Ipv4Row0, Ipv4Row1, Ipv4Row2, Bits28, Bits24, Bits16, TopByte, HighHalf, LowHalf, Bits13, Bits0;
    Ipv4Fields0(h);
    Ipv4Fields1(h);
    Ipv4Fields2(h);
  }

  lemma RowAt(b: seq<bv8>, k: nat, x: bv32)
    requires 4 * k + 4 <= |b| && b[4 * k..4 * k + 4] == Row(x)
    ensures RowOf(b, k) == x
  {
    hide Row, Be32;
    assert b[4 * k] == Row(x)[0] && b[4 * k + 1] == Row(x)[1] && b[4 * k + 2] == Row(x)[2] && b[4 * k + 3] == Row(x)[3];
    RowRoundTrip(x);
  }

  /** The rows of twenty bytes that were written as rows. */
  lemma RowsRead(r0: bv32, r1: bv32, r2: bv32, r3: bv32, r4: bv32)
    ensures var b := Row(r0) + Row(r1) + Row(r2) + Row(r3) + Row(r4);
      RowOf(b, 0) == r0 && RowOf(b, 1) == r1 && RowOf(b, 2) == r2 && RowOf(b, 3) == r3 && RowOf(b, 4) == r4
  {
    hide Row, RowOf;
    var b := Row(r0) + Row(r1) + Row(r2) + Row(r3) + Row(r4);
    assert b[0..4] == Row(r0) && b[4..8] == Row(r1) && b[8..12] == Row(r2);
    assert b[12..16] == Row(r3) && b[16..20] == Row(r4);
    RowAt(b, 0, r0);
    RowAt(b, 1, r1);
    RowAt(b, 2, r2);
    RowAt(b, 3, r3);
    RowAt(b, 4, r4);
  }

  lemma Ipv4RoundTrip(h: Ipv4)
    ensures Ipv4Of(Ipv4Bytes(h)) == h
  {
    hide Row, RowOf, Ipv4OfRows, Ipv4Row0, Ipv4Row1, Ipv4Row2;
    RowsRead(Ipv4Row0(h), Ipv4Row1(h), Ipv4Row2(h), h.srcAddr, h.dstAddr);
    Ipv4Fields(h);
  }

  lemma RowBytes(b: seq<bv8>, k: nat)
    requires 4 * k + 4 <= |b|
    ensures Row(RowOf(b, k)) == b[4 * k..4 * k + 4]
  {
    hide Row, Be32;
    RowRoundTripBytes(b[4 * k], b[4 * k + 1], b[4 * k + 2], b[4 * k + 3]);
  }

  lemma BytesOfRows(r0: bv32, r1: bv32, r2: bv32, src: bv32, dst: bv32)
    ensures Ipv4Bytes(Ipv4OfRows(r0, r1, r2, src, dst)) == Row(r0) + Row(r1) + Row(r2) + Row(src) + Row(dst)
  {
    hide Row, Ipv4OfRows, Ipv4Row0, Ipv4Row1, Ipv4Row2;
    Ipv4Rows(r0, r1, r2, src, dst);
  }

  lemma FiveRows(b: seq<bv8>)
    requires |b| == 20
    ensures b == b[0..4] + b[4..8] + b[8..12] + b[12..16] + b[16..20]
  {
  }

  lemma Ipv4RoundTripBytes(b: seq<bv8>)
    requires |b| == 20
    ensures Ipv4Bytes(Ipv4Of(b)) == b
  {
    hide Row, RowOf, Ipv4OfRows, Ipv4Bytes;
    BytesOfRows(RowOf(b, 0), RowOf(b, 1), RowOf(b, 2), RowOf(b, 3), RowOf(b, 4));
    RowBytes(b, 0);
    RowBytes(b, 1);
    RowBytes(b, 2);
    RowBytes(b, 3);
    RowBytes(b, 4);
    FiveRows(b);
  }

  // ---- IPv6 ----

  function PackIpv6Row0(version: bv4, trafficClass: bv8, flowLabel: bv20): bv32 {
    ((version as bv32) << 28) | ((trafficClass as bv32) << 20) | (flowLabel as bv32)
  }

  function PackIpv6Row1(payloadLen: bv16, nextHdr: bv8, hopLimit: bv8): bv32 {
    ((payloadLen as bv32) << 16) | ((nextHdr as bv32) << 8) | (hopLimit as bv32)
  }

  function Ipv6Row0(h: Ipv6): bv32 {
    PackIpv6Row0(h.version, h.trafficClass, h.flowLabel)
  }

  function Ipv6Row1(h: Ipv6): bv32 {
    PackIpv6Row1(h.payloadLen, h.nextHdr, h.hopLimit)
  }

  predicate Ipv6WellFormed(h: Ipv6) {
    |h.srcAddr| == 16 && |h.dstAddr| == 16
  }

  function Ipv6Bytes(h: Ipv6): (r: seq<bv8>)
    requires Ipv6WellFormed(h)
    ensures |r| == 40
  {
    Row(Ipv6Row0(h)) + Row(Ipv6Row1(h)) + h.srcAddr + h.dstAddr
  }

  function Bits20(r: bv32): bv8 {
    ((r >> 20) & 0xFF) as bv8
  }

  function LowTwenty(r: bv32): bv20 {
    (r & 0xFFFFF) as bv20
  }

  function Bits8(r: bv32): bv8 {
    ((r >> 8) & 0xFF) as bv8
  }

  function LowByte(r: bv32): bv8 {
    (r & 0xFF) as bv8
  }

  function Ipv6OfRows(r0: bv32, r1: bv32, src: seq<bv8>, dst: seq<bv8>): Ipv6 {
    Ipv6(Bits28(r0), Bits20(r0), LowTwenty(r0), HighHalf(r1), Bits8(r1), LowByte(r1), src, dst)
  }

  function Ipv6Of(b: seq<bv8>): (h: Ipv6)
    requires |b| == 40
    ensures Ipv6WellFormed(h)
  {
    Ipv6OfRows(RowOf(b, 0), RowOf(b, 1), b[8..24], b[24..40])
  }

  lemma Ipv6Rows(r0: bv32, r1: bv32, src: seq<bv8>, dst: seq<bv8>)
    ensures var h := Ipv6OfRows(r0, r1, src, dst); Ipv6Row0(h) == r0 && Ipv6Row1(h) == r1
  {
  }

  lemma Ipv6Fields(h: Ipv6)
    ensures Ipv6OfRows(Ipv6Row0(h), Ipv6Row1(h), h.srcAddr, h.dstAddr) == h
  {
  }

  lemma Ipv6RoundTrip(h: Ipv6)
    requires Ipv6WellFormed(h)
    ensures Ipv6Of(Ipv6Bytes(h)) == h
  {
    hide Row, RowOf, Ipv6Row0, Ipv6Row1, Ipv6OfRows;
    var b := Ipv6Bytes(h);
    RowAt(b, 0, Ipv6Row0(h));
    RowAt(b, 1, Ipv6Row1(h));
    assert b[8..24] == h.srcAddr && b[24..40] == h.dstAddr;
    Ipv6Fields(h);
  }

  lemma Ipv6RoundTripBytes(b: seq<bv8>)
    requires |b| == 40
    ensures Ipv6Bytes(Ipv6Of(b)) == b
  {
    Ipv6Rows(RowOf(b, 0), RowOf(b, 1), b[8..24], b[24..40]);
    hide Row, RowOf, Ipv6Row0, Ipv6Row1;
    RowBytes(b, 0);
    RowBytes(b, 1);
    assert b == b[0..4] + b[4..8] + b[8..24] + b[24..40];
  }

  // ---- the ports TCP and UDP begin with ----

  datatype Ports = Ports(srcPort: bv16, dstPort: bv16)

  function PortsBytes(h: Ports): (r: seq<bv8>)
    ensures |r| == 4
  {
    Half(h.srcPort) + Half(h.dstPort)
  }

  function PortsOf(b: seq<bv8>): Ports
    requires |b| == 4
  {
    Ports(Be16(b[0], b[1]), Be16(b[2], b[3]))
  }

  lemma PortsRoundTripBytes(b: seq<bv8>)
    requires |b| == 4
    ensures PortsBytes(PortsOf(b)) == b
  {
    hide Half, Be16;
    HalfRoundTripBytes(b[0], b[1]);
    HalfRoundTripBytes(b[2], b[3]);
  }
}
