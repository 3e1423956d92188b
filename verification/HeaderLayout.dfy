// Where the fields of a header stand: every row of the header diagrams as a number in base
// 256, the most significant byte first.

module HeaderLayout {
  import opened Bytes
  import opened WireFormat
  import opened WordArithmetic

  // ---- Ethernet ----

  lemma SixByteBits(a: bv8, b: bv8, c: bv8, d: bv8, e: bv8, f: bv8)
    ensures (((a as bv48) << 40) | ((b as bv48) << 32) | ((c as bv48) << 24) |
             ((d as bv48) << 16) | ((e as bv48) << 8) | (f as bv48)) as int
         == (((((a as int) * 0x100 + b as int) * 0x100 + c as int) * 0x100 + d as int) * 0x100 + e as int) * 0x100
            + f as int
  {
  }

  lemma MacOfIs(b: seq<bv8>)
    requires |b| == 6
    ensures MacOf(b) == (((b[0] as bv48) << 40) | ((b[1] as bv48) << 32) | ((b[2] as bv48) << 24) |
                         ((b[3] as bv48) << 16) | ((b[4] as bv48) << 8) | (b[5] as bv48))
  {
  }

  lemma BigEndianOfSix(a: bv8, b: bv8, c: bv8, d: bv8, e: bv8, f: bv8)
    ensures BigEndian([a, b, c, d, e, f]) ==
            (((((a as int) * 0x100 + b as int) * 0x100 + c as int) * 0x100 + d as int) * 0x100 + e as int) * 0x100
            + f as int
  {
    hide BigEndian;
    BigEndianOfFour(a, b, c, d);
    BigEndianNext([a, b, c, d], e);
    BigEndianNext([a, b, c, d, e], f);
    assert [a, b, c, d, e] == [a, b, c, d] + [e] && [a, b, c, d, e, f] == [a, b, c, d, e] + [f];
  }

  function MacValue(x: bv48): int {
    x as int
  }

  lemma MacValueIs(x: bv48)
    ensures MacValue(x) == x as int
  {
  }

  /** A MAC address is the number its six bytes spell. */
  lemma MacLayout(b: seq<bv8>)
    requires |b| == 6
    ensures MacValue(MacOf(b)) == BigEndian(b)
  {
    hide MacOf, BigEndian, MacValue;
    assert b == [b[0], b[1], b[2], b[3], b[4], b[5]];
    BigEndianOfSix(b[0], b[1], b[2], b[3], b[4], b[5]);
    SixByteValue(b);
  }

  lemma SixByteValue(b: seq<bv8>)
    requires |b| == 6
    ensures MacValue(MacOf(b)) ==
            (((((b[0] as int) * 0x100 + b[1] as int) * 0x100 + b[2] as int) * 0x100 + b[3] as int) * 0x100
             + b[4] as int) * 0x100 + b[5] as int
  {
    hide MacOf, MacValue;
    MacOfIs(b);
    MacValueIs(MacOf(b));
    SixByteBits(b[0], b[1], b[2], b[3], b[4], b[5]);
  }

  lemma HalfLayout(x: bv16)
    ensures BigEndian(Half(x)) == Val16(x)
  {
    hide Hi, Lo, Be16, BigEndian, Val16;
    BigEndianOfTwo(Hi(x), Lo(x));
    HalfRoundTrip(x);
    JoinValue(Hi(x), Lo(x));
  }

  lemma TypeBits(a: bv8, b: bv8)
    ensures Be16(a, b) == 0x0800 <==> a == 0x08 && b == 0x00
  {
  }

  lemma TypeBytes(p: seq<bv8>)
    requires |p| >= 14
    ensures EthernetOf(p[..14]).etherType == 0x0800 <==> p[12] == 0x08 && p[13] == 0x00
  {
    hide Be16;
    TypeBits(p[12], p[13]);
  }

  // ---- IPv4, section 3.1 of RFC 791 ----

  lemma PackedRow0(version: bv4, ihl: bv4, diffserv: bv8, totalLen: bv16)
    ensures (((version as bv32) << 28) | ((ihl as bv32) << 24) | ((diffserv as bv32) << 16) | (totalLen as bv32)) as int
         == (version as int) * 0x1000_0000 + (ihl as int) * 0x100_0000 + (diffserv as int) * 0x1_0000 + totalLen as int
  {
  }

  lemma PackedRow1(identification: bv16, flags: bv3, fragOffset: bv13)
    ensures (((identification as bv32) << 16) | ((flags as bv32) << 13) | (fragOffset as bv32)) as int
         == (identification as int) * 0x1_0000 + (flags as int) * 0x2000 + fragOffset as int
  {
  }

  lemma PackedRow2(ttl: bv8, protocol: bv8, hdrChecksum: bv16)
    ensures (((ttl as bv32) << 24) | ((protocol as bv32) << 16) | (hdrChecksum as bv32)) as int
         == (ttl as int) * 0x100_0000 + (protocol as int) * 0x1_0000 + hdrChecksum as int
  {
  }

  lemma Ipv4RowValues(h: Ipv4)
    ensures Value(Ipv4Row0(h)) ==
            (h.version as int) * 0x1000_0000 + (h.ihl as int) * 0x100_0000 + (h.diffserv as int) * 0x1_0000
            + h.totalLen as int
    ensures Value(Ipv4Row1(h)) ==
            (h.identification as int) * 0x1_0000 + (h.flags as int) * 0x2000 + h.fragOffset as int
    ensures Value(Ipv4Row2(h)) ==
            (h.ttl as int) * 0x100_0000 + (h.protocol as int) * 0x1_0000 + h.hdrChecksum as int
  {
    hide Value, PackRow0, PackRow1, PackRow2;
    PackRowsAre(h);
    ValueIs(Ipv4Row0(h));
    ValueIs(Ipv4Row1(h));
    ValueIs(Ipv4Row2(h));
    PackedRow0(h.version, h.ihl, h.diffserv, h.totalLen);
    PackedRow1(h.identification, h.flags, h.fragOffset);
    PackedRow2(h.ttl, h.protocol, h.hdrChecksum);
  }

  lemma PackRowsAre(h: Ipv4)
    ensures Ipv4Row0(h) == (((h.version as bv32) << 28) | ((h.ihl as bv32) << 24) | ((h.diffserv as bv32) << 16) |
                            (h.totalLen as bv32))
    ensures Ipv4Row1(h) == (((h.identification as bv32) << 16) | ((h.flags as bv32) << 13) | (h.fragOffset as bv32))
    ensures Ipv4Row2(h) == (((h.ttl as bv32) << 24) | ((h.protocol as bv32) << 16) | (h.hdrChecksum as bv32))
  {
  }

  lemma FiveParts(b: seq<bv8>, r0: seq<bv8>, r1: seq<bv8>, r2: seq<bv8>, r3: seq<bv8>, r4: seq<bv8>)
    requires |r0| == |r1| == |r2| == |r3| == |r4| == 4 && b == r0 + r1 + r2 + r3 + r4
    ensures b[0..4] == r0 && b[4..8] == r1 && b[8..12] == r2 && b[12..16] == r3 && b[16..20] == r4
  {
  }

  /** The five rows of the IPv4 header. */
  lemma Ipv4Layout(b: seq<bv8>)
    requires |b| == 20
    ensures var h := Ipv4Of(b);
      BigEndian(b[0..4]) == (h.version as int) * 0x1000_0000 + (h.ihl as int) * 0x100_0000
                            + (h.diffserv as int) * 0x1_0000 + h.totalLen as int &&
      BigEndian(b[4..8]) == (h.identification as int) * 0x1_0000 + (h.flags as int) * 0x2000 + h.fragOffset as int &&
      BigEndian(b[8..12]) == (h.ttl as int) * 0x100_0000 + (h.protocol as int) * 0x1_0000 + h.hdrChecksum as int &&
      BigEndian(b[12..16]) == Value(h.srcAddr) && BigEndian(b[16..20]) == Value(h.dstAddr)
  {
    hide Ipv4Of, Row, Ipv4Row0, Ipv4Row1, Ipv4Row2, Value, BigEndian;
    var h := Ipv4Of(b);
    Ipv4RoundTripBytes(b);
    Ipv4RowValues(h);
    FiveParts(b, Row(Ipv4Row0(h)), Row(Ipv4Row1(h)), Row(Ipv4Row2(h)), Row(h.srcAddr), Row(h.dstAddr));
    BigEndianOfRow(Ipv4Row0(h));
    BigEndianOfRow(Ipv4Row1(h));
    BigEndianOfRow(Ipv4Row2(h));
    BigEndianOfRow(h.srcAddr);
    BigEndianOfRow(h.dstAddr);
  }

  /** The fields that fill whole bytes. */
  lemma Ipv4FieldBytes(b: seq<bv8>)
    requires |b| == 20
    ensures var h := Ipv4Of(b);
      h.totalLen == Be16(b[2], b[3]) && h.ttl == b[8] && h.protocol == b[9] && h.hdrChecksum == Be16(b[10], b[11]) &&
      Row(h.srcAddr) == b[12..16] && Row(h.dstAddr) == b[16..20]
  {
    hide Row, Be16, Be32, Bits28, Bits24, Bits16, LowHalf, HighHalf, Bits13, Bits0, TopByte;
    RowBytes(b, 3);
    RowBytes(b, 4);
    TtlFields(b[0], b[1], b[2], b[3]);
    TtlFields(b[8], b[9], b[10], b[11]);
  }

  // ---- IPv6, section 3 of RFC 8200 ----

  lemma PackedIpv6(version: bv4, trafficClass: bv8, flowLabel: bv20)
    ensures (((version as bv32) << 28) | ((trafficClass as bv32) << 20) | (flowLabel as bv32)) as int
         == (version as int) * 0x1000_0000 + (trafficClass as int) * 0x10_0000 + flowLabel as int
  {
  }

  lemma PackedIpv6Second(payloadLen: bv16, nextHdr: bv8, hopLimit: bv8)
    ensures (((payloadLen as bv32) << 16) | ((nextHdr as bv32) << 8) | (hopLimit as bv32)) as int
         == (payloadLen as int) * 0x1_0000 + (nextHdr as int) * 0x100 + hopLimit as int
  {
  }

  lemma Ipv6Row0Value(version: bv4, trafficClass: bv8, flowLabel: bv20)
    ensures Value(PackIpv6Row0(version, trafficClass, flowLabel)) ==
            (version as int) * 0x1000_0000 + (trafficClass as int) * 0x10_0000 + flowLabel as int
  {
    hide Value, PackIpv6Row0;
    PackIpv6Row0Is(version, trafficClass, flowLabel);
    ValueIs(PackIpv6Row0(version, trafficClass, flowLabel));
    PackedIpv6(version, trafficClass, flowLabel);
  }

  lemma Ipv6Row1Value(payloadLen: bv16, nextHdr: bv8, hopLimit: bv8)
    ensures Value(PackIpv6Row1(payloadLen, nextHdr, hopLimit)) ==
            (payloadLen as int) * 0x1_0000 + (nextHdr as int) * 0x100 + hopLimit as int
  {
    hide Value, PackIpv6Row1;
    PackIpv6Row1Is(payloadLen, nextHdr, hopLimit);
    ValueIs(PackIpv6Row1(payloadLen, nextHdr, hopLimit));
    PackedIpv6Second(payloadLen, nextHdr, hopLimit);
  }

  lemma Ipv6RowValues(h: Ipv6)
    ensures Value(Ipv6Row0(h)) ==
            (h.version as int) * 0x1000_0000 + (h.trafficClass as int) * 0x10_0000 + h.flowLabel as int
    ensures Value(Ipv6Row1(h)) ==
            (h.payloadLen as int) * 0x1_0000 + (h.nextHdr as int) * 0x100 + h.hopLimit as int
  {
    hide Value, PackIpv6Row0, PackIpv6Row1;
    Ipv6Row0Value(h.version, h.trafficClass, h.flowLabel);
    Ipv6Row1Value(h.payloadLen, h.nextHdr, h.hopLimit);
  }

  lemma PackIpv6Row0Is(version: bv4, trafficClass: bv8, flowLabel: bv20)
    ensures PackIpv6Row0(version, trafficClass, flowLabel) ==
            (((version as bv32) << 28) | ((trafficClass as bv32) << 20) | (flowLabel as bv32))
  {
  }

  lemma PackIpv6Row1Is(payloadLen: bv16, nextHdr: bv8, hopLimit: bv8)
    ensures PackIpv6Row1(payloadLen, nextHdr, hopLimit) ==
            (((payloadLen as bv32) << 16) | ((nextHdr as bv32) << 8) | (hopLimit as bv32))
  {
  }

  /** The two rows and two addresses of the IPv6 header. */
  lemma Ipv6Layout(b: seq<bv8>)
    requires |b| == 40
    ensures var h := Ipv6Of(b);
      BigEndian(b[0..4]) == (h.version as int) * 0x1000_0000 + (h.trafficClass as int) * 0x10_0000
                            + h.flowLabel as int &&
      BigEndian(b[4..8]) == (h.payloadLen as int) * 0x1_0000 + (h.nextHdr as int) * 0x100 + h.hopLimit as int &&
      b[8..24] == h.srcAddr && b[24..40] == h.dstAddr
  {
    hide Ipv6OfRows, RowOf, Row, Ipv6Row0, Ipv6Row1, Value, BigEndian;
    var h := Ipv6Of(b);
    Ipv6RoundTripBytes(b);
    Ipv6RowValues(h);
    assert b[0..4] == Row(Ipv6Row0(h)) && b[4..8] == Row(Ipv6Row1(h));
    BigEndianOfRow(Ipv6Row0(h));
    BigEndianOfRow(Ipv6Row1(h));
    assert |Row(Ipv6Row0(h)) + Row(Ipv6Row1(h))| == 8;
  }
}
