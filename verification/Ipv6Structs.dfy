// struct ipv6_t of the IPv6 flow tracker: fields that straddle bytes, loaded with
// shifted word loads and written nibble by nibble.

module Ipv6Structs {
  import opened Bytes
  import opened WireFormat
  import opened HeaderStructs

  datatype Ipv6T = Ipv6T(
    version: bv8, trafficClass: bv8, flowLabel: bv32, payloadLen: bv16, nextHdr: bv8, hopLimit: bv8,
    srcAddr: seq<bv8>, dstAddr: seq<bv8>, valid: bool)

  datatype PortsT = PortsT(srcPort: bv16, dstPort: bv16, valid: bool)

  const ZeroAddress6: seq<bv8> := [0, 0, 0, 0, 0, 0, 0, 0, 0, 0, 0, 0, 0, 0, 0, 0]
  const NoIpv6 := Ipv6T(0, 0, 0, 0, 0, 0, ZeroAddress6, ZeroAddress6, false)
  const NoPorts := PortsT(0, 0, false)

  predicate InRange6(h: Ipv6T) {
    h.version < 16 && h.flowLabel < 0x10_0000 && |h.srcAddr| == 16 && |h.dstAddr| == 16
  }

  function To20(x: bv32): bv20 {
    (x & 0xFFFFF) as bv20
  }

  function Ipv6View(h: Ipv6T): Ipv6 {
    Ipv6(To4(h.version), h.trafficClass, To20(h.flowLabel), h.payloadLen, h.nextHdr, h.hopLimit, h.srcAddr, h.dstAddr)
  }

  function PortsView(h: PortsT): Ports {
    Ports(h.srcPort, h.dstPort)
  }

  // ---- extraction ----

  /** bits 4 to 11 of a 16-bit load */
  function MiddleByte(x: bv16): bv8 {
    ((x >> 4) & 0xFF) as bv8
  }

  /** the flow label in a 32-bit load that starts one byte into the header */
  function LabelBits(x: bv32): bv32 {
    (x >> 8) & 0xFFFFF
  }

  lemma VersionClass(a: bv8, b: bv8, c: bv8, d: bv8)
    ensures var r := Be32(a, b, c, d); To4(HighNibble(a)) == Bits28(r) && MiddleByte(Be16(a, b)) == Bits20(r)
  {
  }

  lemma LabelBitsOfBytes(a: bv8, b: bv8, c: bv8, d: bv8, e: bv8)
    ensures LabelBits(((b as bv32) << 24) | ((c as bv32) << 16) | ((d as bv32) << 8) | (e as bv32)) ==
            (((a as bv32) << 24) | ((b as bv32) << 16) | ((c as bv32) << 8) | (d as bv32)) & 0xFFFFF
  {
  }

  lemma LabelWords(a: bv8, b: bv8, c: bv8, d: bv8, e: bv8)
    ensures LabelBits(Be32(b, c, d, e)) == Be32(a, b, c, d) & 0xFFFFF
  {
    hide LabelBits;
    LabelBitsOfBytes(a, b, c, d, e);
  }

  lemma MaskedTwice(x: bv32)
    ensures (x & 0xFFFFF) & 0xFFFFF == x & 0xFFFFF
  {
  }

  lemma FlowLabel(a: bv8, b: bv8, c: bv8, d: bv8, e: bv8)
    ensures To20(LabelBits(Be32(b, c, d, e))) == LowTwenty(Be32(a, b, c, d))
  {
    hide Be32, LabelBits;
    LabelWords(a, b, c, d, e);
    MaskedTwice(Be32(a, b, c, d));
  }

  lemma NarrowFields6(a: bv8, x: bv32)
    ensures HighNibble(a) < 16
    ensures LabelBits(x) < 0x10_0000
  {
  }

  lemma LengthNextHop(a: bv8, b: bv8, c: bv8, d: bv8)
    ensures var r := Be32(a, b, c, d); Be16(a, b) == HighHalf(r) && c == Bits8(r) && d == LowByte(r)
  {
  }

  function LoadedIpv6(b: seq<bv8>): Ipv6T
    requires |b| == 40
  {
    Ipv6T(HighNibble(b[0]), MiddleByte(HalfAt(b, 0)), LabelBits(WordAt(b, 1)), HalfAt(b, 4), b[6], b[7],
          b[8..24], b[24..40], true)
  }

  lemma LoadedIpv6View(b: seq<bv8>)
    requires |b| == 40
    ensures InRange6(LoadedIpv6(b)) && Ipv6View(LoadedIpv6(b)) == Ipv6Of(b)
  {
    hide Le16, Le32, Swab16, Swab32, Be16, Be32, HighNibble, MiddleByte, LabelBits, To4, To20,
      Bits28, Bits20, LowTwenty, HighHalf, Bits8, LowByte;
    NarrowFields6(b[0], WordAt(b, 1));
    SwabHalf(b[0], b[1]);
    SwabHalf(b[4], b[5]);
    SwabWord(b[1], b[2], b[3], b[4]);
    VersionClass(b[0], b[1], b[2], b[3]);
    FlowLabel(b[0], b[1], b[2], b[3], b[4]);
    LengthNextHop(b[4], b[5], b[6], b[7]);
  }

  /** version, traffic class and flow label: loads that start inside a byte round down */
  method ExtractIpv6Head(pkt: array<bv8>, offset0: nat)
    returns (version: bv8, trafficClass: bv8, flowLabel: bv32, offset: nat)
    requires offset0 % 8 == 0 && offset0 / 8 + 40 <= pkt.Length
    ensures offset == offset0 + 32
    ensures var b := pkt[offset0 / 8..offset0 / 8 + 40];
      version == HighNibble(b[0]) && trafficClass == MiddleByte(HalfAt(b, 0)) && flowLabel == LabelBits(WordAt(b, 1))
  {
    hide LoadHalf, LoadWord, HalfAt, WordAt, HighNibble, MiddleByte, LabelBits;
    offset := offset0;
    version := HighNibble(LoadByte(pkt, offset / 8));
    offset := offset + 4;
    trafficClass := MiddleByte(LoadHalf(pkt, offset / 8));
    offset := offset + 8;
    flowLabel := LabelBits(LoadWord(pkt, offset / 8));
    offset := offset + 20;
    LoadHalfOfSlice(pkt, offset0 / 8, 40, 0);
    LoadWordOfSlice(pkt, offset0 / 8, 40, 1);
  }

  /** the sixteen byte loads of one address */
  method ExtractAddress6(pkt: array<bv8>, offset0: nat) returns (a: seq<bv8>, offset: nat)
    requires offset0 % 8 == 0 && offset0 / 8 + 16 <= pkt.Length
    ensures offset == offset0 + 128
    ensures a == pkt[offset0 / 8..offset0 / 8 + 16]
  {
    a, offset := pkt[offset0 / 8..offset0 / 8 + 16], offset0 + 128;
  }

  method ExtractIpv6(pkt: array<bv8>, offset0: nat) returns (h: Ipv6T, offset: nat)
    requires offset0 % 8 == 0 && offset0 / 8 + 40 <= pkt.Length
    ensures offset == offset0 + 320
    ensures h == LoadedIpv6(pkt[offset0 / 8..offset0 / 8 + 40])
    ensures h.valid && InRange6(h)
    ensures Ipv6View(h) == Ipv6Of(pkt[offset0 / 8..offset0 / 8 + 40])
  {
    hide Ipv6View, Ipv6Of, LoadHalf, HalfAt, WordAt, InRange6, HighNibble, MiddleByte, LabelBits;
    var at := offset0 / 8;
    ghost var b := pkt[at..at + 40];
    var version, trafficClass, flowLabel, srcAddr, dstAddr;
    version, trafficClass, flowLabel, offset := ExtractIpv6Head(pkt, offset0);
    var payloadLen := LoadHalf(pkt, offset / 8);
    offset := offset + 16;
    var nextHdr := LoadByte(pkt, offset / 8);
    offset := offset + 8;
    var hopLimit := LoadByte(pkt, offset / 8);
    offset := offset + 8;
    srcAddr, offset := ExtractAddress6(pkt, offset);
    dstAddr, offset := ExtractAddress6(pkt, offset);
    h := Ipv6T(version, trafficClass, flowLabel, payloadLen, nextHdr, hopLimit, srcAddr, dstAddr, true);
    LoadHalfOfSlice(pkt, at, 40, 4);
    SliceOfSlice(pkt[..], at, 40, 8, 24);
    SliceOfSlice(pkt[..], at, 40, 24, 40);
    LoadedIpv6View(b);
  }

  method ExtractPorts(pkt: array<bv8>, offset0: nat) returns (h: PortsT, offset: nat)
    requires offset0 % 8 == 0 && offset0 / 8 + 4 <= pkt.Length
    ensures offset == offset0 + 32
    ensures h.valid && PortsView(h) == PortsOf(pkt[offset0 / 8..offset0 / 8 + 4])
  {
    hide LoadHalf, HalfAt, Be16;
    offset := offset0;
    var srcPort := LoadHalf(pkt, offset / 8);
    offset := offset + 16;
    var dstPort := LoadHalf(pkt, offset / 8);
    offset := offset + 16;
    h := PortsT(srcPort, dstPort, true);
    LoadHalfOfSlice(pkt, offset0 / 8, 4, 0);
    LoadHalfOfSlice(pkt, offset0 / 8, 4, 2);
    HalvesAreBigEndian(pkt[offset0 / 8..offset0 / 8 + 4]);
  }

  lemma HalvesAreBigEndian(b: seq<bv8>)
    requires |b| == 4
    ensures HalfAt(b, 0) == Be16(b[0], b[1]) && HalfAt(b, 2) == Be16(b[2], b[3])
  {
    hide Swab16, Le16, Be16;
    SwabHalf(b[0], b[1]);
    SwabHalf(b[2], b[3]);
  }

  // ---- emission ----

  /** The flow label as it lies in memory after htonl(flowLabel << 12). */
  function LabelMemory(flow: bv32): (m: seq<bv8>)
    ensures |m| == 4
  {
    Mem32(Swab32(flow << 12))
  }

  function Upper(b: bv8): bv8 {
    b >> 4
  }

  /** The eight nibble writes of version, traffic class and flow label, two to a byte. */
  lemma NibbleWrites(a: bv8, b: bv8, c: bv8, d: bv8, version: bv8, tc: bv8, flow: bv32)
    requires version < 16 && flow < 0x10_0000
    ensures var m := LabelMemory(flow);
      [Partial(Partial(a, 4, 4, version), 4, 0, Upper(tc)), Partial(Partial(b, 4, 4, tc), 4, 0, Upper(m[0])),
       Partial(Partial(c, 4, 4, m[0]), 4, 0, Upper(m[1])), Partial(Partial(d, 4, 4, m[1]), 4, 0, Upper(m[2]))]
      == Row(FirstRow(version, tc, flow))
  {
  }

  lemma SpliceFour(s: seq<bv8>, at: nat, a: bv8, b: bv8, c: bv8, d: bv8)
    requires at + 4 <= |s|
    ensures s[at := a][at + 1 := b][at + 2 := c][at + 3 := d] == Splice(s, at, [a, b, c, d])
  {
  }

  function FirstRow(version: bv8, tc: bv8, flow: bv32): bv32 {
    ((To4(version) as bv32) << 28) | ((tc as bv32) << 20) | (To20(flow) as bv32)
  }

  lemma Ipv6Row0View(h: Ipv6T)
    ensures Ipv6Row0(Ipv6View(h)) == FirstRow(h.version, h.trafficClass, h.flowLabel)
  {
    hide To4, To20;
  }

  method EmitVersionClassLabel(pkt: array<bv8>, at: nat, h: Ipv6T)
    requires at + 4 <= pkt.Length
    requires InRange6(h)
    modifies pkt
    ensures pkt[..] == Splice(old(pkt[..]), at, Row(Ipv6Row0(Ipv6View(h))))
  {
    hide Partial, LabelMemory, Upper, Row, Splice, Ipv6Row0, Ipv6View, FirstRow;
    ghost var s := pkt[..];
    var m := LabelMemory(h.flowLabel);
    WriteTwoPartials(pkt, at, 4, 4, h.version, 4, 0, Upper(h.trafficClass));
    WriteTwoPartials(pkt, at + 1, 4, 4, h.trafficClass, 4, 0, Upper(m[0]));
    WriteTwoPartials(pkt, at + 2, 4, 4, m[0], 4, 0, Upper(m[1]));
    WriteTwoPartials(pkt, at + 3, 4, 4, m[1], 4, 0, Upper(m[2]));
    Ipv6Row0View(h);
    NibbleWrites(s[at], s[at + 1], s[at + 2], s[at + 3], h.version, h.trafficClass, h.flowLabel);
    SpliceFour(s, at, pkt[at], pkt[at + 1], pkt[at + 2], pkt[at + 3]);
  }

  lemma LengthRow(h: Ipv6)
    ensures Row(Ipv6Row1(h)) == Half(h.payloadLen) + [h.nextHdr] + [h.hopLimit]
  {
  }

  method EmitIpv6(pkt: array<bv8>, offset0: nat, h: Ipv6T) returns (offset: nat)
    requires offset0 % 8 == 0 && offset0 / 8 + 40 <= pkt.Length
    requires InRange6(h)
    modifies pkt
    ensures offset == offset0 + 320
    ensures pkt[..] == Splice(old(pkt[..]), offset0 / 8, Ipv6Bytes(Ipv6View(h)))
  {
    hide Half, Row, Splice, To4, To20, Ipv6Row0, Ipv6Row1;
    ghost var s, at, v := pkt[..], offset0 / 8, Ipv6View(h);
    ghost var done := Row(Ipv6Row0(v));
    offset := offset0;
    EmitVersionClassLabel(pkt, offset / 8, h);
    offset := offset + 32;
    EmitHalf(pkt, offset / 8, h.payloadLen);
    done := Extend(s, at, done, Half(h.payloadLen), pkt[..]);
    offset := offset + 16;
    WriteField(pkt, offset / 8, [h.nextHdr]);
    done := Extend(s, at, done, [h.nextHdr], pkt[..]);
    offset := offset + 8;
    WriteField(pkt, offset / 8, [h.hopLimit]);
    done := Extend(s, at, done, [h.hopLimit], pkt[..]);
    offset := offset + 8;
    WriteField(pkt, offset / 8, h.srcAddr);
    done := Extend(s, at, done, h.srcAddr, pkt[..]);
    offset := offset + 128;
    WriteField(pkt, offset / 8, h.dstAddr);
    done := Extend(s, at, done, h.dstAddr, pkt[..]);
    offset := offset + 128;
    LengthRow(v);
    assert done == Row(Ipv6Row0(v)) + (Half(h.payloadLen) + [h.nextHdr] + [h.hopLimit]) + h.srcAddr + h.dstAddr;
  }

  method EmitPorts(pkt: array<bv8>, offset0: nat, h: PortsT) returns (offset: nat)
    requires offset0 % 8 == 0 && offset0 / 8 + 4 <= pkt.Length
    modifies pkt
    ensures offset == offset0 + 32
    ensures pkt[..] == Splice(old(pkt[..]), offset0 / 8, PortsBytes(PortsView(h)))
  {
    hide Half, Splice;
    ghost var s, at := pkt[..], offset0 / 8;
    offset := offset0;
    EmitHalf(pkt, offset / 8, h.srcPort);
    offset := offset + 16;
    EmitHalf(pkt, offset / 8, h.dstPort);
    SpliceJoin(s, at, Half(h.srcPort), Half(h.dstPort));
    offset := offset + 16;
  }
}
