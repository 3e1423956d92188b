// The header structs of the generated C, their extraction from a packet and their
// emission into one, proved against the bit layout of the P4 headers.

module HeaderStructs {
  import opened Bytes
  import opened WireFormat

  datatype EthernetT = EthernetT(dstAddr: bv64, srcAddr: bv64, etherType: bv16, valid: bool)

  /** struct ipv4_t: the addresses are kept in network byte order, the rest is not */
  datatype Ipv4T = Ipv4T(
    version: bv8, ihl: bv8, diffserv: bv8, totalLen: bv16, identification: bv16, flags: bv8, fragOffset: bv16,
    ttl: bv8, protocol: bv8, hdrChecksum: bv16, srcAddr: bv32, dstAddr: bv32, valid: bool)

  const NoEthernet := EthernetT(0, 0, 0, false)
  const NoIpv4 := Ipv4T(0, 0, 0, 0, 0, 0, 0, 0, 0, 0, 0, 0, false)

  // ---- what the structs stand for ----

  function EthernetView(e: EthernetT): Ethernet {
    Ethernet(MacOf(Mem48(e.dstAddr)), MacOf(Mem48(e.srcAddr)), e.etherType)
  }

  lemma TypeOfView(e: EthernetT)
    ensures EthernetView(e).etherType == e.etherType
  {
  }

  /** The fields that are narrower than their C type stay within their width. */
  predicate InRange(h: Ipv4T) {
    h.version < 16 && h.ihl < 16 && h.flags < 8 && h.fragOffset < 0x2000
  }

  function To4(x: bv8): bv4 {
    (x & 0xF) as bv4
  }

  function To3(x: bv8): bv3 {
    (x & 7) as bv3
  }

  function To13(x: bv16): bv13 {
    (x & 0x1FFF) as bv13
  }

  function Ipv4View(h: Ipv4T): Ipv4 {
    Ipv4(To4(h.version), To4(h.ihl), h.diffserv, h.totalLen, h.identification,
         To3(h.flags), To13(h.fragOffset), h.ttl, h.protocol, h.hdrChecksum,
         Swab32(h.srcAddr), Swab32(h.dstAddr))
  }

  // ---- extraction ----

  method ExtractEthernet(pkt: array<bv8>, offset0: nat) returns (e: EthernetT, offset: nat)
    requires offset0 % 8 == 0 && offset0 / 8 + 14 <= pkt.Length
    ensures offset == offset0 + 112
    ensures e.valid
    ensures EthernetView(e) == EthernetOf(pkt[offset0 / 8..offset0 / 8 + 14])
  {
    hide EthernetView, EthernetOf, Le48, LoadHalf, HalfAt;
    offset := offset0;
    var dstAddr := Le48(pkt[offset / 8..offset / 8 + 6]);
    offset := offset + 48;
    var srcAddr := Le48(pkt[offset / 8..offset / 8 + 6]);
    offset := offset + 48;
    var etherType := LoadHalf(pkt, offset / 8);
    offset := offset + 16;
    e := EthernetT(dstAddr, srcAddr, etherType, true);
    ghost var b := pkt[offset0 / 8..offset0 / 8 + 14];
    var at := offset0 / 8;
    SliceOfSlice(pkt[..], at, 14, 0, 6);
    SliceOfSlice(pkt[..], at, 14, 6, 12);
    LoadHalfOfSlice(pkt, at, 14, 12);
    LoadedEthernet(b);
  }

  lemma LoadedEthernet(b: seq<bv8>)
    requires |b| == 14
    ensures EthernetView(EthernetT(Le48(b[..6]), Le48(b[6..12]), HalfAt(b, 12), true)) == EthernetOf(b)
  {
    hide Le48, Swab16, Le16, Mem48, MacOf, Be16;
    MemOfLe48(b[..6]);
    MemOfLe48(b[6..12]);
    SwabHalf(b[12], b[13]);
  }

  /** The struct the field-by-field loads build from twenty bytes. */
  function LoadedIpv4(b: seq<bv8>): Ipv4T
    requires |b| == 20
  {
    Ipv4T(HighNibble(b[0]), LowNibble(b[0]), b[1], HalfAt(b, 2), HalfAt(b, 4),
          TopThree(b[6]), LowThirteen(HalfAt(b, 6)), b[8], b[9], HalfAt(b, 10),
          Le32(b[12], b[13], b[14], b[15]), Le32(b[16], b[17], b[18], b[19]), true)
  }

  /** version up to fragOffset; two fields start inside a byte, and their loads round down */
  method ExtractIpv4Head(pkt: array<bv8>, offset0: nat)
    returns (version: bv8, ihl: bv8, diffserv: bv8, totalLen: bv16, identification: bv16,
             flags: bv8, fragOffset: bv16, offset: nat)
    requires offset0 % 8 == 0 && offset0 / 8 + 20 <= pkt.Length
    ensures offset == offset0 + 64
    ensures var b := pkt[offset0 / 8..offset0 / 8 + 20];
      version == HighNibble(b[0]) && ihl == LowNibble(b[0]) && diffserv == b[1] && totalLen == HalfAt(b, 2) &&
      identification == HalfAt(b, 4) && flags == TopThree(b[6]) && fragOffset == LowThirteen(HalfAt(b, 6))
  {
    hide LoadHalf, HalfAt, HighNibble, LowNibble, TopThree, LowThirteen;
    offset := offset0;
    version := HighNibble(LoadByte(pkt, offset / 8));
    offset := offset + 4;
    ihl := LowNibble(LoadByte(pkt, offset / 8));
    offset := offset + 4;
    diffserv := LoadByte(pkt, offset / 8);
    offset := offset + 8;
    totalLen := LoadHalf(pkt, offset / 8);
    offset := offset + 16;
    identification := LoadHalf(pkt, offset / 8);
    offset := offset + 16;
    flags := TopThree(LoadByte(pkt, offset / 8));
    offset := offset + 3;
    fragOffset := LowThirteen(LoadHalf(pkt, offset / 8));
    offset := offset + 13;
    LoadHalfOfSlice(pkt, offset0 / 8, 20, 2);
    LoadHalfOfSlice(pkt, offset0 / 8, 20, 4);
    LoadHalfOfSlice(pkt, offset0 / 8, 20, 6);
  }

  method ExtractIpv4(pkt: array<bv8>, offset0: nat) returns (h: Ipv4T, offset: nat)
    requires offset0 % 8 == 0 && offset0 / 8 + 20 <= pkt.Length
    ensures offset == offset0 + 160
    ensures h == LoadedIpv4(pkt[offset0 / 8..offset0 / 8 + 20])
    ensures h.valid && InRange(h)
    ensures Ipv4View(h) == Ipv4Of(pkt[offset0 / 8..offset0 / 8 + 20])
  {
    hide Ipv4View, Ipv4Of, Le32, LoadHalf, HalfAt, InRange, HighNibble, LowNibble, TopThree, LowThirteen;
    var at := offset0 / 8;
    ghost var b := pkt[at..at + 20];
    var version, ihl, diffserv, totalLen, identification, flags, fragOffset;
    version, ihl, diffserv, totalLen, identification, flags, fragOffset, offset := ExtractIpv4Head(pkt, offset0);
    var ttl := LoadByte(pkt, offset / 8);
    offset := offset + 8;
    var protocol := LoadByte(pkt, offset / 8);
    offset := offset + 8;
    var hdrChecksum := LoadHalf(pkt, offset / 8);
    offset := offset + 16;
    var srcAddr, dstAddr;
    srcAddr, offset := ExtractAddress(pkt, offset);
    dstAddr, offset := ExtractAddress(pkt, offset);
    h := Ipv4T(version, ihl, diffserv, totalLen, identification, flags, fragOffset,
               ttl, protocol, hdrChecksum, srcAddr, dstAddr, true);
    LoadHalfOfSlice(pkt, at, 20, 10);
    assert srcAddr == Le32(b[12], b[13], b[14], b[15]) && dstAddr == Le32(b[16], b[17], b[18], b[19]);
    LoadedIpv4View(b);
  }

  /** memcpy of a four-byte address field */
  method ExtractAddress(pkt: array<bv8>, offset0: nat) returns (x: bv32, offset: nat)
    requires offset0 % 8 == 0 && offset0 / 8 + 4 <= pkt.Length
    ensures offset == offset0 + 32
    ensures x == Le32(pkt[offset0 / 8], pkt[offset0 / 8 + 1], pkt[offset0 / 8 + 2], pkt[offset0 / 8 + 3])
  {
    hide Le32;
    var at := offset0 / 8;
    x, offset := Le32(pkt[at], pkt[at + 1], pkt[at + 2], pkt[at + 3]), offset0 + 32;
  }

  lemma NibbleFields(a: bv8, b: bv8, c: bv8, d: bv8)
    ensures var r := Be32(a, b, c, d);
      To4(HighNibble(a)) == Bits28(r) && To4(LowNibble(a)) == Bits24(r) && b == Bits16(r) && Be16(c, d) == LowHalf(r)
  {
  }

  lemma FragmentFields(a: bv8, b: bv8, c: bv8, d: bv8)
    ensures var r := Be32(a, b, c, d);
      Be16(a, b) == HighHalf(r) && To3(TopThree(c)) == Bits13(r) && To13(LowThirteen(Be16(c, d))) == Bits0(r)
  {
  }

  lemma NarrowFields(a: bv8, c: bv8, w: bv16)
    ensures HighNibble(a) < 16 && LowNibble(a) < 16 && TopThree(c) < 8 && LowThirteen(w) < 0x2000
  {
  }

  lemma LoadedIpv4View(b: seq<bv8>)
    requires |b| == 20
    ensures InRange(LoadedIpv4(b)) && Ipv4View(LoadedIpv4(b)) == Ipv4Of(b)
  {
    hide Le16, Le32, Swab16, Swab32, Be16, Be32, HighNibble, LowNibble, TopThree, LowThirteen, To4, To3, To13,
      Bits28, Bits24, Bits16, TopByte, HighHalf, LowHalf, Bits13, Bits0;
    NarrowFields(b[0], b[6], HalfAt(b, 6));
    SwabHalf(b[2], b[3]);
    SwabHalf(b[4], b[5]);
    SwabHalf(b[6], b[7]);
    SwabHalf(b[10], b[11]);
    SwabWord(b[12], b[13], b[14], b[15]);
    SwabWord(b[16], b[17], b[18], b[19]);
    NibbleFields(b[0], b[1], b[2], b[3]);
    FragmentFields(b[4], b[5], b[6], b[7]);
    TtlFields(b[8], b[9], b[10], b[11]);
  }

  // ---- emission ----

  method EmitHalf(pkt: array<bv8>, at: nat, x: bv16)
    requires at + 2 <= pkt.Length
    modifies pkt
    ensures pkt[..] == Splice(old(pkt[..]), at, Half(x))
  {
    WriteField(pkt, at, Mem16(Swab16(x)));
    MemOfSwab16(x);
  }

  /** An address field is kept in network order and written as it is. */
  method EmitAddress(pkt: array<bv8>, at: nat, x: bv32)
    requires at + 4 <= pkt.Length
    modifies pkt
    ensures pkt[..] == Splice(old(pkt[..]), at, Row(Swab32(x)))
  {
    hide Swab32, Row, Mem32;
    WriteField(pkt, at, Mem32(x));
    MemOfSwab32(x);
  }

  function Nibbles(hi: bv8, lo: bv8): bv8 {
    (hi << 4) | lo
  }

  function Fragment(flags: bv8, fragOffset: bv16): bv16 {
    ((flags as bv16) << 13) | fragOffset
  }

  lemma TwoNibbles(b: bv8, hi: bv8, lo: bv8)
    requires hi < 16 && lo < 16
    ensures Partial(Partial(b, 4, 4, hi), 4, 0, lo) == Nibbles(hi, lo)
  {
  }

  method EmitNibbles(pkt: array<bv8>, at: nat, hi: bv8, lo: bv8)
    requires at < pkt.Length
    requires hi < 16 && lo < 16
    modifies pkt
    ensures pkt[..] == Splice(old(pkt[..]), at, [Nibbles(hi, lo)])
  {
    hide Partial;
    WriteTwoPartials(pkt, at, 4, 4, hi, 4, 0, lo);
    TwoNibbles(old(pkt[at]), hi, lo);
    SpliceOne(old(pkt[..]), at, Nibbles(hi, lo));
  }

  method WriteTwoPartials(pkt: array<bv8>, at: nat, w0: nat, s0: nat, v0: bv8, w1: nat, s1: nat, v1: bv8)
    requires at < pkt.Length && w0 < 8 && s0 < 8 && w1 < 8 && s1 < 8
    modifies pkt
    ensures pkt[..] == old(pkt[..])[at := Partial(Partial(old(pkt[at]), w0, s0, v0), w1, s1, v1)]
  {
    hide Partial;
    WritePartial(pkt, at, w0, s0, v0);
    WritePartial(pkt, at, w1, s1, v1);
  }

  lemma FourFragmentWrites(b: bv8, c: bv8, flags: bv8, fragOffset: bv16)
    requires flags < 8 && fragOffset < 0x2000
    ensures var m := Mem16(Swab16(fragOffset << 3));
      [Partial(Partial(b, 3, 5, flags), 5, 0, m[0] >> 3), Partial(Partial(c, 3, 5, m[0]), 5, 0, m[1] >> 3)] ==
      Half(Fragment(flags, fragOffset))
  {
  }

  /** Flags and fragment offset: four partial writes into two bytes. */
  method EmitFragment(pkt: array<bv8>, at: nat, flags: bv8, fragOffset: bv16)
    requires at + 2 <= pkt.Length
    requires flags < 8 && fragOffset < 0x2000
    modifies pkt
    ensures pkt[..] == Splice(old(pkt[..]), at, Half(Fragment(flags, fragOffset)))
  {
    hide Partial, Mem16, Swab16, Half, Splice;
    ghost var s := pkt[..];
    var m := Mem16(Swab16(fragOffset << 3));
    WriteTwoPartials(pkt, at, 3, 5, flags, 5, 0, m[0] >> 3);
    WriteTwoPartials(pkt, at + 1, 3, 5, m[0], 5, 0, m[1] >> 3);
    FourFragmentWrites(s[at], s[at + 1], flags, fragOffset);
    SpliceTwo(s, at, Partial(Partial(s[at], 3, 5, flags), 5, 0, m[0] >> 3),
              Partial(Partial(s[at + 1], 3, 5, m[0]), 5, 0, m[1] >> 3));
  }

  /** Emits a whole Ethernet header at the front of the packet. */
  method EmitEthernet(pkt: array<bv8>, e: EthernetT)
    requires 14 <= pkt.Length
    modifies pkt
    ensures pkt[..] == Splice(old(pkt[..]), 0, EthernetBytes(EthernetView(e)))
  {
    hide Mem48, Half, Splice, EthernetBytes;
    ghost var s := pkt[..];
    WriteField(pkt, 0, Mem48(e.dstAddr));
    WriteField(pkt, 6, Mem48(e.srcAddr));
    EmitHalf(pkt, 12, e.etherType);
    SpliceJoin(s, 0, Mem48(e.dstAddr), Mem48(e.srcAddr));
    SpliceJoin(s, 0, Mem48(e.dstAddr) + Mem48(e.srcAddr), Half(e.etherType));
    EthernetPieces(e);
  }

  lemma EthernetPieces(e: EthernetT)
    ensures EthernetBytes(EthernetView(e)) == Mem48(e.dstAddr) + Mem48(e.srcAddr) + Half(e.etherType)
  {
    hide Mem48, Mac, MacOf, Half;
    MacRoundTripBytes(Mem48(e.dstAddr));
    MacRoundTripBytes(Mem48(e.srcAddr));
  }

  /** The pieces in which an IPv4 header is written. */
  function Ipv4Pieces(h: Ipv4T): (r: seq<bv8>)
    ensures |r| == 20
  {
    Ipv4HeadPieces(h) + [h.ttl] + [h.protocol] + Half(h.hdrChecksum) +
    Row(Swab32(h.srcAddr)) + Row(Swab32(h.dstAddr))
  }

  lemma FourBytes(a: bv8, b: bv8, x: bv16)
    ensures [a] + [b] + Half(x) == [a, b, Hi(x), Lo(x)]
  {
    hide Hi, Lo;
  }

  lemma Row0Bits(v: Ipv4, version: bv8, ihl: bv8)
    requires version < 16 && ihl < 16 && v.version == To4(version) && v.ihl == To4(ihl)
    ensures Row(Ipv4Row0(v)) == [Nibbles(version, ihl), v.diffserv, Hi(v.totalLen), Lo(v.totalLen)]
  {
  }

  lemma Row0Pieces(v: Ipv4, version: bv8, ihl: bv8)
    requires version < 16 && ihl < 16 && v.version == To4(version) && v.ihl == To4(ihl)
    ensures Row(Ipv4Row0(v)) == [Nibbles(version, ihl)] + [v.diffserv] + Half(v.totalLen)
  {
    hide Row, Ipv4Row0, To4, Nibbles, Half, Hi, Lo;
    Row0Bits(v, version, ihl);
    FourBytes(Nibbles(version, ihl), v.diffserv, v.totalLen);
  }

  lemma Row1Pieces(v: Ipv4, flags: bv8, fragOffset: bv16)
    requires flags < 8 && fragOffset < 0x2000 && v.flags == To3(flags) && v.fragOffset == To13(fragOffset)
    ensures Row(Ipv4Row1(v)) == Half(v.identification) + Half(Fragment(flags, fragOffset))
  {
  }

  lemma Row2Pieces(v: Ipv4)
    ensures Row(Ipv4Row2(v)) == [v.ttl] + [v.protocol] + Half(v.hdrChecksum)
  {
    hide Row, PackRow2, Half, Hi, Lo;
    Row2Bits(v.ttl, v.protocol, v.hdrChecksum);
    FourBytes(v.ttl, v.protocol, v.hdrChecksum);
  }

  lemma RowsAsPieces(h: Ipv4T)
    requires InRange(h)
    ensures Row(Ipv4Row0(Ipv4View(h))) == [Nibbles(h.version, h.ihl)] + [h.diffserv] + Half(h.totalLen)
    ensures Row(Ipv4Row1(Ipv4View(h))) == Half(h.identification) + Half(Fragment(h.flags, h.fragOffset))
    ensures Row(Ipv4Row2(Ipv4View(h))) == [h.ttl] + [h.protocol] + Half(h.hdrChecksum)
  {
    hide Row, Half, Swab32, To4, To3, To13, Nibbles, Fragment, Ipv4Row0, Ipv4Row1, Ipv4Row2;
    Row0Pieces(Ipv4View(h), h.version, h.ihl);
    Row1Pieces(Ipv4View(h), h.flags, h.fragOffset);
    Row2Pieces(Ipv4View(h));
  }

  /** What the pieces spell is the bit layout of the P4 header, given the range invariant. */
  lemma PiecesAreWire(h: Ipv4T)
    requires InRange(h)
    ensures Ipv4Pieces(h) == Ipv4Bytes(Ipv4View(h))
  {
    hide Row, Half, Swab32, Nibbles, Fragment, Ipv4Row0, Ipv4Row1, Ipv4Row2, InRange, To4, To3, To13;
    RowsAsPieces(h);
    GroupRows([Nibbles(h.version, h.ihl)], [h.diffserv], Half(h.totalLen), Half(h.identification),
              Half(Fragment(h.flags, h.fragOffset)), [h.ttl], [h.protocol], Half(h.hdrChecksum));
  }

  lemma GroupRows(a: seq<bv8>, b: seq<bv8>, c: seq<bv8>, d: seq<bv8>,
                  e: seq<bv8>, f: seq<bv8>, g: seq<bv8>, i: seq<bv8>)
    ensures a + b + c + d + e + f + g + i == (a + b + c) + (d + e) + (f + g + i)
  {
  }

  function Ipv4HeadPieces(h: Ipv4T): (r: seq<bv8>)
    ensures |r| == 8
  {
    [Nibbles(h.version, h.ihl)] + [h.diffserv] + Half(h.totalLen) + Half(h.identification) +
    Half(Fragment(h.flags, h.fragOffset))
  }

  /** One more piece written right behind the ones already there. */
  lemma Extend(s: seq<bv8>, at: nat, done: seq<bv8>, b: seq<bv8>, now: seq<bv8>) returns (more: seq<bv8>)
    requires at + |done| + |b| <= |s|
    requires now == Splice(Splice(s, at, done), at + |done|, b)
    ensures more == done + b && now == Splice(s, at, more)
  {
    more := done + b;
    SpliceJoin(s, at, done, b);
  }

  method EmitIpv4Head(pkt: array<bv8>, offset0: nat, h: Ipv4T) returns (offset: nat)
    requires offset0 % 8 == 0 && offset0 / 8 + 20 <= pkt.Length
    requires InRange(h)
    modifies pkt
    ensures offset == offset0 + 64
    ensures pkt[..] == Splice(old(pkt[..]), offset0 / 8, Ipv4HeadPieces(h))
  {
    hide Half, Splice, Nibbles, Fragment;
    ghost var s, at := pkt[..], offset0 / 8;
    ghost var done: seq<bv8> := [Nibbles(h.version, h.ihl)];
    offset := offset0;
    EmitNibbles(pkt, offset / 8, h.version, h.ihl);
    offset := offset + 8;
    WriteField(pkt, offset / 8, [h.diffserv]);
    done := Extend(s, at, done, [h.diffserv], pkt[..]);
    offset := offset + 8;
    EmitHalf(pkt, offset / 8, h.totalLen);
    done := Extend(s, at, done, Half(h.totalLen), pkt[..]);
    offset := offset + 16;
    EmitHalf(pkt, offset / 8, h.identification);
    done := Extend(s, at, done, Half(h.identification), pkt[..]);
    offset := offset + 16;
    EmitFragment(pkt, offset / 8, h.flags, h.fragOffset);
    done := Extend(s, at, done, Half(Fragment(h.flags, h.fragOffset)), pkt[..]);
    offset := offset + 16;
  }

  method EmitIpv4(pkt: array<bv8>, offset0: nat, h: Ipv4T) returns (offset: nat)
    requires offset0 % 8 == 0 && offset0 / 8 + 20 <= pkt.Length
    requires InRange(h)
    modifies pkt
    ensures offset == offset0 + 160
    ensures pkt[..] == Splice(old(pkt[..]), offset0 / 8, Ipv4Bytes(Ipv4View(h)))
  {
    hide Half, Row, Swab32, Splice, Ipv4Bytes, Ipv4View, InRange;
    ghost var s, at := pkt[..], offset0 / 8;
    ghost var done := Ipv4HeadPieces(h);
    offset := EmitIpv4Head(pkt, offset0, h);
    WriteField(pkt, offset / 8, [h.ttl]);
    done := Extend(s, at, done, [h.ttl], pkt[..]);
    offset := offset + 8;
    WriteField(pkt, offset / 8, [h.protocol]);
    done := Extend(s, at, done, [h.protocol], pkt[..]);
    offset := offset + 8;
    EmitHalf(pkt, offset / 8, h.hdrChecksum);
    done := Extend(s, at, done, Half(h.hdrChecksum), pkt[..]);
    offset := offset + 16;
    EmitAddress(pkt, offset / 8, h.srcAddr);
    done := Extend(s, at, done, Row(Swab32(h.srcAddr)), pkt[..]);
    offset := offset + 32;
    EmitAddress(pkt, offset / 8, h.dstAddr);
    done := Extend(s, at, done, Row(Swab32(h.dstAddr)), pkt[..]);
    offset := offset + 32;
    PiecesAreWire(h);
  }
}
