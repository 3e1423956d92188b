// IPv4 packets as byte strings, and the one patch that both forwarding programs make.

module Ipv4Packets {
  import opened Checksum
  import opened Bytes
  import opened WireFormat
  import opened HeaderLayout
  import opened InternetHeader

  /** An IPv4 packet with at least one whole IPv4 header. */
  predicate IsIpv4Packet(p: seq<bv8>): (r: bool)
    ensures r ==> |p| >= 34
  {
    |p| >= 34 && EthernetOf(p[..14]).etherType == 0x0800
  }

  function IpHeader(p: seq<bv8>): Ipv4
    requires |p| >= 34
  {
    Ipv4Of(p[14..34])
  }

  /** The packet with the ttl lowered, the checksum patched and a destination MAC written:
      bytes 0 to 5, 22, 24 and 25 change, and no others. */
  function Patched(p: seq<bv8>, mac: bv48): seq<bv8>
    requires |p| >= 34
  {
    var h := TtlDecremented(IpHeader(p));
    Splice(Splice(Splice(p, 0, Mac(mac)), 22, [h.ttl]), 24, Half(h.hdrChecksum))
  }

  lemma NewDestination(e: Ethernet, dmac: bv48)
    ensures EthernetBytes(e.(dstAddr := dmac)) == Splice(EthernetBytes(e), 0, Mac(dmac))
  {
    hide Mac, Half;
  }

  lemma SplicedParts(p: seq<bv8>, mac: seq<bv8>, t: seq<bv8>, c: seq<bv8>)
    requires |p| >= 34 && |mac| == 6 && |t| == 1 && |c| == 2
    ensures Splice(Splice(Splice(p, 0, mac), 22, t), 24, c) ==
            Splice(p[..14], 0, mac) + Splice(Splice(p[14..34], 8, t), 10, c) + p[34..]
  {
    hide Splice;
    var eth, ip, rest := p[..14], p[14..34], p[34..];
    assert p == [] + eth + (ip + rest) == eth + ip + rest;
    SpliceInside([], eth, ip + rest, 0, mac);
    var eth' := Splice(eth, 0, mac);
    assert [] + eth' + (ip + rest) == eth' + ip + rest;
    SpliceInside(eth', ip, rest, 8, t);
    SpliceInside(eth', Splice(ip, 8, t), rest, 10, c);
  }

  lemma PatchedBytes(p: seq<bv8>, mac: bv48)
    requires |p| >= 34
    ensures var e, h := EthernetOf(p[..14]).(dstAddr := mac), TtlDecremented(IpHeader(p));
      Patched(p, mac) == EthernetBytes(e) + Ipv4Bytes(h) + p[34..]
  {
    hide Mac, Half, EthernetOf, EthernetBytes, Ipv4Of, Ipv4Bytes;
    var h, b := IpHeader(p), p[14..34];
    var g := TtlDecremented(h);
    assert g == h.(ttl := g.ttl, hdrChecksum := g.hdrChecksum);
    ChangedTtlBytes(h, g.ttl, g.hdrChecksum);
    Ipv4RoundTripBytes(b);
    EthernetRoundTripBytes(p[..14]);
    NewDestination(EthernetOf(p[..14]), mac);
    SplicedParts(p, Mac(mac), [g.ttl], Half(g.hdrChecksum));
  }

  lemma EthernetThenRest(e: Ethernet, b: seq<bv8>)
    requires e.etherType == 0x0800 && |b| >= 20
    ensures var q := EthernetBytes(e) + b; IsIpv4Packet(q) && q[14..] == b && EthernetOf(q[..14]) == e
  {
    hide EthernetOf, EthernetBytes;
    EthernetRoundTrip(e);
    assert (EthernetBytes(e) + b)[..14] == EthernetBytes(e);
  }

  lemma Front(eth: seq<bv8>, ip: seq<bv8>, rest: seq<bv8>)
    requires |eth| == 14 && |ip| == 20
    ensures var q := eth + ip + rest; q[..14] == eth && q[14..34] == ip && q[34..] == rest
  {
  }

  /** The patched packet is an IPv4 packet again, and carries the decremented header. */
  lemma PatchedHeader(p: seq<bv8>, mac: bv48)
    requires IsIpv4Packet(p)
    ensures IsIpv4Packet(Patched(p, mac))
    ensures IpHeader(Patched(p, mac)) == TtlDecremented(IpHeader(p))
  {
    hide EthernetOf, EthernetBytes, Ipv4Of, Ipv4Bytes, TtlDecremented, Patched;
    var e, h := EthernetOf(p[..14]).(dstAddr := mac), TtlDecremented(IpHeader(p));
    PatchedBytes(p, mac);
    Front(EthernetBytes(e), Ipv4Bytes(h), p[34..]);
    EthernetRoundTrip(e);
    Ipv4RoundTrip(h);
  }

  predicate Untouched(k: nat) {
    k >= 6 && k != 22 && k != 24 && k != 25
  }

  lemma PatchedKeeps(p: seq<bv8>, mac: bv48)
    requires |p| >= 34
    ensures |Patched(p, mac)| == |p|
    ensures forall k :: 0 <= k < |p| && Untouched(k) ==> Patched(p, mac)[k] == p[k]
  {
    hide Mac, Half, IpHeader, TtlDecremented, Splice;
    var h := TtlDecremented(IpHeader(p));
    var q := Splice(p, 0, Mac(mac));
    SpliceKeeps(p, 0, Mac(mac));
    SpliceKeeps(q, 22, [h.ttl]);
    SpliceKeeps(Splice(q, 22, [h.ttl]), 24, Half(h.hdrChecksum));
  }

  lemma SpliceKeeps(s: seq<bv8>, at: nat, b: seq<bv8>)
    requires at + |b| <= |s|
    ensures forall k :: 0 <= k < |s| && !(at <= k < at + |b|) ==> Splice(s, at, b)[k] == s[k]
  {
  }

  // ---- the patch on bytes ----

  /** The bytes of an IPv4 packet one ttl lower: byte 22, and the checksum in bytes 24 and 25
      updated for the word that byte 22 begins. */
  function Lowered(p: seq<bv8>): (q: seq<bv8>)
    requires |p| >= 34
    ensures |q| == |p|
  {
    var ttl := p[22] + 255;
    var checksum := IncrementalChecksum(Val16(Be16(p[24], p[25])), Val16(Be16(p[22], p[23])), Val16(Be16(ttl, p[23])));
    Splice(Splice(p, 22, [ttl]), 24, Half(Word16(checksum)))
  }

  lemma WordOfVal16(c: bv16, n: u16)
    requires Val16(c) == n
    ensures c == Word16(n)
  {
    hide Val16, Word16;
    Word16Value(n);
    Val16Injective(c, Word16(n));
  }

  lemma HeaderFieldBytes(p: seq<bv8>)
    requires |p| >= 34
    ensures var h := IpHeader(p);
      h.totalLen == Be16(p[16], p[17]) && h.ttl == p[22] && h.protocol == p[23] &&
      h.hdrChecksum == Be16(p[24], p[25]) &&
      Row(h.srcAddr) == p[26..30] && Row(h.dstAddr) == p[30..34]
  {
    hide Be16, Ipv4Of, Row;
    Ipv4FieldBytes(p[14..34]);
    SliceOfSlice(p, 14, 20, 12, 16);
    SliceOfSlice(p, 14, 20, 16, 20);
  }

  /** The header after the patch, in bytes. */
  lemma LoweredFields(p: seq<bv8>)
    requires |p| >= 34
    ensures var h := TtlDecremented(IpHeader(p));
      Lowered(p) == Splice(Splice(p, 22, [h.ttl]), 24, Half(h.hdrChecksum))
  {
    hide Be16, Val16, Word16, Half, IncrementalChecksum, Splice, IpHeader;
    var h := IpHeader(p);
    HeaderFieldBytes(p);
    DecrementIsIncremental(h);
    DecrementFrame(h);
    hide TtlDecremented;
    WordOfVal16(TtlDecremented(h).hdrChecksum,
                IncrementalChecksum(Val16(h.hdrChecksum), TtlWord(h), TtlWord(TtlDecremented(h))));
  }

  /** A splice further back leaves the front alone. */
  lemma SpliceBehind(s: seq<bv8>, n: nat, at: nat, b: seq<bv8>)
    requires n <= at && at + |b| <= |s|
    ensures Splice(s, at, b)[..n] == s[..n] && Splice(s, at, b)[n..] == Splice(s[n..], at - n, b)
  {
  }

  lemma SplicesBehind(p: seq<bv8>, m: seq<bv8>, t: seq<bv8>, c: seq<bv8>)
    requires |p| >= 34 && |m| == 6 && |t| == 1 && |c| == 2
    ensures Splice(Splice(Splice(p, 0, m), 22, t), 24, c) == m + Splice(Splice(p, 22, t), 24, c)[6..]
  {
    hide Splice;
    var q := Splice(p, 0, m);
    SpliceFront(p, m);
    SpliceBehind(q, 6, 22, t);
    SpliceBehind(Splice(q, 22, t), 6, 24, c);
    SpliceBehind(p, 6, 22, t);
    SpliceBehind(Splice(p, 22, t), 6, 24, c);
    var x := Splice(Splice(q, 22, t), 24, c);
    assert x == x[..6] + x[6..];
  }

  /** Patching is lowering and writing the destination MAC. */
  lemma PatchedIsLowered(p: seq<bv8>, mac: bv48)
    requires |p| >= 34
    ensures Patched(p, mac) == Mac(mac) + Lowered(p)[6..]
  {
    hide Mac, Half, IpHeader, TtlDecremented, Lowered;
    var h := TtlDecremented(IpHeader(p));
    LoweredFields(p);
    SplicesBehind(p, Mac(mac), [h.ttl], Half(h.hdrChecksum));
  }
}
