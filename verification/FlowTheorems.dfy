// What a flow is, in terms of the bytes of a packet.

module FlowTheorems {
  import opened Wrappers
  import opened Bytes
  import opened WireFormat
  import opened HeaderLayout
  import opened Ipv4Packets
  import opened FlowTrackerP4
  import opened FlowTracker

  datatype Arrival = Arrival(bytes: seq<bv8>, port: bv32)

  predicate Tracked(f: Family, a: Arrival) {
    Parse(f, a.bytes).Accepted?
  }

  function Flow(f: Family, a: Arrival): (k: FlowKey)
    requires Tracked(f, a)
    ensures KeyWellFormed(f, k)
  {
    ParsedFits(f, a.bytes);
    KeyOf(f, Parse(f, a.bytes).hdr, a.port)
  }

  /** Two packets share a table entry exactly when ingress port, addresses, protocol and
      effective ports agree. */
  lemma SameKeySameFlow(f: Family, a: Arrival, b: Arrival)
    requires Tracked(f, a) && Tracked(f, b)
    ensures PacketKey(f, a.bytes, a.port) == PacketKey(f, b.bytes, b.port) <==> Flow(f, a) == Flow(f, b)
  {
    hide Parse, KeyOf, KeyBytes;
    KeyInjective(f, Flow(f, a), Flow(f, b));
  }

  // ---- flows in bytes ----

  /** No header is cut short. */
  predicate Complete(f: Family, a: Arrival): (r: bool)
    ensures r ==> |a.bytes| >= 18 + NetSize(f)
  {
    Tracked(f, a) && |a.bytes| >= 18 + NetSize(f)
  }

  function ProtocolAt(f: Family): nat {
    if f.Inet4? then 23 else 20
  }

  /** Where the ports are read: right behind 20 or 40 bytes, as IPv4 options are not skipped. */
  function PortsAt(f: Family): nat {
    14 + NetSize(f)
  }

  /** The protocol byte, and the two addresses and the two ports, which lie side by side:
      bytes 26 to 37 for IPv4, bytes 22 to 57 for IPv6. */
  predicate SameFlowBytes(f: Family, p: seq<bv8>, q: seq<bv8>)
    requires |p| >= 18 + NetSize(f) && |q| >= 18 + NetSize(f)
  {
    var from, to := PortsAt(f) - 2 * AddressSize(f), PortsAt(f) + 4;
    p[ProtocolAt(f)] == q[ProtocolAt(f)] && p[from..to] == q[from..to]
  }

  lemma Ipv6FlowFields(b: seq<bv8>)
    requires |b| == 40
    ensures var h := Ipv6Of(b); h.nextHdr == b[6] && h.srcAddr == b[8..24] && h.dstAddr == b[24..40]
  {
    hide Be32, Bits28, Bits20, LowTwenty, HighHalf, Bits8, LowByte;
    NextHeaderByte(b[4], b[5], b[6], b[7]);
  }

  lemma NextHeaderByte(a: bv8, b: bv8, c: bv8, d: bv8)
    ensures Bits8(Be32(a, b, c, d)) == c
  {
  }

  lemma CompleteFlow(f: Family, a: Arrival)
    requires Complete(f, a)
    ensures var p, n, at := a.bytes, AddressSize(f), PortsAt(f);
      Flow(f, a) == FlowKey(a.port, p[at - 2 * n..at - n], p[at - n..at], p[ProtocolAt(f)],
                            Be16(p[at], p[at + 1]), Be16(p[at + 2], p[at + 3]))
  {
    hide Be16, EthernetOf, Ipv4Of, Ipv6Of, Row, Parse, NetOf;
    CompleteHeaders(f, a);
    var p, at := a.bytes, PortsAt(f);
    var b := p[14..at];
    NetFlowFields(f, b);
    SliceOfSlice(p, 14, NetSize(f), NetSize(f) - 2 * AddressSize(f), NetSize(f) - AddressSize(f));
    SliceOfSlice(p, 14, NetSize(f), NetSize(f) - AddressSize(f), NetSize(f));
  }

  lemma CompleteHeaders(f: Family, a: Arrival)
    requires Complete(f, a)
    ensures var p, at, hdr := a.bytes, PortsAt(f), Parse(f, a.bytes).hdr;
      hdr.net == Some(NetOf(f, p[14..at])) &&
      EffectivePorts(hdr) == Ports(Be16(p[at], p[at + 1]), Be16(p[at + 2], p[at + 3]))
  {
    hide Be16, EthernetOf, NetOf, Protocol;
  }

  lemma NetFlowFields(f: Family, b: seq<bv8>)
    requires |b| == NetSize(f)
    ensures var n, m := AddressSize(f), NetSize(f);
      var protocol, src, dst := b[ProtocolAt(f) - 14], b[m - 2 * n..m - n], b[m - n..m];
      match NetOf(f, b)
      case V4(h) => h.protocol == protocol && Row(h.srcAddr) == src && Row(h.dstAddr) == dst
      case V6(h) => h.nextHdr == protocol && h.srcAddr == src && h.dstAddr == dst
  {
    hide Ipv4Of, Ipv6Of, Row, Be16;
    if f.Inet4? {
      Ipv4FieldBytes(b);
    } else {
      Ipv6FlowFields(b);
    }
  }

  lemma SamePorts(p: seq<bv8>, i: nat, q: seq<bv8>, j: nat)
    requires i + 4 <= |p| && j + 4 <= |q|
    ensures Be16(p[i], p[i + 1]) == Be16(q[j], q[j + 1]) && Be16(p[i + 2], p[i + 3]) == Be16(q[j + 2], q[j + 3])
       <==> p[i..i + 4] == q[j..j + 4]
  {
    hide Be16, Half;
    HalfRoundTripBytes(p[i], p[i + 1]);
    HalfRoundTripBytes(q[j], q[j + 1]);
    HalfRoundTripBytes(p[i + 2], p[i + 3]);
    HalfRoundTripBytes(q[j + 2], q[j + 3]);
    assert p[i..i + 4] == [p[i], p[i + 1]] + [p[i + 2], p[i + 3]];
    assert q[j..j + 4] == [q[j], q[j + 1]] + [q[j + 2], q[j + 3]];
  }

  /** Complete packets share a table entry exactly when they came in on the same port and
      agree on the flow bytes, whatever the other bytes are. */
  lemma SameKeySameBytes(f: Family, a: Arrival, b: Arrival)
    requires Complete(f, a) && Complete(f, b)
    ensures PacketKey(f, a.bytes, a.port) == PacketKey(f, b.bytes, b.port) <==>
            a.port == b.port && SameFlowBytes(f, a.bytes, b.bytes)
  {
    hide Flow, Tracked, PacketKey, Be16;
    SameKeySameFlow(f, a, b);
    CompleteFlow(f, a);
    CompleteFlow(f, b);
    var p, q, n, at := a.bytes, b.bytes, AddressSize(f), PortsAt(f);
    SamePorts(p, at, q, at);
    SameParts(p, q, at - 2 * n, at - n, at);
    SameParts(p, q, at - 2 * n, at, at + 4);
  }

  lemma SameParts(p: seq<bv8>, q: seq<bv8>, i: nat, j: nat, k: nat)
    requires i <= j <= k <= |p| && k <= |q|
    ensures p[i..k] == q[i..k] <==> p[i..j] == q[i..j] && p[j..k] == q[j..k]
  {
    assert p[i..k] == p[i..j] + p[j..k] && q[i..k] == q[i..j] + q[j..k];
    assert p[i..j] == p[i..k][..j - i] && q[i..j] == q[i..k][..j - i];
    assert p[j..k] == p[i..k][j - i..] && q[j..k] == q[i..k][j - i..];
  }

  // ---- where the ports are ----

  /** Where the ports of an IPv4 packet stand: behind all ihl * 4 bytes of its header. */
  function TruePortsAt(p: seq<bv8>): nat
    requires |p| >= 34
  {
    14 + 4 * (IpHeader(p).ihl as int)
  }

  /** If the packet reaches that far, its flow key has the ports that stand there. */
  predicate PortsRead(a: Arrival)
    requires Complete(Inet4, a)
  {
    var p, at := a.bytes, TruePortsAt(a.bytes);
    at + 4 <= |p| ==>
      var k := Flow(Inet4, a);
      k.srcPort == Be16(p[at], p[at + 1]) && k.dstPort == Be16(p[at + 2], p[at + 3])
  }

  /** For one packet: the ports are right exactly if the four bytes behind the first 20 of the
      header are those behind all of it. */
  lemma PortsReadWhen(a: Arrival)
    requires Complete(Inet4, a)
    ensures var p, at := a.bytes, TruePortsAt(a.bytes);
      PortsRead(a) <==> (at + 4 <= |p| ==> p[34..38] == p[at..at + 4])
  {
    hide Flow, Be16, Tracked, TruePortsAt;
    var p, at := a.bytes, TruePortsAt(a.bytes);
    CompleteFlow(Inet4, a);
    if at + 4 <= |p| {
      SamePorts(p, 34, p, at);
    }
  }

  lemma NoOptions(ihl: bv4)
    ensures ihl == 5 <==> ihl as int == 5
  {
  }

  /** A TCP packet with zero options, and source port 0x0100 and destination port 0 behind them. */
  function WithOptions(ihl: bv4): seq<bv8>
    requires ihl as int >= 5
  {
    EthernetBytes(Ethernet(0, 0, 0x0800)) +
    (Ipv4Bytes(Ipv4(4, ihl, 0, 0, 0, 0, 0, 64, 6, 0, 0, 0)) + Zeros(4 * (ihl as int - 5)) + [1, 0, 0, 0])
  }

  lemma WithOptionsParsed(ihl: bv4)
    requires ihl as int >= 5
    ensures var p, n := WithOptions(ihl), ihl as int;
      IsIpv4Packet(p) && IpHeader(p).ihl == ihl && IpHeader(p).protocol == 6 &&
      |p| == 18 + 4 * n && p[34..] == Zeros(4 * (n - 5)) + [1, 0, 0, 0]
  {
    hide EthernetOf, EthernetBytes, Ipv4Of, Ipv4Bytes, IsIpv4Packet;
    var h := Ipv4(4, ihl, 0, 0, 0, 0, 0, 64, 6, 0, 0, 0);
    var rest := Zeros(4 * (ihl as int - 5)) + [1, 0, 0, 0];
    var e := Ethernet(0, 0, 0x0800);
    var p := WithOptions(ihl);
    assert p == EthernetBytes(e) + Ipv4Bytes(h) + rest;
    assert p == EthernetBytes(e) + (Ipv4Bytes(h) + rest);
    EthernetThenRest(e, Ipv4Bytes(h) + rest);
    Front(EthernetBytes(e), Ipv4Bytes(h), rest);
    Ipv4RoundTrip(h);
  }

  lemma TcpIsComplete(p: seq<bv8>, port: bv32)
    requires IsIpv4Packet(p) && IpHeader(p).protocol == 6 && |p| >= 38
    ensures Complete(Inet4, Arrival(p, port))
  {
    hide EthernetOf, Ipv4Of, PortsOf;
  }

  lemma DifferentPorts(p: seq<bv8>, n: nat)
    requires n > 5 && |p| == 18 + 4 * n && p[34..] == Zeros(4 * (n - 5)) + [1, 0, 0, 0]
    ensures p[34..38] != p[14 + 4 * n..18 + 4 * n]
  {
    assert p[34] == p[34..][0] == 0;
    assert p[14 + 4 * n] == p[34..][4 * (n - 5)] == 1;
    assert p[34..38][0] != p[14 + 4 * n..18 + 4 * n][0];
  }

  lemma WrongPorts(ihl: bv4)
    requires ihl as int > 5
    ensures var a := Arrival(WithOptions(ihl), 0);
      Complete(Inet4, a) && IpHeader(a.bytes).ihl == ihl && !PortsRead(a)
  {
    hide WithOptions, PortsRead, IsIpv4Packet, IpHeader, Complete, Zeros;
    var p := WithOptions(ihl);
    WithOptionsParsed(ihl);
    TcpIsComplete(p, 0);
    PortsReadWhen(Arrival(p, 0));
    DifferentPorts(p, ihl as int);
  }

  /** The trackers read the ports 20 bytes into the header whatever its length. For headers of
      one length they are right for all packets if and only if there are no options. */
  lemma PortsReadExactly(ihl: bv4)
    requires ihl as int >= 5
    ensures (forall a :: Complete(Inet4, a) && IpHeader(a.bytes).ihl == ihl ==> PortsRead(a)) <==> ihl == 5
  {
    hide PortsRead, Complete, IpHeader, WithOptions;
    NoOptions(ihl);
    if ihl == 5 {
      forall a | Complete(Inet4, a) && IpHeader(a.bytes).ihl == ihl
        ensures PortsRead(a)
      {
        PortsReadWhen(a);
      }
    } else {
      WrongPorts(ihl);
    }
  }
}
